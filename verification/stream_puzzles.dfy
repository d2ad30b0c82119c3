/** `UdemyStreamsExample`: comma-joining a list of names two ways, the
    distinct letters of a list of words, and the ordered pairs of distinct
    words of equal length. */
module StreamPuzzles {
  import opened JavaLang
  import opened JavaUtil

  function SumLengths(names: seq<string>): nat {
    if |names| == 0 then 0 else SumLengths(names[..|names| - 1]) + |names[|names| - 1]|
  }

  /** `names.stream().reduce("", (a, b) -> a + b + ",")`: a sequential left
      fold from the empty string. */
  function ReduceWithComma(names: seq<string>): (r: string)
    ensures |r| == SumLengths(names) + |names|
    ensures |names| > 0 ==> r[|r| - 1] == ','
  {
    if |names| == 0 then ""
    else ReduceWithComma(names[..|names| - 1]) + names[|names| - 1] + ","
  }

  /** `String.substring(begin, end)`, which throws unless
      `0 <= begin <= end <= length`. */
  function Substring(s: string, begin: int, end: int): (r: Result<string>)
    ensures r.Ok? <==> 0 <= begin <= end <= |s|
    ensures r.Ok? ==> |r.value| == end - begin
    ensures r.Ok? ==> forall i | 0 <= i < |r.value| :: r.value[i] == s[begin + i]
  {
    if 0 <= begin <= end <= |s| then Ok(s[begin..end])
    else Throws(StringIndexOutOfBoundsException)
  }

  /** The first way: reduce, then strip the trailing comma with
      `substring(0, length() - 1)`. */
  function JoinByReduce(names: seq<string>): Result<string> {
    var combined := ReduceWithComma(names);
    Substring(combined, 0, |combined| - 1)
  }

  /** `Collectors.joining(",")`: the names with a comma between neighbours. */
  function Joining(names: seq<string>): string {
    if |names| == 0 then ""
    else if |names| == 1 then names[0]
    else Joining(names[..|names| - 1]) + "," + names[|names| - 1]
  }

  /** The reduce result is the joined string plus one trailing comma. */
  lemma {:induction false} ReduceIsJoiningPlusComma(names: seq<string>)
    requires |names| > 0
    ensures ReduceWithComma(names) == Joining(names) + ","
  {
    if |names| == 1 {
      assert ReduceWithComma(names) == ReduceWithComma([]) + names[0] + ",";
    } else {
      ReduceIsJoiningPlusComma(names[..|names| - 1]);
    }
  }

  /** Both ways produce the same string on a non-empty list; on an empty list
      the reduce result is "" and `substring(0, -1)` throws. */
  lemma JoinByReduceMatchesJoining(names: seq<string>)
    ensures |names| > 0 ==> JoinByReduce(names) == Ok(Joining(names))
    ensures |names| == 0 ==> JoinByReduce(names) == Throws(StringIndexOutOfBoundsException)
  {
    if |names| > 0 {
      ReduceIsJoiningPlusComma(names);
      var j := Joining(names);
      assert (j + ",")[0..|j|] == j;
    }
  }

  /** `word.split("")`: the one-character strings of a non-empty word; an
      empty word splits into the single empty string. */
  function SplitEmpty(word: string): (r: seq<string>)
    ensures |word| > 0 ==> |r| == |word| && forall i | 0 <= i < |r| :: r[i] == [word[i]]
    ensures |word| == 0 ==> r == [""]
  {
    if |word| == 0 then [""]
    else seq(|word|, i requires 0 <= i < |word| => [word[i]])
  }

  /** `flatMap` of `split("")` over the words, in order. */
  function Letters(words: seq<string>): seq<string> {
    if |words| == 0 then []
    else Letters(words[..|words| - 1]) + SplitEmpty(words[|words| - 1])
  }

  /** Character `c` occurs in some word of the list. */
  predicate Occurs(words: seq<string>, c: char) {
    exists w | w in words :: c in w
  }

  lemma SplitEmptyLetters(word: string)
    ensures forall i | 0 <= i < |word| :: [word[i]] in SplitEmpty(word)
    ensures forall t | t in SplitEmpty(word) :: t == "" || (|t| == 1 && t[0] in word)
    ensures "" in SplitEmpty(word) <==> word == ""
  {
    forall i | 0 <= i < |word| ensures [word[i]] in SplitEmpty(word) {
      assert SplitEmpty(word)[i] == [word[i]];
    }
  }

  lemma {:induction false} LettersHasEveryChar(words: seq<string>)
    ensures forall w, i | w in words && 0 <= i < |w| :: [w[i]] in Letters(words)
  {
    if |words| > 0 {
      var p := words[..|words| - 1];
      var last := words[|words| - 1];
      LettersHasEveryChar(p);
      SplitEmptyLetters(last);
      assert words == p + [last];
      assert Letters(words) == Letters(p) + SplitEmpty(last);
    }
  }

  lemma {:induction false} LettersMember(words: seq<string>, t: string)
    requires t in Letters(words) && t != ""
    ensures |t| == 1 && Occurs(words, t[0])
  {
    var p := words[..|words| - 1];
    var last := words[|words| - 1];
    assert words == p + [last];
    assert Letters(words) == Letters(p) + SplitEmpty(last);
    if t in Letters(p) {
      LettersMember(p, t);
      var w :| w in p && t[0] in w;
      assert w in words;
    } else {
      SplitEmptyLetters(last);
      assert last in words;
    }
  }

  lemma LettersOnlyChars(words: seq<string>)
    ensures forall t | t in Letters(words) :: t == "" || (|t| == 1 && Occurs(words, t[0]))
  {
    forall t | t in Letters(words) && t != "" ensures |t| == 1 && Occurs(words, t[0]) {
      LettersMember(words, t);
    }
  }

  lemma {:induction false} LettersEmptyString(words: seq<string>)
    ensures "" in Letters(words) <==> "" in words
  {
    if |words| > 0 {
      var p := words[..|words| - 1];
      var last := words[|words| - 1];
      LettersEmptyString(p);
      SplitEmptyLetters(last);
      assert words == p + [last];
      assert Letters(words) == Letters(p) + SplitEmpty(last);
    }
  }

  /** How many strings `split("")` gives for `word`. */
  function Width(word: string): nat {
    if |word| == 0 then 1 else |word|
  }

  /** How many strings the `flatMap` gives for the words. */
  function LetterCount(words: seq<string>): nat {
    if |words| == 0 then 0
    else LetterCount(words[..|words| - 1]) + Width(words[|words| - 1])
  }

  lemma {:induction false} LettersLength(words: seq<string>)
    ensures |Letters(words)| == LetterCount(words)
  {
    if |words| > 0 {
      LettersLength(words[..|words| - 1]);
    }
  }

  lemma SliceOfAppendLeft<T>(a: seq<T>, b: seq<T>, o: nat, w: nat)
    requires o + w <= |a|
    ensures (a + b)[o..o + w] == a[o..o + w]
  {
  }

  lemma SliceOfAppendRight<T>(a: seq<T>, b: seq<T>)
    ensures (a + b)[|a|..|a| + |b|] == b
  {
  }

  /** Word `k` contributes its `split("")` result as one block, which starts
      after the strings of the words before it. */
  lemma {:induction false} LettersBlock(words: seq<string>, k: nat)
    requires k < |words|
    ensures LetterCount(words[..k]) + Width(words[k]) <= |Letters(words)|
    ensures Letters(words)[LetterCount(words[..k])..LetterCount(words[..k]) + Width(words[k])]
         == SplitEmpty(words[k])
  {
    var p := words[..|words| - 1];
    var last := words[|words| - 1];
    var a := Letters(p);
    var b := SplitEmpty(last);
    assert Letters(words) == a + b;
    LettersLength(p);
    if k == |words| - 1 {
      assert words[..k] == p && words[k] == last;
      SliceOfAppendRight(a, b);
    } else {
      LettersBlock(p, k);
      assert words[..k] == p[..k] && words[k] == p[k];
      SliceOfAppendLeft(a, b, LetterCount(p[..k]), Width(p[k]));
    }
  }

  /** The blocks of consecutive words are adjacent. */
  lemma LetterCountStep(words: seq<string>, k: nat)
    requires k < |words|
    ensures LetterCount(words[..k + 1]) == LetterCount(words[..k]) + Width(words[k])
  {
    assert words[..k + 1][..k] == words[..k];
  }

  /** The letter list is the words' `split("")` results laid end to end:
      word `k` occupies the positions from the letter count of the words
      before it, with its one-character strings in order, or one "" when
      it is empty. */
  lemma LettersLayout(words: seq<string>)
    ensures |Letters(words)| == LetterCount(words)
    ensures forall k | 0 <= k < |words| ::
              LetterCount(words[..k + 1]) == LetterCount(words[..k]) + Width(words[k])
    ensures forall k | 0 <= k < |words| ::
              LetterCount(words[..k]) + Width(words[k]) <= |Letters(words)|
              && Letters(words)[LetterCount(words[..k])..LetterCount(words[..k]) + Width(words[k])]
                 == SplitEmpty(words[k])
  {
    LettersLength(words);
    forall k | 0 <= k < |words|
      ensures LetterCount(words[..k + 1]) == LetterCount(words[..k]) + Width(words[k])
    {
      LetterCountStep(words, k);
    }
    forall k | 0 <= k < |words|
      ensures LetterCount(words[..k]) + Width(words[k]) <= |Letters(words)|
      ensures Letters(words)[LetterCount(words[..k])..LetterCount(words[..k]) + Width(words[k])]
           == SplitEmpty(words[k])
    {
      LettersBlock(words, k);
    }
  }

  /** As sets, the letter list holds every character of every word as a
      one-character string, and nothing else apart from "" exactly when
      some word is empty; `LettersLayout` states the list itself. */
  lemma LettersSpec(words: seq<string>)
    ensures forall w, i | w in words && 0 <= i < |w| :: [w[i]] in Letters(words)
    ensures forall t | t in Letters(words) :: t == "" || (|t| == 1 && Occurs(words, t[0]))
    ensures "" in Letters(words) <==> "" in words
  {
    LettersHasEveryChar(words);
    LettersOnlyChars(words);
    LettersEmptyString(words);
  }

  /** `distinct()` over the letters: the distinct letters of the words, in
      order of first appearance, case-sensitive. */
  function DistinctLetters(words: seq<string>): seq<string> {
    Distinct(Letters(words))
  }

  /** The distinct letters contain every character of every word exactly
      once, nothing that is not a character of some word (bar "" for an
      empty word), in order of first appearance. */
  lemma DistinctLettersSpec(words: seq<string>)
    ensures NoDuplicates(DistinctLetters(words))
    ensures forall t | t in DistinctLetters(words) :: t in Letters(words)
    ensures forall w, i | w in words && 0 <= i < |w| :: [w[i]] in DistinctLetters(words)
    ensures forall t | t in DistinctLetters(words) :: t == "" || (|t| == 1 && Occurs(words, t[0]))
    ensures "" in DistinctLetters(words) <==> "" in words
    ensures forall i, j | 0 <= i < j < |DistinctLetters(words)| ::
              IndexOf(Letters(words), DistinctLetters(words)[i])
              < IndexOf(Letters(words), DistinctLetters(words)[j])
  {
    LettersSpec(words);
    DistinctSpec(Letters(words));
  }

  /** The inner list `List.of(newWord, word)`. */
  datatype WordPair = WordPair(first: string, second: string)

  /** For one outer `word`: every other word of the same length, in list
      order, paired as (other, word). */
  function PairsWith(words: seq<string>, word: string): seq<WordPair> {
    if |words| == 0 then []
    else PairsWith(words[..|words| - 1], word) + Partner(words[|words| - 1], word)
  }

  /** The two `filter`s on one inner word: kept when it has the outer word's
      length and differs from it. */
  function Partner(x: string, word: string): seq<WordPair> {
    if |x| == |word| && x != word then [WordPair(x, word)] else []
  }

  lemma {:induction false} PairsWithSpec(words: seq<string>, word: string)
    ensures forall p | p in PairsWith(words, word) ::
              p.second == word && p.first in words && |p.first| == |word| && p.first != word
    ensures forall x | x in words && |x| == |word| && x != word :: WordPair(x, word) in PairsWith(words, word)
  {
    if |words| > 0 {
      var p := words[..|words| - 1];
      PairsWithSpec(p, word);
      assert words == p + [words[|words| - 1]];
    }
  }

  /** The outer `forEach` over `outer`, each contributing its block of pairs. */
  function PairsOver(words: seq<string>, outer: seq<string>): seq<WordPair> {
    if |outer| == 0 then []
    else PairsOver(words, outer[..|outer| - 1]) + PairsWith(words, outer[|outer| - 1])
  }

  lemma {:induction false} PairsOverSpec(words: seq<string>, outer: seq<string>)
    ensures forall p | p in PairsOver(words, outer) ::
              p.first in words && p.second in outer && |p.first| == |p.second| && p.first != p.second
    ensures forall x, w | x in words && w in outer && |x| == |w| && x != w ::
              WordPair(x, w) in PairsOver(words, outer)
  {
    if |outer| > 0 {
      var o := outer[..|outer| - 1];
      var w := outer[|outer| - 1];
      PairsOverSpec(words, o);
      PairsWithSpec(words, w);
      assert outer == o + [w];
    }
  }

  /** The pairs `[newWord, word]` the nested `forEach` collects. */
  function EqualLengthPairs(words: seq<string>): seq<WordPair> {
    PairsOver(words, words)
  }

  /** `[x, w]` is collected exactly when x and w are distinct words of the
      list with the same length, and then `[w, x]` is collected too. */
  lemma EqualLengthPairsSpec(words: seq<string>)
    ensures forall p | p in EqualLengthPairs(words) ::
              p.first in words && p.second in words && |p.first| == |p.second| && p.first != p.second
    ensures forall x, w | x in words && w in words ::
              WordPair(x, w) in EqualLengthPairs(words) <==> |x| == |w| && x != w
    ensures forall x, w :: WordPair(x, w) in EqualLengthPairs(words) <==> WordPair(w, x) in EqualLengthPairs(words)
  {
    PairsOverSpec(words, words);
  }

  /** The names in `main` join to "Siddu,Raju,Viju" either way. */
  lemma SampleJoin()
    ensures ReduceWithComma(["Siddu", "Raju", "Viju"]) == "Siddu,Raju,Viju,"
    ensures JoinByReduce(["Siddu", "Raju", "Viju"]) == Ok("Siddu,Raju,Viju")
  {
    var names := ["Siddu", "Raju", "Viju"];
    assert names[..2] == ["Siddu", "Raju"] && names[..2][..1] == ["Siddu"];
    assert Joining(names) == "Siddu,Raju,Viju";
    JoinByReduceMatchesJoining(names);
  }

  lemma LettersSnoc(words: seq<string>, w: string)
    ensures Letters(words + [w]) == Letters(words) + SplitEmpty(w)
  {
    assert (words + [w])[..|words|] == words;
  }

  lemma SampleSplits()
    ensures SplitEmpty("Siddu") == ["S", "i", "d", "d", "u"]
    ensures SplitEmpty("Raju") == ["R", "a", "j", "u"]
    ensures SplitEmpty("Viju") == ["V", "i", "j", "u"]
  {
  }

  lemma LettersOfThree(a: string, b: string, c: string)
    ensures Letters([a, b, c]) == SplitEmpty(a) + SplitEmpty(b) + SplitEmpty(c)
  {
    var s0: seq<string> := [];
    var s1 := s0 + [a];
    var s2 := s1 + [b];
    assert Letters(s1) == SplitEmpty(a) by {
      LettersSnoc(s0, a);
    }
    assert Letters(s2) == SplitEmpty(a) + SplitEmpty(b) by {
      LettersSnoc(s1, b);
    }
    LettersSnoc(s2, c);
    assert s2 + [c] == [a, b, c];
  }

  /** The letters of the names in `main`, in order. */
  lemma SampleLetters()
    ensures Letters(["Siddu", "Raju", "Viju"])
         == ["S", "i", "d", "d", "u", "R", "a", "j", "u", "V", "i", "j", "u"]
  {
    SampleSplits();
    LettersOfThree("Siddu", "Raju", "Viju");
  }

  /** The distinct letters of the names in `main`, case-sensitive. */
  lemma SampleDistinctLetters()
    ensures DistinctLetters(["Siddu", "Raju", "Viju"]) == ["S", "i", "d", "u", "R", "a", "j", "V"]
  {
    SampleLetters();
    DistinctPrefixes(Letters(["Siddu", "Raju", "Viju"]));
  }

  /** `distinct()` over the letter pattern of the sample, for any eight
      different letters, in two parts: the first two words, then the third. */
  lemma DistinctOfPatternHead<T>(l1: T, l2: T, l3: T, l4: T, l5: T, l6: T, l7: T)
    requires NoDuplicates([l1, l2, l3, l4, l5, l6, l7])
    ensures Distinct([l1, l2, l3, l3, l4, l5, l6, l7]) == [l1, l2, l3, l4, l5, l6, l7]
  {
    var d := [l1, l2, l3, l4, l5, l6, l7];
    var t1, t3 := d[..3], d[3..];
    assert t1 == [l1, l2, l3] && t3 == [l4, l5, l6, l7];
    var p2 := t1 + [l3];
    assert Distinct(t1) == t1 by {
      assert NoDuplicates(t1) by {
        forall i, j | 0 <= i < j < 3 ensures t1[i] != t1[j] {
          assert t1[i] == d[i] && t1[j] == d[j];
        }
      }
      DistinctAppendFresh([], t1);
      assert [] + t1 == t1;
    }
    assert Distinct(p2) == t1 by {
      assert l3 == t1[2];
      DistinctAppendSeen(t1, [l3]);
    }
    assert Distinct(p2 + t3) == d by {
      assert NoDuplicates(t3) by {
        forall i, j | 0 <= i < j < 4 ensures t3[i] != t3[j] {
          assert t3[i] == d[i + 3] && t3[j] == d[j + 3];
        }
      }
      assert forall i | 0 <= i < 4 :: t3[i] !in p2 by {
        forall i | 0 <= i < 4 ensures t3[i] !in p2 {
          assert t3[i] == d[i + 3];
          assert p2 == [d[0], d[1], d[2], d[2]];
        }
      }
      DistinctAppendFresh(p2, t3);
      assert t1 + t3 == d;
    }
    assert p2 + t3 == [l1, l2, l3, l3, l4, l5, l6, l7];
  }

  lemma DistinctOfPatternTail<T>(s: seq<T>, l2: T, l4: T, l7: T, l8: T)
    requires l2 in s && l4 in s && l7 in s && l8 !in s
    ensures Distinct(s + [l4, l8, l2, l7, l4]) == Distinct(s) + [l8]
  {
    var s1 := s + [l4];
    var s2 := s1 + [l8];
    assert Distinct(s1) == Distinct(s) by {
      DistinctAppendSeen(s, [l4]);
    }
    assert Distinct(s2) == Distinct(s) + [l8] by {
      DistinctAppendFresh(s1, [l8]);
    }
    DistinctAppendSeen(s2, [l2, l7, l4]);
    assert s2 + [l2, l7, l4] == s + [l4, l8, l2, l7, l4];
  }

  lemma DistinctOfPattern<T>(l1: T, l2: T, l3: T, l4: T, l5: T, l6: T, l7: T, l8: T)
    requires NoDuplicates([l1, l2, l3, l4, l5, l6, l7, l8])
    ensures Distinct([l1, l2, l3, l3, l4, l5, l6, l7, l4, l8, l2, l7, l4])
         == [l1, l2, l3, l4, l5, l6, l7, l8]
  {
    var d := [l1, l2, l3, l4, l5, l6, l7, l8];
    var head := [l1, l2, l3, l3, l4, l5, l6, l7];
    assert NoDuplicates(d[..7]);
    assert d[..7] == [l1, l2, l3, l4, l5, l6, l7];
    DistinctOfPatternHead(l1, l2, l3, l4, l5, l6, l7);
    assert l8 !in head by {
      assert head == [d[0], d[1], d[2], d[2], d[3], d[4], d[5], d[6]];
      assert d[0] != d[7] && d[1] != d[7] && d[2] != d[7] && d[3] != d[7];
      assert d[4] != d[7] && d[5] != d[7] && d[6] != d[7];
    }
    assert head[1] == l2 && head[4] == l4 && head[7] == l7;
    DistinctOfPatternTail(head, l2, l4, l7, l8);
    assert head + [l4, l8, l2, l7, l4] == [l1, l2, l3, l3, l4, l5, l6, l7, l4, l8, l2, l7, l4];
  }

  lemma DistinctPrefixes(letters: seq<string>)
    requires letters == ["S", "i", "d", "d", "u", "R", "a", "j", "u", "V", "i", "j", "u"]
    ensures Distinct(letters) == ["S", "i", "d", "u", "R", "a", "j", "V"]
  {
    var d := ["S", "i", "d", "u", "R", "a", "j", "V"];
    assert NoDuplicates(d) by {
      forall i, j | 0 <= i < j < |d| ensures d[i] != d[j] {
        assert d[i][0] != d[j][0];
      }
    }
    DistinctOfPattern("S", "i", "d", "u", "R", "a", "j", "V");
  }

  lemma PairsWithSnoc(words: seq<string>, x: string, word: string)
    ensures PairsWith(words + [x], word) == PairsWith(words, word) + Partner(x, word)
  {
    assert (words + [x])[..|words|] == words;
  }

  lemma PairsOverSnoc(words: seq<string>, outer: seq<string>, w: string)
    ensures PairsOver(words, outer + [w]) == PairsOver(words, outer) + PairsWith(words, w)
  {
    assert (outer + [w])[..|outer|] == outer;
  }

  lemma PairsWithOfFive(a: string, b: string, c: string, d: string, e: string, word: string)
    ensures PairsWith([a, b, c, d, e], word)
         == Partner(a, word) + Partner(b, word) + Partner(c, word) + Partner(d, word) + Partner(e, word)
  {
    var s0: seq<string> := [];
    var s1 := s0 + [a];
    var s2 := s1 + [b];
    var s3 := s2 + [c];
    var s4 := s3 + [d];
    assert PairsWith(s1, word) == Partner(a, word) by {
      PairsWithSnoc(s0, a, word);
    }
    assert PairsWith(s2, word) == Partner(a, word) + Partner(b, word) by {
      PairsWithSnoc(s1, b, word);
    }
    assert PairsWith(s3, word) == Partner(a, word) + Partner(b, word) + Partner(c, word) by {
      PairsWithSnoc(s2, c, word);
    }
    assert PairsWith(s4, word) == Partner(a, word) + Partner(b, word) + Partner(c, word) + Partner(d, word) by {
      PairsWithSnoc(s3, d, word);
    }
    PairsWithSnoc(s4, e, word);
    assert s4 + [e] == [a, b, c, d, e];
  }

  lemma PairsOverOfFive(words: seq<string>, a: string, b: string, c: string, d: string, e: string)
    ensures PairsOver(words, [a, b, c, d, e])
         == PairsWith(words, a) + PairsWith(words, b) + PairsWith(words, c) + PairsWith(words, d)
            + PairsWith(words, e)
  {
    var s0: seq<string> := [];
    var s1 := s0 + [a];
    var s2 := s1 + [b];
    var s3 := s2 + [c];
    var s4 := s3 + [d];
    assert PairsOver(words, s1) == PairsWith(words, a) by {
      PairsOverSnoc(words, s0, a);
    }
    assert PairsOver(words, s2) == PairsWith(words, a) + PairsWith(words, b) by {
      PairsOverSnoc(words, s1, b);
    }
    assert PairsOver(words, s3) == PairsWith(words, a) + PairsWith(words, b) + PairsWith(words, c) by {
      PairsOverSnoc(words, s2, c);
    }
    assert PairsOver(words, s4)
        == PairsWith(words, a) + PairsWith(words, b) + PairsWith(words, c) + PairsWith(words, d) by {
      PairsOverSnoc(words, s3, d);
    }
    PairsOverSnoc(words, s4, e);
    assert s4 + [e] == [a, b, c, d, e];
  }

  /** Each outer word of the sample list with the words it is paired with. */
  lemma SamplePairsWith()
    ensures PairsWith(["KLM", "ABC", "DEF", "AMDB", "SDBM"], "KLM") == [WordPair("ABC", "KLM"), WordPair("DEF", "KLM")]
    ensures PairsWith(["KLM", "ABC", "DEF", "AMDB", "SDBM"], "ABC") == [WordPair("KLM", "ABC"), WordPair("DEF", "ABC")]
    ensures PairsWith(["KLM", "ABC", "DEF", "AMDB", "SDBM"], "DEF") == [WordPair("KLM", "DEF"), WordPair("ABC", "DEF")]
    ensures PairsWith(["KLM", "ABC", "DEF", "AMDB", "SDBM"], "AMDB") == [WordPair("SDBM", "AMDB")]
    ensures PairsWith(["KLM", "ABC", "DEF", "AMDB", "SDBM"], "SDBM") == [WordPair("AMDB", "SDBM")]
  {
    var words := ["KLM", "ABC", "DEF", "AMDB", "SDBM"];
    assert PairsWith(words, "KLM") == [WordPair("ABC", "KLM"), WordPair("DEF", "KLM")] by {
      PairsWithOfFive("KLM", "ABC", "DEF", "AMDB", "SDBM", "KLM");
    }
    assert PairsWith(words, "ABC") == [WordPair("KLM", "ABC"), WordPair("DEF", "ABC")] by {
      PairsWithOfFive("KLM", "ABC", "DEF", "AMDB", "SDBM", "ABC");
    }
    assert PairsWith(words, "DEF") == [WordPair("KLM", "DEF"), WordPair("ABC", "DEF")] by {
      PairsWithOfFive("KLM", "ABC", "DEF", "AMDB", "SDBM", "DEF");
    }
    assert PairsWith(words, "AMDB") == [WordPair("SDBM", "AMDB")] by {
      PairsWithOfFive("KLM", "ABC", "DEF", "AMDB", "SDBM", "AMDB");
    }
    assert PairsWith(words, "SDBM") == [WordPair("AMDB", "SDBM")] by {
      PairsWithOfFive("KLM", "ABC", "DEF", "AMDB", "SDBM", "SDBM");
    }
  }

  /** The word list of `main` yields exactly the eight pairs its comment
      lists, in that order. */
  lemma SamplePairs()
    ensures EqualLengthPairs(["KLM", "ABC", "DEF", "AMDB", "SDBM"])
         == [WordPair("ABC", "KLM"), WordPair("DEF", "KLM"),
             WordPair("KLM", "ABC"), WordPair("DEF", "ABC"),
             WordPair("KLM", "DEF"), WordPair("ABC", "DEF"),
             WordPair("SDBM", "AMDB"), WordPair("AMDB", "SDBM")]
  {
    var words := ["KLM", "ABC", "DEF", "AMDB", "SDBM"];
    PairsOverOfFive(words, "KLM", "ABC", "DEF", "AMDB", "SDBM");
    SamplePairsWith();
    ConcatOfBlocks(WordPair("ABC", "KLM"), WordPair("DEF", "KLM"), WordPair("KLM", "ABC"), WordPair("DEF", "ABC"),
                   WordPair("KLM", "DEF"), WordPair("ABC", "DEF"), WordPair("SDBM", "AMDB"), WordPair("AMDB", "SDBM"));
  }

  lemma ConcatOfBlocks<T>(a: T, b: T, c: T, d: T, e: T, f: T, g: T, h: T)
    ensures [a, b] + [c, d] + [e, f] + [g] + [h] == [a, b, c, d, e, f, g, h]
  {
  }
}
