/** The collection and stream operations the examples compose:
    `Collections.frequency`, `Stream.distinct`, and
    `Collectors.groupingBy(key, Collectors.counting())`. All of them run on
    sequential, ordered streams here, so they are folds over a sequence. */
module JavaUtil {
  import opened JavaLang

  /** `Collections.frequency(s, x)`: how many elements of `s` equal `x`. */
  function Frequency<T(==)>(s: seq<T>, x: T): (r: nat)
    ensures r <= |s|
    ensures r > 0 <==> x in s
  {
    if |s| == 0 then 0
    else Frequency(s[..|s| - 1], x) + (if s[|s| - 1] == x then 1 else 0)
  }

  /** `Collections.frequency` counts the multiplicity of `x` in `s`. */
  lemma {:induction false} FrequencyIsMultiplicity<T>(s: seq<T>, x: T)
    ensures Frequency(s, x) == multiset(s)[x]
  {
    if |s| > 0 {
      FrequencyIsMultiplicity(s[..|s| - 1], x);
      assert s == s[..|s| - 1] + [s[|s| - 1]];
    }
  }

  /** Sum rule: the count over a concatenation is the sum of the counts. */
  lemma {:induction false} FrequencyAppend<T>(a: seq<T>, b: seq<T>, x: T)
    ensures Frequency(a + b, x) == Frequency(a, x) + Frequency(b, x)
  {
    FrequencyIsMultiplicity(a + b, x);
    FrequencyIsMultiplicity(a, x);
    FrequencyIsMultiplicity(b, x);
  }

  /** Appending one element bumps its own count only. */
  lemma FrequencySnoc<T>(s: seq<T>, y: T, x: T)
    ensures Frequency(s + [y], x) == Frequency(s, x) + (if y == x then 1 else 0)
  {
    assert (s + [y])[..|s|] == s;
  }

  /** The set of the elements of a list. */
  function Elements<T>(s: seq<T>): set<T> {
    set x | x in s
  }

  predicate NoDuplicates<T(==)>(s: seq<T>) {
    forall i, j | 0 <= i < j < |s| :: s[i] != s[j]
  }

  /** Position of the first occurrence of `x` in `s` (`List.indexOf`). */
  function IndexOf<T(==)>(s: seq<T>, x: T): (i: nat)
    requires x in s
    ensures i < |s| && s[i] == x && x !in s[..i]
  {
    if s[0] == x then 0 else 1 + IndexOf(s[1..], x)
  }

  lemma {:induction false} IndexOfPrefix<T>(s: seq<T>, x: T, n: nat)
    requires n <= |s| && x in s[..n]
    ensures IndexOf(s, x) == IndexOf(s[..n], x)
  {
    var t := s[..n];
    assert t[0] == s[0];
    if s[0] != x {
      assert t[1..] == s[1..][..n - 1];
      IndexOfPrefix(s[1..], x, n - 1);
    }
  }

  /** `Stream.distinct()` on an ordered stream: keeps the first occurrence of
      every element, in encounter order. */
  function Distinct<T(==)>(s: seq<T>): seq<T> {
    if |s| == 0 then []
    else
      var d := Distinct(s[..|s| - 1]);
      if s[|s| - 1] in d then d else d + [s[|s| - 1]]
  }

  lemma DistinctSnoc<T>(s: seq<T>, x: T)
    ensures Distinct(s + [x]) == if x in Distinct(s) then Distinct(s) else Distinct(s) + [x]
  {
    assert (s + [x])[..|s|] == s;
  }

  lemma {:induction false} DistinctHas<T>(s: seq<T>, x: T)
    ensures x in Distinct(s) <==> x in s
  {
    if |s| > 0 {
      DistinctHas(s[..|s| - 1], x);
      assert s == s[..|s| - 1] + [s[|s| - 1]];
    }
  }

  /** Appending elements already seen leaves `distinct()` unchanged. */
  lemma {:induction false} DistinctAppendSeen<T>(s: seq<T>, t: seq<T>)
    requires forall x | x in t :: x in s
    ensures Distinct(s + t) == Distinct(s)
  {
    if |t| == 0 {
      assert s + t == s;
    } else {
      var p := t[..|t| - 1];
      var x := t[|t| - 1];
      assert t == p + [x];
      DistinctAppendSeen(s, p);
      DistinctHas(s, x);
      DistinctSnoc(s + p, x);
      assert s + t == (s + p) + [x];
    }
  }

  lemma NoDuplicatesSnoc<T>(p: seq<T>, x: T)
    requires NoDuplicates(p + [x])
    ensures NoDuplicates(p) && x !in p
  {
    var t := p + [x];
    forall i, j | 0 <= i < j < |p| ensures p[i] != p[j] {
      assert p[i] == t[i] && p[j] == t[j];
    }
    forall i | 0 <= i < |p| ensures p[i] != x {
      assert p[i] == t[i] && t[|p|] == x;
    }
  }

  /** Appending new, pairwise different elements adds them to the end of
      `distinct()`, in order. */
  lemma DistinctAppendFreshStep<T>(s: seq<T>, p: seq<T>, x: T)
    requires Distinct(s + p) == Distinct(s) + p
    requires x !in Distinct(s) && x !in p
    ensures Distinct(s + (p + [x])) == Distinct(s) + (p + [x])
  {
    DistinctSnoc(s + p, x);
    assert s + (p + [x]) == (s + p) + [x];
    assert (Distinct(s) + p) + [x] == Distinct(s) + (p + [x]);
  }

  lemma {:induction false} DistinctAppendFresh<T>(s: seq<T>, t: seq<T>)
    requires NoDuplicates(t)
    requires forall i | 0 <= i < |t| :: t[i] !in s
    ensures Distinct(s + t) == Distinct(s) + t
  {
    if |t| == 0 {
      assert s + t == s;
    } else {
      var p := t[..|t| - 1];
      var x := t[|t| - 1];
      assert t == p + [x];
      NoDuplicatesSnoc(p, x);
      assert forall i | 0 <= i < |p| :: p[i] == t[i];
      DistinctAppendFresh(s, p);
      DistinctHas(s, x);
      DistinctAppendFreshStep(s, p, x);
    }
  }

  /** `distinct()` never emits an element twice. */
  lemma {:induction false} DistinctNoDuplicates<T>(s: seq<T>)
    ensures NoDuplicates(Distinct(s))
  {
    if |s| > 0 {
      var p := s[..|s| - 1];
      var x := s[|s| - 1];
      var d := Distinct(p);
      DistinctNoDuplicates(p);
      if x !in d {
        var e := d + [x];
        forall i, j | 0 <= i < j < |e| ensures e[i] != e[j] {
          if j == |d| {
            assert e[i] == d[i];
          } else {
            assert e[i] == d[i] && e[j] == d[j];
          }
        }
      }
    }
  }

  /** `distinct()` drops repeats, loses nothing, and keeps the elements in
      the order of their first occurrence. */
  lemma {:induction false} DistinctSpec<T>(s: seq<T>)
    ensures NoDuplicates(Distinct(s))
    ensures forall x | x in Distinct(s) :: x in s
    ensures forall x | x in s :: x in Distinct(s)
    ensures forall i, j | 0 <= i < j < |Distinct(s)| ::
              IndexOf(s, Distinct(s)[i]) < IndexOf(s, Distinct(s)[j])
  {
    DistinctNoDuplicates(s);
    if |s| > 0 {
      var p := s[..|s| - 1];
      var d := Distinct(p);
      var last := s[|s| - 1];
      DistinctSpec(p);
      assert s == p + [last];
      forall x | x in d ensures IndexOf(s, x) == IndexOf(p, x) {
        IndexOfPrefix(s, x, |s| - 1);
      }
      if last !in d {
        assert IndexOf(s, last) == |s| - 1;
      }
    }
  }

  /** `groupingBy(key, counting())` once the keys are known to be non-null:
      the map from each key to the number of elements carrying it. */
  function CountOccurrences<K(==)>(keys: seq<K>): map<K, nat> {
    if |keys| == 0 then map[]
    else
      var m := CountOccurrences(keys[..|keys| - 1]);
      var k := keys[|keys| - 1];
      m[k := (if k in m then m[k] else 0) + 1]
  }

  /** The counting map has exactly the keys that occur, each mapped to its
      frequency, and so every count is at least 1. */
  lemma {:induction false} CountOccurrencesIsFrequency<K>(keys: seq<K>)
    ensures forall k :: k in CountOccurrences(keys) <==> k in keys
    ensures forall k | k in CountOccurrences(keys) ::
              CountOccurrences(keys)[k] == Frequency(keys, k) >= 1
  {
    if |keys| > 0 {
      var p := keys[..|keys| - 1];
      CountOccurrencesIsFrequency(p);
      assert keys == p + [keys[|keys| - 1]];
      forall k ensures k in keys <==> k in p || k == keys[|keys| - 1] {
      }
    }
  }

  /** The referents of a list of non-null references. */
  function Values<K>(keys: seq<Nullable<K>>): (r: seq<K>)
    requires Null !in keys
    ensures |r| == |keys|
    ensures forall i | 0 <= i < |r| :: keys[i] == NonNull(r[i])
  {
    if |keys| == 0 then [] else Values(keys[..|keys| - 1]) + [keys[|keys| - 1].value]
  }

  lemma {:induction false} FrequencyOfValues<K>(keys: seq<Nullable<K>>, k: K)
    requires Null !in keys
    ensures Frequency(Values(keys), k) == Frequency(keys, NonNull(k))
  {
    if |keys| > 0 {
      var p := keys[..|keys| - 1];
      FrequencyOfValues(p, k);
      assert Values(keys)[..|keys| - 1] == Values(p);
    }
  }

  /** `Collectors.groupingBy(key, counting())`: each non-null key mapped to
      the number of elements carrying it; a null key makes `groupingBy`
      throw. */
  function GroupingCount<K(==)>(keys: seq<Nullable<K>>): (r: Result<map<K, nat>>)
    ensures r.Throws? <==> Null in keys
    ensures r.Throws? ==> r.exception == NullPointerException
    ensures r.Ok? ==> forall k | k in r.value :: NonNull(k) in keys
    ensures r.Ok? ==> forall x | x in keys :: x.NonNull? && x.value in r.value
    ensures r.Ok? ==> forall k | k in r.value :: r.value[k] == Frequency(keys, NonNull(k))
  {
    if Null in keys then Throws(NullPointerException)
    else
      var present := Values(keys);
      CountOccurrencesIsFrequency(present);
      assert forall k | k in present :: NonNull(k) in keys by {
        forall k | k in present ensures NonNull(k) in keys {
          var i :| 0 <= i < |present| && present[i] == k;
          assert keys[i] == NonNull(k);
        }
      }
      assert forall x | x in keys :: x.value in present by {
        forall x | x in keys ensures x.value in present {
          var i :| 0 <= i < |keys| && keys[i] == x;
          assert present[i] == x.value;
        }
      }
      assert forall k | k in CountOccurrences(present) ::
          CountOccurrences(present)[k] == Frequency(keys, NonNull(k)) by {
        forall k | k in CountOccurrences(present)
          ensures CountOccurrences(present)[k] == Frequency(keys, NonNull(k)) {
          FrequencyOfValues(keys, k);
        }
      }
      Ok(CountOccurrences(present))
  }

  /** Sum of the counts of the keys `ks`, listed without repetition. */
  function SumCounts<K(==)>(m: map<K, nat>, ks: seq<K>): nat
    requires forall k | k in ks :: k in m
  {
    if |ks| == 0 then 0
    else SumCounts(m, ks[..|ks| - 1]) + m[ks[|ks| - 1]]
  }

  /** Bumping the count of one key raises the sum by one exactly when that
      key is listed. */
  lemma {:induction false} SumCountsBump<K>(m: map<K, nat>, ks: seq<K>, k: K)
    requires forall x | x in ks :: x in m
    requires k in m && NoDuplicates(ks)
    ensures SumCounts(m[k := m[k] + 1], ks) == SumCounts(m, ks) + (if k in ks then 1 else 0)
  {
    if |ks| > 0 {
      var p := ks[..|ks| - 1];
      SumCountsBump(m, p, k);
      assert ks == p + [ks[|ks| - 1]];
      if ks[|ks| - 1] == k {
        assert k !in p;
      }
    }
  }

  /** Extra keys outside the listed ones do not change the sum. */
  lemma {:induction false} SumCountsFrame<K>(m: map<K, nat>, ks: seq<K>, k: K, v: nat)
    requires forall x | x in ks :: x in m
    requires k !in ks
    ensures SumCounts(m[k := v], ks) == SumCounts(m, ks)
  {
    if |ks| > 0 {
      SumCountsFrame(m, ks[..|ks| - 1], k, v);
    }
  }

  /** The counts of `groupingBy(..., counting())`, summed over the distinct
      keys, add up to the number of elements grouped. */
  lemma {:induction false} CountsSumToLength<K>(keys: seq<K>)
    ensures forall k | k in Distinct(keys) :: k in CountOccurrences(keys)
    ensures SumCounts(CountOccurrences(keys), Distinct(keys)) == |keys|
  {
    if |keys| > 0 {
      var p := keys[..|keys| - 1];
      var k := keys[|keys| - 1];
      var m := CountOccurrences(p);
      var d := Distinct(p);
      var m' := m[k := (if k in m then m[k] else 0) + 1];
      assert keys == p + [k];
      CountsSumToLength(p);
      assert CountOccurrences(keys) == m';
      assert k in m <==> k in d by {
        CountOccurrencesIsFrequency(p);
        DistinctHas(p, k);
      }
      DistinctSnoc(p, k);
      DistinctNoDuplicates(p);
      if k in m {
        SumCountsBump(m, d, k);
      } else {
        SumCountsFrame(m, d, k, 1);
        assert (d + [k])[..|d|] == d;
      }
    }
  }
}
