/** `Arrays.sort(a, comparator)` on objects, which `Stream.sorted` uses: a
    stable sort driven by a comparator. The comparator is a function value
    here, so everything in this module holds for any comparator, and the
    order facts hold for any comparator that keeps the `Comparator`
    contract on the elements being sorted. */
module Sorting {
  import opened JavaLang
  import opened JavaUtil

  /** Swapping the arguments flips the sign of the comparison. */
  predicate Antisymmetric<T(==)>(cmp: (T, T) -> int, a: T, b: T) {
    Sign(cmp(a, b)) == -Sign(cmp(b, a))
  }

  /** "Not greater" carries over from `a, b` and `b, c` to `a, c`. */
  predicate Transitive<T(==)>(cmp: (T, T) -> int, a: T, b: T, c: T) {
    cmp(a, b) <= 0 && cmp(b, c) <= 0 ==> cmp(a, c) <= 0
  }

  /** The comparator contract on the elements in `S`. */
  predicate ValidOn<T(==)>(cmp: (T, T) -> int, S: set<T>) {
    && (forall a, b | a in S && b in S :: Antisymmetric(cmp, a, b))
    && (forall a, b, c | a in S && b in S && c in S :: Transitive(cmp, a, b, c))
  }

  lemma LessThenNotGreater<T>(cmp: (T, T) -> int, S: set<T>, a: T, b: T, c: T)
    requires ValidOn(cmp, S) && a in S && b in S && c in S
    requires cmp(a, b) < 0 && cmp(b, c) <= 0
    ensures cmp(a, c) < 0
  {
    assert Antisymmetric(cmp, a, c) && Antisymmetric(cmp, a, b) && Transitive(cmp, b, c, a);
  }

  lemma LessNotEquivalent<T>(cmp: (T, T) -> int, S: set<T>, y: T, z: T, x: T)
    requires ValidOn(cmp, S) && x in S && y in S && z in S
    requires cmp(y, z) < 0 && cmp(y, x) == 0
    ensures cmp(z, x) != 0
  {
    assert Antisymmetric(cmp, x, y) && Transitive(cmp, z, x, y) && Antisymmetric(cmp, y, z);
  }

  /** Insertion of `x` into an already sorted list, after every element not
      greater than it: the step of a stable sort. */
  function Insert<T(==)>(cmp: (T, T) -> int, t: seq<T>, x: T): seq<T> {
    if |t| == 0 then [x]
    else if cmp(x, t[0]) < 0 then [x] + t
    else [t[0]] + Insert(cmp, t[1..], x)
  }

  /** The list `Arrays.sort` leaves: a stable sort of `s`. */
  function InsertionSort<T(==)>(cmp: (T, T) -> int, s: seq<T>): seq<T> {
    if |s| == 0 then []
    else Insert(cmp, InsertionSort(cmp, s[..|s| - 1]), s[|s| - 1])
  }

  predicate Sorted<T(==)>(cmp: (T, T) -> int, s: seq<T>) {
    forall i, j | 0 <= i < j < |s| :: cmp(s[i], s[j]) <= 0
  }

  lemma {:induction false} InsertPermutation<T>(cmp: (T, T) -> int, t: seq<T>, x: T)
    ensures multiset(Insert(cmp, t, x)) == multiset(t) + multiset{x}
  {
    if |t| > 0 && cmp(x, t[0]) >= 0 {
      InsertPermutation(cmp, t[1..], x);
      assert t == [t[0]] + t[1..];
    }
  }

  /** Sorting only rearranges: the result is a permutation of the input. */
  lemma {:induction false} SortPermutation<T>(cmp: (T, T) -> int, s: seq<T>)
    ensures multiset(InsertionSort(cmp, s)) == multiset(s)
  {
    if |s| > 0 {
      SortPermutation(cmp, s[..|s| - 1]);
      InsertPermutation(cmp, InsertionSort(cmp, s[..|s| - 1]), s[|s| - 1]);
      assert s == s[..|s| - 1] + [s[|s| - 1]];
    }
  }

  lemma InMultiset<T>(s: seq<T>, t: seq<T>)
    requires multiset(s) == multiset(t)
    ensures forall y | y in s :: y in t
  {
    forall y | y in s ensures y in t {
      assert y in multiset(s);
    }
  }

  lemma SortedCons<T>(cmp: (T, T) -> int, y: T, rest: seq<T>)
    requires Sorted(cmp, rest)
    requires forall z | z in rest :: cmp(y, z) <= 0
    ensures Sorted(cmp, [y] + rest)
  {
    var r := [y] + rest;
    forall i, j | 0 <= i < j < |r| ensures cmp(r[i], r[j]) <= 0 {
      assert r[j] == rest[j - 1];
      if i == 0 {
        assert rest[j - 1] in rest;
      } else {
        assert r[i] == rest[i - 1];
      }
    }
  }

  lemma SortedTail<T>(cmp: (T, T) -> int, t: seq<T>)
    requires Sorted(cmp, t) && |t| > 0
    ensures Sorted(cmp, t[1..])
    ensures forall z | z in t[1..] :: cmp(t[0], z) <= 0
  {
    forall z | z in t[1..] ensures cmp(t[0], z) <= 0 {
      var k :| 0 <= k < |t[1..]| && t[1..][k] == z;
      assert t[k + 1] == z;
    }
  }

  lemma {:induction false} InsertSorted<T>(cmp: (T, T) -> int, S: set<T>, t: seq<T>, x: T)
    requires ValidOn(cmp, S)
    requires x in S && forall y | y in t :: y in S
    requires Sorted(cmp, t)
    ensures Sorted(cmp, Insert(cmp, t, x))
  {
    if |t| > 0 {
      var t0 := t[0];
      assert t0 in t;
      SortedTail(cmp, t);
      if cmp(x, t0) < 0 {
        forall z | z in t ensures cmp(x, z) <= 0 {
          if z != t0 {
            assert z in t[1..] by {
              assert t == [t0] + t[1..];
            }
            LessThenNotGreater(cmp, S, x, t0, z);
          }
        }
        SortedCons(cmp, x, t);
      } else {
        var rest := Insert(cmp, t[1..], x);
        assert Antisymmetric(cmp, x, t0);
        assert forall y | y in t[1..] :: y in t;
        InsertSorted(cmp, S, t[1..], x);
        forall y | y in rest ensures cmp(t0, y) <= 0 {
          InsertPermutation(cmp, t[1..], x);
          assert y in multiset(rest);
        }
        SortedCons(cmp, t0, rest);
      }
    }
  }

  /** Sorting with a comparator that keeps its contract on the input
      leaves the list in non-decreasing order. */
  lemma {:induction false} SortSorted<T>(cmp: (T, T) -> int, s: seq<T>)
    requires ValidOn(cmp, Elements(s))
    ensures Sorted(cmp, InsertionSort(cmp, s))
  {
    if |s| > 0 {
      var p := s[..|s| - 1];
      assert Elements(p) <= Elements(s);
      SortSorted(cmp, p);
      SortPermutation(cmp, p);
      InMultiset(InsertionSort(cmp, p), p);
      InsertSorted(cmp, Elements(s), InsertionSort(cmp, p), s[|s| - 1]);
    }
  }

  /** The elements of `s` that the comparator ranks equal to `x`, in list
      order. */
  function EqualRanked<T(==)>(cmp: (T, T) -> int, s: seq<T>, x: T): seq<T> {
    if |s| == 0 then []
    else (if cmp(s[0], x) == 0 then [s[0]] else []) + EqualRanked(cmp, s[1..], x)
  }

  lemma {:induction false} EqualRankedAppend<T>(cmp: (T, T) -> int, a: seq<T>, b: seq<T>, x: T)
    ensures EqualRanked(cmp, a + b, x) == EqualRanked(cmp, a, x) + EqualRanked(cmp, b, x)
  {
    if |a| > 0 {
      EqualRankedAppend(cmp, a[1..], b, x);
      assert (a + b)[1..] == a[1..] + b;
    } else {
      assert a + b == b;
    }
  }

  lemma {:induction false} EqualRankedNone<T>(cmp: (T, T) -> int, S: set<T>, t: seq<T>, y: T, x: T)
    requires ValidOn(cmp, S)
    requires x in S && y in S && forall z | z in t :: z in S
    requires |t| > 0 && Sorted(cmp, t) && cmp(y, t[0]) < 0
    requires cmp(y, x) == 0
    ensures EqualRanked(cmp, t, x) == []
  {
    assert t[0] in t;
    forall z | z in t ensures cmp(z, x) != 0 {
      var k :| 0 <= k < |t| && t[k] == z;
      if k == 0 {
        LessNotEquivalent(cmp, S, y, z, x);
      } else {
        LessThenNotGreater(cmp, S, y, t[0], z);
        LessNotEquivalent(cmp, S, y, z, x);
      }
    }
    EqualRankedNoneOf(cmp, t, x);
  }

  lemma {:induction false} EqualRankedNoneOf<T>(cmp: (T, T) -> int, t: seq<T>, x: T)
    requires forall z | z in t :: cmp(z, x) != 0
    ensures EqualRanked(cmp, t, x) == []
  {
    if |t| > 0 {
      assert t[0] in t;
      EqualRankedNoneOf(cmp, t[1..], x);
    }
  }

  lemma {:induction false} InsertStable<T>(cmp: (T, T) -> int, S: set<T>, t: seq<T>, y: T, x: T)
    requires ValidOn(cmp, S)
    requires x in S && y in S && forall z | z in t :: z in S
    requires Sorted(cmp, t)
    ensures EqualRanked(cmp, Insert(cmp, t, y), x)
         == EqualRanked(cmp, t, x) + (if cmp(y, x) == 0 then [y] else [])
  {
    if |t| == 0 {
      assert Insert(cmp, t, y) == [y];
      assert EqualRanked(cmp, [y], x) == (if cmp(y, x) == 0 then [y] else []) + EqualRanked(cmp, [], x);
    } else if cmp(y, t[0]) < 0 {
      EqualRankedAppend(cmp, [y], t, x);
      assert EqualRanked(cmp, [y], x) == (if cmp(y, x) == 0 then [y] else []) + EqualRanked(cmp, [], x);
      if cmp(y, x) == 0 {
        EqualRankedNone(cmp, S, t, y, x);
      }
    } else {
      assert t[0] in t;
      InsertStable(cmp, S, t[1..], y, x);
      assert Insert(cmp, t, y)[1..] == Insert(cmp, t[1..], y);
    }
  }

  /** The comparator contract holds on every subset. */
  lemma ValidOnSubset<T>(cmp: (T, T) -> int, S: set<T>, R: set<T>)
    requires ValidOn(cmp, S) && R <= S
    ensures ValidOn(cmp, R)
  {
  }

  /** Sorting yields a sorted list drawn from the input. */
  lemma SortedFrom<T>(cmp: (T, T) -> int, s: seq<T>)
    requires ValidOn(cmp, Elements(s))
    ensures Sorted(cmp, InsertionSort(cmp, s))
    ensures forall z | z in InsertionSort(cmp, s) :: z in s
  {
    SortSorted(cmp, s);
    SortPermutation(cmp, s);
    InMultiset(InsertionSort(cmp, s), s);
  }

  /** Sorting is stable: the elements the comparator ranks equal to `x`
      keep their relative order from the input. */
  lemma {:induction false} SortStable<T>(cmp: (T, T) -> int, s: seq<T>, x: T)
    requires ValidOn(cmp, Elements(s) + {x})
    ensures EqualRanked(cmp, InsertionSort(cmp, s), x) == EqualRanked(cmp, s, x)
  {
    if |s| > 0 {
      var S := Elements(s) + {x};
      var p := s[..|s| - 1];
      var y := s[|s| - 1];
      var q := InsertionSort(cmp, p);
      assert s == p + [y];
      assert EqualRanked(cmp, q, x) == EqualRanked(cmp, p, x) by {
        ValidOnSubset(cmp, S, Elements(p) + {x});
        SortStable(cmp, p, x);
      }
      assert Sorted(cmp, q) && forall z | z in q :: z in S by {
        ValidOnSubset(cmp, S, Elements(p));
        SortedFrom(cmp, p);
      }
      InsertStable(cmp, S, q, y, x);
      assert EqualRanked(cmp, s, x) == EqualRanked(cmp, p, x) + (if cmp(y, x) == 0 then [y] else []) by {
        EqualRankedAppend(cmp, p, [y], x);
        assert EqualRanked(cmp, [y], x) == (if cmp(y, x) == 0 then [y] else []) + EqualRanked(cmp, [], x);
      }
    }
  }

  /** The sort only asks "is `x` less than this element?": comparators that
      answer alike on the input give the same list. */
  lemma {:induction false} SortDependsOnlyOnLess<T>(cmp1: (T, T) -> int, cmp2: (T, T) -> int, s: seq<T>)
    requires forall a, b | a in s && b in s :: cmp1(a, b) < 0 <==> cmp2(a, b) < 0
    ensures InsertionSort(cmp1, s) == InsertionSort(cmp2, s)
  {
    if |s| > 0 {
      var p := s[..|s| - 1];
      SortDependsOnlyOnLess(cmp1, cmp2, p);
      SortPermutation(cmp1, p);
      InMultiset(InsertionSort(cmp1, p), p);
      InsertDependsOnlyOnLess(cmp1, cmp2, s, InsertionSort(cmp1, p), s[|s| - 1]);
    }
  }

  lemma {:induction false} InsertDependsOnlyOnLess<T>(cmp1: (T, T) -> int, cmp2: (T, T) -> int, s: seq<T>, t: seq<T>, x: T)
    requires forall a, b | a in s && b in s :: cmp1(a, b) < 0 <==> cmp2(a, b) < 0
    requires x in s && forall z | z in t :: z in s
    ensures Insert(cmp1, t, x) == Insert(cmp2, t, x)
  {
    if |t| > 0 {
      assert t[0] in t;
      InsertDependsOnlyOnLess(cmp1, cmp2, s, t[1..], x);
    }
  }

}
