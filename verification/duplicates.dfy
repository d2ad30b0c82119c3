/** `DuplicatesInAList`: three ways of finding the repeated names and the
    distinct names in a list of employees. Only the name takes part; a name
    is a Java `String` and so may be null. */
module Duplicates {
  import opened JavaLang
  import opened JavaUtil

  type Name = Nullable<string>

  datatype Employee = Employee(name: Name, age: Int32)

  /** What a strategy reports: the names that repeat, and the names that
      occur at all ("unique" in the source means distinct). */
  datatype Partition = Partition(duplicates: set<Name>, unique: set<Name>)

  function Names(employees: seq<Employee>): (r: seq<Name>)
    ensures |r| == |employees|
    ensures forall i | 0 <= i < |r| :: r[i] == employees[i].name
  {
    seq(|employees|, i requires 0 <= i < |employees| => employees[i].name)
  }

  /** Reference for the first strategy: every occurrence of a name after its
      first one, in list order. */
  function RepeatedOccurrences<T(==)>(s: seq<T>): seq<T> {
    if |s| == 0 then []
    else
      var p := s[..|s| - 1];
      RepeatedOccurrences(p) + (if s[|s| - 1] in p then [s[|s| - 1]] else [])
  }

  /** Strategy 1: stream the names through a filter that calls
      `HashSet.add`, which returns false for a name already in the set; the
      names it rejects are the duplicates and the set ends up holding every
      name. */
  method DuplicatesByHashSet<T(==)>(names: seq<T>) returns (duplicates: seq<T>, unique: set<T>)
    ensures duplicates == RepeatedOccurrences(names)
    ensures unique == Elements(names)
  {
    duplicates := [];
    unique := {};
    var i := 0;
    while i < |names|
      invariant 0 <= i <= |names|
      invariant unique == Elements(names[..i])
      invariant duplicates == RepeatedOccurrences(names[..i])
    {
      var name := names[i];
      assert names[..i + 1][..i] == names[..i];
      var added := name !in unique;
      unique := unique + {name};
      if !added {
        duplicates := duplicates + [name];
      }
      i := i + 1;
    }
    assert names[..i] == names;
  }

  /** Each name is emitted once per occurrence after its first. */
  lemma {:induction false} RepeatedOccurrencesCount<T>(s: seq<T>, x: T)
    ensures Frequency(RepeatedOccurrences(s), x) == if x in s then Frequency(s, x) - 1 else 0
  {
    if |s| > 0 {
      var p := s[..|s| - 1];
      RepeatedOccurrencesCount(p, x);
      FrequencyAppend(RepeatedOccurrences(p), if s[|s| - 1] in p then [s[|s| - 1]] else [], x);
      assert x in s <==> x in p || x == s[|s| - 1] by {
        assert s == p + [s[|s| - 1]];
      }
    }
  }

  /** The filter emits (number of names) - (number of distinct names). */
  lemma {:induction false} RepeatedOccurrencesLength<T>(s: seq<T>)
    ensures |RepeatedOccurrences(s)| == |s| - |Elements(s)|
  {
    if |s| > 0 {
      var p := s[..|s| - 1];
      var x := s[|s| - 1];
      RepeatedOccurrencesLength(p);
      assert s == p + [x];
      assert Elements(s) == Elements(p) + {x};
      if x !in p {
        assert x !in Elements(p);
      }
    }
  }

  /** The names the first strategy reports, as a set: exactly those that
      occur more than once. */
  lemma RepeatedOccurrencesAreRepeatedNames<T>(s: seq<T>)
    ensures Elements(RepeatedOccurrences(s)) == set x | x in s && Frequency(s, x) > 1
  {
    var r := RepeatedOccurrences(s);
    forall x | x in r ensures x in s && Frequency(s, x) > 1 {
      RepeatedOccurrencesCount(s, x);
      assert Frequency(r, x) > 0;
    }
    forall x | x in s && Frequency(s, x) > 1 ensures x in r {
      RepeatedOccurrencesCount(s, x);
      assert Frequency(r, x) > 0;
    }
  }

  /** Strategy 2: `groupingBy(getName, counting())`, then the keys whose
      count exceeds one, and separately the key set. A null name makes
      `groupingBy` throw. */
  function ByGrouping(employees: seq<Employee>): (r: Result<Partition>)
    ensures r.Throws? <==> Null in Names(employees)
    ensures r.Ok? ==> r.value.unique == Elements(Names(employees))
    ensures r.Ok? ==> r.value.duplicates <= r.value.unique
  {
    match GroupingCount(Names(employees))
    case Throws(e) => Throws(e)
    case Ok(counts) =>
      Ok(Partition(set k | k in counts && counts[k] > 1 :: NonNull(k),
                   set k | k in counts :: NonNull(k)))
  }

  /** Strategy 3: keep the names whose `Collections.frequency` in the list is
      greater than one (duplicates) or at least one ("unique"). */
  function ByFrequency(employees: seq<Employee>): (r: Partition)
    ensures r.unique == Elements(Names(employees))
    ensures r.duplicates <= r.unique
  {
    var names := Names(employees);
    Partition(set n | n in names && Frequency(names, n) > 1,
              set n | n in names && Frequency(names, n) >= 1)
  }

  /** All three strategies agree on the duplicate names and on the distinct
      names, whenever the grouping strategy does not throw; the first
      strategy's list, as a set, is the same set. */
  lemma StrategiesAgree(employees: seq<Employee>)
    ensures Elements(RepeatedOccurrences(Names(employees))) == ByFrequency(employees).duplicates
    ensures ByGrouping(employees).Ok? ==> ByGrouping(employees).value == ByFrequency(employees)
  {
    var names := Names(employees);
    RepeatedOccurrencesAreRepeatedNames(names);
    var g := GroupingCount(names);
    if g.Ok? {
      var counts := g.value;
      var p := ByGrouping(employees).value;
      var f := ByFrequency(employees);
      forall n | n in f.duplicates ensures n in p.duplicates {
        assert n.NonNull? && n.value in counts;
      }
      forall n | n in f.unique ensures n in p.unique {
        assert n.NonNull? && n.value in counts;
      }
    }
  }

  /** The employees' ages never influence a strategy. */
  lemma OnlyNamesMatter(a: seq<Employee>, b: seq<Employee>)
    requires Names(a) == Names(b)
    ensures ByFrequency(a) == ByFrequency(b)
    ensures ByGrouping(a) == ByGrouping(b)
    ensures RepeatedOccurrences(Names(a)) == RepeatedOccurrences(Names(b))
  {
  }

  function SampleEmployees(): seq<Employee> {
    [Employee(NonNull("Sid"), 1), Employee(NonNull("Vij"), 10),
     Employee(NonNull("Raj"), 2), Employee(NonNull("Sid"), 4)]
  }

  lemma SampleNames()
    ensures Names(SampleEmployees()) == [NonNull("Sid"), NonNull("Vij"), NonNull("Raj"), NonNull("Sid")]
  {
  }

  /** Over a list `a, b, c, a` of three different names, only the second
      `a` is a repeat. */
  lemma RepeatedOfPattern<T>(a: T, b: T, c: T)
    requires a != b && a != c && b != c
    ensures RepeatedOccurrences([a, b, c, a]) == [a]
  {
    var s1, s2, s3 := [a], [a, b], [a, b, c];
    assert RepeatedOccurrences(s1) == [] by {
      assert s1[..0] == [];
    }
    assert RepeatedOccurrences(s2) == [] by {
      assert s2[..1] == s1;
    }
    assert RepeatedOccurrences(s3) == [] by {
      assert s3[..2] == s2;
    }
    assert [a, b, c, a][..3] == s3;
  }

  predicate HasSampleNames(employees: seq<Employee>) {
    Names(employees) == [NonNull("Sid"), NonNull("Vij"), NonNull("Raj"), NonNull("Sid")]
  }

  lemma SampleNamesRepeated(employees: seq<Employee>)
    requires HasSampleNames(employees)
    ensures RepeatedOccurrences(Names(employees)) == [NonNull("Sid")]
  {
    var sid, vij, raj := NonNull("Sid"), NonNull("Vij"), NonNull("Raj");
    assert sid != vij && sid != raj && vij != raj by {
      assert "Sid"[0] != "Vij"[0] && "Sid"[0] != "Raj"[0] && "Vij"[0] != "Raj"[0];
    }
    RepeatedOfPattern(sid, vij, raj);
  }

  lemma SampleNamesByFrequency(employees: seq<Employee>)
    requires HasSampleNames(employees)
    ensures ByFrequency(employees)
         == Partition({NonNull("Sid")}, {NonNull("Sid"), NonNull("Vij"), NonNull("Raj")})
  {
    var sid, vij, raj := NonNull("Sid"), NonNull("Vij"), NonNull("Raj");
    var names := Names(employees);
    assert ByFrequency(employees).duplicates == {sid} by {
      SampleNamesRepeated(employees);
      StrategiesAgree(employees);
      assert Elements([sid]) == {sid} by {
        assert sid in [sid];
      }
    }
    assert ByFrequency(employees).unique == {sid, vij, raj} by {
      assert names[0] == sid && names[1] == vij && names[2] == raj;
    }
  }

  lemma SampleNamesByGrouping(employees: seq<Employee>)
    requires HasSampleNames(employees)
    ensures ByGrouping(employees) == Ok(ByFrequency(employees))
  {
    assert Null !in Names(employees);
    StrategiesAgree(employees);
  }

  /** On the list in `main`, "Sid" is the only duplicate and there are three
      distinct names. */
  lemma SampleDuplicates()
    ensures RepeatedOccurrences(Names(SampleEmployees())) == [NonNull("Sid")]
    ensures ByFrequency(SampleEmployees())
         == Partition({NonNull("Sid")}, {NonNull("Sid"), NonNull("Vij"), NonNull("Raj")})
    ensures ByGrouping(SampleEmployees()) == Ok(ByFrequency(SampleEmployees()))
  {
    SampleNames();
    SampleNamesRepeated(SampleEmployees());
    SampleNamesByFrequency(SampleEmployees());
    SampleNamesByGrouping(SampleEmployees());
  }
}
