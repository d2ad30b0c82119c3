/** The comparators `ComparatorExample` and `ComparableExample` sort students
    with, and `Stream.sorted(...)` as a stable sort driven by them; also the
    natural-order sort of `ComparableExample`'s integers. */
module Comparators {
  import opened JavaLang
  import opened JavaUtil
  import opened Students
  import opened Sorting

  /** A `Comparator<Student>`. */
  datatype Order =
      /** `sorted()` with no argument: `Student.compareTo`. */
    | Natural
      /** `new AgeComparator()`: `o1.age() - o2.age()` in 32 bits. */
    | AgeComparator
      /** The commented-out alternative `Integer.compare(o1.age(), o2.age())`. */
    | AgeByIntegerCompare
      /** `(s1, s2) -> s1.name().compareTo(s2.name())`. */
    | NameLambda
      /** `Comparator.comparing(key)` for a `String`-valued key. */
    | Comparing(key: Student -> Nullable<string>)
      /** `base.reversed()`. */
    | Reversed(base: Order)

  /** `a.compareTo(b)` on two `String` references: a null receiver throws,
      and so does a null argument. */
  function NameCompare(a: Nullable<string>, b: Nullable<string>): (r: Result<int>)
    ensures r.Throws? <==> a.Null? || b.Null?
    ensures r.Throws? ==> r.exception == NullPointerException
    ensures r.Ok? ==> (r.value == 0 <==> a == b)
  {
    if a.Null? || b.Null? then Throws(NullPointerException)
    else
      StringCompareToZeroIffEqual(a.value, b.value);
      Ok(StringCompareTo(a.value, b.value))
  }

  /** The elements on which a comparator throws whatever they are compared
      with: those whose `String` key is null. */
  predicate Poisoned(o: Order, a: Student) {
    match o
    case Natural => false
    case AgeComparator => false
    case AgeByIntegerCompare => false
    case NameLambda => a.name.Null?
    case Comparing(key) => key(a).Null?
    case Reversed(base) => Poisoned(base, a)
  }

  /** `o.compare(a, b)`. */
  function Compare(o: Order, a: Student, b: Student): (r: Result<int>)
    ensures r.Throws? <==> Poisoned(o, a) || Poisoned(o, b)
    ensures r.Throws? ==> r.exception == NullPointerException
  {
    match o
    case Natural => CompareTo(a, NonNull(b))
    case AgeComparator => Ok(Sub32(a.age, b.age))
    case AgeByIntegerCompare => Ok(IntegerCompare(a.age, b.age))
    case NameLambda => NameCompare(a.name, b.name)
    case Comparing(key) => NameCompare(key(a), key(b))
    case Reversed(base) => Compare(base, b, a)
  }

  /** The value of a comparison that does not throw (0 otherwise; a sort
      never reaches that case, see `StreamSorted`). */
  function CmpValue(o: Order, a: Student, b: Student): int {
    match Compare(o, a, b)
    case Ok(v) => v
    case Throws(_) => 0
  }

  /** The comparator as the function value a sort is driven by. */
  function Comparator(o: Order): (Student, Student) -> int {
    (a: Student, b: Student) => CmpValue(o, a, b)
  }

  /** When a comparator keeps its contract on `S`: a subtraction must not
      overflow, and a `String` key must not be null. */
  predicate Sound(o: Order, S: set<Student>) {
    match o
    case Natural => true
    case AgeComparator => forall a, b | a in S && b in S :: FitsInt32(a.age - b.age)
    case AgeByIntegerCompare => true
    case NameLambda => forall a | a in S :: a.name.NonNull?
    case Comparing(key) => forall a | a in S :: key(a).NonNull?
    case Reversed(base) => Sound(base, S)
  }

  lemma {:induction false} SoundNotPoisoned(o: Order, S: set<Student>)
    requires Sound(o, S)
    ensures forall a | a in S :: !Poisoned(o, a)
  {
    if o.Reversed? {
      SoundNotPoisoned(o.base, S);
    }
  }

  lemma StringKeysValid(ka: string, kb: string, kc: string)
    ensures Sign(StringCompareTo(ka, kb)) == -Sign(StringCompareTo(kb, ka))
    ensures StringCompareTo(ka, kb) <= 0 && StringCompareTo(kb, kc) <= 0 ==> StringCompareTo(ka, kc) <= 0
  {
    StringCompareToAntisymmetric(ka, kb);
    if StringCompareTo(ka, kb) <= 0 && StringCompareTo(kb, kc) <= 0 {
      StringCompareToTransitive(ka, kb, kc);
    }
  }

  /** Every comparator of the examples keeps the comparator contract on any
      set of students where it is sound; `Student.compareTo` and
      `Integer.compare` are sound everywhere. */
  lemma {:induction false} SoundIsValid(o: Order, S: set<Student>)
    requires Sound(o, S)
    ensures ValidOn(Comparator(o), S)
  {
    match o
    case Natural => NaturalValid(S);
    case AgeComparator => AgeComparatorValid(S);
    case AgeByIntegerCompare => IntegerCompareValid(S);
    case NameLambda => NameLambdaValid(S);
    case Comparing(key) => ComparingValid(key, S);
    case Reversed(base) =>
      SoundIsValid(base, S);
      SoundNotPoisoned(base, S);
      ReversedValid(base, S);
  }

  lemma NaturalValid(S: set<Student>)
    ensures ValidOn(Comparator(Natural), S)
  {
    var c := Comparator(Natural);
    forall a, b, x | a in S && b in S && x in S
      ensures Antisymmetric(c, a, b) && Transitive(c, a, b, x)
    {
    }
  }

  lemma AgeComparatorValid(S: set<Student>)
    requires Sound(AgeComparator, S)
    ensures ValidOn(Comparator(AgeComparator), S)
  {
    var c := Comparator(AgeComparator);
    forall a, b | a in S && b in S ensures Antisymmetric(c, a, b) {
      SubtractionSignExact(a.age, b.age);
      SubtractionSignExact(b.age, a.age);
    }
    forall a, b, x | a in S && b in S && x in S ensures Transitive(c, a, b, x) {
      SubtractionSignExact(a.age, b.age);
      SubtractionSignExact(b.age, x.age);
      SubtractionSignExact(a.age, x.age);
    }
  }

  lemma IntegerCompareValid(S: set<Student>)
    ensures ValidOn(Comparator(AgeByIntegerCompare), S)
  {
    var c := Comparator(AgeByIntegerCompare);
    forall a, b, x | a in S && b in S && x in S
      ensures Antisymmetric(c, a, b) && Transitive(c, a, b, x)
    {
    }
  }

  lemma NameLambdaValid(S: set<Student>)
    requires Sound(NameLambda, S)
    ensures ValidOn(Comparator(NameLambda), S)
  {
    var c := Comparator(NameLambda);
    forall a, b, x | a in S && b in S && x in S
      ensures Antisymmetric(c, a, b) && Transitive(c, a, b, x)
    {
      StringKeysValid(a.name.value, b.name.value, x.name.value);
    }
  }

  lemma ComparingValid(key: Student -> Nullable<string>, S: set<Student>)
    requires Sound(Comparing(key), S)
    ensures ValidOn(Comparator(Comparing(key)), S)
  {
    var c := Comparator(Comparing(key));
    forall a, b, x | a in S && b in S && x in S
      ensures Antisymmetric(c, a, b) && Transitive(c, a, b, x)
    {
      StringKeysValid(key(a).value, key(b).value, key(x).value);
    }
  }

  lemma ReversedValid(base: Order, S: set<Student>)
    requires ValidOn(Comparator(base), S)
    requires forall a | a in S :: !Poisoned(base, a)
    ensures ValidOn(Comparator(Reversed(base)), S)
  {
    var c := Comparator(Reversed(base));
    var bc := Comparator(base);
    forall a, b, x | a in S && b in S && x in S
      ensures Antisymmetric(c, a, b) && Transitive(c, a, b, x)
    {
      assert Antisymmetric(bc, b, a) && Transitive(bc, x, b, a);
    }
  }

  /** `list.stream().sorted(o).toList()`: a list of fewer than two elements
      is returned without any comparison; otherwise every element takes part
      in some comparison, so an element the comparator throws on makes the
      sort throw. */
  function StreamSorted(o: Order, s: seq<Student>): Result<seq<Student>> {
    if |s| >= 2 && exists a | a in s :: Poisoned(o, a) then Throws(NullPointerException)
    else Ok(InsertionSort(Comparator(o), s))
  }

  /** `stream().sorted(o).toList()` throws exactly when the list has two or
      more students and one of them has a null key; otherwise it returns a
      permutation of the list, and, when the comparator is sound on the
      list, one in non-decreasing order in which equally ranked students
      keep their order. */
  lemma StreamSortedSpec(o: Order, s: seq<Student>)
    ensures StreamSorted(o, s).Throws? <==> |s| >= 2 && exists a | a in s :: Poisoned(o, a)
    ensures StreamSorted(o, s).Ok? ==> multiset(StreamSorted(o, s).value) == multiset(s)
    ensures Sound(o, Elements(s)) ==> StreamSorted(o, s).Ok?
    ensures Sound(o, Elements(s)) ==> Sorted(Comparator(o), StreamSorted(o, s).value)
    ensures Sound(o, Elements(s)) ==>
              forall x | x in s :: EqualRanked(Comparator(o), StreamSorted(o, s).value, x)
                                == EqualRanked(Comparator(o), s, x)
  {
    var c := Comparator(o);
    SortPermutation(c, s);
    if Sound(o, Elements(s)) {
      SoundSortSpec(o, s);
    }
  }

  lemma SoundSortSpec(o: Order, s: seq<Student>)
    requires Sound(o, Elements(s))
    ensures StreamSorted(o, s) == Ok(InsertionSort(Comparator(o), s))
    ensures Sorted(Comparator(o), InsertionSort(Comparator(o), s))
    ensures forall x | x in s :: EqualRanked(Comparator(o), InsertionSort(Comparator(o), s), x)
                              == EqualRanked(Comparator(o), s, x)
  {
    var c := Comparator(o);
    assert !exists a | a in s :: Poisoned(o, a) by {
      SoundNotPoisoned(o, Elements(s));
    }
    SoundIsValid(o, Elements(s));
    SortSorted(c, s);
    forall x | x in s ensures EqualRanked(c, InsertionSort(c, s), x) == EqualRanked(c, s, x) {
      assert Elements(s) + {x} == Elements(s);
      SortStable(c, s, x);
    }
  }

  lemma ReversedSwaps(o: Order, a: Student, b: Student)
    ensures Comparator(Reversed(o))(a, b) == Comparator(o)(b, a)
  {
  }

  /** `Comparator.comparing(Student::name)`. */
  function ByName(): Order {
    Comparing((st: Student) => st.name)
  }

  /** Sorting by `Integer.compare` on the ages (the commented-out
      alternative) always succeeds and yields a permutation in
      non-decreasing age order in which students of equal age keep their
      order. */
  lemma AgeByIntegerCompareSortsByAge(s: seq<Student>)
    ensures StreamSorted(AgeByIntegerCompare, s).Ok?
    ensures multiset(StreamSorted(AgeByIntegerCompare, s).value) == multiset(s)
    ensures var r := StreamSorted(AgeByIntegerCompare, s).value;
            forall i, j | 0 <= i < j < |r| :: r[i].age <= r[j].age
    ensures var r := StreamSorted(AgeByIntegerCompare, s).value;
            forall x | x in s :: EqualRanked(Comparator(AgeByIntegerCompare), r, x)
                              == EqualRanked(Comparator(AgeByIntegerCompare), s, x)
  {
    StreamSortedSpec(AgeByIntegerCompare, s);
    var r := StreamSorted(AgeByIntegerCompare, s).value;
    forall i, j | 0 <= i < j < |r| ensures r[i].age <= r[j].age {
      assert Comparator(AgeByIntegerCompare)(r[i], r[j]) <= 0;
    }
  }

  /** `sorted()` on students (the natural order) gives the same list as
      sorting by `Integer.compare` on the ages. */
  lemma NaturalSortIsAgeSort(s: seq<Student>)
    ensures StreamSorted(Natural, s) == StreamSorted(AgeByIntegerCompare, s)
  {
    SortDependsOnlyOnLess(Comparator(Natural), Comparator(AgeByIntegerCompare), s);
  }

  /** `Integer`'s natural order, which `sorted()` uses on a `List<Integer>`. */
  function IntegerOrder(): (Int32, Int32) -> int {
    (a: Int32, b: Int32) => IntegerCompare(a, b)
  }

  /** `integers.stream().sorted().toList()`. `List.of` holds no null, so
      the sort never throws. */
  function SortIntegers(s: seq<Int32>): seq<Int32> {
    InsertionSort(IntegerOrder(), s)
  }

  /** Sorting integers gives a permutation in non-decreasing order. */
  lemma SortIntegersSpec(s: seq<Int32>)
    ensures multiset(SortIntegers(s)) == multiset(s)
    ensures forall i, j | 0 <= i < j < |SortIntegers(s)| :: SortIntegers(s)[i] <= SortIntegers(s)[j]
  {
    var c := IntegerOrder();
    SortPermutation(c, s);
    forall a, b, x | a in Elements(s) && b in Elements(s) && x in Elements(s)
      ensures Antisymmetric(c, a, b) && Transitive(c, a, b, x)
    {
    }
    SortSorted(c, s);
    var r := SortIntegers(s);
    forall i, j | 0 <= i < j < |r| ensures r[i] <= r[j] {
      assert c(r[i], r[j]) <= 0;
    }
  }

  lemma InsertionSortSnoc<T>(c: (T, T) -> int, s: seq<T>, x: T)
    ensures InsertionSort(c, s + [x]) == Insert(c, InsertionSort(c, s), x)
  {
    assert (s + [x])[..|s|] == s;
  }

  /** Five integers whose order is second, third, first, fourth, fifth
      sort into that order. */
  lemma SortIntegersOfFive(x1: Int32, x2: Int32, x3: Int32, x4: Int32, x5: Int32)
    requires x2 < x3 < x1 < x4 < x5
    ensures SortIntegers([x1, x2, x3, x4, x5]) == [x2, x3, x1, x4, x5]
  {
    var c := IntegerOrder();
    var s0: seq<Int32> := [];
    var s1 := s0 + [x1];
    var s2 := s1 + [x2];
    var s3 := s2 + [x3];
    var s4 := s3 + [x4];
    assert InsertionSort(c, s1) == [x1] by {
      InsertionSortSnoc(c, s0, x1);
    }
    assert InsertionSort(c, s2) == [x2, x1] by {
      InsertionSortSnoc(c, s1, x2);
      assert c(x2, x1) < 0;
    }
    assert InsertionSort(c, s3) == [x2, x3, x1] by {
      InsertionSortSnoc(c, s2, x3);
      assert c(x3, x2) > 0 && c(x3, x1) < 0;
      assert Insert(c, [x2, x1], x3) == [x2] + Insert(c, [x1], x3);
    }
    assert InsertionSort(c, s4) == [x2, x3, x1, x4] by {
      InsertionSortSnoc(c, s3, x4);
      assert c(x4, x2) > 0 && c(x4, x3) > 0 && c(x4, x1) > 0;
      assert Insert(c, [x2, x3, x1], x4) == [x2] + Insert(c, [x3, x1], x4);
      assert Insert(c, [x3, x1], x4) == [x3] + Insert(c, [x1], x4);
      assert Insert(c, [x1], x4) == [x1] + Insert(c, [], x4);
    }
    InsertionSortSnoc(c, s4, x5);
    assert c(x5, x2) > 0 && c(x5, x3) > 0 && c(x5, x1) > 0 && c(x5, x4) > 0;
    assert Insert(c, [x2, x3, x1, x4], x5) == [x2] + Insert(c, [x3, x1, x4], x5);
    assert Insert(c, [x3, x1, x4], x5) == [x3] + Insert(c, [x1, x4], x5);
    assert Insert(c, [x1, x4], x5) == [x1] + Insert(c, [x4], x5);
    assert Insert(c, [x4], x5) == [x4] + Insert(c, [], x5);
    assert s4 + [x5] == [x1, x2, x3, x4, x5];
  }

  /** The integers of `ComparableExample` sort as 3, 4, 12, 53, 57. */
  lemma SampleIntegers()
    ensures SortIntegers([12, 3, 4, 53, 57]) == [3, 4, 12, 53, 57]
  {
    SortIntegersOfFive(12, 3, 4, 53, 57);
  }

  /** `AgeComparator` as written gives the same list as the `Integer.compare`
      version whenever no difference of two ages overflows, in particular
      for non-negative ages. */
  lemma AgeComparatorAgreesWhenNoOverflow(s: seq<Student>)
    requires forall a, b | a in s && b in s :: FitsInt32(a.age - b.age)
    ensures StreamSorted(AgeComparator, s) == StreamSorted(AgeByIntegerCompare, s)
    ensures StreamSorted(Reversed(AgeComparator), s) == StreamSorted(Reversed(AgeByIntegerCompare), s)
  {
    forall a, b | a in s && b in s
      ensures CmpValue(AgeComparator, a, b) < 0 <==> CmpValue(AgeByIntegerCompare, a, b) < 0
      ensures CmpValue(Reversed(AgeComparator), a, b) < 0 <==> CmpValue(Reversed(AgeByIntegerCompare), a, b) < 0
    {
      SubtractionSignExact(a.age, b.age);
      SubtractionSignExact(b.age, a.age);
      ReversedSwaps(AgeComparator, a, b);
      ReversedSwaps(AgeByIntegerCompare, a, b);
    }
    SortDependsOnlyOnLess(Comparator(AgeComparator), Comparator(AgeByIntegerCompare), s);
    SortDependsOnlyOnLess(Comparator(Reversed(AgeComparator)), Comparator(Reversed(AgeByIntegerCompare)), s);
  }

  /** With ages `Integer.MIN_VALUE`, 0 and `Integer.MAX_VALUE`,
      `AgeComparator` ranks the first below the second and the second below
      the third but the first above the third; and on the list
      `[age 1, age Integer.MIN_VALUE]` the sort leaves the larger age first. */
  lemma AgeComparatorMisorders()
    ensures var lo, mid, hi := Student(1, Null, IntMin), Student(2, Null, 0), Student(3, Null, IntMax);
            Compare(AgeComparator, lo, mid) == Ok(IntMin)
            && Compare(AgeComparator, mid, hi) == Ok(-IntMax)
            && Compare(AgeComparator, lo, hi) == Ok(1)
            && !Transitive(Comparator(AgeComparator), lo, mid, hi)
    ensures var a, b := Student(1, Null, 1), Student(2, Null, IntMin);
            StreamSorted(AgeComparator, [a, b]) == Ok([a, b]) && a.age > b.age
  {
    var a, b := Student(1, Null, 1), Student(2, Null, IntMin);
    assert Compare(AgeComparator, b, a) == Ok(IntMax);
    assert Comparator(AgeComparator)(b, a) == IntMax;
    assert InsertionSort(Comparator(AgeComparator), [a]) == [a] by {
      assert [a][..0] == [];
    }
    assert Insert(Comparator(AgeComparator), [a], b) == [a] + Insert(Comparator(AgeComparator), [], b);
    assert InsertionSort(Comparator(AgeComparator), [a, b]) == Insert(Comparator(AgeComparator), [a], b) by {
      assert [a, b][..1] == [a];
    }
    assert Insert(Comparator(AgeComparator), [], b) == [b];
    assert InsertionSort(Comparator(AgeComparator), [a, b]) == [a, b];
    assert forall x :: !Poisoned(AgeComparator, x);
    assert [a, b][..1] == [a];
  }

  /** The corrected comparator `Integer.compare` on ages, reversed, sorts
      into non-increasing age order on every list. */
  lemma ReversedAgeSortDescending(s: seq<Student>)
    ensures StreamSorted(Reversed(AgeByIntegerCompare), s).Ok?
    ensures multiset(StreamSorted(Reversed(AgeByIntegerCompare), s).value) == multiset(s)
    ensures var r := StreamSorted(Reversed(AgeByIntegerCompare), s).value;
            forall i, j | 0 <= i < j < |r| :: r[i].age >= r[j].age
  {
    StreamSortedSpec(Reversed(AgeByIntegerCompare), s);
    assert Sound(Reversed(AgeByIntegerCompare), Elements(s));
    var r := StreamSorted(Reversed(AgeByIntegerCompare), s).value;
    forall i, j | 0 <= i < j < |r| ensures r[i].age >= r[j].age {
      assert Comparator(Reversed(AgeByIntegerCompare))(r[i], r[j]) <= 0;
      ReversedSwaps(AgeByIntegerCompare, r[i], r[j]);
    }
  }

  /** `new AgeComparator().reversed()` as written sorts into non-increasing
      age order whenever no difference of two ages overflows. */
  lemma ReversedAgeComparatorSortsDescending(s: seq<Student>)
    requires forall a, b | a in s && b in s :: FitsInt32(a.age - b.age)
    ensures StreamSorted(Reversed(AgeComparator), s).Ok?
    ensures multiset(StreamSorted(Reversed(AgeComparator), s).value) == multiset(s)
    ensures var r := StreamSorted(Reversed(AgeComparator), s).value;
            forall i, j | 0 <= i < j < |r| :: r[i].age >= r[j].age
  {
    AgeComparatorAgreesWhenNoOverflow(s);
    ReversedAgeSortDescending(s);
  }

  /** With an overflowing difference the reversed `AgeComparator` fails:
      on `[age Integer.MIN_VALUE, age 1]` it compares 1 against
      `MIN_VALUE` as `MIN_VALUE - 1`, which wraps to `MAX_VALUE`, and leaves
      the smaller age first. */
  lemma ReversedAgeComparatorMisorders()
    ensures var a, b := Student(1, Null, IntMin), Student(2, Null, 1);
            StreamSorted(Reversed(AgeComparator), [a, b]) == Ok([a, b]) && a.age < b.age
  {
    var a, b := Student(1, Null, IntMin), Student(2, Null, 1);
    var d := Comparator(Reversed(AgeComparator));
    assert Compare(Reversed(AgeComparator), b, a) == Ok(IntMax);
    assert d(b, a) == IntMax;
    assert InsertionSort(d, [a]) == [a] by {
      assert [a][..0] == [];
    }
    assert InsertionSort(d, [a, b]) == Insert(d, [a], b) by {
      assert [a, b][..1] == [a];
    }
    assert Insert(d, [a], b) == [a] + Insert(d, [], b);
    assert Insert(d, [], b) == [b];
    assert InsertionSort(d, [a, b]) == [a, b];
    assert forall x :: !Poisoned(Reversed(AgeComparator), x);
    assert [a, b][..1] == [a];
  }

  /** The lambda name comparator and `Comparator.comparing(Student::name)`
      give the same outcome on every list, null names included. */
  lemma NameSortsAgree(s: seq<Student>)
    ensures StreamSorted(NameLambda, s) == StreamSorted(ByName(), s)
  {
    forall a, b | a in s && b in s
      ensures CmpValue(NameLambda, a, b) < 0 <==> CmpValue(ByName(), a, b) < 0
    {
    }
    SortDependsOnlyOnLess(Comparator(NameLambda), Comparator(ByName()), s);
    assert (exists a | a in s :: Poisoned(NameLambda, a)) <==> (exists a | a in s :: Poisoned(ByName(), a));
  }

  /** With no null name, sorting by name succeeds and yields a permutation
      in non-decreasing `String.compareTo` order of the names. */
  lemma NameSortOrdersNames(s: seq<Student>)
    requires forall a | a in s :: a.name.NonNull?
    ensures StreamSorted(NameLambda, s).Ok?
    ensures multiset(StreamSorted(NameLambda, s).value) == multiset(s)
    ensures var r := StreamSorted(NameLambda, s).value;
            && (forall i | 0 <= i < |r| :: r[i].name.NonNull?)
            && forall i, j | 0 <= i < j < |r| :: StringCompareTo(r[i].name.value, r[j].name.value) <= 0
  {
    StreamSortedSpec(NameLambda, s);
    var r := StreamSorted(NameLambda, s).value;
    InMultiset(r, s);
    forall i | 0 <= i < |r| ensures r[i].name.NonNull? {
      assert r[i] in r;
    }
    forall i, j | 0 <= i < j < |r|
      ensures StringCompareTo(r[i].name.value, r[j].name.value) <= 0
    {
      assert r[i] in r && r[j] in r;
      assert Comparator(NameLambda)(r[i], r[j]) <= 0;
    }
  }

  const Sid := Student(1, NonNull("Sid"), 24)
  const Raj := Student(2, NonNull("Raj"), 22)
  const Viju := Student(3, NonNull("Viju"), 25)

  /** The students of `main`, in insertion order. */
  function SampleStudents(): seq<Student> {
    [Sid, Raj, Viju]
  }

  lemma SampleSortSteps(c: (Student, Student) -> int)
    ensures InsertionSort(c, SampleStudents())
         == Insert(c, Insert(c, [Sid], Raj), Viju)
  {
    var s := SampleStudents();
    assert s[..2] == [Sid, Raj] && s[2] == Viju;
    assert [Sid, Raj][..1] == [Sid] && [Sid, Raj][1] == Raj;
    assert [Sid][..0] == [];
    assert InsertionSort(c, [Sid]) == Insert(c, [], Sid) == [Sid];
    assert InsertionSort(c, [Sid, Raj]) == Insert(c, [Sid], Raj);
  }

  lemma SampleAgeSorts()
    ensures StreamSorted(AgeComparator, SampleStudents()) == Ok([Raj, Sid, Viju])
    ensures StreamSorted(Reversed(AgeComparator), SampleStudents()) == Ok([Viju, Sid, Raj])
  {
    var c, d := Comparator(AgeComparator), Comparator(Reversed(AgeComparator));
    SampleSortSteps(c);
    SampleSortSteps(d);
    assert c(Raj, Sid) == -2 && c(Viju, Raj) == 3 && c(Viju, Sid) == 1;
    assert d(Raj, Sid) == 2 && d(Viju, Sid) == -1;
    assert Insert(c, [Sid], Raj) == [Raj, Sid];
    assert Insert(c, [Raj, Sid], Viju) == [Raj] + Insert(c, [Sid], Viju);
    assert Insert(c, [Sid], Viju) == [Sid] + Insert(c, [], Viju);
    assert Insert(c, [], Viju) == [Viju];
    assert Insert(c, [Sid], Viju) == [Sid, Viju];
    assert Insert(c, [Raj, Sid], Viju) == [Raj, Sid, Viju];
    assert InsertionSort(c, SampleStudents()) == [Raj, Sid, Viju];
    assert forall a :: !Poisoned(AgeComparator, a) && !Poisoned(Reversed(AgeComparator), a);
    assert StreamSorted(AgeComparator, SampleStudents()) == Ok(InsertionSort(c, SampleStudents()));
    assert StreamSorted(Reversed(AgeComparator), SampleStudents()) == Ok(InsertionSort(d, SampleStudents()));
    assert Insert(d, [Sid], Raj) == [Sid] + Insert(d, [], Raj);
    assert Insert(d, [], Raj) == [Raj];
    assert Insert(d, [Sid], Raj) == [Sid, Raj];
    assert Insert(d, [Sid, Raj], Viju) == [Viju, Sid, Raj];
    assert InsertionSort(d, SampleStudents()) == [Viju, Sid, Raj];
  }

  lemma SampleNameSorts()
    ensures StreamSorted(NameLambda, SampleStudents()) == Ok([Raj, Sid, Viju])
  {
    var c := Comparator(NameLambda);
    SampleSortSteps(c);
    assert StringCompareTo("Raj", "Sid") < 0 && StringCompareTo("Viju", "Raj") > 0;
    assert StringCompareTo("Viju", "Sid") > 0;
    assert c(Raj, Sid) < 0 && c(Viju, Raj) > 0 && c(Viju, Sid) > 0;
    assert Insert(c, [Sid], Raj) == [Raj, Sid];
    assert Insert(c, [Raj, Sid], Viju) == [Raj] + Insert(c, [Sid], Viju);
    assert Insert(c, [Sid], Viju) == [Sid] + Insert(c, [], Viju);
    assert Insert(c, [], Viju) == [Viju];
    assert Insert(c, [Sid], Viju) == [Sid, Viju];
    assert Insert(c, [Raj, Sid], Viju) == [Raj, Sid, Viju];
    assert InsertionSort(c, SampleStudents()) == [Raj, Sid, Viju];
    assert forall a | a in SampleStudents() :: !Poisoned(NameLambda, a);
    assert StreamSorted(NameLambda, SampleStudents()) == Ok(InsertionSort(c, SampleStudents()));
  }

  /** By age the students of `main` come out Raj, Sid, Viju, and reversed
      Viju, Sid, Raj; by name Raj, Sid, Viju with either name comparator;
      and `sorted()` agrees with the age order. */
  lemma SampleSorts()
    ensures StreamSorted(AgeComparator, SampleStudents()) == Ok([Raj, Sid, Viju])
    ensures StreamSorted(Reversed(AgeComparator), SampleStudents()) == Ok([Viju, Sid, Raj])
    ensures StreamSorted(Natural, SampleStudents()) == Ok([Raj, Sid, Viju])
    ensures StreamSorted(NameLambda, SampleStudents()) == Ok([Raj, Sid, Viju])
    ensures StreamSorted(ByName(), SampleStudents()) == Ok([Raj, Sid, Viju])
  {
    var s := SampleStudents();
    SampleAgeSorts();
    SampleNameSorts();
    NameSortsAgree(s);
    NaturalSortIsAgeSort(s);
    AgeComparatorAgreesWhenNoOverflow(s);
  }
}
