/** `Student`: a record `(id, name, age)` whose natural order compares the
    ages with `Integer.compare`. */
module Students {
  import opened JavaLang

  /** `name` is a `String` and may be null; `id` and `age` are `int`s. */
  datatype Student = Student(id: Int32, name: Nullable<string>, age: Int32)

  /** `s.compareTo(o)`: reading `o.age` on a null `o` throws; otherwise the
      result orders the two ages, whatever their size. */
  function CompareTo(s: Student, o: Nullable<Student>): (r: Result<int>)
    ensures r.Throws? <==> o.Null?
    ensures r.Throws? ==> r.exception == NullPointerException
    ensures r.Ok? ==> (r.value < 0 <==> s.age < o.value.age)
    ensures r.Ok? ==> (r.value == 0 <==> s.age == o.value.age)
    ensures r.Ok? ==> (r.value > 0 <==> s.age > o.value.age)
  {
    match o
    case Null => Throws(NullPointerException)
    case NonNull(t) => Ok(IntegerCompare(s.age, t.age))
  }

  /** The natural order is a total preorder on students: reflexive,
      antisymmetric in sign, and transitive. */
  lemma CompareToIsTotalPreorder(a: Student, b: Student, c: Student)
    ensures CompareTo(a, NonNull(a)) == Ok(0)
    ensures Sign(CompareTo(a, NonNull(b)).value) == -Sign(CompareTo(b, NonNull(a)).value)
    ensures CompareTo(a, NonNull(b)).value <= 0 && CompareTo(b, NonNull(c)).value <= 0 ==>
              CompareTo(a, NonNull(c)).value <= 0
  {
  }

  /** Only the age takes part: students of equal age compare as 0 although
      the record's own `equals` tells them apart. */
  lemma CompareToIgnoresIdAndName(a: Student, b: Student)
    ensures a.age == b.age ==> CompareTo(a, NonNull(b)) == Ok(0)
    ensures var s, t := Student(1, NonNull("Sid"), 24), Student(2, NonNull("Raj"), 24);
            s != t && CompareTo(s, NonNull(t)) == Ok(0)
  {
  }
}
