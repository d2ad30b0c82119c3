/** `User` from the group-by example: equality and hash code by name only,
    natural order by id (by subtraction as written), and a fluent builder. */
module Users {
  import opened JavaLang

  /** `id` is an `int`; `name` and `age` are `String`s and may be null. */
  datatype User = User(id: Int32, name: Nullable<string>, age: Nullable<string>)

  /** The non-null argument of `equals(Object)` / `compareTo(Object)`: a
      `User`, or an object of any other class. */
  datatype Obj = AUser(user: User) | NotAUser

  /** `User.equals(o)`: false for null and for other classes, otherwise
      `Objects.equals` on the names. */
  function Equals(u: User, o: Nullable<Obj>): bool {
    match o
    case Null => false
    case NonNull(NotAUser) => false
    case NonNull(AUser(v)) => ObjectsEquals(u.name, v.name)
  }

  /** `equals` looks at the name alone: it holds exactly for a user with the
      same (possibly null) name, whatever the ids and ages. */
  lemma EqualsByNameOnly(u: User, o: Nullable<Obj>)
    ensures Equals(u, o) <==> o.NonNull? && o.value.AUser? && o.value.user.name == u.name
  {
    if o.NonNull? && o.value.AUser? {
      ObjectsEqualsIsEquality(u.name, o.value.user.name);
    }
  }

  /** `equals` is reflexive, symmetric and transitive on users. */
  lemma EqualsIsEquivalence(a: User, b: User, c: User)
    ensures Equals(a, NonNull(AUser(a)))
    ensures Equals(a, NonNull(AUser(b))) <==> Equals(b, NonNull(AUser(a)))
    ensures Equals(a, NonNull(AUser(b))) && Equals(b, NonNull(AUser(c))) ==> Equals(a, NonNull(AUser(c)))
  {
    EqualsByNameOnly(a, NonNull(AUser(a)));
    EqualsByNameOnly(a, NonNull(AUser(b)));
    EqualsByNameOnly(b, NonNull(AUser(a)));
    EqualsByNameOnly(b, NonNull(AUser(c)));
    EqualsByNameOnly(a, NonNull(AUser(c)));
  }

  /** `User.hashCode()`: `Objects.hashCode(name)`. */
  function HashCode(u: User): Int32 {
    ObjectsHashCode(u.name)
  }

  /** Equal users have equal hash codes, as hash-based collections need. */
  lemma HashCodeConsistentWithEquals(a: User, b: User)
    requires Equals(a, NonNull(AUser(b)))
    ensures HashCode(a) == HashCode(b)
  {
    EqualsByNameOnly(a, NonNull(AUser(b)));
  }

  /** `User.compareTo(o)` as written: cast `o` to `User` (a non-user throws
      `ClassCastException`; null passes the cast and then `getId()` throws
      `NullPointerException`) and return `this.id - u.id` in 32 bits. */
  function CompareTo(u: User, o: Nullable<Obj>): (r: Result<Int32>)
    ensures r.Throws? <==> !(o.NonNull? && o.value.AUser?)
    ensures o == Null ==> r == Throws(NullPointerException)
    ensures o == NonNull(NotAUser) ==> r == Throws(ClassCastException)
  {
    match o
    case Null => Throws(NullPointerException)
    case NonNull(NotAUser) => Throws(ClassCastException)
    case NonNull(AUser(v)) => Ok(Sub32(u.id, v.id))
  }

  /** The sign of the written `compareTo` follows the id order exactly when
      the difference of the ids fits in an `int`. */
  lemma CompareToSignExact(a: User, b: User)
    ensures CompareTo(a, NonNull(AUser(b))).Ok?
    ensures Sign(CompareTo(a, NonNull(AUser(b))).value) == Sign(a.id - b.id) <==> FitsInt32(a.id - b.id)
  {
    SubtractionSignExact(a.id, b.id);
  }

  /** A user with id `Integer.MIN_VALUE` compares greater than a user with
      id 1: the subtraction overflows to `Integer.MAX_VALUE`. */
  lemma CompareToOverflows()
    ensures CompareTo(User(IntMin, Null, Null), NonNull(AUser(User(1, Null, Null)))) == Ok(IntMax)
  {
  }

  /** `compareTo` as evidently intended: `Integer.compare(this.id, u.id)`,
      with the same exceptions. */
  function CompareToById(u: User, o: Nullable<Obj>): (r: Result<int>)
    ensures r.Throws? <==> !(o.NonNull? && o.value.AUser?)
    ensures r.Ok? ==> (r.value < 0 <==> u.id < o.value.user.id)
    ensures r.Ok? ==> (r.value == 0 <==> u.id == o.value.user.id)
    ensures r.Ok? ==> (r.value > 0 <==> u.id > o.value.user.id)
  {
    match o
    case Null => Throws(NullPointerException)
    case NonNull(NotAUser) => Throws(ClassCastException)
    case NonNull(AUser(v)) => Ok(IntegerCompare(u.id, v.id))
  }

  /** The written and the intended `compareTo` agree in sign whenever the
      written one does not overflow. */
  lemma CompareToAgreesWhenNoOverflow(a: User, b: User)
    requires FitsInt32(a.id - b.id)
    ensures Sign(CompareTo(a, NonNull(AUser(b))).value) == Sign(CompareToById(a, NonNull(AUser(b))).value)
  {
    SubtractionSignExact(a.id, b.id);
  }

  /** The natural order is inconsistent with `equals` both ways: users
      with the same name but different ids are equal yet compare non-zero,
      and users with the same id but different names are unequal yet
      compare zero. */
  lemma CompareToInconsistentWithEquals(a: User, b: User)
    ensures a.name == b.name && a.id != b.id ==>
              Equals(a, NonNull(AUser(b))) && CompareTo(a, NonNull(AUser(b))) != Ok(0)
    ensures a.id == b.id && a.name != b.name ==>
              !Equals(a, NonNull(AUser(b))) && CompareTo(a, NonNull(AUser(b))) == Ok(0)
  {
    EqualsByNameOnly(a, NonNull(AUser(b)));
  }

  /** `User.Builder`: the fields a `User` will be built from. A fresh builder
      holds 0, null and null. */
  datatype Builder = Builder(id: Int32, name: Nullable<string>, age: Nullable<string>)

  function NewBuilder(): Builder {
    Builder(0, Null, Null)
  }

  function SetId(b: Builder, id: Int32): Builder {
    b.(id := id)
  }

  function SetName(b: Builder, name: Nullable<string>): Builder {
    b.(name := name)
  }

  function SetAge(b: Builder, age: Nullable<string>): Builder {
    b.(age := age)
  }

  /** `build()`, i.e. the constructor `User(Builder)`. */
  function Build(b: Builder): User {
    User(b.id, b.name, b.age)
  }

  /** Each setter changes its own field and leaves the other two alone. */
  lemma SettersAreIndependent(b: Builder, id: Int32, name: Nullable<string>, age: Nullable<string>)
    ensures Build(SetId(b, id)).id == id
    ensures Build(SetId(b, id)).name == Build(b).name && Build(SetId(b, id)).age == Build(b).age
    ensures Build(SetName(b, name)).name == name
    ensures Build(SetName(b, name)).id == Build(b).id && Build(SetName(b, name)).age == Build(b).age
    ensures Build(SetAge(b, age)).age == age
    ensures Build(SetAge(b, age)).id == Build(b).id && Build(SetAge(b, age)).name == Build(b).name
  {
  }

  /** One setter call on the builder. */
  datatype Setter = SetIdTo(id: Int32) | SetNameTo(name: Nullable<string>) | SetAgeTo(age: Nullable<string>)

  datatype Field = IdField | NameField | AgeField

  function FieldOf(c: Setter): Field {
    match c
    case SetIdTo(_) => IdField
    case SetNameTo(_) => NameField
    case SetAgeTo(_) => AgeField
  }

  function Apply(b: Builder, c: Setter): Builder {
    match c
    case SetIdTo(id) => SetId(b, id)
    case SetNameTo(name) => SetName(b, name)
    case SetAgeTo(age) => SetAge(b, age)
  }

  /** `new User.Builder()` followed by the chained setter calls, in order. */
  function Chain(calls: seq<Setter>): Builder {
    if |calls| == 0 then NewBuilder()
    else Apply(Chain(calls[..|calls| - 1]), calls[|calls| - 1])
  }

  /** Call `i` is the last one in the chain that sets field `f`. */
  predicate LastSetter(calls: seq<Setter>, i: int, f: Field)
    requires 0 <= i < |calls|
  {
    FieldOf(calls[i]) == f && forall j | i < j < |calls| :: FieldOf(calls[j]) != f
  }

  /** No call in the chain sets field `f`. */
  predicate NeverSet(calls: seq<Setter>, f: Field) {
    forall j | 0 <= j < |calls| :: FieldOf(calls[j]) != f
  }

  /** Dropping the last call keeps an earlier last setter of `f` last, and
      the dropped call does not set `f`. */
  lemma LastSetterPrefix(calls: seq<Setter>, i: nat, f: Field)
    requires i < |calls| - 1 && LastSetter(calls, i, f)
    ensures LastSetter(calls[..|calls| - 1], i, f) && FieldOf(calls[|calls| - 1]) != f
  {
    var p := calls[..|calls| - 1];
    forall j | i < j < |p| ensures FieldOf(p[j]) != f {
      assert p[j] == calls[j];
    }
  }

  lemma NeverSetPrefix(calls: seq<Setter>, f: Field)
    requires |calls| > 0 && NeverSet(calls, f)
    ensures NeverSet(calls[..|calls| - 1], f) && FieldOf(calls[|calls| - 1]) != f
  {
    var p := calls[..|calls| - 1];
    forall j | 0 <= j < |p| ensures FieldOf(p[j]) != f {
      assert p[j] == calls[j];
    }
  }

  lemma {:induction false} LastIdWins(calls: seq<Setter>, i: nat)
    requires i < |calls| && LastSetter(calls, i, IdField)
    ensures Build(Chain(calls)).id == calls[i].id
  {
    if i < |calls| - 1 {
      LastSetterPrefix(calls, i, IdField);
      LastIdWins(calls[..|calls| - 1], i);
      assert calls[..|calls| - 1][i] == calls[i];
    }
  }

  lemma {:induction false} LastNameWins(calls: seq<Setter>, i: nat)
    requires i < |calls| && LastSetter(calls, i, NameField)
    ensures Build(Chain(calls)).name == calls[i].name
  {
    if i < |calls| - 1 {
      LastSetterPrefix(calls, i, NameField);
      LastNameWins(calls[..|calls| - 1], i);
      assert calls[..|calls| - 1][i] == calls[i];
    }
  }

  lemma {:induction false} LastAgeWins(calls: seq<Setter>, i: nat)
    requires i < |calls| && LastSetter(calls, i, AgeField)
    ensures Build(Chain(calls)).age == calls[i].age
  {
    if i < |calls| - 1 {
      LastSetterPrefix(calls, i, AgeField);
      LastAgeWins(calls[..|calls| - 1], i);
      assert calls[..|calls| - 1][i] == calls[i];
    }
  }

  lemma {:induction false} UnsetFieldsDefault(calls: seq<Setter>)
    ensures NeverSet(calls, IdField) ==> Build(Chain(calls)).id == 0
    ensures NeverSet(calls, NameField) ==> Build(Chain(calls)).name == Null
    ensures NeverSet(calls, AgeField) ==> Build(Chain(calls)).age == Null
  {
    if |calls| > 0 {
      UnsetFieldsDefault(calls[..|calls| - 1]);
      if NeverSet(calls, IdField) {
        NeverSetPrefix(calls, IdField);
      }
      if NeverSet(calls, NameField) {
        NeverSetPrefix(calls, NameField);
      }
      if NeverSet(calls, AgeField) {
        NeverSetPrefix(calls, AgeField);
      }
    }
  }

  /** Whatever setters are chained, in whatever order and however often,
      `build()` carries for each field the value of the last call that set
      it, and 0 or null for a field no call set. */
  lemma BuildCarriesLastValues(calls: seq<Setter>)
    ensures forall i | 0 <= i < |calls| && LastSetter(calls, i, IdField) :: Build(Chain(calls)).id == calls[i].id
    ensures forall i | 0 <= i < |calls| && LastSetter(calls, i, NameField) :: Build(Chain(calls)).name == calls[i].name
    ensures forall i | 0 <= i < |calls| && LastSetter(calls, i, AgeField) :: Build(Chain(calls)).age == calls[i].age
    ensures NeverSet(calls, IdField) ==> Build(Chain(calls)).id == 0
    ensures NeverSet(calls, NameField) ==> Build(Chain(calls)).name == Null
    ensures NeverSet(calls, AgeField) ==> Build(Chain(calls)).age == Null
  {
    forall i | 0 <= i < |calls| && LastSetter(calls, i, IdField) ensures Build(Chain(calls)).id == calls[i].id {
      LastIdWins(calls, i);
    }
    forall i | 0 <= i < |calls| && LastSetter(calls, i, NameField) ensures Build(Chain(calls)).name == calls[i].name {
      LastNameWins(calls, i);
    }
    forall i | 0 <= i < |calls| && LastSetter(calls, i, AgeField) ensures Build(Chain(calls)).age == calls[i].age {
      LastAgeWins(calls, i);
    }
    UnsetFieldsDefault(calls);
  }

  /** The two setter orders `GroupByTestsInCollectors` chains, a repeated
      `setId`, and a builder with nothing set. */
  lemma BuilderChainsOfMain(id: Int32, id2: Int32, name: Nullable<string>, age: Nullable<string>)
    ensures Build(SetAge(SetName(SetId(NewBuilder(), id), name), age)) == User(id, name, age)
    ensures Build(SetName(SetAge(SetId(NewBuilder(), id), age), name)) == User(id, name, age)
    ensures Build(SetId(SetId(NewBuilder(), id2), id)) == User(id, Null, Null)
    ensures Build(NewBuilder()) == User(0, Null, Null)
  {
  }
}
