/** `CreateImmutableClassInJava`: an object made immutable by defensive
    copies of the mutable objects it is built from and hands out. The heap
    is Dafny's: the caller's objects and the copies are distinct objects,
    and the contracts say which of them each call may touch. */
module Immutable {
  import opened JavaLang

  /** The mutable `ReferenceObject`: a bean with one nullable `refName`. */
  class ReferenceObject {
    var refName: Nullable<string>

    constructor ()
      ensures refName == Null
    {
      refName := Null;
    }

    method SetRefName(name: Nullable<string>)
      modifies this
      ensures refName == name
    {
      refName := name;
    }

    function GetRefName(): Nullable<string>
      reads this
    {
      refName
    }
  }

  /** A mutable `ArrayList<String>`. */
  class StringList {
    var elems: seq<Nullable<string>>

    constructor ()
      ensures elems == []
    {
      elems := [];
    }

    /** `new ArrayList<>(other)`. */
    constructor Copy(other: StringList)
      ensures elems == other.elems
    {
      elems := other.elems;
    }

    method Add(x: Nullable<string>)
      modifies this
      ensures elems == old(elems) + [x]
    {
      elems := elems + [x];
    }
  }

  /** What `toString()` shows of the object: its name, the stored
      `refName` and the stored friends. */
  datatype Snapshot = Snapshot(name: Nullable<string>, refName: Nullable<string>, friends: seq<Nullable<string>>)

  class CreateImmutableClassInJava {
    const name: Nullable<string>
    const referenceObject: ReferenceObject
    const friends: StringList

    /** The constructor keeps the name, and copies the reference object's
        `refName` and the friends into objects of its own, which no caller
        holds. */
    constructor (name: Nullable<string>, referenceObject: ReferenceObject, friends: StringList)
      ensures this.name == name
      ensures this.referenceObject.refName == referenceObject.refName
      ensures this.friends.elems == friends.elems
      ensures fresh(this.referenceObject) && fresh(this.friends)
    {
      this.name := name;
      var copy := new ReferenceObject();
      copy.SetRefName(referenceObject.GetRefName());
      this.referenceObject := copy;
      this.friends := new StringList.Copy(friends);
    }

    function GetName(): Nullable<string> {
      name
    }

    /** A new `ReferenceObject` carrying the stored `refName`; the stored
        object is not touched. */
    method GetReferenceObject() returns (r: ReferenceObject)
      ensures fresh(r)
      ensures r.refName == referenceObject.refName
    {
      r := new ReferenceObject();
      r.SetRefName(referenceObject.GetRefName());
    }

    /** A new list with the stored friends; the stored list is not touched. */
    method GetFriends() returns (r: StringList)
      ensures fresh(r)
      ensures r.elems == friends.elems
    {
      r := new StringList.Copy(friends);
    }

    function Show(): Snapshot
      reads referenceObject, friends
    {
      Snapshot(name, referenceObject.refName, friends.elems)
    }
  }

  /** `new CreateImmutableClassInJava(name, referenceObject, friends)` on
      references that may be null: reading the null reference object's
      name, or copying a null list, throws. */
  method Construct(name: Nullable<string>, referenceObject: ReferenceObject?, friends: StringList?)
    returns (r: Result<CreateImmutableClassInJava>)
    ensures r.Throws? <==> referenceObject == null || friends == null
    ensures r.Throws? ==> r.exception == NullPointerException
    ensures r.Ok? ==> r.value.GetName() == name
    ensures r.Ok? ==> r.value.Show() == Snapshot(name, referenceObject.refName, friends.elems)
    ensures r.Ok? ==> fresh(r.value.referenceObject) && fresh(r.value.friends)
  {
    if referenceObject == null || friends == null {
      r := Throws(NullPointerException);
    } else {
      var p := new CreateImmutableClassInJava(name, referenceObject, friends);
      r := Ok(p);
    }
  }

  /** The scenario of `TestImmutableClass`: the object is printed after
      construction, after the caller changes the objects it passed in, and
      after the caller changes the copies it got from the getters; all three
      printouts show the values the object was built with. */
  method TestImmutableClass() returns (printed: seq<Snapshot>)
    ensures |printed| == 3
    ensures forall i | 0 <= i < |printed| ::
              printed[i] == Snapshot(NonNull("Siddu"), NonNull("Sid"), [NonNull("Raj"), NonNull("Viju")])
  {
    var referenceObject := new ReferenceObject();
    referenceObject.SetRefName(NonNull("Sid"));
    var friends := new StringList();
    friends.Add(NonNull("Raj"));
    friends.Add(NonNull("Viju"));
    var p := new CreateImmutableClassInJava(NonNull("Siddu"), referenceObject, friends);
    printed := [p.Show()];

    referenceObject.SetRefName(NonNull("Manjunath"));
    friends.Add(NonNull("Nagaraj"));
    printed := printed + [p.Show()];

    var friends1 := p.GetFriends();
    var referenceObject1 := p.GetReferenceObject();
    friends1.Add(NonNull("Dyamanna"));
    referenceObject1.SetRefName(NonNull("Basanna"));
    printed := printed + [p.Show()];
  }
}
