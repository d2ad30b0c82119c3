/** `GroupByTestsInCollectors`: users grouped by id into a `TreeMap` of
    `HashSet`s, and counted by age. */
module GroupBy {
  import opened JavaLang
  import opened JavaUtil
  import opened Users

  /** `set.contains(u)` for a `HashSet<User>`: some member equals `u`, i.e.
      has its name (equal names give equal hash codes). */
  predicate Contains(g: set<User>, u: User) {
    exists v | v in g :: v.name == u.name
  }

  /** `HashSet.add(u)`: no change when an equal user is present. */
  function AddToSet(g: set<User>, u: User): set<User> {
    if Contains(g, u) then g else g + {u}
  }

  /** `Collectors.toSet()` over a sequence of users. */
  function DedupByName(us: seq<User>): set<User> {
    if |us| == 0 then {}
    else AddToSet(DedupByName(us[..|us| - 1]), us[|us| - 1])
  }

  function NamesOf(us: seq<User>): set<Nullable<string>> {
    set u | u in us :: u.name
  }

  /** No two members of a group share a name. */
  predicate NameUnique(g: set<User>) {
    forall v, w | v in g && w in g && v.name == w.name :: v == w
  }

  lemma NamesOfSnoc(us: seq<User>, u: User)
    ensures NamesOf(us + [u]) == NamesOf(us) + {u.name}
  {
    assert forall x | x in us + [u] :: x in us || x == u;
  }

  lemma {:induction false} DedupMembersFromList(us: seq<User>)
    ensures forall v | v in DedupByName(us) :: v in us
  {
    if |us| > 0 {
      DedupMembersFromList(us[..|us| - 1]);
      assert forall v | v in us[..|us| - 1] :: v in us;
    }
  }

  /** After collecting, `contains(u)` holds exactly for the users whose name
      occurs in the list. */
  lemma {:induction false} DedupContains(us: seq<User>, u: User)
    ensures Contains(DedupByName(us), u) <==> u.name in NamesOf(us)
  {
    if |us| > 0 {
      var p := us[..|us| - 1];
      var x := us[|us| - 1];
      DedupContains(p, u);
      NamesOfSnoc(p, x);
      assert us == p + [x];
      if Contains(DedupByName(p), x) {
        DedupContains(p, x);
      }
      if Contains(DedupByName(us), u) {
        var v :| v in DedupByName(us) && v.name == u.name;
        if v !in DedupByName(p) {
          assert v == x;
        }
      }
    }
  }

  lemma {:induction false} DedupNameUnique(us: seq<User>)
    ensures NameUnique(DedupByName(us))
  {
    if |us| > 0 {
      DedupNameUnique(us[..|us| - 1]);
    }
  }

  lemma {:induction false} DedupKeepsFirst(us: seq<User>)
    ensures forall i | 0 <= i < |us| && (forall j | 0 <= j < i :: us[j].name != us[i].name) ::
              us[i] in DedupByName(us)
  {
    if |us| > 0 {
      var p := us[..|us| - 1];
      var u := us[|us| - 1];
      DedupKeepsFirst(p);
      forall i | 0 <= i < |us| && (forall j | 0 <= j < i :: us[j].name != us[i].name)
        ensures us[i] in DedupByName(us)
      {
        if i == |us| - 1 {
          DedupContains(p, u);
          forall x | x in p ensures x.name != u.name {
            var k :| 0 <= k < |p| && p[k] == x;
            assert us[k] == x;
          }
          assert u.name !in NamesOf(p);
        } else {
          assert p[i] == us[i];
          assert forall j | 0 <= j < i :: p[j] == us[j];
        }
      }
    }
  }

  lemma {:induction false} DedupSize(us: seq<User>)
    ensures |DedupByName(us)| == |NamesOf(us)|
  {
    if |us| > 0 {
      var p := us[..|us| - 1];
      var u := us[|us| - 1];
      DedupSize(p);
      NamesOfSnoc(p, u);
      assert us == p + [u];
      DedupContains(p, u);
      if !Contains(DedupByName(p), u) {
        assert u !in DedupByName(p);
      }
    }
  }

  /** A collected set holds one user per distinct name, each taken from the
      list, so its size is the number of distinct names; the user kept for
      a name is the first one with that name. */
  lemma DedupByNameSpec(us: seq<User>)
    ensures forall v | v in DedupByName(us) :: v in us
    ensures forall u | u in us :: Contains(DedupByName(us), u)
    ensures NameUnique(DedupByName(us))
    ensures forall i | 0 <= i < |us| && (forall j | 0 <= j < i :: us[j].name != us[i].name) ::
              us[i] in DedupByName(us)
    ensures |DedupByName(us)| == |NamesOf(us)|
  {
    DedupMembersFromList(us);
    forall u | u in us ensures Contains(DedupByName(us), u) {
      DedupContains(us, u);
    }
    DedupNameUnique(us);
    DedupKeepsFirst(us);
    DedupSize(us);
  }

  /** One entry of the `TreeMap<Integer, Set<User>>`. */
  datatype Entry = Entry(key: Int32, group: set<User>)

  /** A `TreeMap` is kept as its entries in iteration order: strictly
      ascending keys. */
  predicate Ascending(entries: seq<Entry>) {
    forall i, j | 0 <= i < j < |entries| :: entries[i].key < entries[j].key
  }

  function Keys(entries: seq<Entry>): set<Int32> {
    set e | e in entries :: e.key
  }

  /** `TreeMap.get(k)`: the group stored under `k`, or null. */
  function Get(entries: seq<Entry>, k: Int32): Nullable<set<User>> {
    if |entries| == 0 then Null
    else if entries[0].key == k then NonNull(entries[0].group)
    else Get(entries[1..], k)
  }

  /** The accumulator step of `groupingBy(getId, TreeMap::new, toSet())`:
      find or create the group for `u.id` and `add` `u` to it. */
  function Put(entries: seq<Entry>, u: User): seq<Entry> {
    if |entries| == 0 then [Entry(u.id, {u})]
    else if u.id < entries[0].key then [Entry(u.id, {u})] + entries
    else if u.id == entries[0].key then [Entry(u.id, AddToSet(entries[0].group, u))] + entries[1..]
    else [entries[0]] + Put(entries[1..], u)
  }

  lemma KeysCons(e: Entry, es: seq<Entry>)
    ensures Keys([e] + es) == {e.key} + Keys(es)
  {
    assert forall x | x in [e] + es :: x == e || x in es;
  }

  lemma {:induction false} PutKeys(entries: seq<Entry>, u: User)
    ensures Keys(Put(entries, u)) == Keys(entries) + {u.id}
  {
    if |entries| > 0 {
      var rest := entries[1..];
      var r := Put(entries, u);
      assert entries == [entries[0]] + rest;
      KeysCons(entries[0], rest);
      if u.id > entries[0].key {
        PutKeys(rest, u);
        assert r == [entries[0]] + Put(rest, u);
        KeysCons(entries[0], Put(rest, u));
      } else if u.id == entries[0].key {
        assert r == [r[0]] + rest;
        KeysCons(r[0], rest);
      } else {
        KeysCons(r[0], entries);
      }
    }
  }

  /** The tail of an ascending entry list is ascending, and every key in it
      is above the first key. */
  lemma AscendingTail(entries: seq<Entry>)
    requires Ascending(entries) && |entries| > 0
    ensures Ascending(entries[1..])
    ensures forall f | f in entries[1..] :: entries[0].key < f.key
  {
    forall f | f in entries[1..] ensures entries[0].key < f.key {
      var k :| 0 <= k < |entries[1..]| && entries[1..][k] == f;
      assert entries[k + 1] == f;
    }
  }

  lemma AscendingCons(e: Entry, es: seq<Entry>)
    requires Ascending(es)
    requires forall f | f in es :: e.key < f.key
    ensures Ascending([e] + es)
  {
    var r := [e] + es;
    forall i, j | 0 <= i < j < |r| ensures r[i].key < r[j].key {
      assert r[j] == es[j - 1];
      if i > 0 {
        assert r[i] == es[i - 1];
      }
    }
  }

  lemma {:induction false} PutAscending(entries: seq<Entry>, u: User)
    requires Ascending(entries)
    ensures Ascending(Put(entries, u))
  {
    if |entries| > 0 {
      var e := entries[0];
      var rest := entries[1..];
      AscendingTail(entries);
      if u.id > e.key {
        var pr := Put(rest, u);
        PutAscending(rest, u);
        PutKeys(rest, u);
        forall f | f in pr ensures e.key < f.key {
          assert f.key in Keys(pr);
          if f.key != u.id {
            var g :| g in rest && g.key == f.key;
          }
        }
        AscendingCons(e, pr);
      } else if u.id < e.key {
        assert entries == [e] + rest;
        AscendingCons(Entry(u.id, {u}), entries);
      } else {
        AscendingCons(Entry(u.id, AddToSet(e.group, u)), rest);
      }
    }
  }

  lemma {:induction false} PutGetSame(entries: seq<Entry>, u: User)
    requires Ascending(entries)
    ensures Get(Put(entries, u), u.id)
         == NonNull(AddToSet(if Get(entries, u.id).NonNull? then Get(entries, u.id).value else {}, u))
  {
    var r := Put(entries, u);
    if |entries| == 0 {
      assert !Contains({}, u);
      assert AddToSet({}, u) == {u};
      assert r == [Entry(u.id, {u})];
      assert Get(r, u.id) == NonNull({u});
    } else if u.id < entries[0].key {
      GetAbsentBelow(entries, u.id);
      assert !Contains({}, u);
      assert AddToSet({}, u) == {u};
      assert r[0] == Entry(u.id, {u});
    } else if u.id == entries[0].key {
    } else {
      PutGetSame(entries[1..], u);
      assert r[1..] == Put(entries[1..], u);
    }
  }

  lemma {:induction false} PutGetOther(entries: seq<Entry>, u: User, k: Int32)
    requires k != u.id
    ensures Get(Put(entries, u), k) == Get(entries, k)
  {
    var r := Put(entries, u);
    if |entries| == 0 {
    } else if u.id < entries[0].key {
      assert r[1..] == entries;
    } else if u.id == entries[0].key {
      assert r[1..] == entries[1..];
    } else {
      PutGetOther(entries[1..], u, k);
      assert r[1..] == Put(entries[1..], u);
    }
  }

  /** One `add` into the grouping keeps the keys ascending, adds the user's
      id as a key, adds the user to its id's group and leaves every other
      group alone. */
  lemma PutSpec(entries: seq<Entry>, u: User)
    requires Ascending(entries)
    ensures Ascending(Put(entries, u))
    ensures Keys(Put(entries, u)) == Keys(entries) + {u.id}
    ensures Get(Put(entries, u), u.id)
         == NonNull(AddToSet(if Get(entries, u.id).NonNull? then Get(entries, u.id).value else {}, u))
    ensures forall k | k != u.id :: Get(Put(entries, u), k) == Get(entries, k)
  {
    PutAscending(entries, u);
    PutKeys(entries, u);
    PutGetSame(entries, u);
    forall k | k != u.id ensures Get(Put(entries, u), k) == Get(entries, k) {
      PutGetOther(entries, u, k);
    }
  }

  /** In an ascending entry list, a key below the first key is absent. */
  lemma {:induction false} GetAbsentBelow(entries: seq<Entry>, k: Int32)
    requires Ascending(entries)
    requires |entries| == 0 || k < entries[0].key
    ensures Get(entries, k) == Null
  {
    if |entries| > 0 {
      if |entries| > 1 {
        assert entries[0].key < entries[1].key;
      }
      GetAbsentBelow(entries[1..], k);
    }
  }

  /** `users.stream().collect(groupingBy(User::getId, TreeMap::new, toSet()))`. */
  function GroupById(users: seq<User>): seq<Entry> {
    if |users| == 0 then []
    else Put(GroupById(users[..|users| - 1]), users[|users| - 1])
  }

  function Ids(users: seq<User>): set<Int32> {
    set u | u in users :: u.id
  }

  function WithId(users: seq<User>, k: Int32): seq<User> {
    if |users| == 0 then []
    else WithId(users[..|users| - 1], k) + (if users[|users| - 1].id == k then [users[|users| - 1]] else [])
  }

  lemma IdsSnoc(users: seq<User>, u: User)
    ensures Ids(users + [u]) == Ids(users) + {u.id}
  {
    assert forall x | x in users + [u] :: x in users || x == u;
  }

  lemma {:induction false} GroupByIdAscending(users: seq<User>)
    ensures Ascending(GroupById(users))
  {
    if |users| > 0 {
      GroupByIdAscending(users[..|users| - 1]);
      PutAscending(GroupById(users[..|users| - 1]), users[|users| - 1]);
    }
  }

  lemma {:induction false} GroupByIdKeys(users: seq<User>)
    ensures Keys(GroupById(users)) == Ids(users)
  {
    if |users| > 0 {
      var p := users[..|users| - 1];
      var u := users[|users| - 1];
      GroupByIdKeys(p);
      PutKeys(GroupById(p), u);
      IdsSnoc(p, u);
      assert users == p + [u];
    }
  }

  lemma WithIdSnocSame(users: seq<User>, u: User)
    ensures DedupByName(WithId(users + [u], u.id)) == AddToSet(DedupByName(WithId(users, u.id)), u)
  {
    assert (users + [u])[..|users|] == users;
    var w := WithId(users + [u], u.id);
    assert w == WithId(users, u.id) + [u];
    assert w[..|w| - 1] == WithId(users, u.id);
  }

  lemma {:induction false} GroupByIdGet(users: seq<User>, k: Int32)
    ensures Get(GroupById(users), k)
         == if k in Ids(users) then NonNull(DedupByName(WithId(users, k))) else Null
  {
    if |users| > 0 {
      var p := users[..|users| - 1];
      var u := users[|users| - 1];
      GroupByIdGet(p, k);
      IdsSnoc(p, u);
      assert users == p + [u];
      if k == u.id {
        GroupByIdAscending(p);
        PutGetSame(GroupById(p), u);
        WithIdSnocSame(p, u);
        if k !in Ids(p) {
          WithIdAbsent(p, k);
        }
      } else {
        PutGetOther(GroupById(p), u, k);
        assert WithId(users, k) == WithId(p, k);
      }
    }
  }

  /** The grouping iterates its keys in ascending order, has exactly the ids
      present as keys, and stores under each id the set collected from the
      users with that id, in list order. */
  lemma GroupByIdSpec(users: seq<User>)
    ensures Ascending(GroupById(users))
    ensures Keys(GroupById(users)) == Ids(users)
    ensures forall k :: Get(GroupById(users), k)
                      == if k in Ids(users) then NonNull(DedupByName(WithId(users, k))) else Null
  {
    GroupByIdAscending(users);
    GroupByIdKeys(users);
    forall k ensures Get(GroupById(users), k)
                  == if k in Ids(users) then NonNull(DedupByName(WithId(users, k))) else Null
    {
      GroupByIdGet(users, k);
    }
  }

  lemma {:induction false} WithIdAbsent(users: seq<User>, k: Int32)
    requires k !in Ids(users)
    ensures WithId(users, k) == []
  {
    if |users| > 0 {
      var p := users[..|users| - 1];
      assert Ids(p) <= Ids(users) by {
        assert forall x | x in p :: x in users;
      }
      WithIdAbsent(p, k);
    }
  }

  /** Every member of the group under `k` is a user of the list with id `k`;
      every user is `contains`-ed by the group of its own id. */
  lemma GroupMembership(users: seq<User>)
    ensures forall u | u in users :: Get(GroupById(users), u.id).NonNull?
                                      && Contains(Get(GroupById(users), u.id).value, u)
    ensures forall k, v | Get(GroupById(users), k).NonNull? && v in Get(GroupById(users), k).value ::
              v in users && v.id == k
  {
    GroupByIdSpec(users);
    forall u | u in users
      ensures Get(GroupById(users), u.id).NonNull? && Contains(Get(GroupById(users), u.id).value, u)
    {
      WithIdSpec(users, u.id);
      DedupByNameSpec(WithId(users, u.id));
    }
    forall k, v | Get(GroupById(users), k).NonNull? && v in Get(GroupById(users), k).value
      ensures v in users && v.id == k
    {
      WithIdSpec(users, k);
      DedupByNameSpec(WithId(users, k));
    }
  }

  lemma {:induction false} WithIdSpec(users: seq<User>, k: Int32)
    ensures forall u | u in WithId(users, k) :: u in users && u.id == k
    ensures forall u | u in users && u.id == k :: u in WithId(users, k)
    ensures |WithId(users, k)| <= |users|
  {
    if |users| > 0 {
      var p := users[..|users| - 1];
      WithIdSpec(p, k);
      assert users == p + [users[|users| - 1]];
    }
  }

  /** Total number of users held across all groups. */
  function TotalSize(entries: seq<Entry>): nat {
    if |entries| == 0 then 0 else |entries[0].group| + TotalSize(entries[1..])
  }

  lemma {:induction false} PutTotalSize(entries: seq<Entry>, u: User)
    ensures TotalSize(Put(entries, u)) <= TotalSize(entries) + 1
  {
    if |entries| > 0 {
      if u.id < entries[0].key {
        assert Put(entries, u)[1..] == entries;
      } else if u.id == entries[0].key {
        assert Put(entries, u)[1..] == entries[1..];
      } else {
        PutTotalSize(entries[1..], u);
        assert Put(entries, u)[1..] == Put(entries[1..], u);
      }
    }
  }

  /** Deduplication by name means the groups hold at most as many users as
      the list. */
  lemma {:induction false} GroupsNoLargerThanList(users: seq<User>)
    ensures TotalSize(GroupById(users)) <= |users|
  {
    if |users| > 0 {
      GroupsNoLargerThanList(users[..|users| - 1]);
      PutTotalSize(GroupById(users[..|users| - 1]), users[|users| - 1]);
    }
  }

  function Ages(users: seq<User>): (r: seq<Nullable<string>>)
    ensures |r| == |users|
    ensures forall i | 0 <= i < |r| :: r[i] == users[i].age
  {
    seq(|users|, i requires 0 <= i < |users| => users[i].age)
  }

  /** `users.stream().collect(groupingBy(User::getAge, counting()))`. */
  function CountByAge(users: seq<User>): Result<map<string, nat>> {
    GroupingCount(Ages(users))
  }

  lemma AgesNull(users: seq<User>)
    ensures (exists u | u in users :: u.age == Null) <==> Null in Ages(users)
  {
    var ages := Ages(users);
    if Null in ages {
      var i :| 0 <= i < |ages| && ages[i] == Null;
      assert users[i] in users;
    }
  }

  lemma CountByAgeSum(users: seq<User>)
    requires CountByAge(users).Ok?
    ensures forall a | a in Distinct(Values(Ages(users))) :: a in CountByAge(users).value
    ensures SumCounts(CountByAge(users).value, Distinct(Values(Ages(users)))) == |users|
  {
    var ages := Ages(users);
    assert Null !in ages;
    assert CountByAge(users).value == CountOccurrences(Values(ages));
    CountsSumToLength(Values(ages));
  }

  lemma CountByAgeCounts(users: seq<User>)
    requires CountByAge(users).Ok?
    ensures forall a | a in CountByAge(users).value ::
              CountByAge(users).value[a] == Frequency(Ages(users), NonNull(a)) >= 1
  {
    var m := CountByAge(users).value;
    forall a | a in m ensures m[a] == Frequency(Ages(users), NonNull(a)) >= 1 {
      assert NonNull(a) in Ages(users);
    }
  }

  lemma CountByAgeCovers(users: seq<User>)
    requires CountByAge(users).Ok?
    ensures forall u | u in users :: u.age.NonNull? && u.age.value in CountByAge(users).value
  {
    var ages := Ages(users);
    forall u | u in users ensures u.age.NonNull? && u.age.value in CountByAge(users).value {
      var i :| 0 <= i < |users| && users[i] == u;
      assert ages[i] == u.age;
    }
  }

  /** The age counting throws exactly when some age is null; otherwise its
      keys are the ages present, each count is the number of users of that
      age and at least one, and the counts, summed over the distinct ages,
      add up to the number of users. */
  lemma CountByAgeSpec(users: seq<User>)
    ensures CountByAge(users).Throws? <==> exists u | u in users :: u.age == Null
    ensures CountByAge(users).Ok? ==>
              forall a | a in CountByAge(users).value ::
                CountByAge(users).value[a] == Frequency(Ages(users), NonNull(a)) >= 1
    ensures CountByAge(users).Ok? ==>
              forall u | u in users :: u.age.NonNull? && u.age.value in CountByAge(users).value
    ensures CountByAge(users).Ok? ==>
              forall a | a in Distinct(Values(Ages(users))) :: a in CountByAge(users).value
    ensures CountByAge(users).Ok? ==>
              SumCounts(CountByAge(users).value, Distinct(Values(Ages(users)))) == |users|
  {
    AgesNull(users);
    if CountByAge(users).Ok? {
      CountByAgeCounts(users);
      CountByAgeCovers(users);
      CountByAgeSum(users);
    }
  }

  const Named := User(10, NonNull("name"), NonNull("28"))
  const John := User(1, NonNull("John Doe"), NonNull("30"))
  const Jane := User(2, NonNull("Jane Smith"), NonNull("25"))
  const Alice3 := User(3, NonNull("Alice Johnson"), NonNull("25"))
  const Alice4 := User(4, NonNull("Alice Johnson"), NonNull("25"))

  /** The users of `main`, in list order. */
  function SampleUsers(): seq<User> {
    [Named, John, Jane, Alice3, Alice4]
  }

  lemma GroupByIdSnoc(users: seq<User>, u: User)
    ensures GroupById(users + [u]) == Put(GroupById(users), u)
  {
    assert (users + [u])[..|users|] == users;
  }

  lemma SampleGroupByIdFirstThree()
    ensures GroupById([Named, John, Jane])
         == [Entry(1, {John}), Entry(2, {Jane}), Entry(10, {Named})]
  {
    GroupByIdSnoc([], Named);
    assert [] + [Named] == [Named];
    GroupByIdSnoc([Named], John);
    assert [Named] + [John] == [Named, John];
    GroupByIdSnoc([Named, John], Jane);
    assert [Named, John] + [Jane] == [Named, John, Jane];
    var e10 := Entry(10, {Named});
    assert Put([e10], Jane) == [Entry(2, {Jane}), e10];
    assert Put([Entry(1, {John}), e10], Jane) == [Entry(1, {John})] + Put([e10], Jane);
  }

  /** On the users of `main` the grouping has keys 1, 2, 3, 4, 10 in that
      order, one user each: the two "Alice Johnson" users are equal but sit
      under different ids. */
  lemma SampleGroupById()
    ensures GroupById(SampleUsers())
         == [Entry(1, {John}), Entry(2, {Jane}), Entry(3, {Alice3}), Entry(4, {Alice4}),
             Entry(10, {Named})]
  {
    var e1, e2, e3, e10 := Entry(1, {John}), Entry(2, {Jane}), Entry(3, {Alice3}), Entry(10, {Named});
    SampleGroupByIdFirstThree();
    GroupByIdSnoc([Named, John, Jane], Alice3);
    assert [Named, John, Jane] + [Alice3] == [Named, John, Jane, Alice3];
    assert Put([e10], Alice3) == [e3, e10];
    assert Put([e2, e10], Alice3) == [e2] + Put([e10], Alice3);
    assert Put([e1, e2, e10], Alice3) == [e1] + Put([e2, e10], Alice3);
    GroupByIdSnoc([Named, John, Jane, Alice3], Alice4);
    assert [Named, John, Jane, Alice3] + [Alice4] == SampleUsers();
    var e4 := Entry(4, {Alice4});
    assert Put([e10], Alice4) == [e4, e10];
    assert Put([e3, e10], Alice4) == [e3] + Put([e10], Alice4);
    assert Put([e2, e3, e10], Alice4) == [e2] + Put([e3, e10], Alice4);
    assert Put([e1, e2, e3, e10], Alice4) == [e1] + Put([e2, e3, e10], Alice4);
  }

  function Indicator<T(==)>(y: T, x: T): nat {
    if y == x then 1 else 0
  }

  lemma FrequencyOfFive<T>(a: T, b: T, c: T, d: T, e: T, x: T)
    ensures Frequency([a, b, c, d, e], x)
         == Indicator(a, x) + Indicator(b, x) + Indicator(c, x) + Indicator(d, x) + Indicator(e, x)
  {
    var s0: seq<T> := [];
    var s1 := s0 + [a];
    var s2 := s1 + [b];
    var s3 := s2 + [c];
    var s4 := s3 + [d];
    FrequencySnoc(s0, a, x);
    FrequencySnoc(s1, b, x);
    FrequencySnoc(s2, c, x);
    FrequencySnoc(s3, d, x);
    FrequencySnoc(s4, e, x);
    assert s4 + [e] == [a, b, c, d, e];
  }

  lemma SampleAges()
    ensures Ages(SampleUsers()) == [NonNull("28"), NonNull("30"), NonNull("25"), NonNull("25"), NonNull("25")]
  {
  }

  lemma SampleAgeFrequencies()
    ensures Frequency(Ages(SampleUsers()), NonNull("25")) == 3
    ensures Frequency(Ages(SampleUsers()), NonNull("28")) == 1
    ensures Frequency(Ages(SampleUsers()), NonNull("30")) == 1
  {
    var a28, a30, a25 := NonNull("28"), NonNull("30"), NonNull("25");
    assert a28 != a30 && a28 != a25 && a30 != a25 by {
      assert "28"[1] != "30"[1] && "28"[1] != "25"[1] && "30"[0] != "25"[0];
    }
    SampleAges();
    FrequencyOfFive(a28, a30, a25, a25, a25, a25);
    FrequencyOfFive(a28, a30, a25, a25, a25, a28);
    FrequencyOfFive(a28, a30, a25, a25, a25, a30);
  }

  lemma GroupingCountKeysOfThree<K>(keys: seq<Nullable<K>>, a: K, b: K, c: K)
    requires forall x | x in keys :: x == NonNull(a) || x == NonNull(b) || x == NonNull(c)
    requires NonNull(a) in keys && NonNull(b) in keys && NonNull(c) in keys
    ensures GroupingCount(keys).Ok?
    ensures GroupingCount(keys).value.Keys == {a, b, c}
  {
    var m := GroupingCount(keys).value;
    forall k | k in m ensures k == a || k == b || k == c {
      assert NonNull(k) in keys;
    }
  }

  lemma SampleAgeKeys()
    ensures CountByAge(SampleUsers()).Ok?
    ensures CountByAge(SampleUsers()).value.Keys == {"25", "28", "30"}
  {
    var a28, a30, a25 := NonNull("28"), NonNull("30"), NonNull("25");
    SampleAges();
    var ages := [a28, a30, a25, a25, a25];
    assert ages[0] == a28 && ages[1] == a30 && ages[2] == a25;
    GroupingCountKeysOfThree(ages, "25", "28", "30");
  }

  /** On the users of `main` the age counts are 25 -> 3, 28 -> 1, 30 -> 1. */
  lemma SampleCountByAge()
    ensures CountByAge(SampleUsers()) == Ok(map["25" := 3, "28" := 1, "30" := 1])
  {
    SampleAgeKeys();
    CountByAgeCounts(SampleUsers());
    SampleAgeFrequencies();
    var m := CountByAge(SampleUsers()).value;
    assert m["25"] == 3 && m["28"] == 1 && m["30"] == 1;
    MapOfThree(m, "25", "28", "30", 3, 1, 1);
  }

  lemma MapOfThree<K, V>(m: map<K, V>, a: K, b: K, c: K, x: V, y: V, z: V)
    requires m.Keys == {a, b, c}
    requires m[a] == x && m[b] == y && m[c] == z
    ensures m == map[a := x, b := y, c := z]
  {
  }
}
