/**
 * Planning a fetch (ModbusBlockFetcher.kt): which fields must be read
 * again, which addresses each fetch group covers, and the one query per
 * fetch group that reads them.
 *
 * The fetcher's loops are methods of the fetcher class (fetching.dfy); the
 * functions here are what those loops compute, and the lemmas here are what
 * the plan promises.
 */
module FetchPlans {
  import opened Wrappers
  import opened Text
  import opened AddressClasses
  import opened Addresses
  import opened AddressSets
  import opened ByteConversions
  import opened ModbusValues
  import opened ModbusBlocks
  import opened Fields
  import opened ModbusQueries

  type Mapping = map<string, seq<Address>>

  // ---------------------------------------------------------------------------
  // The fetch-group mapping

  /**
   * The fetch group of every field, with the required registers of all its
   * fields appended in field order (duplicates kept).
   */
  function GroupAddresses(fs: seq<FieldDef>): Mapping
  {
    if fs == [] then map[]
    else
      var m := GroupAddresses(fs[..|fs| - 1]);
      var f := fs[|fs| - 1];
      var g := FetchGroup(f);
      m[g := (if g in m then m[g] else []) + RequiredRegisters(f)]
  }

  /** The mapping has an entry for exactly the fetch groups of the fields. */
  lemma {:induction false} GroupAddressesKeys(fs: seq<FieldDef>, g: string)
    ensures g in GroupAddresses(fs) <==> exists f :: f in fs && FetchGroup(f) == g
  {
    if fs != [] {
      var init, last := fs[..|fs| - 1], fs[|fs| - 1];
      GroupAddressesKeys(init, g);
      forall f
        ensures f in fs <==> f in init || f == last
      {
        if f in fs {
          var i :| 0 <= i < |fs| && fs[i] == f;
          if i < |init| {
            assert init[i] == f;
          }
        }
        if f in init {
          var i :| 0 <= i < |init| && init[i] == f;
          assert fs[i] == f;
        }
      }
    }
  }

  /** Some field of group g requires address a. */
  predicate Requested(fs: seq<FieldDef>, g: string, a: Address)
  {
    exists f :: f in fs && FetchGroup(f) == g && a in RequiredRegisters(f)
  }

  lemma RequestedSnoc(init: seq<FieldDef>, f: FieldDef, g: string, a: Address)
    ensures Requested(init + [f], g, a) <==>
      Requested(init, g, a) || (FetchGroup(f) == g && a in RequiredRegisters(f))
  {
    assert forall x :: x in init + [f] <==> x in init || x == f;
  }

  /** Every field's group has an entry. */
  lemma {:induction false} GroupAddressesHas(fs: seq<FieldDef>, x: FieldDef)
    requires x in fs
    ensures FetchGroup(x) in GroupAddresses(fs)
  {
    var init := fs[..|fs| - 1];
    if x != fs[|fs| - 1] {
      assert fs == init + [fs[|fs| - 1]];
      GroupAddressesHas(init, x);
    }
  }

  /** One more field appends its registers to its own group's list only. */
  lemma GroupAddressesSnoc(init: seq<FieldDef>, f: FieldDef, g: string)
    requires g in GroupAddresses(init + [f])
    ensures var m := GroupAddresses(init);
      GroupAddresses(init + [f])[g] ==
        (if g in m then m[g] else []) + (if FetchGroup(f) == g then RequiredRegisters(f) else [])
  {
    assert (init + [f])[..|init|] == init;
  }

  /** A group's list holds exactly the required registers of the fields in that group. */
  lemma {:induction false} GroupAddressesContents(fs: seq<FieldDef>, g: string, a: Address)
    requires g in GroupAddresses(fs)
    ensures a in GroupAddresses(fs)[g] <==> Requested(fs, g, a)
  {
    var init := fs[..|fs| - 1];
    var f := fs[|fs| - 1];
    assert fs == init + [f];
    RequestedSnoc(init, f, g, a);
    var m := GroupAddresses(init);
    GroupAddressesSnoc(init, f, g);
    if g in m {
      GroupAddressesContents(init, g, a);
    } else {
      assert !Requested(init, g, a) by {
        if Requested(init, g, a) {
          var x :| x in init && FetchGroup(x) == g && a in RequiredRegisters(x);
          GroupAddressesHas(init, x);
        }
      }
    }
  }

  /**
   * The gap check of one fetch group: its sorted, distinct addresses must
   * run from the first to the first moved on by their number minus one.
   * `check` fails with IllegalStateException; moving past 65535 throws
   * IllegalArgumentException from the Address constructor.
   */
  function CheckGroup(addrs: seq<Address>): Result<()>
  {
    var s := SortedSet(addrs);
    if |s| == 0 then Ok(())
    else
      var last := Increment(s[0], |s| - 1);
      if last.Fail? then Fail(IllegalArgument)
      else if last.value == s[|s| - 1] then Ok(())
      else Fail(IllegalState)
  }

  /** Whether address a lies in the n addresses from start. */
  predicate InRange(a: Address, start: Address, n: int)
  {
    a.addressClass == start.addressClass && start.physicalAddress <= a.physicalAddress < start.physicalAddress + n
  }

  /**
   * A group passes the check exactly when its distinct addresses form one
   * unbroken run.
   */
  lemma CheckGroupMeaning(addrs: seq<Address>)
    ensures CheckGroup(addrs).Ok? <==> Consecutive(SortedSet(addrs))
  {
    var s := SortedSet(addrs);
    if |s| > 0 {
      ConsecutiveSpan(s);
      var last := Increment(s[0], |s| - 1);
      var z := s[|s| - 1];
      if Consecutive(s) {
        assert last.Ok? && last.value == z;
      }
    }
  }

  /** The addresses of a group that passed the check are all those of one class from the smallest one on. */
  lemma CheckGroupRange(addrs: seq<Address>)
    requires CheckGroup(addrs).Ok? && addrs != []
    ensures var s := SortedSet(addrs);
      |s| > 0 && forall a :: a in addrs <==> InRange(a, s[0], |s|)
  {
    var s := SortedSet(addrs);
    assert addrs[0] in s;
    CheckGroupMeaning(addrs);
    ConsecutiveRange(s);
  }

  /** g is the failing group that comes first in the key order of the mapping (a TreeMap). */
  ghost predicate FirstFailing(m: Mapping, g: string)
  {
    g in m && CheckGroup(m[g]).Fail? &&
    forall h :: h in m && CheckGroup(m[h]).Fail? ==> !StringLess(h, g)
  }

  lemma FirstFailingExists(m: Mapping)
    requires exists g :: g in m && CheckGroup(m[g]).Fail?
    ensures exists g :: FirstFailing(m, g)
  {
    var failing := set g | g in m && CheckGroup(m[g]).Fail?;
    var x :| x in m && CheckGroup(m[x]).Fail?;
    assert x in failing;
    FirstStringExists(failing);
    var g :| g in failing && forall h :: h in failing ==> !StringLess(h, g);
    assert FirstFailing(m, g);
  }

  /** The gap check of the mapping reports the first failing group. */
  lemma CheckMappingFirst(m: Mapping, g: string)
    requires FirstFailing(m, g)
    ensures CheckMapping(m) == Fail(CheckGroup(m[g]).failure)
  {
    var r := CheckMapping(m);
    var first :| FirstFailing(m, first) && r.failure == CheckGroup(m[first]).failure;
    FirstFailingUnique(m, g, first);
  }

  /** There is only one first failing group. */
  lemma FirstFailingUnique(m: Mapping, g: string, h: string)
    requires FirstFailing(m, g) && FirstFailing(m, h)
    ensures g == h
  {
    StringLessTotal(g, h);
  }

  /**
   * The gap check of the whole mapping, group after group in key order:
   * the failure of the first group that fails.
   */
  ghost function CheckMapping(m: Mapping): (r: Result<()>)
    ensures r.Fail? ==> exists g :: FirstFailing(m, g) && r.failure == CheckGroup(m[g]).failure
  {
    if forall g :: g in m ==> CheckGroup(m[g]).Ok? then Ok(())
    else
      FirstFailingExists(m);
      var g :| FirstFailing(m, g);
      Fail(CheckGroup(m[g]).failure)
  }

  /** The mapping passes exactly when the distinct addresses of every fetch group form one unbroken run. */
  lemma CheckMappingMeaning(m: Mapping)
    ensures CheckMapping(m).Ok? <==> forall g :: g in m ==> Consecutive(SortedSet(m[g]))
  {
    forall g | g in m
      ensures CheckGroup(m[g]).Ok? <==> Consecutive(SortedSet(m[g]))
    {
      CheckGroupMeaning(m[g]);
    }
  }

  // ---------------------------------------------------------------------------
  // The query of one fetch group

  /**
   * The start and count of a group's query as calculateModbusQueries
   * builds it: the first address of the group's list as stored, and the
   * length of that list.
   */
  function GroupQueryAsWritten(addrs: seq<Address>): (r: (Address, int))
    requires addrs != []
    ensures r.0 in addrs && r.1 >= 1
  {
    (addrs[0], |addrs|)
  }

  /** The start and count the query evidently should have: the smallest address and the number of distinct ones. */
  function GroupQuery(addrs: seq<Address>): (r: (Address, int))
    requires addrs != []
    ensures r.1 >= 1
  {
    var s := SortedSet(addrs);
    assert addrs[0] in s;
    (s[0], |s|)
  }

  /** For a group that passed the check, the query reads exactly the group's addresses. */
  lemma GroupQueryCovers(addrs: seq<Address>)
    requires addrs != [] && CheckGroup(addrs).Ok?
    ensures forall a :: a in addrs <==> InRange(a, GroupQuery(addrs).0, GroupQuery(addrs).1)
  {
    CheckGroupRange(addrs);
  }

  /**
   * When a group's fields list its registers in ascending order without
   * repeating one, the query as written is the intended one, and it reads
   * exactly the group's registers once the group passed the check.
   */
  lemma GroupQueryAgrees(addrs: seq<Address>)
    requires addrs != [] && Increasing(addrs)
    ensures GroupQueryAsWritten(addrs) == GroupQuery(addrs)
    ensures CheckGroup(addrs).Ok? ==>
      forall a :: a in addrs <==> InRange(a, GroupQueryAsWritten(addrs).0, GroupQueryAsWritten(addrs).1)
  {
    SortedSetIsUnique(addrs, addrs);
    if CheckGroup(addrs).Ok? {
      GroupQueryCovers(addrs);
    }
  }

  /**
   * As written, a group whose fields list their registers out of order
   * passes the check but gets a query that misses the lower ones: fields
   * requiring [hr:2, hr:3] and then [hr:0, hr:1] in one fetch group give
   * the query hr:2 # 4, which skips hr:0 and hr:1 and reads hr:4 and hr:5.
   */
  lemma GroupQueryAsWrittenMisses(addrs: seq<Address>)
    requires addrs == [Address(HoldingRegister, 2), Address(HoldingRegister, 3),
                       Address(HoldingRegister, 0), Address(HoldingRegister, 1)]
    ensures CheckGroup(addrs).Ok?
    ensures Address(HoldingRegister, 0) in addrs
    ensures !InRange(Address(HoldingRegister, 0), GroupQueryAsWritten(addrs).0, GroupQueryAsWritten(addrs).1)
    ensures InRange(Address(HoldingRegister, 4), GroupQueryAsWritten(addrs).0, GroupQueryAsWritten(addrs).1)
    ensures GroupQuery(addrs) == (Address(HoldingRegister, 0), 4)
  {
    var h0, h1, h2, h3 := Address(HoldingRegister, 0), Address(HoldingRegister, 1), Address(HoldingRegister, 2), Address(HoldingRegister, 3);
    var s := [h0, h1, h2, h3];
    assert Increasing(s);
    assert forall a :: a in s <==> a in addrs;
    SortedSetIsUnique(addrs, s);
  }

  /**
   * As written, two fields of one group sharing their registers double the
   * count: [hr:0, hr:1, hr:0, hr:1] gives hr:0 # 4, which also reads hr:2
   * and hr:3 that no field of the group asked for.
   */
  lemma GroupQueryAsWrittenOverreads(addrs: seq<Address>)
    requires addrs == [Address(HoldingRegister, 0), Address(HoldingRegister, 1),
                       Address(HoldingRegister, 0), Address(HoldingRegister, 1)]
    ensures CheckGroup(addrs).Ok?
    ensures Address(HoldingRegister, 2) !in addrs
    ensures InRange(Address(HoldingRegister, 2), GroupQueryAsWritten(addrs).0, GroupQueryAsWritten(addrs).1)
    ensures GroupQuery(addrs) == (Address(HoldingRegister, 0), 2)
  {
    OverreadsNotAsked(addrs);
    var h0, h1 := Address(HoldingRegister, 0), Address(HoldingRegister, 1);
    var s := [h0, h1];
    assert Increasing(s);
    assert forall a :: a in s <==> a in addrs;
    SortedSetIsUnique(addrs, s);
    assert Increment(h0, 1) == Ok(h1);
  }

  lemma OverreadsNotAsked(addrs: seq<Address>)
    requires addrs == [Address(HoldingRegister, 0), Address(HoldingRegister, 1),
                       Address(HoldingRegister, 0), Address(HoldingRegister, 1)]
    ensures Address(HoldingRegister, 2) !in addrs
  {
  }

  /** An ascending list with the same members as addrs is its sorted set. */
  lemma SortedSetIsUnique(addrs: seq<Address>, s: seq<Address>)
    requires Increasing(s) && forall a :: a in s <==> a in addrs
    ensures SortedSet(addrs) == s
  {
    var t := SortedSet(addrs);
    IncreasingSameMembers(t, s);
  }

  /** Two ascending lists with the same members are equal. */
  lemma {:induction false} IncreasingSameMembers(t: seq<Address>, s: seq<Address>)
    requires Increasing(t) && Increasing(s) && forall a :: a in s <==> a in t
    ensures t == s
    decreases |s| + |t|
  {
    assert s != [] ==> s[0] in t;
    assert t != [] ==> t[0] in s;
    if s != [] && t != [] {
      SameFirst(t, s);
      SameRest(t, s);
      IncreasingRest(t);
      IncreasingRest(s);
      IncreasingSameMembers(t[1..], s[1..]);
      assert t == [t[0]] + t[1..] && s == [s[0]] + s[1..];
    }
  }

  /** Two non-empty ascending lists with the same members start alike. */
  lemma SameFirst(t: seq<Address>, s: seq<Address>)
    requires s != [] && t != []
    requires Increasing(t) && Increasing(s) && forall a :: a in s <==> a in t
    ensures s[0] == t[0]
  {
    assert s[0] in t && t[0] in s;
    var i :| 0 <= i < |s| && s[i] == t[0];
    var j :| 0 <= j < |t| && t[j] == s[0];
    assert SortKey(s[0]) <= SortKey(s[i]);
    assert SortKey(t[0]) <= SortKey(t[j]);
    CompareSortKey(s[0], t[0]);
  }

  /** Without their common first element, two ascending lists with the same members still have the same members. */
  lemma SameRest(t: seq<Address>, s: seq<Address>)
    requires s != [] && t != [] && s[0] == t[0]
    requires Increasing(t) && Increasing(s) && forall a :: a in s <==> a in t
    ensures forall a :: a in s[1..] <==> a in t[1..]
  {
    forall a
      ensures a in s[1..] <==> a in t[1..]
    {
      RestMember(s, a);
      RestMember(t, a);
    }
  }

  /** In an ascending list, the members after the first are the members other than the first. */
  lemma RestMember(s: seq<Address>, a: Address)
    requires s != [] && Increasing(s)
    ensures a in s[1..] <==> a in s && a != s[0]
  {
    if a in s[1..] {
      var k :| 0 <= k < |s[1..]| && s[1..][k] == a;
      assert SortKey(s[0]) < SortKey(s[k + 1]);
    }
    if a in s && a != s[0] {
      var k :| 0 <= k < |s| && s[k] == a;
      assert s[1..][k - 1] == a;
    }
  }

  lemma IncreasingRest(s: seq<Address>)
    requires s != [] && Increasing(s)
    ensures Increasing(s[1..])
  {
    forall i, j | 0 <= i < j < |s[1..]|
      ensures SortKey(s[1..][i]) < SortKey(s[1..][j])
    {
      assert s[1..][i] == s[i + 1] && s[1..][j] == s[j + 1];
    }
  }

  // ---------------------------------------------------------------------------
  // Which fields must be read again

  /** Some register the field requires holds a value that is too old, or none. */
  predicate NeedsUpdate(f: FieldDef, cache: Values, now: int64, maxAge: int64)
  {
    exists a :: a in RequiredRegisters(f) && Entry(cache, a).NeedsToBeUpdated(now, maxAge)
  }

  /**
   * allFieldsThatMustBeUpdated: every field must be initialized
   * (IllegalArgumentException otherwise); a field is kept when one of its
   * required registers needs to be updated.
   */
  function FieldsToUpdate(fields: seq<FieldDef>, initialized: set<FieldDef>, cache: Values, now: int64, maxAge: int64): (r: Result<seq<FieldDef>>)
    ensures r.Ok? <==> forall f :: f in fields ==> f in initialized
    ensures r.Fail? ==> r.failure == IllegalArgument
    ensures r.Ok? ==> forall f :: f in r.value <==> f in fields && NeedsUpdate(f, cache, now, maxAge)
    ensures r.Ok? ==> |r.value| <= |fields|
  {
    if fields == [] then Ok([])
    else if fields[0] !in initialized then Fail(IllegalArgument)
    else
      var rest := FieldsToUpdate(fields[1..], initialized, cache, now, maxAge);
      assert forall f :: f in fields <==> f == fields[0] || f in fields[1..];
      if rest.Fail? then rest
      else if NeedsUpdate(fields[0], cache, now, maxAge) then Ok([fields[0]] + rest.value)
      else rest
  }

  // ---------------------------------------------------------------------------
  // One query per fetch group

  /** The fields of one fetch group, in order. */
  function InGroup(fs: seq<FieldDef>, g: string): (r: seq<FieldDef>)
    ensures forall f :: f in r <==> f in fs && FetchGroup(f) == g
  {
    if fs == [] then []
    else InGroup(fs[..|fs| - 1], g) + (if FetchGroup(fs[|fs| - 1]) == g then [fs[|fs| - 1]] else [])
  }

  /** The queries built so far, by fetch group, and the groups in the order their first field came. */
  datatype Plan = Plan(order: seq<string>, queries: map<string, Query>)

  /**
   * One turn of the loop of calculateModbusQueries: a field whose group
   * has a query is added to it; otherwise the group's addresses are looked
   * up (`!!` throws when the group is missing; `addresses[0]` when it is
   * empty) and a new query holds the field.
   */
  function PlanStep(p: Plan, f: FieldDef, mapping: Mapping): Result<Plan>
  {
    var g := FetchGroup(f);
    if g in p.queries then
      var q := p.queries[g];
      Ok(Plan(p.order, p.queries[g := q.(fields := q.fields + [f])]))
    else if g !in mapping then Fail(NullPointer)
    else if |mapping[g]| == 0 then Fail(IndexOutOfBounds)
    else
      var (start, count) := GroupQueryAsWritten(mapping[g]);
      Ok(Plan(p.order + [g], p.queries[g := NewQuery(Plain, start, count).(fields := [f])]))
  }

  /** The loop over the fields to update. */
  function PlanOf(fs: seq<FieldDef>, mapping: Mapping): Result<Plan>
  {
    if fs == [] then Ok(Plan([], map[]))
    else
      var prev := PlanOf(fs[..|fs| - 1], mapping);
      if prev.Fail? then prev else PlanStep(prev.value, fs[|fs| - 1], mapping)
  }

  /** A failure part way through the fields is the failure of the whole loop. */
  lemma {:induction false} PlanOfFails(fs: seq<FieldDef>, k: int, mapping: Mapping)
    requires 0 <= k <= |fs| && PlanOf(fs[..k], mapping).Fail?
    ensures PlanOf(fs, mapping) == PlanOf(fs[..k], mapping)
  {
    if k < |fs| {
      assert fs[..|fs| - 1][..k] == fs[..k];
      PlanOfFails(fs[..|fs| - 1], k, mapping);
    } else {
      assert fs[..k] == fs;
    }
  }

  /** The queries of a plan, in the order of their groups. */
  function QueriesInOrder(p: Plan): seq<Query>
    decreases |p.order|
  {
    if p.order == [] then []
    else
      var g := p.order[|p.order| - 1];
      QueriesInOrder(Plan(p.order[..|p.order| - 1], p.queries)) + (if g in p.queries then [p.queries[g]] else [])
  }

  /** calculateModbusQueries as the base fetcher computes it: the plan's queries, sorted. */
  function QueriesFor(toUpdate: seq<FieldDef>, mapping: Mapping): Result<seq<Query>>
  {
    var p := PlanOf(toUpdate, mapping);
    if p.Fail? then Fail(p.failure) else Ok(SortQueries(QueriesInOrder(p.value)))
  }

  predicate NoDuplicates<T(==)>(s: seq<T>)
  {
    forall i, j :: 0 <= i < j < |s| ==> s[i] != s[j]
  }

  /** The query a plan holds for group g, covering fields fs. */
  predicate IsGroupQuery(q: Query, g: string, fs: seq<FieldDef>, mapping: Mapping)
  {
    g in mapping && mapping[g] != [] &&
    q == Query(Plain, GroupQueryAsWritten(mapping[g]).0, GroupQueryAsWritten(mapping[g]).1, NotFetched, InGroup(fs, g), [])
  }

  ghost predicate PlanInvariant(p: Plan, fs: seq<FieldDef>, mapping: Mapping)
  {
    NoDuplicates(p.order) &&
    (forall g :: g in p.queries <==> g in p.order) &&
    (forall g :: g in p.queries <==> InGroup(fs, g) != []) &&
    (forall g :: g in p.queries ==> IsGroupQuery(p.queries[g], g, fs, mapping))
  }

  lemma InGroupSnoc(init: seq<FieldDef>, f: FieldDef, h: string)
    ensures InGroup(init + [f], h) == InGroup(init, h) + (if FetchGroup(f) == h then [f] else [])
  {
    assert (init + [f])[..|init|] == init;
  }

  /** One turn fails only on a field whose group has no addresses. */
  lemma PlanStepOutcome(p: Plan, init: seq<FieldDef>, f: FieldDef, mapping: Mapping)
    requires PlanInvariant(p, init, mapping)
    ensures PlanStep(p, f, mapping).Ok? <==> FetchGroup(f) in mapping && mapping[FetchGroup(f)] != []
    ensures PlanStep(p, f, mapping).Fail? ==>
      PlanStep(p, f, mapping).failure == NullPointer || PlanStep(p, f, mapping).failure == IndexOutOfBounds
  {
    var g := FetchGroup(f);
    if g in p.queries {
      assert IsGroupQuery(p.queries[g], g, init, mapping);
    }
  }

  /** A field of a group that has its query joins that query. */
  lemma PlanStepAdds(p: Plan, init: seq<FieldDef>, f: FieldDef, mapping: Mapping)
    requires PlanInvariant(p, init, mapping) && FetchGroup(f) in p.queries
    ensures PlanStep(p, f, mapping).Ok?
    ensures PlanInvariant(PlanStep(p, f, mapping).value, init + [f], mapping)
  {
    var g := FetchGroup(f);
    var fs := init + [f];
    var p' := PlanStep(p, f, mapping).value;
    assert p'.order == p.order && p'.queries.Keys == p.queries.Keys;
    forall h | h in p'.queries
      ensures IsGroupQuery(p'.queries[h], h, fs, mapping)
    {
      InGroupSnoc(init, f, h);
      assert IsGroupQuery(p.queries[h], h, init, mapping);
    }
    forall h
      ensures h in p'.queries <==> InGroup(fs, h) != []
    {
      InGroupSnoc(init, f, h);
    }
  }

  /** The first field of a group opens a new query for it, after the queries already there. */
  lemma PlanStepOpens(p: Plan, init: seq<FieldDef>, f: FieldDef, mapping: Mapping)
    requires PlanInvariant(p, init, mapping) && FetchGroup(f) !in p.queries
    requires FetchGroup(f) in mapping && mapping[FetchGroup(f)] != []
    ensures PlanStep(p, f, mapping).Ok?
    ensures PlanInvariant(PlanStep(p, f, mapping).value, init + [f], mapping)
  {
    var g := FetchGroup(f);
    var (start, count) := GroupQueryAsWritten(mapping[g]);
    var q := NewQuery(Plain, start, count).(fields := [f]);
    var p' := Plan(p.order + [g], p.queries[g := q]);
    assert PlanStep(p, f, mapping) == Ok(p');
    assert g !in p.order;
    DistinctSnoc(p.order, g);
    assert InGroup(init, g) == [];
    OpenedGroupQueries(p, init, f, mapping, q, p');
    OpenedKeys(p, init, f, mapping, q, p');
  }

  /** Appending a new element keeps a list free of duplicates. */
  lemma DistinctSnoc<T>(s: seq<T>, x: T)
    requires NoDuplicates(s) && x !in s
    ensures NoDuplicates(s + [x])
  {
    var t := s + [x];
    forall i, j | 0 <= i < j < |t|
      ensures t[i] != t[j]
    {
      assert t[i] == s[i];
      if j < |s| {
        assert t[j] == s[j];
      }
    }
  }

  /** The opened query and the queries already there are those of their groups, one field on. */
  lemma OpenedGroupQueries(p: Plan, init: seq<FieldDef>, f: FieldDef, mapping: Mapping, q: Query, p': Plan)
    requires PlanInvariant(p, init, mapping) && FetchGroup(f) !in p.queries
    requires IsGroupQuery(q, FetchGroup(f), init + [f], mapping)
    requires p'.queries == p.queries[FetchGroup(f) := q]
    ensures forall h :: h in p'.queries ==> IsGroupQuery(p'.queries[h], h, init + [f], mapping)
  {
    var g := FetchGroup(f);
    forall h | h in p'.queries
      ensures IsGroupQuery(p'.queries[h], h, init + [f], mapping)
    {
      InGroupSnoc(init, f, h);
      if h != g {
        assert IsGroupQuery(p.queries[h], h, init, mapping);
      }
    }
  }

  /** The keys of the plan are its order and the groups with fields, one field on. */
  lemma OpenedKeys(p: Plan, init: seq<FieldDef>, f: FieldDef, mapping: Mapping, q: Query, p': Plan)
    requires PlanInvariant(p, init, mapping) && FetchGroup(f) !in p.queries
    requires p'.order == p.order + [FetchGroup(f)] && p'.queries == p.queries[FetchGroup(f) := q]
    ensures forall h :: h in p'.queries <==> InGroup(init + [f], h) != []
    ensures forall h :: h in p'.queries <==> h in p'.order
  {
    forall h
      ensures h in p'.queries <==> InGroup(init + [f], h) != []
    {
      InGroupSnoc(init, f, h);
    }
  }

  /** The loop keeps one query per group seen so far, holding that group's fields. */
  lemma {:induction false} PlanOfInvariant(fs: seq<FieldDef>, mapping: Mapping)
    ensures PlanOf(fs, mapping).Ok? ==> PlanInvariant(PlanOf(fs, mapping).value, fs, mapping)
    ensures PlanOf(fs, mapping).Ok? <==>
      forall f :: f in fs ==> FetchGroup(f) in mapping && mapping[FetchGroup(f)] != []
    ensures PlanOf(fs, mapping).Fail? ==>
      PlanOf(fs, mapping).failure == NullPointer || PlanOf(fs, mapping).failure == IndexOutOfBounds
  {
    if fs != [] {
      var init, f := fs[..|fs| - 1], fs[|fs| - 1];
      assert fs == init + [f];
      assert forall x :: x in fs <==> x in init || x == f;
      PlanOfInvariant(init, mapping);
      var prev := PlanOf(init, mapping);
      if prev.Ok? {
        PlanStepOutcome(prev.value, init, f, mapping);
        if FetchGroup(f) in prev.value.queries {
          PlanStepAdds(prev.value, init, f, mapping);
        } else if FetchGroup(f) in mapping && mapping[FetchGroup(f)] != [] {
          PlanStepOpens(prev.value, init, f, mapping);
        }
      }
    }
  }

  /** The queries in group order are the plan's queries, one per group. */
  lemma {:induction false} QueriesInOrderContents(p: Plan)
    requires NoDuplicates(p.order) && forall g :: g in p.order ==> g in p.queries
    ensures |QueriesInOrder(p)| == |p.order|
    ensures forall k :: 0 <= k < |p.order| ==> QueriesInOrder(p)[k] == p.queries[p.order[k]]
    decreases |p.order|
  {
    if p.order != [] {
      var init := Plan(p.order[..|p.order| - 1], p.queries);
      assert forall i, j :: 0 <= i < j < |init.order| ==> init.order[i] == p.order[i] && init.order[j] == p.order[j];
      QueriesInOrderContents(init);
    }
  }

  /** A list with the same members and counts as a list without duplicates has none either. */
  lemma PermutationKeepsNoDuplicates<T>(a: seq<T>, b: seq<T>)
    requires multiset(a) == multiset(b) && NoDuplicates(b)
    ensures NoDuplicates(a)
  {
    forall i, j | 0 <= i < j < |a|
      ensures a[i] != a[j]
    {
      if a[i] == a[j] {
        var x := a[i];
        assert a == a[..j] + [a[j]] + a[j + 1..];
        assert x in a[..j];
        assert multiset(a)[x] >= 2;
        NoDuplicatesCountOne(b, x);
      }
    }
  }

  lemma {:induction false} NoDuplicatesCountOne<T>(b: seq<T>, x: T)
    requires NoDuplicates(b)
    ensures multiset(b)[x] <= 1
  {
    if b != [] {
      var init := b[..|b| - 1];
      assert b == init + [b[|b| - 1]];
      assert NoDuplicates(init) by {
        forall i, j | 0 <= i < j < |init|
          ensures init[i] != init[j]
        {
          assert init[i] == b[i] && init[j] == b[j];
        }
      }
      NoDuplicatesCountOne(init, x);
      if x == b[|b| - 1] {
        assert x !in init;
      }
    }
  }

  /** The queries of a plan in group order: each is its group's query, and holds a field of that group first. */
  lemma InOrderQueries(p: Plan, fs: seq<FieldDef>, mapping: Mapping)
    requires PlanInvariant(p, fs, mapping)
    ensures var vs := QueriesInOrder(p);
      |vs| == |p.order| &&
      forall k :: 0 <= k < |vs| ==>
        vs[k].fields != [] && FetchGroup(vs[k].fields[0]) == p.order[k] && IsGroupQuery(vs[k], p.order[k], fs, mapping)
  {
    QueriesInOrderContents(p);
    var vs := QueriesInOrder(p);
    forall k | 0 <= k < |vs|
      ensures vs[k].fields != [] && FetchGroup(vs[k].fields[0]) == p.order[k] && IsGroupQuery(vs[k], p.order[k], fs, mapping)
    {
      var g := p.order[k];
      assert g in p.queries;
      assert IsGroupQuery(p.queries[g], g, fs, mapping);
      assert vs[k].fields == InGroup(fs, g);
      assert vs[k].fields[0] in InGroup(fs, g);
    }
  }

  /** Every query of calculateModbusQueries is the query of the group of its first field. */
  lemma QueriesForMembers(toUpdate: seq<FieldDef>, mapping: Mapping)
    ensures var r := QueriesFor(toUpdate, mapping);
      r.Ok? ==> forall q :: q in r.value ==>
        q.fields != [] && IsGroupQuery(q, FetchGroup(q.fields[0]), toUpdate, mapping)
  {
    PlanOfInvariant(toUpdate, mapping);
    var r := QueriesFor(toUpdate, mapping);
    if r.Ok? {
      var p := PlanOf(toUpdate, mapping).value;
      var vs := QueriesInOrder(p);
      InOrderQueries(p, toUpdate, mapping);
      SortedMembers(vs);
      forall q | q in r.value
        ensures q.fields != [] && IsGroupQuery(q, FetchGroup(q.fields[0]), toUpdate, mapping)
      {
        var k := QueryIndex(vs, q);
      }
    }
  }

  /** The position of a query in a list that holds it. */
  lemma QueryIndex(qs: seq<Query>, q: Query) returns (k: int)
    requires q in qs
    ensures 0 <= k < |qs| && qs[k] == q
  {
    k :| 0 <= k < |qs| && qs[k] == q;
  }

  /** Sorting keeps the queries: every sorted query is one of the list. */
  lemma SortedMembers(qs: seq<Query>)
    ensures forall q :: q in SortQueries(qs) ==> q in qs
  {
    forall q | q in SortQueries(qs)
      ensures q in qs
    {
      assert q in multiset(SortQueries(qs));
    }
  }

  /** The queries of a plan in group order are all different. */
  lemma InOrderNoDuplicates(p: Plan, fs: seq<FieldDef>, mapping: Mapping)
    requires PlanInvariant(p, fs, mapping)
    ensures NoDuplicates(QueriesInOrder(p))
  {
    var vs := QueriesInOrder(p);
    InOrderQueries(p, fs, mapping);
    forall i, j | 0 <= i < j < |vs|
      ensures vs[i] != vs[j]
    {
      assert FetchGroup(vs[i].fields[0]) == p.order[i] && FetchGroup(vs[j].fields[0]) == p.order[j];
    }
  }

  /** No query of calculateModbusQueries occurs twice. */
  lemma QueriesForNoDuplicates(toUpdate: seq<FieldDef>, mapping: Mapping)
    ensures var r := QueriesFor(toUpdate, mapping);
      r.Ok? ==> NoDuplicates(r.value)
  {
    PlanOfInvariant(toUpdate, mapping);
    var r := QueriesFor(toUpdate, mapping);
    if r.Ok? {
      var p := PlanOf(toUpdate, mapping).value;
      InOrderNoDuplicates(p, toUpdate, mapping);
      PermutationKeepsNoDuplicates(r.value, QueriesInOrder(p));
    }
  }

  /** No two queries of calculateModbusQueries belong to the same fetch group. */
  lemma QueriesForDistinct(toUpdate: seq<FieldDef>, mapping: Mapping)
    ensures var r := QueriesFor(toUpdate, mapping);
      r.Ok? ==> forall i, j :: 0 <= i < j < |r.value| ==>
        r.value[i].fields != [] && r.value[j].fields != [] &&
        FetchGroup(r.value[i].fields[0]) != FetchGroup(r.value[j].fields[0])
  {
    QueriesForMembers(toUpdate, mapping);
    QueriesForNoDuplicates(toUpdate, mapping);
    var r := QueriesFor(toUpdate, mapping);
    if r.Ok? {
      forall i, j | 0 <= i < j < |r.value|
        ensures r.value[i].fields != [] && r.value[j].fields != [] &&
          FetchGroup(r.value[i].fields[0]) != FetchGroup(r.value[j].fields[0])
      {
        var qi, qj := r.value[i], r.value[j];
        assert qi in r.value && qj in r.value;
        assert qi != qj;
      }
    }
  }

  /** Every field to update is in one of the queries of calculateModbusQueries. */
  lemma QueriesForCovers(toUpdate: seq<FieldDef>, mapping: Mapping)
    ensures var r := QueriesFor(toUpdate, mapping);
      r.Ok? ==> forall f :: f in toUpdate ==> exists q :: q in r.value && f in q.fields
  {
    PlanOfInvariant(toUpdate, mapping);
    var r := QueriesFor(toUpdate, mapping);
    if r.Ok? {
      var p := PlanOf(toUpdate, mapping).value;
      var vs := QueriesInOrder(p);
      InOrderQueries(p, toUpdate, mapping);
      forall f | f in toUpdate
        ensures exists q :: q in r.value && f in q.fields
      {
        var g := FetchGroup(f);
        assert f in InGroup(toUpdate, g);
        assert g in p.order;
        var k :| 0 <= k < |p.order| && p.order[k] == g;
        assert IsGroupQuery(vs[k], g, toUpdate, mapping);
        assert vs[k] in multiset(vs);
        assert vs[k] in multiset(r.value);
      }
    }
  }

  /** The plan of calculateModbusQueries fails exactly on a field whose group has no addresses. */
  lemma QueriesForSucceeds(toUpdate: seq<FieldDef>, mapping: Mapping)
    ensures QueriesFor(toUpdate, mapping).Ok? <==>
      forall f :: f in toUpdate ==> FetchGroup(f) in mapping && mapping[FetchGroup(f)] != []
  {
    PlanOfInvariant(toUpdate, mapping);
  }

  /**
   * A successful plan of calculateModbusQueries is sorted; it holds one
   * not-fetched plain query per fetch group, holding exactly the fields of
   * that group in order and reading the group's query range; every field
   * to update is in one of them.
   */
  lemma QueriesForShape(toUpdate: seq<FieldDef>, mapping: Mapping)
    ensures var r := QueriesFor(toUpdate, mapping);
      r.Ok? ==>
        Sorted(r.value) &&
        (forall q :: q in r.value ==>
          q.fields != [] && IsGroupQuery(q, FetchGroup(q.fields[0]), toUpdate, mapping)) &&
        (forall i, j :: 0 <= i < j < |r.value| ==>
          r.value[i].fields != [] && r.value[j].fields != [] &&
          FetchGroup(r.value[i].fields[0]) != FetchGroup(r.value[j].fields[0])) &&
        (forall f :: f in toUpdate ==> exists q :: q in r.value && f in q.fields)
  {
    PlanOfInvariant(toUpdate, mapping);
    QueriesForMembers(toUpdate, mapping);
    QueriesForDistinct(toUpdate, mapping);
    QueriesForCovers(toUpdate, mapping);
  }

  // ---------------------------------------------------------------------------
  // The loop of calculateModbusQueries

  /**
   * One turn of the loop of calculateModbusQueries: the field joins the
   * query of its fetch group, or opens one from the group's addresses.
   */
  method PlanTurn(p: Plan, f: FieldDef, mapping: Mapping) returns (r: Result<Plan>)
    ensures r == PlanStep(p, f, mapping)
  {
    var g := FetchGroup(f);
    if g in p.queries {
      var q := p.queries[g];
      return Ok(Plan(p.order, p.queries[g := q.(fields := q.fields + [f])]));
    }
    if g !in mapping {
      return Fail(NullPointer);
    }
    var addresses := mapping[g];
    if |addresses| == 0 {
      return Fail(IndexOutOfBounds);
    }
    var (start, count) := GroupQueryAsWritten(addresses);
    return Ok(Plan(p.order + [g], p.queries[g := NewQuery(Plain, start, count).(fields := [f])]));
  }

  /** One more field through the loop is one more step. */
  lemma PlanOfNext(ups: seq<FieldDef>, i: int, mapping: Mapping, p: Plan)
    requires 0 <= i < |ups| && PlanOf(ups[..i], mapping) == Ok(p)
    ensures PlanOf(ups[..i + 1], mapping) == PlanStep(p, ups[i], mapping)
  {
    assert ups[..i + 1][..i] == ups[..i];
  }

  /**
   * The loop of calculateModbusQueries over the fields to update: a
   * field joins the query of its fetch group, or opens one; the queries
   * come back sorted.
   */
  method PlanGroupQueries(ups: seq<FieldDef>, mapping: Mapping) returns (r: Result<seq<Query>>)
    ensures r == QueriesFor(ups, mapping)
  {
    var p := Plan([], map[]);
    var i := 0;
    while i < |ups|
      invariant 0 <= i <= |ups|
      invariant PlanOf(ups[..i], mapping) == Ok(p)
    {
      PlanOfNext(ups, i, mapping, p);
      var step := PlanTurn(p, ups[i], mapping);
      if step.Fail? {
        PlanOfFails(ups, i + 1, mapping);
        return Fail(step.failure);
      }
      p := step.value;
      i := i + 1;
    }
    assert ups[..i] == ups;
    return Ok(SortQueries(QueriesInOrder(p)));
  }
}
