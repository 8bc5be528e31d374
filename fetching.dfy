/**
 * Fetching (ModbusBlockFetcher.kt, OptimizingModbusBlockFetcher.kt): the
 * fetcher works out the queries for the fields that must be read again,
 * sends each to the device, stores what comes back in the register cache,
 * and retries the parts of a merged query the device failed on.
 *
 * The device is a function from a start address and a count to its reply:
 * the block it read, or a ModbusException. The register and discrete
 * blocks of the schema device are one map of value states. The fetch of a
 * query, the retry of a failed merged query and the fetch of a list of
 * queries are mutually recursive functions here; the fetcher's methods are
 * proved to compute them.
 */
module Fetchers {
  import opened Wrappers
  import opened Text
  import opened AddressClasses
  import opened Addresses
  import opened ByteConversions
  import opened ModbusValues
  import opened ModbusBlocks
  import opened Fields
  import opened ModbusQueries
  import opened AddressSets
  import opened FetchPlans
  import opened QueryMerging

  /** What the device does with one query: the block it read, or a ModbusException. */
  datatype Reply = Answer(values: Values) | Thrown

  /** getRegisters / getDiscretes of the device, for a start address and a count. */
  type Device = (Address, int) -> Reply

  predicate HasReadError(vals: Values)
  {
    exists a :: a in vals && vals[a].IsReadError()
  }

  /** The status a fetched query gets: ERROR when any value read is a read error, SUCCESS otherwise. */
  function StatusOf(vals: Values): Status
  {
    if HasReadError(vals) then Error else Success
  }

  /** `values.forEach { it.setHardReadError() }` on the block read. */
  function HardErrors(vals: Values): Values
  {
    map a | a in vals :: vals[a].WithHardReadError()
  }

  /** Every part of a merged query counts less than the query. */
  lemma SubsSmaller(q: Query)
    ensures forall x :: x in q.subs ==> Size(x) < Size(q)
  {
    forall x | x in q.subs
      ensures Size(x) < Size(q)
    {
      var k :| 0 <= k < |q.subs| && q.subs[k] == x;
      ElementSmaller(q.subs, k);
    }
  }

  // ---------------------------------------------------------------------------
  // fetch and the retry of a failed merged query

  /**
   * fetch(modbusQuery): the new cache and the queries fetched. A thrown
   * ModbusException is logged and nothing is stored or returned. A query
   * that read without error, and a hole, store the block as read. A plain
   * query that read an error stores the block as hard read errors. A
   * failed merged query is returned as it is by the base fetcher (its
   * retry throws ModbusApiException, which the same catch swallows); the
   * optimizing fetcher retries its parts, and stores the block as hard
   * read errors only when there was nothing to retry.
   */
  function FetchSpec(dev: Device, optimizing: bool, cache: Values, q: Query): (r: (Values, seq<Query>))
    ensures cache.Keys <= r.0.Keys
    ensures r.1 == [] <==> dev(q.start, q.count).Thrown?
    ensures r.1 == [] ==> r.0 == cache
    ensures r.1 != [] ==> r.1[0] == q.(status := StatusOf(dev(q.start, q.count).values))
    ensures forall x :: x in r.1 ==> x.status != NotFetched
    decreases Size(q), 2, 0
  {
    match dev(q.start, q.count)
    case Thrown => (cache, [])
    case Answer(vals) =>
      var fetched := q.(status := StatusOf(vals));
      if fetched.status == Success || q.kind == Hole then (MergeValues(cache, vals), [fetched])
      else if q.kind == Plain then (MergeValues(cache, HardErrors(vals)), [fetched])
      else if !optimizing then (cache, [fetched])
      else
        var (after, retries) := RetrySpec(dev, cache, fetched);
        if retries == [] then (MergeValues(after, HardErrors(vals)), [fetched])
        else (after, [fetched] + retries)
  }

  /**
   * retryFetchOfFailedMergedModbusQuery of the optimizing fetcher: nothing
   * for a single part; each part for fewer than four; otherwise each of
   * the smaller merged queries the parts are split into.
   */
  function RetrySpec(dev: Device, cache: Values, q: Query): (r: (Values, seq<Query>))
    ensures cache.Keys <= r.0.Keys
    ensures r.1 == [] ==> r.0 == cache
    ensures |q.subs| == 1 ==> r == (cache, [])
    ensures forall x :: x in r.1 ==> x.status != NotFetched
    decreases Size(q), 1, 0
  {
    if |q.subs| == 1 then (cache, [])
    else if |q.subs| < 4 then
      SubsSmaller(q);
      FetchAllSpec(dev, true, cache, q.subs, Size(q))
    else
      SplitSmaller(q);
      FetchAllSpec(dev, true, cache, SplitSpec(q).value, Size(q))
  }

  /**
   * `map { fetch(it) }.flatten()`: the queries fetched one after the
   * other, each on the cache the one before left. `bound` is larger than
   * the size of every query of the list.
   */
  function FetchAllSpec(dev: Device, optimizing: bool, cache: Values, qs: seq<Query>, bound: nat): (r: (Values, seq<Query>))
    requires forall x :: x in qs ==> Size(x) < bound
    ensures cache.Keys <= r.0.Keys
    ensures r.1 == [] ==> r.0 == cache
    ensures forall x :: x in r.1 ==> x.status != NotFetched
    decreases bound, 0, |qs|
  {
    if qs == [] then (cache, [])
    else
      var (mid, before) := FetchAllSpec(dev, optimizing, cache, qs[..|qs| - 1], bound);
      var (after, last) := FetchSpec(dev, optimizing, mid, qs[|qs| - 1]);
      (after, before + last)
  }

  /** One more query fetched after a list is the fetch of that query on the cache the list left. */
  lemma FetchAllSnoc(dev: Device, optimizing: bool, cache: Values, qs: seq<Query>, i: int, bound: nat)
    requires 0 <= i < |qs| && forall x :: x in qs ==> Size(x) < bound
    ensures forall x :: x in qs[..i] ==> Size(x) < bound
    ensures var prev := FetchAllSpec(dev, optimizing, cache, qs[..i], bound);
      var next := FetchSpec(dev, optimizing, prev.0, qs[i]);
      FetchAllSpec(dev, optimizing, cache, qs[..i + 1], bound) == (next.0, prev.1 + next.1)
  {
    assert qs[..i + 1][..i] == qs[..i];
    assert qs[..i + 1][i] == qs[i];
  }

  /** A bound for FetchAllSpec: more than the size of every query of the list. */
  function SizeBound(qs: seq<Query>): (r: nat)
    ensures forall x :: x in qs ==> Size(x) < r
  {
    forall x | x in qs
      ensures Size(x) <= SumSizes(qs)
    {
      var k :| 0 <= k < |qs| && qs[k] == x;
      ElementSmaller(qs, k);
    }
    SumSizes(qs) + 1
  }

  /**
   * A plain query whose block holds a read error: every address read is
   * stored as a hard read error, every other address keeps its value, and
   * the query comes back with status ERROR.
   */
  lemma FetchFailedPlain(dev: Device, optimizing: bool, cache: Values, q: Query)
    requires q.kind == Plain && dev(q.start, q.count).Answer? && HasReadError(dev(q.start, q.count).values)
    ensures var vals := dev(q.start, q.count).values;
      var r := FetchSpec(dev, optimizing, cache, q);
      r.1 == [q.(status := Error)] &&
      (forall a :: a in vals ==> a in r.0 && r.0[a].IsReadError() && r.0[a].hardReadError) &&
      (forall b :: b in cache && b !in vals ==> r.0[b] == cache[b])
  {
    var vals := dev(q.start, q.count).values;
    forall a | a in vals
      ensures MergeValues(cache, HardErrors(vals))[a].IsReadError() && MergeValues(cache, HardErrors(vals))[a].hardReadError
    {
      MergeEffect(cache, HardErrors(vals), a);
    }
  }

  /**
   * A query whose block holds no read error: every value read is stored
   * with its timestamp, every other address keeps its value, and the
   * query comes back with status SUCCESS.
   */
  lemma FetchSucceeded(dev: Device, optimizing: bool, cache: Values, q: Query)
    requires dev(q.start, q.count).Answer? && !HasReadError(dev(q.start, q.count).values)
    ensures var vals := dev(q.start, q.count).values;
      var r := FetchSpec(dev, optimizing, cache, q);
      r.1 == [q.(status := Success)] &&
      (forall a :: a in vals ==>
        (a in r.0 && r.0[a].value == vals[a].value &&
         r.0[a].fetchTimestamp == vals[a].fetchTimestamp && !r.0[a].IsReadError())) &&
      (forall b :: b in cache && b !in vals ==> r.0[b] == cache[b])
  {
    var vals := dev(q.start, q.count).values;
    forall a | a in vals
      ensures var v := MergeValues(cache, vals)[a];
        v.value == vals[a].value && v.fetchTimestamp == vals[a].fetchTimestamp && !v.IsReadError()
    {
      MergeEffect(cache, vals, a);
    }
  }

  /**
   * A hole whose block holds a read error stores it as it came: the read
   * errors stay soft, so they are avoided until a field asks for them.
   */
  lemma FetchFailedHole(dev: Device, optimizing: bool, cache: Values, q: Query)
    requires q.kind == Hole && dev(q.start, q.count).Answer? && HasReadError(dev(q.start, q.count).values)
    ensures var vals := dev(q.start, q.count).values;
      var r := FetchSpec(dev, optimizing, cache, q);
      r.1 == [q.(status := Error)] &&
      (forall a :: a in vals ==>
        (a in r.0 && r.0[a].IsReadError() == vals[a].IsReadError() &&
         r.0[a].hardReadError == vals[a].hardReadError))
  {
    var vals := dev(q.start, q.count).values;
    forall a | a in vals
      ensures MergeValues(cache, vals)[a].IsReadError() == vals[a].IsReadError()
    {
      MergeEffect(cache, vals, a);
    }
  }

  /**
   * A failed merged query of a single part is not retried: it is the only
   * query returned, and every address read is stored as a hard read error.
   */
  lemma FetchFailedMergedAlone(dev: Device, cache: Values, q: Query)
    requires q.kind == Merged && |q.subs| == 1
    requires dev(q.start, q.count).Answer? && HasReadError(dev(q.start, q.count).values)
    ensures var vals := dev(q.start, q.count).values;
      var r := FetchSpec(dev, true, cache, q);
      r.1 == [q.(status := Error)] &&
      (forall a :: a in vals ==> a in r.0 && r.0[a].IsReadError() && r.0[a].hardReadError)
  {
    var vals := dev(q.start, q.count).values;
    forall a | a in vals
      ensures MergeValues(cache, HardErrors(vals))[a].IsReadError() && MergeValues(cache, HardErrors(vals))[a].hardReadError
    {
      MergeEffect(cache, HardErrors(vals), a);
    }
  }

  /**
   * A failed merged query of two or three parts is followed by the fetch
   * of each part, in order, on the cache as it was.
   */
  lemma FetchFailedMergedRetriesParts(dev: Device, cache: Values, q: Query)
    requires q.kind == Merged && 2 <= |q.subs| < 4
    requires dev(q.start, q.count).Answer? && HasReadError(dev(q.start, q.count).values)
    requires exists x :: x in q.subs && dev(x.start, x.count).Answer?
    ensures SizeBound(q.subs) <= Size(q)
    ensures var r := FetchSpec(dev, true, cache, q);
      var retried := FetchAllSpec(dev, true, cache, q.subs, Size(q));
      retried.1 != [] && r == (retried.0, [q.(status := Error)] + retried.1)
  {
    SubsSmaller(q);
    var x :| x in q.subs && dev(x.start, x.count).Answer?;
    var k :| 0 <= k < |q.subs| && q.subs[k] == x;
    FetchAllFindsAnswer(dev, cache, q.subs, Size(q), k);
    var vals := dev(q.start, q.count).values;
    assert dev(q.start, q.count) == Answer(vals);
    var fetched := q.(status := Error);
    assert fetched == q.(status := StatusOf(vals));
    assert fetched.status != Success && q.kind != Hole && q.kind != Plain;
    assert Size(fetched) == Size(q);
    var retried := FetchAllSpec(dev, true, cache, q.subs, Size(q));
    assert RetrySpec(dev, cache, fetched) == retried;
    assert FetchSpec(dev, true, cache, q) == (retried.0, [fetched] + retried.1);
  }

  /** A list with a query the device answers fetches something. */
  lemma {:induction false} FetchAllFindsAnswer(dev: Device, cache: Values, qs: seq<Query>, bound: nat, k: int)
    requires forall x :: x in qs ==> Size(x) < bound
    requires 0 <= k < |qs| && dev(qs[k].start, qs[k].count).Answer?
    ensures FetchAllSpec(dev, true, cache, qs, bound).1 != []
  {
    var init := qs[..|qs| - 1];
    if k < |qs| - 1 {
      assert init[k] == qs[k];
      FetchAllFindsAnswer(dev, cache, init, bound, k);
    }
  }

  // ---------------------------------------------------------------------------
  // calculateModbusQueries

  /**
   * calculateModbusQueries of the base fetcher: the fields that must be
   * updated (IllegalArgumentException for one not initialized), the gap
   * check of the fetch-group mapping, and one query per fetch group,
   * sorted.
   */
  ghost function PlannedQueries(schemaFields: seq<FieldDef>, initialized: set<FieldDef>, cache: Values,
                                fields: seq<FieldDef>, now: int64, maxAge: int64): Result<seq<Query>>
  {
    var toUpdate := FieldsToUpdate(fields, initialized, cache, now, maxAge);
    if toUpdate.Fail? then Fail(toUpdate.failure)
    else
      var mapping := GroupAddresses(schemaFields);
      var check := CheckMapping(mapping);
      if check.Fail? then Fail(check.failure)
      else QueriesFor(toUpdate.value, mapping)
  }

  /** Every field asked for is initialized. */
  predicate AllInitialized(fields: seq<FieldDef>, initialized: set<FieldDef>)
  {
    forall f :: f in fields ==> f in initialized
  }

  /** The distinct addresses of every fetch group form one unbroken run. */
  predicate GapFree(mapping: Mapping)
  {
    forall g :: g in mapping ==> Consecutive(SortedSet(mapping[g]))
  }

  /** Every stale field belongs to a fetch group that has addresses. */
  predicate StaleGroupsMapped(fields: seq<FieldDef>, cache: Values, now: int64, maxAge: int64, mapping: Mapping)
  {
    forall f :: f in fields && NeedsUpdate(f, cache, now, maxAge) ==>
      FetchGroup(f) in mapping && mapping[FetchGroup(f)] != []
  }

  /**
   * The base plan fails for a field that is not initialized, for a fetch
   * group with a gap, and for a fetch group without addresses, and for
   * nothing else.
   */
  lemma PlannedQueriesSucceed(schemaFields: seq<FieldDef>, initialized: set<FieldDef>, cache: Values,
                              fields: seq<FieldDef>, now: int64, maxAge: int64)
    ensures PlannedQueries(schemaFields, initialized, cache, fields, now, maxAge).Ok? <==>
      AllInitialized(fields, initialized) && GapFree(GroupAddresses(schemaFields)) &&
      StaleGroupsMapped(fields, cache, now, maxAge, GroupAddresses(schemaFields))
  {
    var toUpdate := FieldsToUpdate(fields, initialized, cache, now, maxAge);
    var mapping := GroupAddresses(schemaFields);
    var r := PlannedQueries(schemaFields, initialized, cache, fields, now, maxAge);
    assert toUpdate.Ok? == AllInitialized(fields, initialized);
    CheckMappingMeaning(mapping);
    assert CheckMapping(mapping).Ok? == GapFree(mapping);
    if toUpdate.Ok? && GapFree(mapping) {
      assert r == QueriesFor(toUpdate.value, mapping);
      QueriesForSucceeds(toUpdate.value, mapping);
      StaleGroupsKnown(fields, toUpdate.value, cache, now, maxAge, mapping);
      assert r.Ok? == StaleGroupsMapped(fields, cache, now, maxAge, mapping);
    } else {
      assert r.Fail?;
    }
  }

  /** Every field to update has a group with addresses exactly when every stale field has one. */
  lemma StaleGroupsKnown(fields: seq<FieldDef>, toUpdate: seq<FieldDef>, cache: Values, now: int64, maxAge: int64,
                         mapping: Mapping)
    requires forall f :: f in toUpdate <==> f in fields && NeedsUpdate(f, cache, now, maxAge)
    ensures (forall f :: f in toUpdate ==> FetchGroup(f) in mapping && mapping[FetchGroup(f)] != []) <==>
      (forall f :: f in fields && NeedsUpdate(f, cache, now, maxAge) ==>
        FetchGroup(f) in mapping && mapping[FetchGroup(f)] != [])
  {
  }

  /**
   * A successful base plan is sorted and holds one not-fetched plain query
   * per fetch group of the stale fields, reading exactly that group's
   * addresses.
   */
  lemma PlannedQueriesShape(schemaFields: seq<FieldDef>, initialized: set<FieldDef>, cache: Values,
                            fields: seq<FieldDef>, now: int64, maxAge: int64)
    ensures var r := PlannedQueries(schemaFields, initialized, cache, fields, now, maxAge);
      r.Ok? ==>
        Sorted(r.value) && PlainQueries(r.value) &&
        (forall q :: q in r.value ==>
          (q.status == NotFetched && q.fields != [] &&
           forall f :: f in q.fields ==> f in fields && NeedsUpdate(f, cache, now, maxAge))) &&
        (forall f :: f in fields && NeedsUpdate(f, cache, now, maxAge) ==> exists q :: q in r.value && f in q.fields)
  {
    var toUpdate := FieldsToUpdate(fields, initialized, cache, now, maxAge);
    var mapping := GroupAddresses(schemaFields);
    if toUpdate.Ok? && CheckMapping(mapping).Ok? {
      QueriesForShape(toUpdate.value, mapping);
      var r := QueriesFor(toUpdate.value, mapping);
      if r.Ok? {
        forall q | q in r.value
          ensures q.kind == Plain && q.count >= 1 && q.status == NotFetched && q.fields != [] &&
            forall f :: f in q.fields ==> f in toUpdate.value
        {
          var g := FetchGroup(q.fields[0]);
          assert IsGroupQuery(q, g, toUpdate.value, mapping);
        }
      }
    }
  }

  /** The queries of the base plan that no field using a read-error register is in, in order. */
  function WithoutReadErrorQueries(qs: seq<Query>, cache: Values): (r: seq<Query>)
    ensures forall q :: q in r <==> q in qs && forall f :: f in q.fields ==> !UsesReadErrorRegisters(f, cache)
    ensures |r| <= |qs|
  {
    if qs == [] then []
    else
      var rest := WithoutReadErrorQueries(qs[..|qs| - 1], cache);
      var q := qs[|qs| - 1];
      assert forall x :: x in qs <==> x in qs[..|qs| - 1] || x == q;
      if forall f :: f in q.fields ==> !UsesReadErrorRegisters(f, cache) then rest + [q] else rest
  }

  /**
   * isUsingReadErrorRegisters, for a field that initialized: some register
   * the field requires holds a read error (UsedReadErrorsOfInitialized).
   */
  predicate UsesReadErrorRegisters(f: FieldDef, cache: Values)
  {
    exists a :: a in RequiredRegisters(f) && Entry(cache, a).IsReadError()
  }

  /** The registers of the list present in the cache with a read error, in order. */
  function ReadErrorsAmong(regs: seq<Address>, cache: Values): (r: seq<Address>)
    ensures forall a :: a in r <==> a in regs && a in cache && cache[a].IsReadError()
  {
    if regs == [] then []
    else
      var rest := ReadErrorsAmong(regs[1..], cache);
      assert forall a :: a in regs <==> a == regs[0] || a in regs[1..];
      if regs[0] in cache && cache[regs[0]].IsReadError() then [regs[0]] + rest else rest
  }

  /**
   * usedReadErrorAddresses: nothing when the field's address class is null
   * (no registers, or initialize() did not succeed); otherwise the required
   * registers the cache holds with a read error.
   */
  function UsedReadErrorAddresses(f: FieldDef, fieldIds: set<string>, cache: Values): (r: seq<Address>)
    ensures forall a :: a in r <==>
      InitializedClass(f, fieldIds).Some? && a in RequiredRegisters(f) && a in cache && cache[a].IsReadError()
  {
    if InitializedClass(f, fieldIds).None? then [] else ReadErrorsAmong(RequiredRegisters(f), cache)
  }

  /**
   * For a field that initialized, isUsingReadErrorRegisters (a non-empty
   * usedReadErrorAddresses) is the predicate the optimizing fetcher filters
   * on; a field that did not initialize uses no read-error register.
   */
  lemma UsedReadErrorsOfInitialized(f: FieldDef, fieldIds: set<string>, cache: Values)
    ensures Initialize(f, fieldIds).Ok? && Initialize(f, fieldIds).value.0 ==>
      (UsedReadErrorAddresses(f, fieldIds, cache) != [] <==> UsesReadErrorRegisters(f, cache))
    ensures !(Initialize(f, fieldIds).Ok? && Initialize(f, fieldIds).value.0) ==>
      UsedReadErrorAddresses(f, fieldIds, cache) == []
  {
    var used := UsedReadErrorAddresses(f, fieldIds, cache);
    if Initialize(f, fieldIds).Ok? && Initialize(f, fieldIds).value.0 {
      if UsesReadErrorRegisters(f, cache) {
        var a :| a in RequiredRegisters(f) && Entry(cache, a).IsReadError();
        assert !NewState(a).IsReadError();
        assert a in used;
      }
      if used != [] {
        assert used[0] in used;
      }
    }
  }

  /** The address classes of the registers required by the fields of the queries. */
  function UsedClasses(qs: seq<Query>): set<AddressClass>
  {
    set q, f, a | q in qs && f in q.fields && a in RequiredRegisters(f) :: a.addressClass
  }

  /** The read-error addresses in the blocks of the given classes. */
  function ReadErrorAddresses(cache: Values, classes: set<AddressClass>): set<Address>
  {
    set a | a in cache && a.addressClass in classes && cache[a].IsReadError()
  }

  /**
   * calculateModbusQueries of the optimizing fetcher: the base plan
   * without the queries that use read-error registers, merged within the
   * device's limits and the allowed gap.
   */
  function OptimizedQueries(base: seq<Query>, cache: Values, maxRegisters: int, maxDiscretes: int, allowedGap: int): Result<seq<Query>>
  {
    var kept := WithoutReadErrorQueries(base, cache);
    MergeSpec(kept, Limits(maxRegisters, maxDiscretes, allowedGap, ReadErrorAddresses(cache, UsedClasses(kept))))
  }

  /**
   * The optimized plan merges exactly the queries of the base plan whose
   * fields use no read-error register: a single one is kept as it is;
   * otherwise the parts of the merged queries, one after the other, are
   * those queries sorted, and every merged query is tiled by its parts and
   * within the limit.
   */
  lemma OptimizedQueriesShape(base: seq<Query>, cache: Values, maxRegisters: int, maxDiscretes: int, allowedGap: int)
    requires PlainQueries(base)
    ensures var r := OptimizedQueries(base, cache, maxRegisters, maxDiscretes, allowedGap);
      var kept := WithoutReadErrorQueries(base, cache);
      var lim := Limits(maxRegisters, maxDiscretes, allowedGap, ReadErrorAddresses(cache, UsedClasses(kept)));
      (r.Fail? ==> r.failure == IllegalArgument) &&
      (r.Ok? && |kept| == 1 ==> r.value == kept) &&
      (r.Ok? && |kept| != 1 ==>
        Parts(r.value) == SortQueries(kept) && forall m :: m in r.value ==> Tiled(m, lim)) &&
      (forall q :: q in kept <==> q in base && forall f :: f in q.fields ==> !UsesReadErrorRegisters(f, cache))
  {
    var kept := WithoutReadErrorQueries(base, cache);
    var lim := Limits(maxRegisters, maxDiscretes, allowedGap, ReadErrorAddresses(cache, UsedClasses(kept)));
    MergeSpecTiles(kept, lim);
  }

  /**
   * When the kept queries, sorted, do not read into each other, the
   * optimized plan is the one the intended merge builds, and every merged
   * query reads all its parts.
   */
  lemma OptimizedQueriesSeparated(base: seq<Query>, cache: Values, maxRegisters: int, maxDiscretes: int, allowedGap: int)
    requires PlainQueries(base)
    requires Separated(SortQueries(WithoutReadErrorQueries(base, cache)))
    ensures var r := OptimizedQueries(base, cache, maxRegisters, maxDiscretes, allowedGap);
      var kept := WithoutReadErrorQueries(base, cache);
      var lim := Limits(maxRegisters, maxDiscretes, allowedGap, ReadErrorAddresses(cache, UsedClasses(kept)));
      r == MergeSpecIntended(kept, lim) &&
      (r.Ok? && |kept| != 1 ==> forall m :: m in r.value ==> WellMerged(m, lim))
  {
    var kept := WithoutReadErrorQueries(base, cache);
    var lim := Limits(maxRegisters, maxDiscretes, allowedGap, ReadErrorAddresses(cache, UsedClasses(kept)));
    OptimizedQueriesShape(base, cache, maxRegisters, maxDiscretes, allowedGap);
    MergeSpecAgrees(kept, lim);
    MergeSpecShape(kept, lim);
  }

  /**
   * The optimizing fetcher's part of calculateModbusQueries: the queries
   * using read-error registers dropped, the rest merged.
   */
  method DropAndMerge(base: seq<Query>, cache: Values, maxRegisters: int, maxDiscretes: int, allowedGap: int)
    returns (r: Result<seq<Query>>)
    ensures r == OptimizedQueries(base, cache, maxRegisters, maxDiscretes, allowedGap)
  {
    var kept := WithoutReadErrorQueries(base, cache);
    var lim := Limits(maxRegisters, maxDiscretes, allowedGap, ReadErrorAddresses(cache, UsedClasses(kept)));
    r := MergeQueries(kept, lim);
  }

  /** The first loop of the fetch group mapping: each field appends its registers to its group's list. */
  method GroupMappingOf(fields: seq<FieldDef>) returns (m: Mapping)
    ensures m == GroupAddresses(fields)
  {
    m := map[];
    var i := 0;
    while i < |fields|
      invariant 0 <= i <= |fields|
      invariant m == GroupAddresses(fields[..i])
    {
      var f := fields[i];
      var g := FetchGroup(f);
      var existing := if g in m then m[g] else [];
      m := m[g := existing + RequiredRegisters(f)];
      assert fields[..i + 1][..i] == fields[..i];
      i := i + 1;
    }
    assert fields[..i] == fields;
  }

  /** The second loop: the groups in key order, stopping at the first that fails the gap check. */
  method CheckGroupsInKeyOrder(m: Mapping) returns (r: Result<()>)
    ensures r == CheckMapping(m)
  {
    var remaining := m.Keys;
    while remaining != {}
      invariant remaining <= m.Keys
      invariant forall g :: g in m && g !in remaining ==> CheckGroup(m[g]).Ok?
      invariant forall p, h :: p in m && p !in remaining && h in remaining ==> StringLess(p, h)
      decreases |remaining|
    {
      FirstStringExists(remaining);
      var g :| g in remaining && forall h :: h in remaining ==> !StringLess(h, g);
      var check := CheckGroup(m[g]);
      if check.Fail? {
        forall h | h in m && CheckGroup(m[h]).Fail?
          ensures !StringLess(h, g)
        {
          if h !in remaining {
            StringLessTotal(g, h);
          }
        }
        CheckMappingFirst(m, g);
        return Fail(check.failure);
      }
      forall h | h in remaining && h != g
        ensures StringLess(g, h)
      {
        StringLessTotal(g, h);
      }
      remaining := remaining - {g};
    }
    return Ok(());
  }

  // ---------------------------------------------------------------------------
  // Stamping the cache with immutability and fetch groups

  /**
   * The inner loop of calculateFetchGroupToAddressesMapping for one field:
   * the value of each register it requires, created when absent, gets the
   * field's immutability and fetch group.
   */
  function StampRegisters(cache: Values, regs: seq<Address>, isImmutable: bool, group: string): Values
  {
    if regs == [] then cache
    else
      var m := StampRegisters(cache, regs[..|regs| - 1], isImmutable, group);
      var a := regs[|regs| - 1];
      m[a := Entry(m, a).(immutable := isImmutable, fetchGroup := group)]
  }

  /** The cache once every field, in order, has stamped the registers it requires. */
  function Stamped(cache: Values, fs: seq<FieldDef>, immutableFields: set<FieldDef>): Values
  {
    if fs == [] then cache
    else
      var f := fs[|fs| - 1];
      StampRegisters(Stamped(cache, fs[..|fs| - 1], immutableFields), RequiredRegisters(f), f in immutableFields, FetchGroup(f))
  }

  /** The registers some field of the list requires. */
  function RequiredByAny(fs: seq<FieldDef>): set<Address>
  {
    if fs == [] then {}
    else
      var regs := RequiredRegisters(fs[|fs| - 1]);
      RequiredByAny(fs[..|fs| - 1]) + (set a | a in regs)
  }

  /**
   * after holds every value of before, and every value of after is the
   * one before holds (or a new empty one) with at most its immutable flag
   * and fetch group changed.
   */
  predicate StampsOnly(before: Values, after: Values)
  {
    before.Keys <= after.Keys &&
    forall a :: a in after ==> Unstamped(after[a]) == Unstamped(Entry(before, a))
  }

  /** A value state without its immutable flag and fetch group. */
  function Unstamped(v: ValueState): ValueState
  {
    v.(immutable := false, fetchGroup := "")
  }

  /** Field i is the last of the list to require register a. */
  predicate LastToRequire(fs: seq<FieldDef>, i: int, a: Address)
  {
    0 <= i < |fs| && a in RequiredRegisters(fs[i]) && forall j :: i < j < |fs| ==> a !in RequiredRegisters(fs[j])
  }

  /**
   * r is cache with the registers regs stamped: it holds exactly the values
   * of cache and of regs, only stamps changed, every register of regs carries
   * the stamp and every other value is untouched.
   */
  ghost predicate StampedBy(cache: Values, r: Values, regs: seq<Address>, isImmutable: bool, group: string)
  {
    (forall b :: b in r <==> b in cache || b in regs) &&
    StampsOnly(cache, r) &&
    (forall b :: b in regs ==> b in r && r[b].immutable == isImmutable && r[b].fetchGroup == group) &&
    (forall b :: b in cache && b !in regs ==> r[b] == cache[b])
  }

  /**
   * Stamping one field's registers creates exactly the missing ones, stamps
   * them all and changes nothing else.
   */
  lemma {:induction false} StampRegistersMeaning(cache: Values, regs: seq<Address>, isImmutable: bool, group: string)
    ensures StampedBy(cache, StampRegisters(cache, regs, isImmutable, group), regs, isImmutable, group)
  {
    if regs != [] {
      var init := regs[..|regs| - 1];
      assert regs == init + [regs[|regs| - 1]];
      StampRegistersMeaning(cache, init, isImmutable, group);
      StampRegisterStep(cache, StampRegisters(cache, init, isImmutable, group), init, regs[|regs| - 1], isImmutable, group);
    }
  }

  /** One more register stamped. */
  lemma StampRegisterStep(cache: Values, m: Values, init: seq<Address>, a: Address, isImmutable: bool, group: string)
    requires StampedBy(cache, m, init, isImmutable, group)
    ensures StampedBy(cache, m[a := Entry(m, a).(immutable := isImmutable, fetchGroup := group)], init + [a], isImmutable, group)
  {
    var v := Entry(m, a).(immutable := isImmutable, fetchGroup := group);
    var r := m[a := v];
    var regs := init + [a];
    assert forall b :: b in regs <==> b in init || b == a;
    StampsOnlyStep(cache, m, a, isImmutable, group);
    forall b | b in regs
      ensures b in r && r[b].immutable == isImmutable && r[b].fetchGroup == group
    {
      if b != a {
        assert b in init;
      }
    }
    forall b | b in cache && b !in regs
      ensures r[b] == cache[b]
    {
      assert b != a && b !in init;
    }
  }

  /** The stamping loop, field after field. */
  method StampAll(cache: Values, fs: seq<FieldDef>, immutableFields: set<FieldDef>) returns (r: Values)
    ensures r == Stamped(cache, fs, immutableFields)
  {
    r := cache;
    var i := 0;
    while i < |fs|
      invariant 0 <= i <= |fs|
      invariant r == Stamped(cache, fs[..i], immutableFields)
    {
      var f := fs[i];
      StampedNext(cache, fs, i, immutableFields);
      r := StampEach(r, RequiredRegisters(f), f in immutableFields, FetchGroup(f));
      i := i + 1;
    }
    assert fs[..i] == fs;
  }

  /** One more field of the list stamped. */
  lemma StampedNext(cache: Values, fs: seq<FieldDef>, i: int, immutableFields: set<FieldDef>)
    requires 0 <= i < |fs|
    ensures Stamped(cache, fs[..i + 1], immutableFields) ==
      StampRegisters(Stamped(cache, fs[..i], immutableFields), RequiredRegisters(fs[i]), fs[i] in immutableFields, FetchGroup(fs[i]))
  {
    assert fs[..i + 1][..i] == fs[..i];
  }

  /** The inner stamping loop, register after register. */
  method StampEach(cache: Values, regs: seq<Address>, isImmutable: bool, group: string) returns (r: Values)
    ensures r == StampRegisters(cache, regs, isImmutable, group)
  {
    r := cache;
    var j := 0;
    while j < |regs|
      invariant 0 <= j <= |regs|
      invariant r == StampRegisters(cache, regs[..j], isImmutable, group)
    {
      assert regs[..j + 1][..j] == regs[..j];
      r := r[regs[j] := Entry(r, regs[j]).(immutable := isImmutable, fetchGroup := group)];
      j := j + 1;
    }
    assert regs[..j] == regs;
  }

  /** Stamping one more register keeps StampsOnly. */
  lemma StampsOnlyStep(cache: Values, m: Values, a: Address, isImmutable: bool, group: string)
    requires StampsOnly(cache, m)
    ensures StampsOnly(cache, m[a := Entry(m, a).(immutable := isImmutable, fetchGroup := group)])
  {
    assert a !in m ==> a !in cache;
  }

  /** StampsOnly is transitive. */
  lemma StampsOnlyTrans(before: Values, middle: Values, after: Values)
    requires StampsOnly(before, middle) && StampsOnly(middle, after)
    ensures StampsOnly(before, after)
  {
    forall a | a in after
      ensures Unstamped(after[a]) == Unstamped(Entry(before, a))
    {
      assert a !in middle ==> a !in before;
    }
  }

  /** Register a, required by field i, is among those some field of the list requires. */
  lemma {:induction false} RequiredByAnyHas(fs: seq<FieldDef>, i: int, a: Address)
    requires 0 <= i < |fs| && a in RequiredRegisters(fs[i])
    ensures a in RequiredByAny(fs)
  {
    if i < |fs| - 1 {
      RequiredByAnyHas(fs[..|fs| - 1], i, a);
    }
  }

  /**
   * r is cache stamped by the fields fs: it holds exactly the values of
   * cache and of the registers the fields require; only stamps changed; a
   * register no field requires keeps its value state; and a required
   * register carries the immutability and fetch group of the last field
   * that requires it.
   */
  ghost predicate StampedByFields(cache: Values, r: Values, fs: seq<FieldDef>, immutableFields: set<FieldDef>)
  {
    (forall b :: b in r <==> b in cache || b in RequiredByAny(fs)) &&
    StampsOnly(cache, r) &&
    (forall b :: b in cache && b !in RequiredByAny(fs) ==> r[b] == cache[b]) &&
    (forall i, a :: LastToRequire(fs, i, a) ==>
      a in r && r[a].immutable == (fs[i] in immutableFields) && r[a].fetchGroup == FetchGroup(fs[i]))
  }

  /** What calculateFetchGroupToAddressesMapping leaves in the cache, field after field. */
  lemma {:induction false} StampedMeaning(cache: Values, fs: seq<FieldDef>, immutableFields: set<FieldDef>)
    ensures StampedByFields(cache, Stamped(cache, fs, immutableFields), fs, immutableFields)
  {
    if fs != [] {
      var init := fs[..|fs| - 1];
      var f := fs[|fs| - 1];
      assert fs == init + [f];
      var m := Stamped(cache, init, immutableFields);
      StampedMeaning(cache, init, immutableFields);
      StampRegistersMeaning(m, RequiredRegisters(f), f in immutableFields, FetchGroup(f));
      StampedStep(cache, m, Stamped(cache, fs, immutableFields), init, f, immutableFields);
    }
  }

  /** One more field stamped. */
  lemma StampedStep(cache: Values, m: Values, r: Values, init: seq<FieldDef>, f: FieldDef, immutableFields: set<FieldDef>)
    requires StampedByFields(cache, m, init, immutableFields)
    requires StampedBy(m, r, RequiredRegisters(f), f in immutableFields, FetchGroup(f))
    ensures StampedByFields(cache, r, init + [f], immutableFields)
  {
    var fs := init + [f];
    assert fs[..|fs| - 1] == init;
    assert RequiredByAny(fs) == RequiredByAny(init) + (set a | a in RequiredRegisters(f));
    StampsOnlyTrans(cache, m, r);
    LastStampStep(m, r, init, f, immutableFields);
  }

  /** The last field to require a register still stamps it when one more field is stamped. */
  lemma LastStampStep(m: Values, r: Values, init: seq<FieldDef>, f: FieldDef, immutableFields: set<FieldDef>)
    requires forall i, a :: LastToRequire(init, i, a) ==>
      a in m && m[a].immutable == (init[i] in immutableFields) && m[a].fetchGroup == FetchGroup(init[i])
    requires forall b :: b in RequiredRegisters(f) ==>
      b in r && r[b].immutable == (f in immutableFields) && r[b].fetchGroup == FetchGroup(f)
    requires m.Keys <= r.Keys
    requires forall b :: b in m && b !in RequiredRegisters(f) ==> r[b] == m[b]
    ensures forall i, a :: LastToRequire(init + [f], i, a) ==>
      a in r && r[a].immutable == ((init + [f])[i] in immutableFields) && r[a].fetchGroup == FetchGroup((init + [f])[i])
  {
    var fs := init + [f];
    assert forall j :: 0 <= j < |init| ==> fs[j] == init[j];
    assert fs[|init|] == f;
    forall i, a | LastToRequire(fs, i, a)
      ensures a in r && r[a].immutable == (fs[i] in immutableFields) && r[a].fetchGroup == FetchGroup(fs[i])
    {
      if i < |init| {
        assert fs[i] == init[i];
        assert LastToRequire(init, i, a);
        assert a !in RequiredRegisters(f);
      } else {
        assert fs[i] == f;
      }
    }
  }

  /**
   * The stamping of the fetch group mapping keeps the queries the
   * optimizing fetcher drops for read errors, and the read-error addresses
   * it merges around.
   */
  lemma StampedKeepsReadErrors(cache: Values, fs: seq<FieldDef>, immutableFields: set<FieldDef>, qs: seq<Query>)
    ensures WithoutReadErrorQueries(qs, Stamped(cache, fs, immutableFields)) == WithoutReadErrorQueries(qs, cache)
    ensures forall classes :: ReadErrorAddresses(Stamped(cache, fs, immutableFields), classes) == ReadErrorAddresses(cache, classes)
  {
    StampedMeaning(cache, fs, immutableFields);
    StampsKeepReadErrors(cache, Stamped(cache, fs, immutableFields), qs);
  }

  /** Stamping changes no read error: a value is a read error after exactly when it was one before. */
  lemma StampsKeepReadErrors(before: Values, after: Values, qs: seq<Query>)
    requires StampsOnly(before, after)
    ensures forall a :: Entry(after, a).IsReadError() == Entry(before, a).IsReadError()
    ensures forall f :: UsesReadErrorRegisters(f, after) == UsesReadErrorRegisters(f, before)
    ensures WithoutReadErrorQueries(qs, after) == WithoutReadErrorQueries(qs, before)
    ensures forall classes :: ReadErrorAddresses(after, classes) == ReadErrorAddresses(before, classes)
  {
    StampsKeepEntryErrors(before, after);
    WithoutReadErrorQueriesSame(qs, before, after);
    forall classes
      ensures ReadErrorAddresses(after, classes) == ReadErrorAddresses(before, classes)
    {
      ReadErrorAddressesSame(before, after, classes);
    }
  }

  /** Value by value, stamping keeps whether it is a read error. */
  lemma StampsKeepEntryErrors(before: Values, after: Values)
    requires StampsOnly(before, after)
    ensures forall a :: Entry(after, a).IsReadError() == Entry(before, a).IsReadError()
  {
    forall a
      ensures Entry(after, a).IsReadError() == Entry(before, a).IsReadError()
    {
      assert a !in after ==> a !in before;
      assert Entry(after, a).IsReadError() == Unstamped(Entry(after, a)).IsReadError();
      assert Entry(before, a).IsReadError() == Unstamped(Entry(before, a)).IsReadError();
    }
  }

  /** The read-error addresses of the stamped cache are those of the cache before. */
  lemma ReadErrorAddressesSame(before: Values, after: Values, classes: set<AddressClass>)
    requires before.Keys <= after.Keys
    requires forall a :: Entry(after, a).IsReadError() == Entry(before, a).IsReadError()
    ensures ReadErrorAddresses(after, classes) == ReadErrorAddresses(before, classes)
  {
    forall a
      ensures a in ReadErrorAddresses(after, classes) <==> a in ReadErrorAddresses(before, classes)
    {
      assert !NewState(a).IsReadError();
      assert a in after ==> Entry(after, a) == after[a];
      assert a in before ==> Entry(before, a) == before[a];
    }
  }

  /** The optimizing fetcher plans the same on the stamped cache as on the cache before. */
  lemma StampedKeepsOptimized(cache: Values, fs: seq<FieldDef>, immutableFields: set<FieldDef>, base: seq<Query>,
                              maxRegisters: int, maxDiscretes: int, allowedGap: int)
    ensures OptimizedQueries(base, Stamped(cache, fs, immutableFields), maxRegisters, maxDiscretes, allowedGap) ==
      OptimizedQueries(base, cache, maxRegisters, maxDiscretes, allowedGap)
  {
    StampedKeepsReadErrors(cache, fs, immutableFields, base);
  }

  /** The queries kept depend on the caches only through which fields use read-error registers. */
  lemma {:induction false} WithoutReadErrorQueriesSame(qs: seq<Query>, c1: Values, c2: Values)
    requires forall f :: UsesReadErrorRegisters(f, c1) == UsesReadErrorRegisters(f, c2)
    ensures WithoutReadErrorQueries(qs, c1) == WithoutReadErrorQueries(qs, c2)
  {
    if qs != [] {
      WithoutReadErrorQueriesSame(qs[..|qs| - 1], c1, c2);
    }
  }

  /**
   * A register last stamped by an immutable field no longer needs updating
   * once it holds a value that is not a read error.
   */
  lemma StampedImmutableStaysFresh(cache: Values, fs: seq<FieldDef>, immutableFields: set<FieldDef>,
                                   i: int, a: Address, now: int64, maxAge: int64)
    requires LastToRequire(fs, i, a) && fs[i] in immutableFields
    requires a in cache && cache[a].value.Some?
    ensures a in Stamped(cache, fs, immutableFields) && !Stamped(cache, fs, immutableFields)[a].NeedsToBeUpdated(now, maxAge)
  {
    StampedMeaning(cache, fs, immutableFields);
    var r := Stamped(cache, fs, immutableFields);
    assert Unstamped(r[a]) == Unstamped(cache[a]);
  }

  // ---------------------------------------------------------------------------
  // update(field, maxAge): the field and the fields it requires

  /**
   * Block.getField on the fields of the schema: the field of the block
   * indexed under the id, which is the last one added with that id; None
   * (null) when there is none.
   */
  function FieldNamed(fs: seq<FieldDef>, blockId: string, id: string): (r: Option<FieldDef>)
    ensures r.Some? ==> r.value in fs && r.value.blockId == blockId && r.value.id == id
    ensures r.None? <==> forall g :: g in fs ==> !(g.blockId == blockId && g.id == id)
  {
    if fs == [] then None
    else
      var g := fs[|fs| - 1];
      assert forall h :: h in fs <==> h in fs[..|fs| - 1] || h == g;
      if g.blockId == blockId && g.id == id then Some(g) else FieldNamed(fs[..|fs| - 1], blockId, id)
  }

  /** `requiredFields`: the names mapped to the fields of the block, unknown names skipped (mapNotNull). */
  function FieldsNamed(fs: seq<FieldDef>, blockId: string, names: seq<string>): (r: seq<FieldDef>)
    ensures forall n :: n in names && FieldNamed(fs, blockId, n).Some? ==> FieldNamed(fs, blockId, n).value in r
    ensures forall g :: g in r ==> g.blockId == blockId && g.id in names && FieldNamed(fs, blockId, g.id) == Some(g)
  {
    if names == [] then []
    else
      var rest := FieldsNamed(fs, blockId, names[..|names| - 1]);
      var n := names[|names| - 1];
      assert forall m :: m in names <==> m in names[..|names| - 1] || m == n;
      match FieldNamed(fs, blockId, n)
      case None => rest
      case Some(g) => rest + [g]
  }

  /** a sorts before b or ties with it under compareTo (CompareFieldsOrder). */
  predicate FieldLE(a: FieldDef, b: FieldDef)
  {
    FieldSortKey(a) <= FieldSortKey(b)
  }

  predicate FieldsSorted(fs: seq<FieldDef>)
  {
    forall i, j :: 0 <= i < j < |fs| ==> FieldLE(fs[i], fs[j])
  }

  /** Insertion into a sorted list, after every field that does not sort after f. */
  function InsertField(f: FieldDef, s: seq<FieldDef>): (r: seq<FieldDef>)
    requires FieldsSorted(s)
    ensures FieldsSorted(r)
    ensures multiset(r) == multiset(s) + multiset{f}
  {
    if s == [] then [f]
    else if !FieldLE(s[0], f) then
      InsertFieldFront(f, s);
      [f] + s
    else
      var t := InsertField(f, s[1..]);
      InsertFieldBehind(f, s, t);
      [s[0]] + t
  }

  /** f sorts strictly before the head, so before every field of the list. */
  lemma InsertFieldFront(f: FieldDef, s: seq<FieldDef>)
    requires FieldsSorted(s) && s != [] && !FieldLE(s[0], f)
    ensures FieldsSorted([f] + s)
    ensures multiset([f] + s) == multiset(s) + multiset{f}
  {
    var r := [f] + s;
    assert FieldLE(f, s[0]);
    forall i, j | 0 <= i < j < |r|
      ensures FieldLE(r[i], r[j])
    {
      if i == 0 {
        assert r[j] == s[j - 1];
        assert FieldLE(s[0], s[j - 1]) || j == 1;
      } else {
        assert r[i] == s[i - 1] && r[j] == s[j - 1];
      }
    }
  }

  /** The head stays in front of the insertion into the rest. */
  lemma InsertFieldBehind(f: FieldDef, s: seq<FieldDef>, t: seq<FieldDef>)
    requires FieldsSorted(s) && s != [] && FieldLE(s[0], f)
    requires FieldsSorted(t) && multiset(t) == multiset(s[1..]) + multiset{f}
    ensures FieldsSorted([s[0]] + t)
    ensures multiset([s[0]] + t) == multiset(s) + multiset{f}
  {
    assert s == [s[0]] + s[1..];
    HeadBeforeInserted(f, s, t);
    var r := [s[0]] + t;
    forall i, j | 0 <= i < j < |r|
      ensures FieldLE(r[i], r[j])
    {
      if i == 0 {
        assert r[j] == t[j - 1];
      } else {
        assert r[i] == t[i - 1] && r[j] == t[j - 1];
      }
    }
  }

  /** Every field of the insertion into the rest sorts at or after the head. */
  lemma HeadBeforeInserted(f: FieldDef, s: seq<FieldDef>, t: seq<FieldDef>)
    requires FieldsSorted(s) && s != [] && FieldLE(s[0], f)
    requires multiset(t) == multiset(s[1..]) + multiset{f}
    ensures forall k :: 0 <= k < |t| ==> FieldLE(s[0], t[k])
  {
    forall k | 0 <= k < |t|
      ensures FieldLE(s[0], t[k])
    {
      assert t[k] in multiset(t);
      if t[k] != f {
        assert t[k] in multiset(s[1..]);
        var m :| 0 <= m < |s[1..]| && s[1..][m] == t[k];
        assert s[m + 1] == t[k];
      }
    }
  }

  /** `sorted()`: the same fields, in compareTo order. */
  function SortFields(fs: seq<FieldDef>): (r: seq<FieldDef>)
    ensures FieldsSorted(r)
    ensures multiset(r) == multiset(fs)
  {
    if fs == [] then []
    else
      assert fs == fs[..|fs| - 1] + [fs[|fs| - 1]];
      InsertField(fs[|fs| - 1], SortFields(fs[..|fs| - 1]))
  }

  /** `distinct()`: the first occurrence of every field, in order. */
  function DistinctFields(fs: seq<FieldDef>): (r: seq<FieldDef>)
    ensures forall g :: g in r <==> g in fs
    ensures NoDuplicates(r)
  {
    if fs == [] then []
    else
      var d := DistinctFields(fs[..|fs| - 1]);
      var g := fs[|fs| - 1];
      assert forall h :: h in fs <==> h in fs[..|fs| - 1] || h == g;
      if g in d then d else d + [g]
  }

  /** Dropping later duplicates keeps a sorted list sorted. */
  lemma {:induction false} DistinctFieldsSorted(fs: seq<FieldDef>)
    requires FieldsSorted(fs)
    ensures FieldsSorted(DistinctFields(fs))
  {
    if fs != [] {
      var init := fs[..|fs| - 1];
      var g := fs[|fs| - 1];
      assert FieldsSorted(init);
      DistinctFieldsSorted(init);
      var d := DistinctFields(init);
      if g !in d {
        forall i | 0 <= i < |d|
          ensures FieldLE(d[i], g)
        {
          assert d[i] in init;
          var k :| 0 <= k < |init| && init[k] == d[i];
          assert fs[k] == d[i];
        }
      }
    }
  }

  /**
   * The fields update(field) fetches: the field and the fields it
   * requires, sorted, without repeats.
   */
  function FieldsForUpdate(fs: seq<FieldDef>, field: FieldDef): seq<FieldDef>
  {
    DistinctFields(SortFields([field] + FieldsNamed(fs, field.blockId, RequiredFieldNames(field))))
  }

  /**
   * update(field) asks for the field and every required field the block
   * has, each once, in compareTo order, and for nothing else.
   */
  lemma FieldsForUpdateShape(fs: seq<FieldDef>, field: FieldDef)
    ensures field in FieldsForUpdate(fs, field)
    ensures forall n :: n in RequiredFieldNames(field) && FieldNamed(fs, field.blockId, n).Some? ==>
      FieldNamed(fs, field.blockId, n).value in FieldsForUpdate(fs, field)
    ensures forall g :: g in FieldsForUpdate(fs, field) ==>
      g == field || (g.blockId == field.blockId && g.id in RequiredFieldNames(field) && FieldNamed(fs, field.blockId, g.id) == Some(g))
    ensures NoDuplicates(FieldsForUpdate(fs, field)) && FieldsSorted(FieldsForUpdate(fs, field))
  {
    var all := [field] + FieldsNamed(fs, field.blockId, RequiredFieldNames(field));
    var sorted := SortFields(all);
    assert forall g :: g in sorted <==> g in all by {
      forall g ensures g in sorted <==> g in all {
        assert g in sorted <==> g in multiset(sorted);
        assert g in all <==> g in multiset(all);
      }
    }
    DistinctFieldsSorted(sorted);
  }

  // ---------------------------------------------------------------------------
  // The fetcher

  /**
   * ModbusBlockFetcher, and OptimizingModbusBlockFetcher when `optimizing`
   * is set: the fields of the schema device, the device, its request
   * limits, the gap allowance and the register cache.
   */
  class ModbusBlockFetcher {
    const schemaFields: seq<FieldDef>     // the fields of every block, block after block
    const initialized: set<FieldDef>      // the fields whose initialize() succeeded
    const immutableFields: set<FieldDef>  // the fields whose isImmutable answers true
    const device: Device
    const optimizing: bool
    const maxRegistersPerRequest: int
    const maxDiscretesPerRequest: int
    var allowedGapReadSize: int
    var cache: Values

    ghost predicate Valid()
      reads this
    {
      allowedGapReadSize >= 0
    }

    constructor(schemaFields: seq<FieldDef>, initialized: set<FieldDef>, immutableFields: set<FieldDef>, device: Device,
                optimizing: bool, maxRegistersPerRequest: int, maxDiscretesPerRequest: int, cache: Values)
      ensures this.schemaFields == schemaFields && this.initialized == initialized && this.device == device
      ensures this.immutableFields == immutableFields
      ensures this.optimizing == optimizing && this.maxRegistersPerRequest == maxRegistersPerRequest
      ensures this.maxDiscretesPerRequest == maxDiscretesPerRequest
      ensures allowedGapReadSize == 0 && this.cache == cache
      ensures Valid()
    {
      this.schemaFields := schemaFields;
      this.initialized := initialized;
      this.immutableFields := immutableFields;
      this.device := device;
      this.optimizing := optimizing;
      this.maxRegistersPerRequest := maxRegistersPerRequest;
      this.maxDiscretesPerRequest := maxDiscretesPerRequest;
      allowedGapReadSize := 0;
      this.cache := cache;
    }

    /** The allowedGapReadSize setter: a negative size is refused with IllegalArgumentException. */
    method SetAllowedGapReadSize(value: int) returns (r: Result<()>)
      requires Valid()
      modifies this
      ensures Valid()
      ensures r.Ok? <==> value >= 0
      ensures r.Fail? ==> r.failure == IllegalArgument
      ensures allowedGapReadSize == (if value >= 0 then value else old(allowedGapReadSize))
      ensures cache == old(cache)
    {
      if value < 0 {
        return Fail(IllegalArgument);
      }
      allowedGapReadSize := value;
      return Ok(());
    }

    /**
     * The stamping in calculateFetchGroupToAddressesMapping: for every field
     * in order, the value of each register it requires (created when
     * absent) gets the field's immutability and fetch group.
     */
    method StampCache()
      modifies this
      ensures cache == Stamped(old(cache), schemaFields, immutableFields)
      ensures allowedGapReadSize == old(allowedGapReadSize)
    {
      cache := StampAll(cache, schemaFields, immutableFields);
    }

    /**
     * calculateFetchGroupToAddressesMapping: every field stamps the values
     * of its registers and appends them to the list of its fetch group;
     * then the gap check of each group in key order. The stamps stay when
     * the check fails.
     */
    method FetchGroupMapping() returns (r: Result<Mapping>)
      modifies this
      ensures cache == Stamped(old(cache), schemaFields, immutableFields)
      ensures allowedGapReadSize == old(allowedGapReadSize)
      ensures r.Ok? <==> CheckMapping(GroupAddresses(schemaFields)).Ok?
      ensures r.Ok? ==> r.value == GroupAddresses(schemaFields)
      ensures r.Fail? ==> r.failure == CheckMapping(GroupAddresses(schemaFields)).failure
    {
      StampCache();
      var m := GroupMappingOf(schemaFields);
      var check := CheckGroupsInKeyOrder(m);
      if check.Fail? {
        return Fail(check.failure);
      }
      return Ok(m);
    }

    /**
     * The cache once calculateModbusQueries has run: stamped by the fetch
     * group mapping, unless a field asked for is not initialized.
     */
    ghost function CacheAfterPlanning(fields: seq<FieldDef>): Values
      reads this
    {
      if AllInitialized(fields, initialized) then Stamped(cache, schemaFields, immutableFields) else cache
    }

    /**
     * What calculateModbusQueries computes for the given fields on the
     * current cache. The stale fields are chosen before the stamping; the
     * read errors the optimizing fetcher looks at are the same before and
     * after it (StampsKeepReadErrors).
     */
    ghost function QueriesSpec(fields: seq<FieldDef>, now: int64, maxAge: int64): Result<seq<Query>>
      reads this
    {
      var base := PlannedQueries(schemaFields, initialized, cache, fields, now, maxAge);
      if base.Fail? || !optimizing then base
      else OptimizedQueries(base.value, cache, maxRegistersPerRequest, maxDiscretesPerRequest, allowedGapReadSize)
    }

    /**
     * calculateModbusQueries(fields, maxAge): the stale fields, the
     * mapping, the loop that builds one query per fetch group, sorted;
     * the optimizing fetcher then drops and merges.
     */
    method CalculateQueries(fields: seq<FieldDef>, now: int64, maxAge: int64) returns (r: Result<seq<Query>>)
      modifies this
      ensures r == old(QueriesSpec(fields, now, maxAge))
      ensures cache == old(CacheAfterPlanning(fields))
      ensures allowedGapReadSize == old(allowedGapReadSize)
    {
      var toUpdate := FieldsToUpdate(fields, initialized, cache, now, maxAge);
      if toUpdate.Fail? {
        return Fail(toUpdate.failure);
      }
      ghost var before := cache;
      var mapping := FetchGroupMapping();
      if mapping.Fail? {
        return Fail(mapping.failure);
      }
      var planned := PlanGroupQueries(toUpdate.value, mapping.value);
      if planned.Fail? || !optimizing {
        return planned;
      }
      StampedKeepsOptimized(before, schemaFields, immutableFields, planned.value,
                            maxRegistersPerRequest, maxDiscretesPerRequest, allowedGapReadSize);
      r := DropAndMerge(planned.value, cache, maxRegistersPerRequest, maxDiscretesPerRequest, allowedGapReadSize);
    }

    /** fetch(modbusQuery): one query sent to the device, its block stored, a failed merged query retried. */
    method Fetch(q: Query) returns (fetched: seq<Query>)
      modifies this
      ensures allowedGapReadSize == old(allowedGapReadSize)
      ensures (cache, fetched) == FetchSpec(device, optimizing, old(cache), q)
      decreases Size(q), 2, 0
    {
      var reply := device(q.start, q.count);
      if reply.Thrown? {
        return [];
      }
      var modbusQuery := q.(status := Success);
      if HasReadError(reply.values) {
        modbusQuery := modbusQuery.(status := Error);
      }
      fetched := [modbusQuery];
      if modbusQuery.status == Success || q.kind == Hole {
        cache := MergeValues(cache, reply.values);
      } else if q.kind == Merged {
        if !optimizing {
          return;
        }
        var retries := Retry(modbusQuery);
        if retries == [] {
          cache := MergeValues(cache, HardErrors(reply.values));
        } else {
          fetched := fetched + retries;
        }
      } else {
        cache := MergeValues(cache, HardErrors(reply.values));
      }
    }

    /** retryFetchOfFailedMergedModbusQuery of the optimizing fetcher. */
    method Retry(q: Query) returns (fetched: seq<Query>)
      requires optimizing
      modifies this
      ensures allowedGapReadSize == old(allowedGapReadSize)
      ensures (cache, fetched) == RetrySpec(device, old(cache), q)
      decreases Size(q), 1, 0
    {
      if |q.subs| == 1 {
        return [];
      }
      var parts := q.subs;
      if |q.subs| >= 4 {
        SplitSmaller(q);
        var split := SplitMergedQuery(q);
        parts := split.value;
      } else {
        SubsSmaller(q);
      }
      fetched := FetchEach(parts, Size(q));
    }

    /** The parts of a failed merged query fetched one after the other. */
    method FetchEach(parts: seq<Query>, bound: nat) returns (fetched: seq<Query>)
      requires optimizing && forall x :: x in parts ==> Size(x) < bound
      modifies this
      ensures allowedGapReadSize == old(allowedGapReadSize)
      ensures (cache, fetched) == FetchAllSpec(device, true, old(cache), parts, bound)
      decreases bound, 0, 0
    {
      fetched := [];
      var i := 0;
      while i < |parts|
        invariant 0 <= i <= |parts|
        invariant (cache, fetched) == FetchAllSpec(device, true, old(cache), parts[..i], bound)
        invariant allowedGapReadSize == old(allowedGapReadSize)
      {
        FetchAllSnoc(device, true, old(cache), parts, i, bound);
        var more := Fetch(parts[i]);
        fetched := fetched + more;
        i := i + 1;
      }
      assert parts[..i] == parts;
    }

    /**
     * update(maxAge) for the needed fields: the queries calculated, then
     * each fetched in order; everything fetched is returned.
     */
    method Update(needed: seq<FieldDef>, now: int64, maxAge: int64) returns (r: Result<seq<Query>>)
      modifies this
      ensures allowedGapReadSize == old(allowedGapReadSize)
      ensures var plan := old(QueriesSpec(needed, now, maxAge));
        var planned := old(CacheAfterPlanning(needed));
        (plan.Fail? ==> r == Fail(plan.failure) && cache == planned) &&
        (plan.Ok? ==> r.Ok? && (cache, r.value) == FetchAllSpec(device, optimizing, planned, plan.value, SizeBound(plan.value)))
    {
      var queries := CalculateQueries(needed, now, maxAge);
      if queries.Fail? {
        return Fail(queries.failure);
      }
      var fetched := FetchQueries(queries.value);
      return Ok(fetched);
    }

    /**
     * update(field, maxAge): refused with IllegalArgumentException for a
     * field that is not initialized; otherwise the update of the field and
     * the fields it requires, sorted and without repeats.
     */
    method UpdateField(field: FieldDef, now: int64, maxAge: int64) returns (r: Result<seq<Query>>)
      modifies this
      ensures allowedGapReadSize == old(allowedGapReadSize)
      ensures field !in initialized ==> r == Fail(IllegalArgument) && cache == old(cache)
      ensures field in initialized ==>
        var all := FieldsForUpdate(schemaFields, field);
        var plan := old(QueriesSpec(all, now, maxAge));
        var planned := old(CacheAfterPlanning(all));
        (plan.Fail? ==> r == Fail(plan.failure) && cache == planned) &&
        (plan.Ok? ==> r.Ok? && (cache, r.value) == FetchAllSpec(device, optimizing, planned, plan.value, SizeBound(plan.value)))
    {
      if field !in initialized {
        return Fail(IllegalArgument);
      }
      var all := FieldsForUpdate(schemaFields, field);
      r := Update(all, now, maxAge);
    }

    /** The calculated queries fetched in order; everything fetched is returned. */
    method FetchQueries(qs: seq<Query>) returns (fetched: seq<Query>)
      modifies this
      ensures allowedGapReadSize == old(allowedGapReadSize)
      ensures (cache, fetched) == FetchAllSpec(device, optimizing, old(cache), qs, SizeBound(qs))
    {
      var bound := SizeBound(qs);
      fetched := [];
      var i := 0;
      while i < |qs|
        invariant 0 <= i <= |qs|
        invariant (cache, fetched) == FetchAllSpec(device, optimizing, old(cache), qs[..i], bound)
        invariant allowedGapReadSize == old(allowedGapReadSize)
      {
        FetchAllSnoc(device, optimizing, old(cache), qs, i, bound);
        var more := Fetch(qs[i]);
        fetched := fetched + more;
        i := i + 1;
      }
      assert qs[..i] == qs;
    }
  }
}
