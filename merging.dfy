/**
 * Combining and splitting queries (OptimizingModbusBlockFetcher.kt).
 *
 * mergeQueries walks the sorted queries and either extends the current
 * merged query (directly adjacent, or across a gap it may read needlessly)
 * or starts a new one. splitMergedModbusRequest regroups the parts of a
 * failed merged query into smaller merged queries for a retry.
 *
 * Both walks are methods with loops, proved equal to the folds defined here;
 * the lemmas say what the folds promise.
 */
module QueryMerging {
  import opened Wrappers
  import opened AddressClasses
  import opened Addresses
  import opened Fields
  import opened ModbusQueries
  import opened AddressSets
  import opened FetchPlans

  // ---------------------------------------------------------------------------
  // overlaps

  /** Address.distance: how far `to` lies after `from`; none across address classes. */
  function Distance(from: Address, to: Address): (r: Option<int>)
    ensures r.Some? <==> from.addressClass == to.addressClass
    ensures r.Some? ==> from.physicalAddress + r.value == to.physicalAddress
  {
    if from.addressClass == to.addressClass then Some(to.physicalAddress - from.physicalAddress) else None
  }

  /**
   * List<Address>.overlaps: false for no addresses; otherwise the count
   * must be positive, and the answer is whether some address is at a
   * distance 0 until count from the first.
   */
  function Overlaps(list: set<Address>, first: Address, count: int): (r: Result<bool>)
    ensures r.Ok? <==> list == {} || count > 0
    ensures r.Fail? ==> r.failure == IllegalArgument
    ensures r.Ok? ==> (r.value <==> exists a :: a in list && InRange(a, first, count))
  {
    if list == {} then Ok(false)
    else if count <= 0 then Fail(IllegalArgument)
    else Ok(exists a :: a in list && Distance(first, a).Some? && 0 <= Distance(first, a).value < count)
  }

  // ---------------------------------------------------------------------------
  // mergeQueries

  /** What a merge may not exceed, and the read-error addresses of the used address classes. */
  datatype Limits = Limits(maxRegisters: int, maxDiscretes: int, allowedGap: int, readErrors: set<Address>)

  function MaxCount(q: Query, lim: Limits): int
  {
    if IsDiscrete(q) then lim.maxDiscretes else lim.maxRegisters
  }

  /** The gap allowance is counted in registers; for discretes it is sixteen times as many. */
  function MaxGap(q: Query, lim: Limits): int
  {
    if IsDiscrete(q) then lim.allowedGap * 16 else lim.allowedGap
  }

  /** A new merged query holding just q. */
  function Start(q: Query): (r: Query)
    ensures r.kind == Merged && r.start == q.start && r.count == q.count && r.status == NotFetched
    ensures r.subs == [q] && r.fields == q.fields
  {
    MergedOfFields(q.start, q.count, [q]);
    assert [q][..0] == [];
    MergedOf(q.start, q.count, [q])
  }

  /**
   * One turn of the loop of mergeQueries as written: `done` are the
   * finished merged queries, `cur` the one being extended. A gapped merge
   * sets the count to the end of `next` minus the start of `cur`, and adds
   * a hole of the gap's size.
   */
  function MergeStepAsWritten(done: seq<Query>, cur: Query, next: Query, lim: Limits): (r: Result<(seq<Query>, Query)>)
    requires cur.kind == Merged
    ensures r.Fail? ==> r.failure == IllegalArgument
    ensures r.Ok? ==>
      (r.value.0 == done + [cur] && r.value.1 == Start(next)) ||
      (r.value.0 == done && cur.start.addressClass == next.start.addressClass && r.value.1.start == cur.start)
  {
    if cur.start.addressClass != next.start.addressClass then Ok((done + [cur], Start(next)))
    else
      var firstAfter := Increment(cur.start, cur.count);
      if firstAfter.Fail? then Fail(IllegalArgument)
      else if next.start == firstAfter.value then
        if cur.count + next.count <= MaxCount(cur, lim) then Ok((done, AddSub(cur.(count := cur.count + next.count), next)))
        else Ok((done + [cur], Start(next)))
      else
        var gap := next.start.physicalAddress - (cur.start.physicalAddress + cur.count);
        var mergedCount := next.start.physicalAddress + next.count - cur.start.physicalAddress;
        if gap <= MaxGap(cur, lim) && mergedCount <= MaxCount(cur, lim) then
          var overlaps := Overlaps(lim.readErrors, cur.start, mergedCount);
          if overlaps.Fail? then Fail(overlaps.failure)
          else if !overlaps.value then
            var withHole := AddSub(cur, NewQuery(Hole, firstAfter.value, gap));
            Ok((done, AddSub(withHole.(count := mergedCount), next)))
          else Ok((done + [cur], Start(next)))
        else Ok((done + [cur], Start(next)))
  }

  function Max(a: int, b: int): int
  {
    if a < b then b else a
  }

  /**
   * One turn of the loop of mergeQueries as evidently intended: a query
   * that starts inside the current range extends it to the further of the
   * two ends, and a hole is only added for a real gap.
   */
  function MergeStep(done: seq<Query>, cur: Query, next: Query, lim: Limits): (r: Result<(seq<Query>, Query)>)
    requires cur.kind == Merged
    ensures r.Fail? ==> r.failure == IllegalArgument
    ensures r.Ok? ==>
      (r.value.0 == done + [cur] && r.value.1 == Start(next)) ||
      (r.value.0 == done && cur.start.addressClass == next.start.addressClass && r.value.1.start == cur.start)
    ensures cur.count >= 1 ==>
      (r.Ok? <==> cur.start.addressClass != next.start.addressClass ||
                  cur.start.physicalAddress + cur.count <= MAX_PHYSICAL_ADDRESS)
  {
    if cur.start.addressClass != next.start.addressClass then Ok((done + [cur], Start(next)))
    else
      var firstAfter := Increment(cur.start, cur.count);
      if firstAfter.Fail? then Fail(IllegalArgument)
      else if next.start == firstAfter.value then
        if cur.count + next.count <= MaxCount(cur, lim) then Ok((done, AddSub(cur.(count := cur.count + next.count), next)))
        else Ok((done + [cur], Start(next)))
      else
        var gap := next.start.physicalAddress - (cur.start.physicalAddress + cur.count);
        var end := Max(cur.start.physicalAddress + cur.count, next.start.physicalAddress + next.count);
        var mergedCount := end - cur.start.physicalAddress;
        if gap <= MaxGap(cur, lim) && mergedCount <= MaxCount(cur, lim) then
          var overlaps := Overlaps(lim.readErrors, cur.start, mergedCount);
          if overlaps.Fail? then Fail(overlaps.failure)
          else if !overlaps.value then
            var withHole := if gap > 0 then AddSub(cur, NewQuery(Hole, firstAfter.value, gap)) else cur;
            Ok((done, AddSub(withHole.(count := mergedCount), next)))
          else Ok((done + [cur], Start(next)))
        else Ok((done + [cur], Start(next)))
  }

  /** The loop of mergeQueries over sorted queries: the first starts a merged query, the rest are merged in one by one. */
  function MergeRun(qs: seq<Query>, lim: Limits): (r: Result<(seq<Query>, Query)>)
    requires qs != []
    ensures r.Ok? ==> r.value.1.kind == Merged
    ensures r.Fail? ==> r.failure == IllegalArgument
  {
    if |qs| == 1 then Ok(([], Start(qs[0])))
    else
      var prev := MergeRun(qs[..|qs| - 1], lim);
      if prev.Fail? then prev
      else
        var step := MergeStepAsWritten(prev.value.0, prev.value.1, qs[|qs| - 1], lim);
        if step.Fail? then step else Ok(step.value)
  }

  /** mergeQueries: a single query is returned as it is; otherwise the merged queries of the sorted list. */
  function MergeSpec(provided: seq<Query>, lim: Limits): Result<seq<Query>>
  {
    if |provided| == 1 then Ok(provided)
    else
      var sorted := SortQueries(provided);
      if sorted == [] then Ok([])
      else
        var run := MergeRun(sorted, lim);
        if run.Fail? then Fail(run.failure) else Ok(run.value.0 + [run.value.1])
  }

  /** The same loop with the gapped merge as evidently intended. */
  function MergeRunIntended(qs: seq<Query>, lim: Limits): (r: Result<(seq<Query>, Query)>)
    requires qs != []
    ensures r.Ok? ==> r.value.1.kind == Merged
    ensures r.Fail? ==> r.failure == IllegalArgument
  {
    if |qs| == 1 then Ok(([], Start(qs[0])))
    else
      var prev := MergeRunIntended(qs[..|qs| - 1], lim);
      if prev.Fail? then prev
      else
        var step := MergeStep(prev.value.0, prev.value.1, qs[|qs| - 1], lim);
        if step.Fail? then step else Ok(step.value)
  }

  /** mergeQueries with the gapped merge as evidently intended. */
  function MergeSpecIntended(provided: seq<Query>, lim: Limits): Result<seq<Query>>
  {
    if |provided| == 1 then Ok(provided)
    else
      var sorted := SortQueries(provided);
      if sorted == [] then Ok([])
      else
        var run := MergeRunIntended(sorted, lim);
        if run.Fail? then Fail(run.failure) else Ok(run.value.0 + [run.value.1])
  }

  /** A failure part way through the walk is the failure of the whole walk. */
  lemma {:induction false} MergeRunFails(qs: seq<Query>, k: int, lim: Limits)
    requires 1 <= k <= |qs| && MergeRun(qs[..k], lim).Fail?
    ensures MergeRun(qs, lim) == MergeRun(qs[..k], lim)
  {
    if k < |qs| {
      assert qs[..|qs| - 1][..k] == qs[..k];
      MergeRunFails(qs[..|qs| - 1], k, lim);
    } else {
      assert qs[..k] == qs;
    }
  }

  /** One more query through the walk is one more step. */
  lemma MergeRunSnoc(qs: seq<Query>, i: int, lim: Limits)
    requires 1 <= i < |qs| && MergeRun(qs[..i], lim).Ok?
    ensures MergeRun(qs[..i + 1], lim) ==
      MergeStepAsWritten(MergeRun(qs[..i], lim).value.0, MergeRun(qs[..i], lim).value.1, qs[i], lim)
  {
    var s := qs[..i + 1];
    assert s[..|s| - 1] == qs[..i];
    assert s[|s| - 1] == qs[i];
  }

  /**
   * One turn of the loop of mergeQueries: the current merged query is
   * extended by the next query, or closed and a new one started.
   */
  method MergeInto(result: seq<Query>, current: Query, next: Query, lim: Limits)
    returns (r: Result<(seq<Query>, Query)>)
    requires current.kind == Merged
    ensures r == MergeStepAsWritten(result, current, next, lim)
  {
    var done, cur := result, current;
    if cur.start.addressClass != next.start.addressClass {
      done, cur := done + [cur], Start(next);
    } else {
      var firstAfter := Increment(cur.start, cur.count);
      if firstAfter.Fail? {
        return Fail(IllegalArgument);
      }
      if next.start == firstAfter.value {
        if cur.count + next.count <= MaxCount(cur, lim) {
          cur := AddSub(cur.(count := cur.count + next.count), next);
        } else {
          done, cur := done + [cur], Start(next);
        }
      } else {
        var gap := next.start.physicalAddress - (cur.start.physicalAddress + cur.count);
        var mergedCount := next.start.physicalAddress + next.count - cur.start.physicalAddress;
        var merge := false;
        if gap <= MaxGap(cur, lim) && mergedCount <= MaxCount(cur, lim) {
          var overlaps := Overlaps(lim.readErrors, cur.start, mergedCount);
          if overlaps.Fail? {
            return Fail(overlaps.failure);
          }
          merge := !overlaps.value;
        }
        if merge {
          cur := AddSub(cur, NewQuery(Hole, firstAfter.value, gap));
          cur := AddSub(cur.(count := mergedCount), next);
        } else {
          done, cur := done + [cur], Start(next);
        }
      }
    }
    return Ok((done, cur));
  }

  /**
   * mergeQueries: a single query is returned as it is; otherwise the
   * sorted queries are walked.
   */
  method MergeQueries(provided: seq<Query>, lim: Limits) returns (r: Result<seq<Query>>)
    ensures r == MergeSpec(provided, lim)
  {
    if |provided| == 1 {
      return Ok(provided);
    }
    var sorted := SortQueries(provided);
    if |sorted| == 0 {
      return Ok([]);
    }
    var run := MergeSorted(sorted, lim);
    if run.Fail? {
      return Fail(run.failure);
    }
    return Ok(run.value.0 + [run.value.1]);
  }

  /**
   * The loop of mergeQueries over the sorted queries: each one extends the
   * current merged query or closes it and starts a new one.
   */
  method MergeSorted(sorted: seq<Query>, lim: Limits) returns (r: Result<(seq<Query>, Query)>)
    requires sorted != []
    ensures r == MergeRun(sorted, lim)
  {
    var result: seq<Query> := [];
    var current := Start(sorted[0]);
    var i := 1;
    while i < |sorted|
      invariant 1 <= i <= |sorted|
      invariant MergeRun(sorted[..i], lim) == Ok((result, current))
    {
      MergeRunSnoc(sorted, i, lim);
      var step := MergeInto(result, current, sorted[i], lim);
      if step.Fail? {
        MergeRunFails(sorted, i + 1, lim);
        return step;
      }
      result, current := step.value.0, step.value.1;
      i := i + 1;
    }
    assert sorted[..i] == sorted;
    return Ok((result, current));
  }

  // ---------------------------------------------------------------------------
  // What a merged query promises

  /** The parts of a list of queries that are not holes, in order. */
  function Solid(qs: seq<Query>): seq<Query>
  {
    if qs == [] then []
    else Solid(qs[..|qs| - 1]) + (if qs[|qs| - 1].kind != Hole then [qs[|qs| - 1]] else [])
  }

  /** The non-hole parts of a list of merged queries, one merged query after the other. */
  function Parts(rs: seq<Query>): seq<Query>
  {
    if rs == [] then [] else Parts(rs[..|rs| - 1]) + Solid(rs[|rs| - 1].subs)
  }

  lemma SolidSnoc(qs: seq<Query>, x: Query)
    ensures Solid(qs + [x]) == Solid(qs) + (if x.kind != Hole then [x] else [])
  {
    assert (qs + [x])[..|qs|] == qs;
  }

  lemma PartsSnoc(rs: seq<Query>, x: Query)
    ensures Parts(rs + [x]) == Parts(rs) + Solid(x.subs)
  {
    assert (rs + [x])[..|rs|] == rs;
  }

  /** Part s lies inside the range that merged query r reads. */
  predicate Within(s: Query, r: Query)
  {
    s.start.addressClass == r.start.addressClass &&
    r.start.physicalAddress <= s.start.physicalAddress &&
    s.start.physicalAddress + s.count <= r.start.physicalAddress + r.count
  }

  /**
   * A merged query as mergeQueries should build it: it starts where its
   * first part starts, reads every part, reads at least one address, and
   * stays within the maximum per request whenever it combines parts.
   */
  predicate WellMerged(r: Query, lim: Limits)
  {
    r.kind == Merged && r.subs != [] && r.start == r.subs[0].start && r.count >= 1 &&
    (forall s :: s in r.subs ==> s.count >= 1 && Within(s, r)) &&
    (|r.subs| == 1 || r.count <= MaxCount(r, lim))
  }

  /** The walk so far: the parts are the queries seen, every merged query is well merged, and the current one starts no later than the last query seen. */
  predicate MergeInvariant(done: seq<Query>, cur: Query, qs: seq<Query>, lim: Limits)
  {
    qs != [] &&
    Parts(done + [cur]) == qs &&
    (forall r :: r in done ==> WellMerged(r, lim)) && WellMerged(cur, lim) &&
    SortKey(cur.start) <= SortKey(qs[|qs| - 1].start)
  }

  /** The inputs mergeQueries gets: plain queries that each read at least one address. */
  predicate PlainQueries(qs: seq<Query>)
  {
    forall q :: q in qs ==> q.kind == Plain && q.count >= 1
  }

  /** A merged query grown by more parts, all of them inside its new range, is still well merged. */
  lemma ExtendKeepsWellMerged(cur: Query, r: Query, extra: seq<Query>, lim: Limits)
    requires WellMerged(cur, lim)
    requires r.kind == Merged && r.start == cur.start && r.subs == cur.subs + extra
    requires cur.count <= r.count <= MaxCount(cur, lim)
    requires forall s :: s in extra ==> s.count >= 1 && Within(s, r)
    ensures WellMerged(r, lim)
  {
    forall s | s in r.subs
      ensures s.count >= 1 && Within(s, r)
    {
      if s in cur.subs {
        assert Within(s, cur);
      } else {
        assert s in extra;
      }
    }
  }

  /** A new merged query for one plain query is well merged. */
  lemma StartWellMerged(next: Query, lim: Limits)
    requires next.kind == Plain && next.count >= 1
    ensures WellMerged(Start(next), lim)
    ensures Solid(Start(next).subs) == [next]
  {
    SolidSnoc([], next);
    assert [] + [next] == [next];
  }

  /** A turn that extends the current merged query keeps it well merged, and adds `next` to its parts. */
  lemma MergeExtendKeeps(done: seq<Query>, cur: Query, next: Query, lim: Limits)
    requires WellMerged(cur, lim) && next.kind == Plain && next.count >= 1
    requires cur.start.addressClass == next.start.addressClass
    requires cur.start.physicalAddress <= next.start.physicalAddress
    requires MergeStep(done, cur, next, lim).Ok? && MergeStep(done, cur, next, lim).value.0 == done
    ensures var cur' := MergeStep(done, cur, next, lim).value.1;
      WellMerged(cur', lim) && Solid(cur'.subs) == Solid(cur.subs) + [next]
  {
    var cur' := MergeStep(done, cur, next, lim).value.1;
    var firstAfter := Increment(cur.start, cur.count).value;
    var gap := next.start.physicalAddress - (cur.start.physicalAddress + cur.count);
    if next.start == firstAfter {
      assert cur'.subs == cur.subs + [next];
      ExtendByPart(cur, cur', next, lim);
    } else if gap > 0 {
      var hole := NewQuery(Hole, firstAfter, gap);
      assert cur'.subs == cur.subs + [hole, next];
      assert Within(hole, cur') && Within(next, cur');
      ExtendByHoleAndPart(cur, cur', hole, next, lim);
    } else {
      assert cur'.subs == cur.subs + [next];
      ExtendByPart(cur, cur', next, lim);
    }
  }

  lemma ExtendByPart(cur: Query, cur': Query, next: Query, lim: Limits)
    requires WellMerged(cur, lim) && next.kind == Plain && next.count >= 1
    requires cur'.kind == Merged && cur'.start == cur.start && cur'.subs == cur.subs + [next]
    requires cur.count <= cur'.count <= MaxCount(cur, lim) && Within(next, cur')
    ensures WellMerged(cur', lim) && Solid(cur'.subs) == Solid(cur.subs) + [next]
  {
    ExtendKeepsWellMerged(cur, cur', [next], lim);
    SolidSnoc(cur.subs, next);
  }

  lemma ExtendByHoleAndPart(cur: Query, cur': Query, hole: Query, next: Query, lim: Limits)
    requires WellMerged(cur, lim) && next.kind == Plain && next.count >= 1 && hole.kind == Hole && hole.count >= 1
    requires cur'.kind == Merged && cur'.start == cur.start && cur'.subs == cur.subs + [hole, next]
    requires cur.count <= cur'.count <= MaxCount(cur, lim) && Within(hole, cur') && Within(next, cur')
    ensures WellMerged(cur', lim) && Solid(cur'.subs) == Solid(cur.subs) + [next]
  {
    ExtendKeepsWellMerged(cur, cur', [hole, next], lim);
    assert cur.subs + [hole, next] == cur.subs + [hole] + [next];
    SolidSnoc(cur.subs, hole);
    SolidSnoc(cur.subs + [hole], next);
  }

  /** Starting a new merged query for `next` keeps the invariant. */
  lemma MergeNewKeeps(done: seq<Query>, cur: Query, qs: seq<Query>, next: Query, lim: Limits)
    requires MergeInvariant(done, cur, qs, lim) && next.kind == Plain && next.count >= 1
    ensures MergeInvariant(done + [cur], Start(next), qs + [next], lim)
  {
    StartWellMerged(next, lim);
    PartsSnoc(done + [cur], Start(next));
  }

  /** Growing the current merged query by `next` keeps the invariant. */
  lemma MergeGrowKeeps(done: seq<Query>, cur: Query, cur': Query, qs: seq<Query>, next: Query, lim: Limits)
    requires MergeInvariant(done, cur, qs, lim) && QueryLE(qs[|qs| - 1], next)
    requires WellMerged(cur', lim) && cur'.start == cur.start && Solid(cur'.subs) == Solid(cur.subs) + [next]
    ensures MergeInvariant(done, cur', qs + [next], lim)
  {
    PartsSnoc(done, cur);
    PartsSnoc(done, cur');
    assert Parts(done + [cur']) == qs + [next];
    assert SortKey(cur'.start) <= SortKey((qs + [next])[|qs|].start);
  }

  /** One turn of the walk keeps the invariant. */
  lemma MergeStepKeeps(done: seq<Query>, cur: Query, qs: seq<Query>, next: Query, lim: Limits)
    requires MergeInvariant(done, cur, qs, lim) && cur.kind == Merged
    requires QueryLE(qs[|qs| - 1], next) && next.kind == Plain && next.count >= 1
    requires MergeStep(done, cur, next, lim).Ok?
    ensures MergeInvariant(MergeStep(done, cur, next, lim).value.0, MergeStep(done, cur, next, lim).value.1, qs + [next], lim)
  {
    var r := MergeStep(done, cur, next, lim).value;
    if r.0 == done + [cur] && r.1 == Start(next) {
      MergeNewKeeps(done, cur, qs, next, lim);
    } else {
      SameClassKeys(cur.start, next.start);
      MergeExtendKeeps(done, cur, next, lim);
      MergeGrowKeeps(done, cur, r.1, qs, next, lim);
    }
  }

  /** All but the last of sorted plain queries are sorted plain queries, and the last does not sort before them. */
  lemma SortedPlainInit(qs: seq<Query>)
    requires |qs| >= 2 && Sorted(qs) && PlainQueries(qs)
    ensures Sorted(qs[..|qs| - 1]) && PlainQueries(qs[..|qs| - 1])
    ensures QueryLE(qs[..|qs| - 1][|qs| - 2], qs[|qs| - 1])
    ensures qs[|qs| - 1].kind == Plain && qs[|qs| - 1].count >= 1
    ensures qs == qs[..|qs| - 1] + [qs[|qs| - 1]]
  {
    var init := qs[..|qs| - 1];
    assert Sorted(init) by {
      forall i, j | 0 <= i < j < |init|
        ensures QueryLE(init[i], init[j])
      {
        assert init[i] == qs[i] && init[j] == qs[j];
      }
    }
    assert PlainQueries(init) by {
      forall q | q in init
        ensures q.kind == Plain && q.count >= 1
      {
        assert q in qs;
      }
    }
    assert qs[|qs| - 1] in qs;
  }

  /** The walk starts in the invariant. */
  lemma MergeStartKeeps(q: Query, lim: Limits)
    requires q.kind == Plain && q.count >= 1
    ensures MergeInvariant([], Start(q), [q], lim)
  {
    StartWellMerged(q, lim);
    PartsSnoc([], Start(q));
    assert [] + [Start(q)] == [Start(q)];
  }

  /** The walk over sorted plain queries keeps the invariant to the end. */
  lemma {:induction false} MergeRunKeeps(qs: seq<Query>, lim: Limits)
    requires qs != [] && Sorted(qs) && PlainQueries(qs)
    ensures MergeRunIntended(qs, lim).Ok? ==> MergeInvariant(MergeRunIntended(qs, lim).value.0, MergeRunIntended(qs, lim).value.1, qs, lim)
  {
    if |qs| == 1 {
      assert qs[0] in qs;
      MergeStartKeeps(qs[0], lim);
    } else {
      var init := qs[..|qs| - 1];
      var next := qs[|qs| - 1];
      SortedPlainInit(qs);
      MergeRunKeeps(init, lim);
      MergeRunSnocKeeps(init, next, lim);
    }
  }

  /** Appending a query that does not sort before the others keeps the invariant of the walk. */
  lemma MergeRunSnocKeeps(init: seq<Query>, next: Query, lim: Limits)
    requires init != [] && QueryLE(init[|init| - 1], next) && next.kind == Plain && next.count >= 1
    requires MergeRunIntended(init, lim).Ok? ==> MergeInvariant(MergeRunIntended(init, lim).value.0, MergeRunIntended(init, lim).value.1, init, lim)
    ensures var qs := init + [next];
      MergeRunIntended(qs, lim).Ok? ==> MergeInvariant(MergeRunIntended(qs, lim).value.0, MergeRunIntended(qs, lim).value.1, qs, lim)
  {
    var qs := init + [next];
    assert qs[..|qs| - 1] == init;
    var prev := MergeRunIntended(init, lim);
    if prev.Ok? {
      var step := MergeStep(prev.value.0, prev.value.1, next, lim);
      if step.Ok? {
        MergeStepKeeps(prev.value.0, prev.value.1, init, next, lim);
        assert MergeRunIntended(qs, lim) == Ok(step.value);
      }
    }
  }

  /**
   * What mergeQueries as evidently intended promises for plain queries:
   * each input query is a part of exactly one merged query, in sorted
   * order; every merged query reads all its parts and combines parts only
   * within the maximum count.
   */
  lemma MergeSpecShape(provided: seq<Query>, lim: Limits)
    requires PlainQueries(provided)
    ensures MergeSpecIntended(provided, lim).Fail? ==> MergeSpecIntended(provided, lim).failure == IllegalArgument
    ensures MergeSpecIntended(provided, lim).Ok? && |provided| == 1 ==> MergeSpecIntended(provided, lim).value == provided
    ensures MergeSpecIntended(provided, lim).Ok? && |provided| != 1 ==>
      Parts(MergeSpecIntended(provided, lim).value) == SortQueries(provided) &&
      forall r :: r in MergeSpecIntended(provided, lim).value ==> WellMerged(r, lim)
  {
    if |provided| != 1 {
      var sorted := SortQueries(provided);
      if sorted != [] {
        forall q | q in sorted
          ensures q.kind == Plain && q.count >= 1
        {
          assert q in multiset(sorted);
        }
        MergeRunKeeps(sorted, lim);
      }
    }
  }

  /** The walk ends normally when no query reads the last address of the address space. */
  lemma {:induction false} MergeRunOk(qs: seq<Query>, lim: Limits)
    requires qs != [] && PlainQueries(qs)
    requires forall q :: q in qs ==> q.start.physicalAddress + q.count <= MAX_PHYSICAL_ADDRESS
    ensures MergeRunIntended(qs, lim).Ok?
    ensures var cur := MergeRunIntended(qs, lim).value.1;
      cur.count >= 1 && cur.start.physicalAddress + cur.count <= MAX_PHYSICAL_ADDRESS
  {
    if |qs| > 1 {
      var init := qs[..|qs| - 1];
      var next := qs[|qs| - 1];
      assert next in qs;
      MergeRunOk(init, lim);
      var (done, cur) := MergeRunIntended(init, lim).value;
      var (done', cur') := MergeStep(done, cur, next, lim).value;
      if cur' != Start(next) {
        var end := Max(cur.start.physicalAddress + cur.count, next.start.physicalAddress + next.count);
        assert cur'.start == cur.start;
        assert cur'.start.physicalAddress + cur'.count <= end;
      }
    } else {
      assert qs[0] in qs;
    }
  }

  // ---------------------------------------------------------------------------
  // What mergeQueries as written keeps

  /** The sum of the counts of a list of queries. */
  function SumCounts(qs: seq<Query>): int
  {
    if qs == [] then 0 else SumCounts(qs[..|qs| - 1]) + qs[|qs| - 1].count
  }

  lemma SumCountsSnoc(qs: seq<Query>, x: Query)
    ensures SumCounts(qs + [x]) == SumCounts(qs) + x.count
  {
    assert (qs + [x])[..|qs|] == qs;
  }

  lemma {:induction false} SumCountsAppend(a: seq<Query>, b: seq<Query>)
    ensures SumCounts(a + b) == SumCounts(a) + SumCounts(b)
    decreases |b|
  {
    if b == [] {
      assert a + b == a;
    } else {
      var init, last := b[..|b| - 1], b[|b| - 1];
      assert b == init + [last];
      SumCountsAppend(a, init);
      SeqAssoc(a, init, [last]);
      SumCountsSnoc(a + init, last);
      SumCountsSnoc(init, last);
    }
  }

  /** Counts that are not negative add up to a count that is not negative. */
  lemma {:induction false} SumCountsNonneg(qs: seq<Query>)
    requires forall s :: s in qs ==> s.count >= 0
    ensures SumCounts(qs) >= 0
  {
    if qs != [] {
      var init := qs[..|qs| - 1];
      assert qs[|qs| - 1] in qs;
      assert forall s :: s in init ==> s in qs;
      SumCountsNonneg(init);
    }
  }

  /** Each part starts where the counts of the parts before it, taken from `start`, end. */
  predicate Contiguous(start: Address, subs: seq<Query>)
  {
    subs == [] ||
    (var init, last := subs[..|subs| - 1], subs[|subs| - 1];
     Contiguous(start, init) &&
     last.start.addressClass == start.addressClass &&
     last.start.physicalAddress == start.physicalAddress + SumCounts(init))
  }

  /** Where part k of contiguous parts starts. */
  lemma {:induction false} ContiguousAt(start: Address, subs: seq<Query>, k: int)
    requires Contiguous(start, subs) && 0 <= k < |subs|
    ensures subs[k].start.addressClass == start.addressClass
    ensures subs[k].start.physicalAddress == start.physicalAddress + SumCounts(subs[..k])
  {
    var init := subs[..|subs| - 1];
    if k < |init| {
      ContiguousAt(start, init, k);
      assert init[k] == subs[k];
      assert init[..k] == subs[..k];
    }
  }

  /**
   * The parts of r lie one after the other from the start of r, and r
   * counts exactly its parts: what splitMergedModbusRequest relies on when
   * it regroups parts by adding up their counts. A hole of a negative count
   * steps back.
   */
  predicate Tiles(r: Query)
  {
    r.subs != [] && r.count == SumCounts(r.subs) && Contiguous(r.start, r.subs)
  }

  /** A merged query as mergeQueries as written builds it. */
  predicate Tiled(r: Query, lim: Limits)
  {
    r.kind == Merged && Tiles(r) && (|r.subs| == 1 || r.count <= MaxCount(r, lim))
  }

  lemma ContiguousSnoc(start: Address, subs: seq<Query>, x: Query)
    requires Contiguous(start, subs)
    requires x.start.addressClass == start.addressClass
    requires x.start.physicalAddress == start.physicalAddress + SumCounts(subs)
    ensures Contiguous(start, subs + [x])
  {
    assert (subs + [x])[..|subs|] == subs;
  }

  /** A new merged query for one query is tiled. */
  lemma StartTiled(next: Query, lim: Limits)
    ensures Tiled(Start(next), lim) && Solid(Start(next).subs) == (if next.kind != Hole then [next] else [])
  {
    ContiguousSnoc(next.start, [], next);
    SumCountsSnoc([], next);
    SolidSnoc([], next);
    assert [] + [next] == [next];
  }

  /** One turn of the walk as written keeps the current merged query tiled and adds `next` to the parts. */
  lemma MergeStepTiles(done: seq<Query>, cur: Query, next: Query, lim: Limits)
    requires Tiled(cur, lim) && next.kind == Plain
    requires MergeStepAsWritten(done, cur, next, lim).Ok?
    ensures var r := MergeStepAsWritten(done, cur, next, lim).value;
      Tiled(r.1, lim) &&
      ((r.0 == done + [cur] && Solid(r.1.subs) == [next]) ||
       (r.0 == done && Solid(r.1.subs) == Solid(cur.subs) + [next]))
  {
    var r := MergeStepAsWritten(done, cur, next, lim).value;
    if r.0 == done + [cur] && r.1 == Start(next) {
      StartTiled(next, lim);
    } else {
      var firstAfter := Increment(cur.start, cur.count).value;
      if next.start == firstAfter {
        assert r.1.subs == cur.subs + [next];
        ContiguousSnoc(cur.start, cur.subs, next);
        SumCountsSnoc(cur.subs, next);
        SolidSnoc(cur.subs, next);
      } else {
        var gap := next.start.physicalAddress - (cur.start.physicalAddress + cur.count);
        var hole := NewQuery(Hole, firstAfter, gap);
        assert r.1.subs == cur.subs + [hole] + [next];
        ContiguousSnoc(cur.start, cur.subs, hole);
        SumCountsSnoc(cur.subs, hole);
        ContiguousSnoc(cur.start, cur.subs + [hole], next);
        SumCountsSnoc(cur.subs + [hole], next);
        SolidSnoc(cur.subs, hole);
        SolidSnoc(cur.subs + [hole], next);
      }
    }
  }

  /** The walk as written so far: the parts are the queries seen, and every merged query is tiled. */
  predicate TiledInvariant(done: seq<Query>, cur: Query, qs: seq<Query>, lim: Limits)
  {
    Parts(done + [cur]) == qs && (forall r :: r in done ==> Tiled(r, lim)) && Tiled(cur, lim)
  }

  lemma TiledGrow(done: seq<Query>, cur: Query, done': seq<Query>, cur': Query, init: seq<Query>, next: Query, lim: Limits)
    requires TiledInvariant(done, cur, init, lim) && Tiled(cur', lim)
    requires (done' == done + [cur] && Solid(cur'.subs) == [next]) ||
             (done' == done && Solid(cur'.subs) == Solid(cur.subs) + [next])
    ensures TiledInvariant(done', cur', init + [next], lim)
  {
    PartsSnoc(done, cur);
    PartsSnoc(done', cur');
    if done' != done {
      assert Parts(done' + [cur']) == init + [next];
    } else {
      SeqAssoc(Parts(done), Solid(cur.subs), [next]);
    }
  }

  /** The walk as written over plain queries keeps every merged query tiled. */
  lemma {:induction false} MergeRunTiles(qs: seq<Query>, lim: Limits)
    requires qs != [] && PlainQueries(qs)
    ensures MergeRun(qs, lim).Ok? ==> TiledInvariant(MergeRun(qs, lim).value.0, MergeRun(qs, lim).value.1, qs, lim)
  {
    if |qs| == 1 {
      assert qs[0] in qs;
      StartTiled(qs[0], lim);
      PartsSnoc([], Start(qs[0]));
      assert [] + [Start(qs[0])] == [Start(qs[0])];
      assert qs == [qs[0]];
    } else {
      var init, next := qs[..|qs| - 1], qs[|qs| - 1];
      assert qs == init + [next];
      assert next in qs;
      assert forall q :: q in init ==> q in qs;
      MergeRunTiles(init, lim);
      var prev := MergeRun(init, lim);
      if prev.Ok? {
        var step := MergeStepAsWritten(prev.value.0, prev.value.1, next, lim);
        if step.Ok? {
          MergeStepTiles(prev.value.0, prev.value.1, next, lim);
          TiledGrow(prev.value.0, prev.value.1, step.value.0, step.value.1, init, next, lim);
        }
      }
    }
  }

  /**
   * What mergeQueries as written keeps for plain queries: each input query
   * is a part of exactly one merged query, in sorted order; the parts of
   * every merged query lie one after the other from its start, its count
   * is the sum of theirs, and it combines parts only within the maximum
   * count.
   */
  lemma MergeSpecTiles(provided: seq<Query>, lim: Limits)
    requires PlainQueries(provided)
    ensures MergeSpec(provided, lim).Fail? ==> MergeSpec(provided, lim).failure == IllegalArgument
    ensures MergeSpec(provided, lim).Ok? && |provided| == 1 ==> MergeSpec(provided, lim).value == provided
    ensures MergeSpec(provided, lim).Ok? && |provided| != 1 ==>
      Parts(MergeSpec(provided, lim).value) == SortQueries(provided) &&
      forall r :: r in MergeSpec(provided, lim).value ==> Tiled(r, lim)
  {
    if |provided| != 1 {
      var sorted := SortQueries(provided);
      if sorted != [] {
        forall q | q in sorted
          ensures q.kind == Plain && q.count >= 1
        {
          assert q in multiset(sorted);
        }
        MergeRunTiles(sorted, lim);
      }
    }
  }

  /** The parts from i up to j of a tiled query with no negative count lie inside its range. */
  lemma SpanWithin(q: Query, i: int, j: int)
    requires Tiles(q) && (forall s :: s in q.subs ==> s.count >= 0) && 0 <= i < j <= |q.subs|
    ensures q.subs[i].start.addressClass == q.start.addressClass
    ensures q.start.physicalAddress <= q.subs[i].start.physicalAddress
    ensures q.subs[i].start.physicalAddress + SumCounts(q.subs[i..j]) <= q.start.physicalAddress + q.count
  {
    var subs := q.subs;
    ContiguousAt(q.start, subs, i);
    SliceSplit(subs, j, |subs|);
    SliceSplit(subs, i, j);
    assert subs[..|subs|] == subs;
    SumCountsAppend(subs[..j], subs[j..]);
    SumCountsAppend(subs[..i], subs[i..j]);
    assert forall s :: s in subs[..i] ==> s in subs;
    assert forall s :: s in subs[j..] ==> s in subs;
    SumCountsNonneg(subs[..i]);
    SumCountsNonneg(subs[j..]);
  }

  /** Tiled with no negative count, a merged query reads every part: it is well merged. */
  lemma TiledWithin(r: Query, lim: Limits)
    requires Tiled(r, lim) && forall s :: s in r.subs ==> s.count >= 1
    ensures WellMerged(r, lim)
  {
    forall s | s in r.subs
      ensures Within(s, r)
    {
      PartWithin(r, s);
    }
    ContiguousAt(r.start, r.subs, 0);
    assert r.subs[..0] == [];
    assert r.subs[0].start == r.start;
  }

  /** a reads nothing at or after the start of b when both are of one address class. */
  predicate Apart(a: Query, b: Query)
  {
    a.start.addressClass == b.start.addressClass ==> a.start.physicalAddress + a.count <= b.start.physicalAddress
  }

  /** No query reads into the next one. */
  predicate Separated(qs: seq<Query>)
  {
    forall i :: 0 <= i < |qs| - 1 ==> Apart(qs[i], qs[i + 1])
  }

  /** The current merged query ends where q ends. */
  predicate EndsWith(cur: Query, q: Query)
  {
    cur.start.addressClass == q.start.addressClass &&
    cur.start.physicalAddress + cur.count == q.start.physicalAddress + q.count
  }

  /** When `next` starts at or after the end of the current merged query, the step as written is the intended one. */
  lemma MergeStepAgrees(done: seq<Query>, cur: Query, next: Query, lim: Limits)
    requires cur.kind == Merged && next.count >= 1 && Apart(cur, next)
    ensures MergeStepAsWritten(done, cur, next, lim) == MergeStep(done, cur, next, lim)
    ensures MergeStep(done, cur, next, lim).Ok? ==> EndsWith(MergeStep(done, cur, next, lim).value.1, next)
  {
  }

  /**
   * Over queries that do not read into each other the walk as written is
   * the intended walk: the two differ only where a query starts inside the
   * range merged so far.
   */
  lemma {:induction false} MergeRunAgrees(qs: seq<Query>, lim: Limits)
    requires qs != [] && PlainQueries(qs) && Separated(qs)
    ensures MergeRun(qs, lim) == MergeRunIntended(qs, lim)
    ensures MergeRun(qs, lim).Ok? ==> EndsWith(MergeRun(qs, lim).value.1, qs[|qs| - 1])
  {
    if |qs| > 1 {
      var init, next := qs[..|qs| - 1], qs[|qs| - 1];
      assert next in qs;
      assert forall q :: q in init ==> q in qs;
      assert Separated(init) by {
        forall i | 0 <= i < |init| - 1
          ensures Apart(init[i], init[i + 1])
        {
          assert init[i] == qs[i] && init[i + 1] == qs[i + 1];
        }
      }
      MergeRunAgrees(init, lim);
      var prev := MergeRun(init, lim);
      if prev.Ok? {
        assert Apart(qs[|qs| - 2], next);
        MergeStepAgrees(prev.value.0, prev.value.1, next, lim);
      }
    }
  }

  /** mergeQueries as written and as intended agree on sorted queries that do not read into each other. */
  lemma MergeSpecAgrees(provided: seq<Query>, lim: Limits)
    requires PlainQueries(provided) && Separated(SortQueries(provided))
    ensures MergeSpec(provided, lim) == MergeSpecIntended(provided, lim)
  {
    if |provided| != 1 {
      var sorted := SortQueries(provided);
      if sorted != [] {
        forall q | q in sorted
          ensures q.kind == Plain && q.count >= 1
        {
          assert q in multiset(sorted);
        }
        MergeRunAgrees(sorted, lim);
      }
    }
  }

  /**
   * As written, a query that lies inside the current merged range shrinks
   * it: hr:0 # 10 followed by hr:2 # 3 is merged into hr:0 # 5 with a hole
   * of -8 addresses at hr:10, so hr:5 to hr:9 of the first query are no
   * longer read. The corrected step keeps hr:0 # 10 and adds no hole.
   */
  lemma MergeStepAsWrittenShrinks(q1: Query, q2: Query, lim: Limits)
    requires q1 == NewQuery(Plain, Address(HoldingRegister, 0), 10)
    requires q2 == NewQuery(Plain, Address(HoldingRegister, 2), 3)
    requires lim == Limits(125, 2000, 0, {})
    ensures MergeStepAsWritten([], Start(q1), q2, lim).Ok?
    ensures var r := MergeStepAsWritten([], Start(q1), q2, lim).value.1;
      r.count == 5 && r.subs[1].kind == Hole && r.subs[1].count == -8 && !Within(q1, r)
    ensures var r := MergeStep([], Start(q1), q2, lim).value.1;
      r.count == 10 && r.subs == [q1, q2] && Within(q1, r) && Within(q2, r)
  {
    var cur := Start(q1);
    assert Increment(cur.start, cur.count).value == Address(HoldingRegister, 10);
    assert !IsDiscrete(cur);
  }

  // ---------------------------------------------------------------------------
  // splitMergedModbusRequest

  /**
   * The regrouping loop with the isFull test of the retry: a group is full
   * once it holds more than half of the parts.
   */
  function SplitRun(subs: seq<Query>, half: int): (r: (seq<Query>, Query))
    requires subs != []
    ensures r.1.kind == Merged
  {
    if |subs| == 1 then ([], Start(subs[0]))
    else
      var (done, cur) := SplitRun(subs[..|subs| - 1], half);
      var next := subs[|subs| - 1];
      if |cur.subs| > half then (done + [cur], Start(next))
      else (done, AddSub(cur.(count := cur.count + next.count), next))
  }

  /** Groups of at most two parts are replaced by their parts. */
  function Unmerge(groups: seq<Query>): seq<Query>
  {
    if groups == [] then []
    else
      var g := groups[|groups| - 1];
      Unmerge(groups[..|groups| - 1]) + (if |g.subs| > 2 then [g] else g.subs)
  }

  /** splitMergedModbusRequest: `next()` on no parts throws. */
  function SplitSpec(q: Query): Result<seq<Query>>
  {
    if q.subs == [] then Fail(NoSuchElement)
    else
      var (done, cur) := SplitRun(q.subs, |q.subs| / 2);
      Ok(Unmerge(done + [cur]))
  }

  /** splitMergedModbusRequest with the isFull test of the retry: the loop over the parts. */
  method SplitMergedQuery(q: Query) returns (r: Result<seq<Query>>)
    ensures r == SplitSpec(q)
  {
    if |q.subs| == 0 {
      return Fail(NoSuchElement);
    }
    var half := |q.subs| / 2;
    var result: seq<Query> := [];
    var current := Start(q.subs[0]);
    var i := 1;
    while i < |q.subs|
      invariant 1 <= i <= |q.subs|
      invariant SplitRun(q.subs[..i], half) == (result, current)
    {
      var next := q.subs[i];
      SplitRunAt(q.subs, i, half);
      if |current.subs| > half {
        result, current := result + [current], Start(next);
      } else {
        current := AddSub(current.(count := current.count + next.count), next);
      }
      i := i + 1;
    }
    assert q.subs[..i] == q.subs;
    return Ok(Unmerge(result + [current]));
  }

  /** The regrouping of the first i + 1 parts: part i closes the current group or joins it. */
  lemma SplitRunAt(subs: seq<Query>, i: int, half: int)
    requires 1 <= i < |subs|
    ensures var prev := SplitRun(subs[..i], half);
      SplitRun(subs[..i + 1], half) ==
        if |prev.1.subs| > half then (prev.0 + [prev.1], Start(subs[i]))
        else (prev.0, AddSub(prev.1.(count := prev.1.count + subs[i].count), subs[i]))
  {
    var t := subs[..i + 1];
    assert t[..|t| - 1] == subs[..i];
    assert t[|t| - 1] == subs[i];
  }

  /** The parts of a list of merged queries, all of them, one query after the other. */
  function AllSubs(gs: seq<Query>): seq<Query>
  {
    if gs == [] then [] else AllSubs(gs[..|gs| - 1]) + gs[|gs| - 1].subs
  }

  lemma AllSubsSnoc(gs: seq<Query>, g: Query)
    ensures AllSubs(gs + [g]) == AllSubs(gs) + g.subs
  {
    assert (gs + [g])[..|gs|] == gs;
  }

  /** A group as the regrouping builds it: a merged query of one or more parts, no more than one past half, counting its parts. */
  predicate Group(g: Query, half: int)
  {
    g.kind == Merged && 1 <= |g.subs| <= half + 1 && g.start == g.subs[0].start && g.count == SumCounts(g.subs)
  }

  /** The regrouping so far: every part seen once and in order, in groups of at most half plus one. */
  predicate SplitInvariant(done: seq<Query>, cur: Query, subs: seq<Query>, half: int)
  {
    AllSubs(done + [cur]) == subs && (forall g :: g in done ==> Group(g, half)) && Group(cur, half)
  }

  /** One more part, in a new group or in the current one, keeps the regrouping invariant. */
  lemma SplitStepKeeps(done: seq<Query>, cur: Query, subs: seq<Query>, next: Query, half: int)
    requires SplitInvariant(done, cur, subs, half) && half >= 0
    ensures |cur.subs| > half ==> SplitInvariant(done + [cur], Start(next), subs + [next], half)
    ensures |cur.subs| <= half ==>
      SplitInvariant(done, AddSub(cur.(count := cur.count + next.count), next), subs + [next], half)
  {
    AllSubsSnoc(done, cur);
    if |cur.subs| > half {
      AllSubsSnoc(done + [cur], Start(next));
      SumCountsSnoc([], next);
      assert [] + [next] == [next];
    } else {
      var cur' := AddSub(cur.(count := cur.count + next.count), next);
      AllSubsSnoc(done, cur');
      SumCountsSnoc(cur.subs, next);
      assert cur'.subs[0] == cur.subs[0];
    }
  }

  /** The regrouping keeps every part once and in order, in groups of at most half plus one. */
  lemma {:induction false} SplitRunGroups(subs: seq<Query>, half: int)
    requires subs != [] && half >= 0
    ensures SplitInvariant(SplitRun(subs, half).0, SplitRun(subs, half).1, subs, half)
  {
    if |subs| == 1 {
      AllSubsSnoc([], Start(subs[0]));
      SumCountsSnoc([], subs[0]);
      assert [] + [Start(subs[0])] == [Start(subs[0])];
      assert [] + [subs[0]] == subs;
    } else {
      var init := subs[..|subs| - 1];
      var next := subs[|subs| - 1];
      assert subs == init + [next];
      SplitRunGroups(init, half);
      var prev := SplitRun(init, half);
      SplitStepKeeps(prev.0, prev.1, init, next, half);
    }
  }

  /** What a retry fetches for one element of the split: a group of more than two parts, or the part itself. */
  function Expand(x: Query): seq<Query>
  {
    if x.kind == Merged && |x.subs| > 2 then x.subs else [x]
  }

  function ExpandAll(xs: seq<Query>): seq<Query>
  {
    if xs == [] then [] else ExpandAll(xs[..|xs| - 1]) + Expand(xs[|xs| - 1])
  }

  lemma {:induction false} ExpandAllAppend(a: seq<Query>, b: seq<Query>)
    ensures ExpandAll(a + b) == ExpandAll(a) + ExpandAll(b)
    decreases |b|
  {
    if b == [] {
      assert a + b == a;
    } else {
      var init, last := b[..|b| - 1], b[|b| - 1];
      assert b == init + [last];
      ExpandAllAppend(a, init);
      ExpandAllAppendSnoc(a, init, last);
    }
  }

  lemma ExpandAllAppendSnoc(a: seq<Query>, init: seq<Query>, last: Query)
    requires ExpandAll(a + init) == ExpandAll(a) + ExpandAll(init)
    ensures ExpandAll(a + (init + [last])) == ExpandAll(a) + ExpandAll(init + [last])
  {
    SeqAssoc(a, init, [last]);
    ExpandAllSnoc(a + init, last);
    ExpandAllSnoc(init, last);
    SeqAssoc(ExpandAll(a), ExpandAll(init), Expand(last));
  }

  lemma SeqAssoc<T>(x: seq<T>, y: seq<T>, z: seq<T>)
    ensures (x + y) + z == x + (y + z)
  {
  }

  lemma ExpandAllSnoc(xs: seq<Query>, x: Query)
    ensures ExpandAll(xs + [x]) == ExpandAll(xs) + Expand(x)
  {
    assert (xs + [x])[..|xs|] == xs;
  }

  /** Parts that are not merged queries expand to themselves. */
  lemma {:induction false} ExpandAllFlat(xs: seq<Query>)
    requires forall x :: x in xs ==> x.kind != Merged
    ensures ExpandAll(xs) == xs
  {
    if xs != [] {
      assert xs[|xs| - 1] in xs;
      ExpandAllFlat(xs[..|xs| - 1]);
    }
  }

  /** Unmerging groups whose parts are not merged queries loses no part and adds none. */
  lemma {:induction false} UnmergeKeepsParts(gs: seq<Query>)
    requires forall g :: g in gs ==> g.kind == Merged && forall s :: s in g.subs ==> s.kind != Merged
    ensures ExpandAll(Unmerge(gs)) == AllSubs(gs)
  {
    if gs != [] {
      var init, g := gs[..|gs| - 1], gs[|gs| - 1];
      assert g in gs;
      UnmergeKeepsParts(init);
      ExpandAllAppend(Unmerge(init), if |g.subs| > 2 then [g] else g.subs);
      if |g.subs| > 2 {
        assert ExpandAll([g]) == ExpandAll([]) + Expand(g);
      } else {
        ExpandAllFlat(g.subs);
      }
    }
  }

  /** Every element of an unmerged list is a group of more than two parts, or a part of one of the groups. */
  lemma {:induction false} UnmergeMembers(gs: seq<Query>, x: Query)
    requires x in Unmerge(gs)
    ensures (x in gs && |x.subs| > 2) || exists g :: g in gs && |g.subs| <= 2 && x in g.subs
  {
    var init, g := gs[..|gs| - 1], gs[|gs| - 1];
    assert g in gs;
    if x in Unmerge(init) {
      UnmergeMembers(init, x);
      assert forall h :: h in init ==> h in gs;
    }
  }

  /**
   * splitMergedModbusRequest keeps the parts: expanding its groups of more
   * than two parts gives back the parts of the failed query, in order; each
   * element is such a group or one of the original parts.
   */
  lemma SplitKeepsParts(q: Query)
    requires q.subs != [] && forall s :: s in q.subs ==> s.kind != Merged
    ensures SplitSpec(q).Ok?
    ensures ExpandAll(SplitSpec(q).value) == q.subs
    ensures forall x :: x in SplitSpec(q).value ==> (x.kind == Merged && |x.subs| > 2) || x in q.subs
  {
    var (done, cur) := SplitRun(q.subs, |q.subs| / 2);
    var gs := done + [cur];
    SplitRunGroups(q.subs, |q.subs| / 2);
    forall g | g in gs
      ensures g.kind == Merged && forall s :: s in g.subs ==> s.kind != Merged
    {
      assert g in done || g == cur;
      AllSubsMember(gs, g);
    }
    UnmergeKeepsParts(gs);
    forall x | x in SplitSpec(q).value
      ensures (x.kind == Merged && |x.subs| > 2) || x in q.subs
    {
      UnmergeMembers(gs, x);
      if !(x in gs && |x.subs| > 2) {
        var g :| g in gs && |g.subs| <= 2 && x in g.subs;
        AllSubsMember(gs, g);
      }
    }
  }

  /** The parts of one group are among all the parts. */
  lemma {:induction false} AllSubsMember(gs: seq<Query>, g: Query)
    requires g in gs
    ensures forall s :: s in g.subs ==> s in AllSubs(gs)
  {
    var init, last := gs[..|gs| - 1], gs[|gs| - 1];
    assert gs == init + [last];
    if g != last {
      AllSubsMember(init, g);
    }
  }

  /** The parts of the k-th group are a stretch of all the parts. */
  lemma {:induction false} AllSubsSegment(gs: seq<Query>, k: int)
    requires 0 <= k < |gs|
    ensures var off := |AllSubs(gs[..k])|;
      off + |gs[k].subs| <= |AllSubs(gs)| && AllSubs(gs)[off..off + |gs[k].subs|] == gs[k].subs
  {
    var init := gs[..|gs| - 1];
    AllSubsSnoc(init, gs[|gs| - 1]);
    assert gs == init + [gs[|gs| - 1]];
    if k < |gs| - 1 {
      AllSubsSegment(init, k);
      assert init[..k] == gs[..k];
    } else {
      assert gs[..k] == init;
    }
  }

  /** A group of fewer parts than the whole is smaller than the query it came from. */
  lemma GroupSmaller(q: Query, gs: seq<Query>, k: int)
    requires AllSubs(gs) == q.subs && 0 <= k < |gs| && |gs[k].subs| < |q.subs|
    ensures Size(gs[k]) < Size(q)
  {
    AllSubsSegment(gs, k);
    var off := |AllSubs(gs[..k])|;
    SegmentSmaller(q.subs, off, off + |gs[k].subs|);
    assert Size(gs[k]) == 1 + SumSizes(gs[k].subs);
  }

  /** One part is smaller than the query it is a part of. */
  lemma PartSmaller(q: Query, x: Query)
    requires x in q.subs
    ensures Size(x) < Size(q)
  {
    var i :| 0 <= i < |q.subs| && q.subs[i] == x;
    ElementSmaller(q.subs, i);
  }

  /**
   * A retry splits only a query of four or more parts, and then every
   * element of the split is smaller than the failed query: this is why
   * retrying ends.
   */
  lemma SplitSmaller(q: Query)
    requires |q.subs| >= 4
    ensures SplitSpec(q).Ok?
    ensures forall x :: x in SplitSpec(q).value ==> Size(x) < Size(q)
  {
    var half := |q.subs| / 2;
    var (done, cur) := SplitRun(q.subs, half);
    var gs := done + [cur];
    SplitRunGroups(q.subs, half);
    forall x | x in SplitSpec(q).value
      ensures Size(x) < Size(q)
    {
      UnmergeMembers(gs, x);
      if x in gs && |x.subs| > 2 {
        var k :| 0 <= k < |gs| && gs[k] == x;
        assert x in done || x == cur;
        assert Group(x, half);
        GroupSmaller(q, gs, k);
      } else {
        var g :| g in gs && |g.subs| <= 2 && x in g.subs;
        AllSubsMember(gs, g);
        PartSmaller(q, x);
      }
    }
  }

  /**
   * A failed merged query whose parts lie one after the other and have no
   * negative count is split into queries that each lie inside its range:
   * a regrouped query reads no address the failed one did not.
   */
  lemma SplitWithin(q: Query)
    requires Tiles(q) && forall s :: s in q.subs ==> s.count >= 0
    ensures SplitSpec(q).Ok?
    ensures forall x :: x in SplitSpec(q).value ==> Within(x, q)
  {
    var half := |q.subs| / 2;
    var (done, cur) := SplitRun(q.subs, half);
    var gs := done + [cur];
    SplitRunGroups(q.subs, half);
    forall x | x in SplitSpec(q).value
      ensures Within(x, q)
    {
      UnmergeMembers(gs, x);
      if x in gs && |x.subs| > 2 {
        var k :| 0 <= k < |gs| && gs[k] == x;
        assert x in done || x == cur;
        assert Group(x, half);
        GroupWithin(q, gs, k);
      } else {
        var g :| g in gs && |g.subs| <= 2 && x in g.subs;
        AllSubsMember(gs, g);
        PartWithin(q, x);
      }
    }
  }

  /** Each part of a tiled query with no negative count lies inside it. */
  lemma PartWithin(q: Query, x: Query)
    requires Tiles(q) && (forall s :: s in q.subs ==> s.count >= 0) && x in q.subs
    ensures Within(x, q)
  {
    var i :| 0 <= i < |q.subs| && q.subs[i] == x;
    SpanWithin(q, i, i + 1);
    SliceOne(q.subs, i);
    SumCountsSnoc([], x);
    assert [] + [x] == [x];
  }

  lemma SliceSplit<T>(s: seq<T>, i: int, j: int)
    requires 0 <= i <= j <= |s|
    ensures s[..j] == s[..i] + s[i..j]
  {
  }

  lemma SliceOne<T>(s: seq<T>, i: int)
    requires 0 <= i < |s|
    ensures s[i..i + 1] == [s[i]]
  {
  }

  /** A group of consecutive parts of a tiled query, counting its parts, lies inside the query. */
  lemma GroupWithin(q: Query, gs: seq<Query>, k: int)
    requires Tiles(q) && forall s :: s in q.subs ==> s.count >= 0
    requires AllSubs(gs) == q.subs && 0 <= k < |gs|
    requires gs[k].subs != [] && gs[k].start == gs[k].subs[0].start && gs[k].count == SumCounts(gs[k].subs)
    ensures Within(gs[k], q)
  {
    AllSubsSegment(gs, k);
    SegmentWithin(q, gs[k], |AllSubs(gs[..k])|);
  }

  lemma SegmentWithin(q: Query, g: Query, off: int)
    requires Tiles(q) && forall s :: s in q.subs ==> s.count >= 0
    requires 0 <= off && off + |g.subs| <= |q.subs| && q.subs[off..off + |g.subs|] == g.subs
    requires g.subs != [] && g.start == g.subs[0].start && g.count == SumCounts(g.subs)
    ensures Within(g, q)
  {
    assert g.subs[0] == q.subs[off];
    SpanWithin(q, off, off + |g.subs|);
  }
}
