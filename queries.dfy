/**
 * The queries a fetcher sends to a device (ModbusQuery.kt): a start address
 * and a count, the fetch status, the fields the query is done for and, for
 * a merged query, the queries it combines. A hole query stands for the
 * addresses a merged query reads between two of its parts; it belongs to no
 * field.
 *
 * ModbusQuery, MergedModbusQuery and HoleModbusQuery are one datatype with a
 * kind tag. A query is a value: an operation that changes a query in place
 * returns the changed query.
 */
module ModbusQueries {
  import opened Wrappers
  import opened AddressClasses
  import opened Addresses
  import opened Fields

  datatype Status = NotFetched | Error | Success

  datatype Kind = Plain | Merged | Hole

  datatype Query = Query(
    kind: Kind,
    start: Address,
    count: int,
    status: Status,
    fields: seq<FieldDef>,
    subs: seq<Query>)      // the combined queries of a merged query, in order

  /** A new query of the given kind: not fetched, no fields, no parts. */
  function NewQuery(kind: Kind, start: Address, count: int): (r: Query)
    ensures r.kind == kind && r.start == start && r.count == count
    ensures r.status == NotFetched && r.fields == [] && r.subs == []
  {
    Query(kind, start, count, NotFetched, [], [])
  }

  /** The `type` of a query: discretes (one bit per value) or registers. */
  predicate IsDiscrete(q: Query)
  {
    BitsPerValue(q.start.addressClass) == 1
  }

  /** addField: appends the field; a hole refuses with ModbusApiException. */
  function AddField(q: Query, f: FieldDef): (r: Result<Query>)
    ensures r.Ok? <==> q.kind != Hole
    ensures r.Ok? ==> r.value == q.(fields := q.fields + [f])
    ensures r.Fail? ==> r.failure == ModbusApi
  {
    if q.kind == Hole then Fail(ModbusApi) else Ok(q.(fields := q.fields + [f]))
  }

  /** MergedModbusQuery.add: the part is appended, and so are its fields. */
  function AddSub(q: Query, sub: Query): (r: Query)
    requires q.kind == Merged
    ensures r == q.(subs := q.subs + [sub], fields := q.fields + sub.fields)
  {
    q.(subs := q.subs + [sub], fields := q.fields + sub.fields)
  }

  /** The fields of a list of queries, one query after the other. */
  function AllFields(qs: seq<Query>): seq<FieldDef>
  {
    if qs == [] then [] else AllFields(qs[..|qs| - 1]) + qs[|qs| - 1].fields
  }

  /** A merged query built by adding the parts one at a time. */
  function MergedOf(start: Address, count: int, parts: seq<Query>): (r: Query)
    ensures r.kind == Merged && r.start == start && r.count == count && r.status == NotFetched
    ensures r.subs == parts
  {
    if parts == [] then NewQuery(Merged, start, count)
    else AddSub(MergedOf(start, count, parts[..|parts| - 1]), parts[|parts| - 1])
  }

  /** The fields of a merged query are the fields of its parts, in order. */
  lemma {:induction false} MergedOfFields(start: Address, count: int, parts: seq<Query>)
    ensures MergedOf(start, count, parts).fields == AllFields(parts)
  {
    if parts != [] {
      MergedOfFields(start, count, parts[..|parts| - 1]);
    }
  }

  lemma {:induction false} AllFieldsAppend(a: seq<Query>, b: seq<Query>)
    ensures AllFields(a + b) == AllFields(a) + AllFields(b)
    decreases |b|
  {
    if b == [] {
      assert a + b == a;
    } else {
      assert (a + b)[..|a + b| - 1] == a + b[..|b| - 1];
      AllFieldsAppend(a, b[..|b| - 1]);
    }
  }

  // ---------------------------------------------------------------------------
  // Order and equality

  /** compareTo: by start address, then by count. */
  function CompareQueries(a: Query, b: Query): int
  {
    var byStart := Compare(a.start, b.start);
    if byStart != 0 then byStart else CompareInt(a.count, b.count)
  }

  /** a sorts before b or ties with it: lexicographic on (start key, count). */
  predicate QueryLE(a: Query, b: Query)
  {
    SortKey(a.start) < SortKey(b.start) || (SortKey(a.start) == SortKey(b.start) && a.count <= b.count)
  }

  /** compareTo is the lexicographic order on start and count; it ties exactly on equal start and count. */
  lemma CompareQueriesOrder(a: Query, b: Query)
    ensures CompareQueries(a, b) <= 0 <==> QueryLE(a, b)
    ensures CompareQueries(a, b) == 0 <==> a.start == b.start && a.count == b.count
    ensures CompareQueries(a, b) < 0 <==> CompareQueries(b, a) > 0
  {
    CompareSortKey(a.start, b.start);
    CompareSortKey(b.start, a.start);
    CompareOrder(a.start, b.start);
  }

  /** equals: start, count, status and fields (the parts of a merged query are not compared). */
  predicate SameQuery(a: Query, b: Query)
  {
    a.count == b.count && a.start == b.start && a.status == b.status && a.fields == b.fields
  }

  /** Equal queries tie in the order. */
  lemma SameQueryTies(a: Query, b: Query)
    requires SameQuery(a, b)
    ensures CompareQueries(a, b) == 0
  {
    CompareQueriesOrder(a, b);
  }

  predicate Sorted(qs: seq<Query>)
  {
    forall i, j :: 0 <= i < j < |qs| ==> QueryLE(qs[i], qs[j])
  }

  /** Insertion into a sorted list, after every query that does not sort after q. */
  function InsertQuery(q: Query, s: seq<Query>): (r: seq<Query>)
    requires Sorted(s)
    ensures Sorted(r)
    ensures multiset(r) == multiset(s) + multiset{q}
  {
    if s == [] then [q]
    else if !QueryLE(s[0], q) then
      InsertFront(q, s);
      [q] + s
    else
      var t := InsertQuery(q, s[1..]);
      InsertBehind(q, s, t);
      [s[0]] + t
  }

  /** q sorts strictly before the head, so before every query of the list. */
  lemma InsertFront(q: Query, s: seq<Query>)
    requires Sorted(s) && s != [] && !QueryLE(s[0], q)
    ensures Sorted([q] + s)
    ensures multiset([q] + s) == multiset(s) + multiset{q}
  {
    var r := [q] + s;
    forall i, j | 0 <= i < j < |r|
      ensures QueryLE(r[i], r[j])
    {
      if i == 0 {
        assert r[j] == s[j - 1];
        assert QueryLE(s[0], s[j - 1]) || j == 1;
      } else {
        assert r[i] == s[i - 1] && r[j] == s[j - 1];
      }
    }
  }

  /** The head stays in front of the insertion into the rest. */
  lemma InsertBehind(q: Query, s: seq<Query>, t: seq<Query>)
    requires Sorted(s) && s != [] && QueryLE(s[0], q)
    requires Sorted(t) && multiset(t) == multiset(s[1..]) + multiset{q}
    ensures Sorted([s[0]] + t)
    ensures multiset([s[0]] + t) == multiset(s) + multiset{q}
  {
    assert s == [s[0]] + s[1..];
    var r := [s[0]] + t;
    forall k | 0 <= k < |t|
      ensures QueryLE(s[0], t[k])
    {
      assert t[k] in multiset(t);
      if t[k] != q {
        assert t[k] in multiset(s[1..]);
        var m :| 0 <= m < |s[1..]| && s[1..][m] == t[k];
        assert s[m + 1] == t[k];
      }
    }
    forall i, j | 0 <= i < j < |r|
      ensures QueryLE(r[i], r[j])
    {
      if i == 0 {
        assert r[j] == t[j - 1];
      } else {
        assert r[i] == t[i - 1] && r[j] == t[j - 1];
      }
    }
  }

  /** `sorted()`: the same queries, in compareTo order. */
  function SortQueries(qs: seq<Query>): (r: seq<Query>)
    ensures Sorted(r)
    ensures multiset(r) == multiset(qs)
    ensures |r| == |qs|
  {
    if qs == [] then []
    else
      var r := InsertQuery(qs[|qs| - 1], SortQueries(qs[..|qs| - 1]));
      assert qs == qs[..|qs| - 1] + [qs[|qs| - 1]];
      assert |r| == |multiset(r)|;
      r
  }

  // ---------------------------------------------------------------------------
  // Size: a query with all the queries inside it

  function Size(q: Query): nat
    ensures Size(q) >= 1
    decreases q, 1
  {
    1 + SumSizes(q.subs)
  }

  function SumSizes(qs: seq<Query>): nat
    decreases qs, 0
  {
    if qs == [] then 0 else SumSizes(qs[..|qs| - 1]) + Size(qs[|qs| - 1])
  }

  lemma {:induction false} SumSizesAppend(a: seq<Query>, b: seq<Query>)
    ensures SumSizes(a + b) == SumSizes(a) + SumSizes(b)
    decreases |b|
  {
    if b == [] {
      assert a + b == a;
    } else {
      assert (a + b)[..|a + b| - 1] == a + b[..|b| - 1];
      SumSizesAppend(a, b[..|b| - 1]);
    }
  }

  /** Every query counts at least one towards the sum. */
  lemma {:induction false} SumSizesAtLeastLength(qs: seq<Query>)
    ensures SumSizes(qs) >= |qs|
  {
    if qs != [] {
      SumSizesAtLeastLength(qs[..|qs| - 1]);
    }
  }

  /** A part of a list that leaves out at least one query sums to less than the list. */
  lemma SegmentSmaller(qs: seq<Query>, i: int, j: int)
    requires 0 <= i <= j <= |qs| && j - i < |qs|
    ensures SumSizes(qs[i..j]) < SumSizes(qs)
  {
    assert qs == qs[..i] + qs[i..j] + qs[j..];
    SumSizesAppend(qs[..i] + qs[i..j], qs[j..]);
    SumSizesAppend(qs[..i], qs[i..j]);
    SumSizesAtLeastLength(qs[..i]);
    SumSizesAtLeastLength(qs[j..]);
  }

  /** A query of a list counts no more than the list. */
  lemma ElementSmaller(qs: seq<Query>, k: int)
    requires 0 <= k < |qs|
    ensures Size(qs[k]) <= SumSizes(qs)
  {
    assert qs[k..k + 1] == [qs[k]];
    assert SumSizes([qs[k]]) == SumSizes([]) + Size(qs[k]);
    assert qs == qs[..k] + qs[k..k + 1] + qs[k + 1..];
    SumSizesAppend(qs[..k] + qs[k..k + 1], qs[k + 1..]);
    SumSizesAppend(qs[..k], qs[k..k + 1]);
  }
}
