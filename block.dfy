/**
 * A block of a schema (Block.kt) and the field operations that go through
 * it: a field's required fields are looked up by id in its block.
 *
 * The block keeps its fields in insertion order and in a map by id; each
 * field's need counter (Field.neededCount) is kept here, keyed by field id.
 * Recursion over required fields only ends for a schema without cycles; the
 * functions that follow required fields down (need, isImmutable) take a
 * ghost `rank` that decreases along every required-field edge; a block that
 * passes the circular-reference check has one (CheckPassedRanks).
 */
module Blocks {
  import opened Wrappers
  import opened Text
  import opened Fields
  import opened AddressClasses
  import opened Addresses
  import opened ModbusValues
  import opened ModbusBlocks

  type FieldMap = map<string, FieldDef>

  /** The fieldMap holds every field under its own id. */
  predicate IdsKeyed(fm: FieldMap)
  {
    forall k :: k in fm ==> fm[k].id == k
  }

  /** A field's requirement edges: from a field to each field id its expression requires. */
  predicate Edge(fm: FieldMap, a: string, b: string)
  {
    a in fm && b in RequiredFieldNames(fm[a])
  }

  /** A chain of ids, each requiring the next. */
  predicate IsPath(fm: FieldMap, p: seq<string>)
  {
    forall i :: 0 <= i < |p| - 1 ==> Edge(fm, p[i], p[i + 1])
  }

  /** The last field of the chain requires a field that is already on the chain. */
  predicate ClosesCycle(fm: FieldMap, c: seq<string>)
  {
    |c| > 0 && exists j :: 0 <= j < |c| && Edge(fm, c[|c| - 1], c[j])
  }

  /** A ranking that goes down along every edge between fields that are present. */
  predicate Ranked(fm: FieldMap, rank: map<string, nat>)
  {
    forall k :: k in fm ==>
      k in rank && forall n :: n in RequiredFieldNames(fm[k]) && n in fm ==> n in rank && rank[n] < rank[k]
  }

  /** The names of a list that are fields of the block, in order (`mapNotNull { getField(it) }`). */
  function Present(fm: FieldMap, names: seq<string>): (r: seq<string>)
    ensures forall n :: n in r <==> n in names && n in fm
  {
    if names == [] then []
    else if names[0] in fm then [names[0]] + Present(fm, names[1..])
    else Present(fm, names[1..])
  }

  /** Field.requiredFields, as ids. */
  function Deps(fm: FieldMap, id: string): seq<string>
    requires id in fm
  {
    Present(fm, RequiredFieldNames(fm[id]))
  }

  // ---------------------------------------------------------------------------
  // The circular reference search

  function ChainKeys(chain: seq<string>): set<string>
  {
    set x | x in chain
  }

  /** How many fields are not yet on the chain: this shrinks with every step of the search. */
  function Remaining(fm: FieldMap, chain: seq<string>): nat
  {
    |fm.Keys - ChainKeys(chain)|
  }

  lemma RemainingDrops(fm: FieldMap, chain: seq<string>, x: string)
    requires x in fm && x !in chain
    ensures Remaining(fm, chain + [x]) < Remaining(fm, chain)
  {
    assert ChainKeys(chain + [x]) == ChainKeys(chain) + {x};
    assert fm.Keys - ChainKeys(chain + [x]) == (fm.Keys - ChainKeys(chain)) - {x};
    assert x in fm.Keys - ChainKeys(chain);
  }

  /**
   * findCircularReference(usageChainSoFar, field): the chain so far when the
   * field is already on it, otherwise the first non-empty answer of its
   * required fields (tried in order, each with the field added to the
   * chain), or empty. A required field that is missing from the block
   * throws ModbusSchemaParseException.
   */
  function FindCircularReference(fm: FieldMap, chain: seq<string>, f: FieldDef): Result<seq<string>>
    requires IdsKeyed(fm) && f.id in fm
    decreases Remaining(fm, chain), 1, 0
  {
    if f.id in chain then Ok(chain)
    else FindInRequired(fm, chain, f, RequiredFieldNames(f))
  }

  /** The loop over the required field names of `f`. */
  function FindInRequired(fm: FieldMap, chain: seq<string>, f: FieldDef, names: seq<string>): Result<seq<string>>
    requires IdsKeyed(fm) && f.id in fm && f.id !in chain
    decreases Remaining(fm, chain), 0, |names|
  {
    if names == [] then Ok([])
    else if names[0] !in fm then Fail(SchemaParse)
    else
      RemainingDrops(fm, chain, f.id);
      var r := FindCircularReference(fm, chain + [f.id], fm[names[0]]);
      if r.Fail? || r.value != [] then r
      else FindInRequired(fm, chain, f, names[1..])
  }

  /**
   * What the search finds is a real cycle: a chain of fields each requiring
   * the next, extending the chain it started from, whose last field requires
   * one already on it.
   */
  lemma {:induction false} FoundIsCycle(fm: FieldMap, chain: seq<string>, f: FieldDef)
    requires IdsKeyed(fm) && f.id in fm && fm[f.id] == f
    requires IsPath(fm, chain) && (chain == [] || Edge(fm, chain[|chain| - 1], f.id))
    ensures var r := FindCircularReference(fm, chain, f);
      r.Ok? && r.value != [] ==> IsPath(fm, r.value) && ClosesCycle(fm, r.value) && chain <= r.value
    decreases Remaining(fm, chain), 1, 0
  {
    if f.id in chain {
      var j :| 0 <= j < |chain| && chain[j] == f.id;
      assert Edge(fm, chain[|chain| - 1], chain[j]);
    } else {
      FoundInRequiredIsCycle(fm, chain, f, RequiredFieldNames(f));
    }
  }

  lemma {:induction false} FoundInRequiredIsCycle(fm: FieldMap, chain: seq<string>, f: FieldDef, names: seq<string>)
    requires IdsKeyed(fm) && f.id in fm && fm[f.id] == f && f.id !in chain
    requires IsPath(fm, chain) && (chain == [] || Edge(fm, chain[|chain| - 1], f.id))
    requires forall n :: n in names ==> n in RequiredFieldNames(f)
    ensures var r := FindInRequired(fm, chain, f, names);
      r.Ok? && r.value != [] ==> IsPath(fm, r.value) && ClosesCycle(fm, r.value) && chain <= r.value
    decreases Remaining(fm, chain), 0, |names|
  {
    if names != [] && names[0] in fm {
      RemainingDrops(fm, chain, f.id);
      var ext := chain + [f.id];
      PathSnoc(fm, chain, f.id);
      var g := fm[names[0]];
      assert Edge(fm, ext[|ext| - 1], g.id);
      FoundIsCycle(fm, ext, g);
      var r := FindCircularReference(fm, ext, g);
      if r.Ok? && r.value == [] {
        assert FindInRequired(fm, chain, f, names) == FindInRequired(fm, chain, f, names[1..]);
        FoundInRequiredIsCycle(fm, chain, f, names[1..]);
      } else {
        assert FindInRequired(fm, chain, f, names) == r;
        assert chain <= ext;
      }
    }
  }

  /** A chain stays a chain when a field its last one requires is added. */
  lemma PathSnoc(fm: FieldMap, chain: seq<string>, id: string)
    requires IsPath(fm, chain) && (chain == [] || Edge(fm, chain[|chain| - 1], id))
    ensures IsPath(fm, chain + [id])
  {
    var ext := chain + [id];
    forall i | 0 <= i < |ext| - 1
      ensures Edge(fm, ext[i], ext[i + 1])
    {
      if i < |chain| - 1 {
        assert ext[i] == chain[i] && ext[i + 1] == chain[i + 1];
      }
    }
  }

  /**
   * An empty answer means no chain of requirements starting at `f` ever
   * comes back to `f` or to any field on the chain it started from.
   */
  lemma {:induction false} NotFoundMeansNoReturn(fm: FieldMap, chain: seq<string>, f: FieldDef, p: seq<string>)
    requires IdsKeyed(fm) && f.id in fm && fm[f.id] == f && f.id !in chain
    requires FindCircularReference(fm, chain, f) == Ok([])
    requires IsPath(fm, p) && |p| >= 1 && p[0] == f.id
    ensures forall k :: 1 <= k < |p| ==> p[k] !in chain + [f.id]
    decreases |p|
  {
    if |p| >= 2 {
      var n := p[1];
      assert Edge(fm, p[0], p[1]);
      NamesPassed(fm, chain, f, RequiredFieldNames(f), n);
      var g := fm[n];
      var ext := chain + [f.id];
      assert n !in ext;
      var q := p[1..];
      assert IsPath(fm, q) by {
        forall i | 0 <= i < |q| - 1
          ensures Edge(fm, q[i], q[i + 1])
        {
          assert q[i] == p[i + 1] && q[i + 1] == p[i + 2];
        }
      }
      NotFoundMeansNoReturn(fm, ext, g, q);
      forall k | 1 <= k < |p|
        ensures p[k] !in chain + [f.id]
      {
        if k >= 2 {
          assert p[k] == q[k - 1];
          assert p[k] !in ext + [n];
        }
      }
    }
  }

  /** A name the loop passed with an empty answer is present and searched with an empty answer. */
  lemma {:induction false} NamesPassed(fm: FieldMap, chain: seq<string>, f: FieldDef, names: seq<string>, n: string)
    requires IdsKeyed(fm) && f.id in fm && f.id !in chain
    requires FindInRequired(fm, chain, f, names) == Ok([])
    requires n in names
    ensures n in fm
    ensures FindCircularReference(fm, chain + [f.id], fm[n]) == Ok([])
    decreases |names|
  {
    if names[0] != n {
      NamesPassed(fm, chain, f, names[1..], n);
    }
  }

  /** With every required field present, the search never throws. */
  lemma {:induction false} SearchTotal(fm: FieldMap, chain: seq<string>, f: FieldDef)
    requires IdsKeyed(fm) && f.id in fm
    requires forall k, n :: k in fm && n in RequiredFieldNames(fm[k]) ==> n in fm
    requires forall n :: n in RequiredFieldNames(f) ==> n in fm
    ensures FindCircularReference(fm, chain, f).Ok?
    decreases Remaining(fm, chain), 1, 0
  {
    if f.id !in chain {
      SearchListTotal(fm, chain, f, RequiredFieldNames(f));
    }
  }

  lemma {:induction false} SearchListTotal(fm: FieldMap, chain: seq<string>, f: FieldDef, names: seq<string>)
    requires IdsKeyed(fm) && f.id in fm && f.id !in chain
    requires forall k, n :: k in fm && n in RequiredFieldNames(fm[k]) ==> n in fm
    requires forall n :: n in names ==> n in fm
    ensures FindInRequired(fm, chain, f, names).Ok?
    decreases Remaining(fm, chain), 0, |names|
  {
    if names != [] {
      RemainingDrops(fm, chain, f.id);
      SearchTotal(fm, chain + [f.id], fm[names[0]]);
      SearchListTotal(fm, chain, f, names[1..]);
    }
  }

  /**
   * The block-level check: each field in order is searched from an empty
   * chain; a missing field or a found cycle throws ModbusSchemaParseException.
   */
  function CheckCircularReferences(fm: FieldMap, fields: seq<FieldDef>): Result<()>
    requires IdsKeyed(fm) && forall f :: f in fields ==> f.id in fm
  {
    if fields == [] then Ok(())
    else
      var r := FindCircularReference(fm, [], fields[0]);
      if r.Fail? then Fail(r.failure)
      else if r.value != [] then Fail(SchemaParse)
      else CheckCircularReferences(fm, fields[1..])
  }

  lemma {:induction false} CheckPassedField(fm: FieldMap, fields: seq<FieldDef>, f: FieldDef)
    requires IdsKeyed(fm) && forall g :: g in fields ==> g.id in fm
    requires CheckCircularReferences(fm, fields) == Ok(()) && f in fields
    ensures FindCircularReference(fm, [], f) == Ok([])
  {
    if fields[0] != f {
      CheckPassedField(fm, fields[1..], f);
    }
  }

  /** A block whose fields are exactly its map's values, each id once. */
  predicate UniqueIds(fm: FieldMap, fields: seq<FieldDef>)
  {
    IdsKeyed(fm) &&
    (forall f :: f in fields ==> f.id in fm && fm[f.id] == f) &&
    (forall k :: k in fm ==> fm[k] in fields)
  }

  /** A block that passes the check has no field that requires itself through any chain. */
  lemma CheckPassedMeansAcyclic(fm: FieldMap, fields: seq<FieldDef>, p: seq<string>)
    requires UniqueIds(fm, fields)
    requires CheckCircularReferences(fm, fields) == Ok(())
    requires IsPath(fm, p) && |p| >= 2 && p[0] in fm
    ensures p[|p| - 1] != p[0]
  {
    var f := fm[p[0]];
    CheckPassedField(fm, fields, f);
    NotFoundMeansNoReturn(fm, [], f, p);
  }

  /** A block with no missing required field fails the check only when some chain of fields closes a cycle. */
  lemma CheckFailedMeansCycle(fm: FieldMap, fields: seq<FieldDef>)
    requires UniqueIds(fm, fields)
    requires forall k, n :: k in fm && n in RequiredFieldNames(fm[k]) ==> n in fm
    requires CheckCircularReferences(fm, fields).Fail?
    ensures exists c :: IsPath(fm, c) && ClosesCycle(fm, c)
  {
    var i := 0;
    while i < |fields| && CheckCircularReferences(fm, fields[i..]).Fail? && FindCircularReference(fm, [], fields[i]) == Ok([])
      invariant 0 <= i <= |fields|
      invariant CheckCircularReferences(fm, fields[i..]).Fail?
      decreases |fields| - i
    {
      assert fields[i..][1..] == fields[i + 1..];
      i := i + 1;
    }
    assert i < |fields|;
    var f := fields[i];
    assert fm[f.id] == f;
    SearchTotal(fm, [], f);
    FoundIsCycle(fm, [], f);
  }

  /** There is a chain of required fields from k to x. */
  ghost predicate Reaches(fm: FieldMap, k: string, x: string)
  {
    exists p :: IsPath(fm, p) && |p| > 0 && p[0] == k && p[|p| - 1] == x
  }

  /** The fields of the block that chains of required fields lead to from k, k itself included. */
  ghost function Reach(fm: FieldMap, k: string): set<string>
  {
    set x | x in fm.Keys && Reaches(fm, k, x)
  }

  /** The rank of a field: how many fields it reaches. */
  ghost function ReachRank(fm: FieldMap): map<string, nat>
  {
    map k | k in fm :: |Reach(fm, k)|
  }

  /** A chain stays a chain when a field requiring its first one is put in front. */
  lemma PathCons(fm: FieldMap, id: string, p: seq<string>)
    requires IsPath(fm, p) && |p| > 0 && Edge(fm, id, p[0])
    ensures IsPath(fm, [id] + p)
  {
    var q := [id] + p;
    forall i | 0 <= i < |q| - 1
      ensures Edge(fm, q[i], q[i + 1])
    {
      if i > 0 {
        assert q[i] == p[i - 1] && q[i + 1] == p[i];
      }
    }
  }

  /** What a required field reaches, the field requiring it reaches too. */
  lemma ReachOfRequired(fm: FieldMap, k: string, n: string)
    requires Edge(fm, k, n)
    ensures Reach(fm, n) <= Reach(fm, k)
  {
    forall x | x in Reach(fm, n)
      ensures x in Reach(fm, k)
    {
      var p :| IsPath(fm, p) && |p| > 0 && p[0] == n && p[|p| - 1] == x;
      PathCons(fm, k, p);
      assert ([k] + p)[|[k] + p| - 1] == x;
    }
  }

  lemma ProperSubsetSmaller(a: set<string>, b: set<string>, x: string)
    requires a <= b && x in b && x !in a
    ensures |a| < |b|
  {
    assert b == a + (b - a);
    assert x in b - a;
  }

  /**
   * A block that passes the circular reference check is ranked by how many
   * fields each field reaches: a required field reaches strictly fewer,
   * because it does not reach back to the field requiring it. So need(),
   * unNeed() and isImmutable end on such a block.
   */
  lemma CheckPassedRanks(fm: FieldMap, fields: seq<FieldDef>)
    requires UniqueIds(fm, fields)
    requires CheckCircularReferences(fm, fields) == Ok(())
    ensures Ranked(fm, ReachRank(fm))
  {
    var rank := ReachRank(fm);
    forall k, n | k in fm && n in RequiredFieldNames(fm[k]) && n in fm
      ensures rank[n] < rank[k]
    {
      ReachOfRequired(fm, k, n);
      assert IsPath(fm, [k]);
      assert k in Reach(fm, k);
      if k in Reach(fm, n) {
        var p :| IsPath(fm, p) && |p| > 0 && p[0] == n && p[|p| - 1] == k;
        PathCons(fm, k, p);
        var q := [k] + p;
        assert q[|q| - 1] == k && q[0] == k;
        CheckPassedMeansAcyclic(fm, fields, q);
        assert false;
      }
      ProperSubsetSmaller(Reach(fm, n), Reach(fm, k), k);
    }
  }

  /** A block whose initialize() returned true is ranked, so need() and unNeed() can run on it. */
  lemma InitializedBlockRanked(fm: FieldMap, fields: seq<FieldDef>)
    requires UniqueIds(fm, fields)
    requires InitializeAll(fields, fm) == Ok(true)
    ensures Ranked(fm, ReachRank(fm))
  {
    var c := CheckCircularReferences(fm, fields);
    assert c.Ok?;
    var u: () := c.value;
    assert u == ();
    assert c == Ok(u);
    CheckPassedRanks(fm, fields);
  }

  // ---------------------------------------------------------------------------
  // need / unNeed

  /**
   * Every field one need() call of `id` counts, with its multiplicity: the
   * field itself and, for each required field present in the block, what
   * need() of that field counts.
   */
  function Visits(fm: FieldMap, rank: map<string, nat>, id: string): (r: multiset<string>)
    requires Ranked(fm, rank) && id in fm
    ensures forall g :: g in r ==> g in fm
    ensures id in r
    decreases rank[id], 1, 0
  {
    multiset{id} + VisitsAll(fm, rank, id, Deps(fm, id))
  }

  function VisitsAll(fm: FieldMap, rank: map<string, nat>, parent: string, names: seq<string>): (r: multiset<string>)
    requires Ranked(fm, rank) && parent in fm
    requires forall n :: n in names ==> n in fm && n in RequiredFieldNames(fm[parent])
    ensures forall g :: g in r ==> g in fm
    decreases rank[parent], 0, |names|
  {
    if names == [] then multiset{}
    else VisitsAll(fm, rank, parent, names[..|names| - 1]) + Visits(fm, rank, names[|names| - 1])
  }

  /** Extending the list by one name adds what need() of that name counts. */
  lemma VisitsAllSnoc(fm: FieldMap, rank: map<string, nat>, parent: string, deps: seq<string>, i: int)
    requires Ranked(fm, rank) && parent in fm && deps == Deps(fm, parent) && 0 <= i < |deps|
    ensures VisitsAll(fm, rank, parent, deps[..i + 1]) == VisitsAll(fm, rank, parent, deps[..i]) + Visits(fm, rank, deps[i])
  {
    assert deps[..i + 1][..i] == deps[..i];
  }

  /** A missing counter reads as zero. */
  function Count(m: map<string, int>, k: string): int
  {
    if k in m then m[k] else 0
  }

  /** Every counter moved by sign times the field's multiplicity in delta. */
  ghost predicate Moved(after: map<string, int>, before: map<string, int>, sign: int, delta: multiset<string>)
  {
    forall k :: Count(after, k) == Count(before, k) + sign * (delta[k] as int)
  }

  /**
   * One step of need() (sign 1) or unNeed() (sign -1) over the required
   * fields: counting the next required field moves the counters from the
   * first i to the first i + 1.
   */
  lemma CountStep(fm: FieldMap, rank: map<string, nat>, parent: string, deps: seq<string>, i: int, sign: int,
                  base: map<string, int>, before: map<string, int>, after: map<string, int>)
    requires Ranked(fm, rank) && parent in fm && deps == Deps(fm, parent) && 0 <= i < |deps|
    requires sign == 1 || sign == -1
    requires Moved(before, base, sign, VisitsAll(fm, rank, parent, deps[..i]))
    requires Moved(after, before, sign, Visits(fm, rank, deps[i]))
    ensures Moved(after, base, sign, VisitsAll(fm, rank, parent, deps[..i + 1]))
  {
    VisitsAllSnoc(fm, rank, parent, deps, i);
    var v := Visits(fm, rank, deps[i]);
    var pre := VisitsAll(fm, rank, parent, deps[..i]);
    var post := VisitsAll(fm, rank, parent, deps[..i + 1]);
    forall k
      ensures Count(after, k) == Count(base, k) + sign * (post[k] as int)
    {
      assert post[k] == pre[k] + v[k];
      CountCombine(Count(after, k), Count(before, k), Count(base, k), sign, pre[k] as int, v[k] as int, post[k] as int);
    }
  }

  /**
   * The field's own counter moved by sign, then the required fields counted:
   * together, every field need() of the field reaches.
   */
  lemma CountOwn(fm: FieldMap, rank: map<string, nat>, id: string, sign: int,
                 start: map<string, int>, mid: map<string, int>, end: map<string, int>)
    requires Ranked(fm, rank) && id in fm && (sign == 1 || sign == -1)
    requires mid == start[id := Count(start, id) + sign]
    requires Moved(end, mid, sign, VisitsAll(fm, rank, id, Deps(fm, id)))
    ensures Moved(end, start, sign, Visits(fm, rank, id))
  {
    var rest := VisitsAll(fm, rank, id, Deps(fm, id));
    var all := Visits(fm, rank, id);
    assert all == multiset{id} + rest;
    forall k
      ensures Count(end, k) == Count(start, k) + sign * (all[k] as int)
    {
      var own := if k == id then 1 else 0;
      assert Count(mid, k) == Count(start, k) + sign * own;
      assert all[k] == own + rest[k];
      CountCombine(Count(end, k), Count(mid, k), Count(start, k), sign, own, rest[k] as int, all[k] as int);
    }
  }

  lemma CountCombine(after: int, before: int, base: int, sign: int, a: int, b: int, c: int)
    requires before == base + sign * a && after == before + sign * b && c == a + b
    ensures after == base + sign * c
  {
    assert sign * c == sign * a + sign * b;
  }

  /** need() of a field also counts everything need() of each of its required fields counts. */
  lemma {:induction false} VisitsIncludeDeps(fm: FieldMap, rank: map<string, nat>, id: string, n: string)
    requires Ranked(fm, rank) && id in fm && n in Deps(fm, id)
    ensures Visits(fm, rank, n) <= Visits(fm, rank, id)
  {
    VisitsAllInclude(fm, rank, id, Deps(fm, id), n);
  }

  lemma {:induction false} VisitsAllInclude(fm: FieldMap, rank: map<string, nat>, parent: string, names: seq<string>, n: string)
    requires Ranked(fm, rank) && parent in fm
    requires forall m :: m in names ==> m in fm && m in RequiredFieldNames(fm[parent])
    requires n in names
    ensures Visits(fm, rank, n) <= VisitsAll(fm, rank, parent, names)
    decreases |names|
  {
    if names[|names| - 1] != n {
      assert n in names[..|names| - 1];
      VisitsAllInclude(fm, rank, parent, names[..|names| - 1], n);
    }
  }

  // ---------------------------------------------------------------------------
  // isImmutable

  /** The field's parsed expression exists and is immutable. */
  predicate ExpressionImmutable(f: FieldDef)
  {
    f.expression.Some? && f.expression.value.isImmutable
  }

  /**
   * isImmutable: true when set explicitly; otherwise the expression must be
   * immutable and so must every required field present in the block.
   */
  predicate IsImmutable(fm: FieldMap, rank: map<string, nat>, id: string)
    requires Ranked(fm, rank) && id in fm
    decreases rank[id], 1, 0
  {
    fm[id].immutable || (ExpressionImmutable(fm[id]) && AllImmutable(fm, rank, id, Deps(fm, id)))
  }

  predicate AllImmutable(fm: FieldMap, rank: map<string, nat>, parent: string, names: seq<string>)
    requires Ranked(fm, rank) && parent in fm
    requires forall n :: n in names ==> n in fm && n in RequiredFieldNames(fm[parent])
    decreases rank[parent], 0, |names|
  {
    names == [] ||
    (AllImmutable(fm, rank, parent, names[..|names| - 1]) && IsImmutable(fm, rank, names[|names| - 1]))
  }

  /**
   * Where no field that need() would reach is explicitly immutable, a field
   * is immutable exactly when every one of those fields has an immutable
   * expression.
   */
  lemma {:induction false} ImmutableIffAllExpressions(fm: FieldMap, rank: map<string, nat>, id: string)
    requires Ranked(fm, rank) && id in fm
    requires forall g :: g in Visits(fm, rank, id) ==> !fm[g].immutable
    ensures IsImmutable(fm, rank, id) <==> forall g :: g in Visits(fm, rank, id) ==> ExpressionImmutable(fm[g])
    decreases rank[id], 1, 0
  {
    var deps := Deps(fm, id);
    AllImmutableIff(fm, rank, id, deps);
  }

  lemma {:induction false} AllImmutableIff(fm: FieldMap, rank: map<string, nat>, parent: string, names: seq<string>)
    requires Ranked(fm, rank) && parent in fm
    requires forall n :: n in names ==> n in fm && n in RequiredFieldNames(fm[parent])
    requires forall g :: g in VisitsAll(fm, rank, parent, names) ==> !fm[g].immutable
    ensures AllImmutable(fm, rank, parent, names) <==>
      forall g :: g in VisitsAll(fm, rank, parent, names) ==> ExpressionImmutable(fm[g])
    decreases rank[parent], 0, |names|
  {
    if names != [] {
      var init, last := names[..|names| - 1], names[|names| - 1];
      assert VisitsAll(fm, rank, parent, names) == VisitsAll(fm, rank, parent, init) + Visits(fm, rank, last);
      AllImmutableIff(fm, rank, parent, init);
      ImmutableIffAllExpressions(fm, rank, last);
    }
  }

  /** An explicitly immutable field is immutable whatever it requires. */
  lemma ExplicitImmutable(fm: FieldMap, rank: map<string, nat>, id: string)
    requires Ranked(fm, rank) && id in fm && fm[id].immutable
    ensures IsImmutable(fm, rank, id)
  {
  }

  // ---------------------------------------------------------------------------
  // need() forgets soft read errors

  /**
   * The registers need() of a field looks up in the register block of the
   * address class initialize() left in the field: none when that class is
   * null, which it is for a field without registers and for one that did
   * not initialize.
   */
  function ClassRegisters(fm: FieldMap, f: FieldDef): (r: set<Address>)
    ensures forall a :: a in r ==> a in RequiredRegisters(f)
    ensures r != {} ==> Fields.Initialize(f, fm.Keys).Ok? && Fields.Initialize(f, fm.Keys).value.0
  {
    var c := InitializedClass(f, fm.Keys);
    if c.None? then {} else OfClass(RequiredRegisters(f), c.value)
  }

  /** The registers the fields with the given ids look up. */
  ghost function ClearedByIds(fm: FieldMap, ids: multiset<string>): set<Address>
  {
    set g, a | g in ids && g in fm && a in ClassRegisters(fm, fm[g]) :: a
  }

  /** The lookups of two lists of fields together. */
  lemma ClearedByIdsUnion(fm: FieldMap, ids1: multiset<string>, ids2: multiset<string>)
    ensures ClearedByIds(fm, ids1 + ids2) == ClearedByIds(fm, ids1) + ClearedByIds(fm, ids2)
  {
  }

  /** One required field's need() adds the registers it reaches to those cleared so far. */
  lemma NeedClearStep(fm: FieldMap, rank: map<string, nat>, parent: string, deps: seq<string>, i: int,
                      registers: Values, done: set<Address>, before: Values, after: Values)
    requires Ranked(fm, rank) && parent in fm && deps == Deps(fm, parent) && 0 <= i < |deps|
    requires done == ClearedByIds(fm, VisitsAll(fm, rank, parent, deps[..i]))
    requires before == ClearSoft(registers, done)
    requires after == ClearSoft(before, ClearedByIds(fm, Visits(fm, rank, deps[i])))
    ensures after == ClearSoft(registers, ClearedByIds(fm, VisitsAll(fm, rank, parent, deps[..i + 1])))
  {
    VisitsAllSnoc(fm, rank, parent, deps, i);
    ClearedByIdsUnion(fm, VisitsAll(fm, rank, parent, deps[..i]), Visits(fm, rank, deps[i]));
    ClearSoftTwice(registers, done, ClearedByIds(fm, Visits(fm, rank, deps[i])));
  }

  /** A single field looks up its own registers. */
  lemma ClearedByOne(fm: FieldMap, id: string)
    requires id in fm
    ensures ClearedByIds(fm, multiset{id}) == ClassRegisters(fm, fm[id])
  {
    forall a | a in ClassRegisters(fm, fm[id])
      ensures a in ClearedByIds(fm, multiset{id})
    {
      assert id in multiset{id};
    }
  }

  /** The field's own registers, cleared last, complete what need() of the field clears. */
  lemma NeedClearOwn(fm: FieldMap, rank: map<string, nat>, id: string, registers: Values, done: set<Address>,
                     before: Values, after: Values)
    requires Ranked(fm, rank) && id in fm
    requires done == ClearedByIds(fm, VisitsAll(fm, rank, id, Deps(fm, id)))
    requires before == ClearSoft(registers, done)
    requires var c := InitializedClass(fm[id], fm.Keys);
      after == if c.None? then before else ClearSoft(before, OfClass(RequiredRegisters(fm[id]), c.value))
    ensures after == ClearSoft(registers, ClearedByIds(fm, Visits(fm, rank, id)))
  {
    var own := ClassRegisters(fm, fm[id]);
    var rest := VisitsAll(fm, rank, id, Deps(fm, id));
    assert after == ClearSoft(before, own) by {
      if InitializedClass(fm[id], fm.Keys).None? {
        ClearSoftNothing(before);
      }
    }
    assert Visits(fm, rank, id) == rest + multiset{id};
    ClearedByIdsUnion(fm, rest, multiset{id});
    ClearedByOne(fm, id);
    assert done + own == ClearedByIds(fm, Visits(fm, rank, id));
    ClearSoftTwice(registers, done, own);
  }

  /** Forgetting on no addresses changes nothing. */
  lemma ClearSoftNothing(m: Values)
    ensures ClearSoft(m, {}) == m
  {
  }

  /** The cached values at the given addresses with their soft read errors forgotten. */
  function ClearSoft(m: Values, addrs: set<Address>): Values
  {
    map a | a in m :: if a in addrs then m[a].WithoutSoftReadError() else m[a]
  }

  /**
   * Afterwards no value at those addresses holds a soft read error, a hard
   * one stays, a value without a read error is untouched, every other value
   * is untouched, and no value is created.
   */
  lemma ClearSoftMeaning(m: Values, addrs: set<Address>)
    ensures ClearSoft(m, addrs).Keys == m.Keys
    ensures forall a :: a in m && a in addrs ==>
      (ClearSoft(m, addrs)[a].IsReadError() ==> ClearSoft(m, addrs)[a].hardReadError) &&
      (m[a].hardReadError ==> ClearSoft(m, addrs)[a] == m[a]) &&
      (!m[a].IsReadError() ==> ClearSoft(m, addrs)[a] == m[a])
    ensures forall a :: a in m && a !in addrs ==> ClearSoft(m, addrs)[a] == m[a]
  {
  }

  /** Forgetting soft read errors twice is forgetting them once, on both sets of addresses. */
  lemma ClearSoftTwice(m: Values, addrs1: set<Address>, addrs2: set<Address>)
    ensures ClearSoft(ClearSoft(m, addrs1), addrs2) == ClearSoft(m, addrs1 + addrs2)
  {
    forall a | a in m
      ensures ClearSoft(ClearSoft(m, addrs1), addrs2)[a] == ClearSoft(m, addrs1 + addrs2)[a]
    {
      ClearSoftReadErrorEffect(m[a], 0, 0);
    }
  }

  /** The registers of the list that have class c. */
  function OfClass(regs: seq<Address>, c: AddressClass): set<Address>
  {
    set a | a in regs && a.addressClass == c
  }

  /** One more register looked up. */
  lemma ClearOneStep(m: Values, regs: seq<Address>, i: int, c: AddressClass, before: Values, after: Values)
    requires 0 <= i < |regs| && before == ClearSoft(m, OfClass(regs[..i], c))
    requires after == if regs[i] in before && regs[i].addressClass == c then before[regs[i] := before[regs[i]].WithoutSoftReadError()] else before
    ensures after == ClearSoft(m, OfClass(regs[..i + 1], c))
  {
    var a := regs[i];
    var one := if a.addressClass == c then {a} else {};
    assert regs[..i + 1] == regs[..i] + [a];
    assert OfClass(regs[..i + 1], c) == OfClass(regs[..i], c) + one;
    ClearSoftTwice(m, OfClass(regs[..i], c), one);
    assert after == ClearSoft(before, one);
  }

  /**
   * `get(requiredRegisters).forEach { it.clearSoftReadError() }` in the
   * block of class c: the values present at those registers of class c.
   */
  method ClearEach(m: Values, regs: seq<Address>, c: AddressClass) returns (r: Values)
    ensures r == ClearSoft(m, OfClass(regs, c))
  {
    r := m;
    var i := 0;
    ghost var done := OfClass(regs[..0], c);
    assert r == ClearSoft(m, done);
    while i < |regs|
      invariant 0 <= i <= |regs|
      invariant done == OfClass(regs[..i], c)
      invariant r == ClearSoft(m, done)
    {
      var a := regs[i];
      ghost var before := r;
      if a in r && a.addressClass == c {
        r := r[a := r[a].WithoutSoftReadError()];
      }
      ClearOneStep(m, regs, i, c, before, r);
      done := OfClass(regs[..i + 1], c);
      i := i + 1;
    }
    assert regs[..i] == regs;
  }

  // ---------------------------------------------------------------------------
  // The block

  /** A list filtered on a need counter, in order (`fields.filter { it.isNeeded() }`). */
  function NeededOf(fields: seq<FieldDef>, counts: map<string, int>): (r: seq<FieldDef>)
    ensures forall f :: f in r <==> f in fields && Count(counts, f.id) > 0
    ensures |r| <= |fields|
  {
    if fields == [] then []
    else
      var rest := NeededOf(fields[1..], counts);
      assert forall f :: f in fields <==> f == fields[0] || f in fields[1..];
      if Count(counts, fields[0].id) > 0 then [fields[0]] + rest else rest
  }

  class Block {
    const id: string
    var fields: seq<FieldDef>
    var fieldMap: FieldMap
    var neededCount: map<string, int>

    /** The map holds each field under its id, and only fields of the list. */
    predicate Valid()
      reads this
    {
      IdsKeyed(fieldMap) &&
      (forall k :: k in fieldMap ==> fieldMap[k] in fields) &&
      (forall f :: f in fields ==> f.id in fieldMap)
    }

    /** A new block has no fields; its id is trimmed. */
    constructor(rawId: string)
      ensures id == Trim(rawId)
      ensures fields == [] && fieldMap == map[] && neededCount == map[]
      ensures Valid()
    {
      id := Trim(rawId);
      fields := [];
      fieldMap := map[];
      neededCount := map[];
    }

    /**
     * addField: each field not yet in the list is appended and indexed under
     * its id (replacing an earlier field with the same id in the index); a
     * field already present is ignored.
     */
    method AddField(fs: seq<FieldDef>)
      requires Valid()
      modifies this
      ensures Valid()
      ensures (fields, fieldMap) == AddedFields(old(fields), old(fieldMap), fs)
      ensures neededCount == old(neededCount)
    {
      var i := 0;
      while i < |fs|
        invariant 0 <= i <= |fs|
        invariant Valid()
        invariant (fields, fieldMap) == AddedFields(old(fields), old(fieldMap), fs[..i])
        invariant neededCount == old(neededCount)
      {
        assert fs[..i + 1][..i] == fs[..i];
        var f := fs[i];
        if f !in fields {
          fields := fields + [f];
          fieldMap := fieldMap[f.id := f];
        }
        i := i + 1;
      }
      assert fs[..|fs|] == fs;
    }

    /** getField: the field indexed under the name, None (null) for an unknown name. */
    function GetField(fieldName: string): (r: Option<FieldDef>)
      requires Valid()
      reads this
      ensures r.Some? <==> fieldName in fieldMap
      ensures r.Some? ==> r.value.id == fieldName && r.value in fields
    {
      if fieldName in fieldMap then Some(fieldMap[fieldName]) else None
    }

    /** isNeeded: the field's counter is positive. */
    predicate IsNeeded(fieldId: string)
      reads this
    {
      Count(neededCount, fieldId) > 0
    }

    /** neededFields: the fields whose counter is positive, in list order. */
    function NeededFields(): (r: seq<FieldDef>)
      reads this
      ensures forall f :: f in r <==> f in fields && IsNeeded(f.id)
    {
      NeededOf(fields, neededCount)
    }

    /**
     * need(): the field's counter goes up by one and need() runs on every
     * required field present in the block, so each field's counter goes up
     * by the number of times need() reaches it. Every field reached then
     * forgets the soft read errors of its registers in the register cache
     * of the schema device, which is passed in and returned.
     */
    method Need(fieldId: string, ghost rank: map<string, nat>, registers: Values) returns (after: Values)
      requires Ranked(fieldMap, rank) && fieldId in fieldMap
      modifies this
      ensures fields == old(fields) && fieldMap == old(fieldMap)
      ensures Moved(neededCount, old(neededCount), 1, Visits(fieldMap, rank, fieldId))
      ensures after == ClearSoft(registers, ClearedByIds(fieldMap, Visits(fieldMap, rank, fieldId)))
      decreases rank[fieldId], 2
    {
      neededCount := neededCount[fieldId := Count(neededCount, fieldId) + 1];
      ghost var counted := neededCount;
      after := NeedRequired(fieldId, rank, registers);
      CountOwn(fieldMap, rank, fieldId, 1, old(neededCount), counted, neededCount);
      var addressClass := InitializedClass(fieldMap[fieldId], fieldMap.Keys);
      ghost var cleared := after;
      if addressClass.Some? {
        after := ClearEach(after, RequiredRegisters(fieldMap[fieldId]), addressClass.value);
      }
      NeedClearOwn(fieldMap, rank, fieldId, registers, ClearedByIds(fieldMap, VisitsAll(fieldMap, rank, fieldId, Deps(fieldMap, fieldId))), cleared, after);
    }

    /** `requiredFields.forEach { it.need() }`: need() on each required field present, in order. */
    method NeedRequired(fieldId: string, ghost rank: map<string, nat>, registers: Values) returns (after: Values)
      requires Ranked(fieldMap, rank) && fieldId in fieldMap
      modifies this
      ensures fields == old(fields) && fieldMap == old(fieldMap)
      ensures Moved(neededCount, old(neededCount), 1, VisitsAll(fieldMap, rank, fieldId, Deps(fieldMap, fieldId)))
      ensures after == ClearSoft(registers, ClearedByIds(fieldMap, VisitsAll(fieldMap, rank, fieldId, Deps(fieldMap, fieldId))))
      decreases rank[fieldId], 1
    {
      ghost var fm := fieldMap;
      ghost var start := neededCount;
      var deps := Deps(fieldMap, fieldId);
      after := registers;
      assert deps[..0] == [];
      ghost var seen := VisitsAll(fm, rank, fieldId, deps[..0]);
      assert after == ClearSoft(registers, ClearedByIds(fm, seen));
      var i := 0;
      while i < |deps|
        invariant 0 <= i <= |deps|
        invariant fields == old(fields) && fieldMap == fm
        invariant seen == VisitsAll(fm, rank, fieldId, deps[..i])
        invariant Moved(neededCount, start, 1, seen)
        invariant after == ClearSoft(registers, ClearedByIds(fm, seen))
      {
        after := NeedNext(fieldId, rank, fm, deps, i, registers, start, after);
        seen := VisitsAll(fm, rank, fieldId, deps[..i + 1]);
        i := i + 1;
      }
      assert deps[..|deps|] == deps;
    }

    /** One turn of that forEach: need() of the i-th required field, after the first i. */
    method NeedNext(fieldId: string, ghost rank: map<string, nat>, ghost fm: FieldMap, deps: seq<string>, i: int,
                    registers: Values, ghost start: map<string, int>, cleared: Values)
      returns (after: Values)
      requires fieldMap == fm && Ranked(fm, rank) && fieldId in fm && deps == Deps(fm, fieldId) && 0 <= i < |deps|
      requires Moved(neededCount, start, 1, VisitsAll(fm, rank, fieldId, deps[..i]))
      requires cleared == ClearSoft(registers, ClearedByIds(fm, VisitsAll(fm, rank, fieldId, deps[..i])))
      modifies this
      ensures fields == old(fields) && fieldMap == fm
      ensures Moved(neededCount, start, 1, VisitsAll(fm, rank, fieldId, deps[..i + 1]))
      ensures after == ClearSoft(registers, ClearedByIds(fm, VisitsAll(fm, rank, fieldId, deps[..i + 1])))
      decreases rank[fieldId], 0
    {
      ghost var before := neededCount;
      after := Need(deps[i], rank, cleared);
      CountStep(fm, rank, fieldId, deps, i, 1, start, before, neededCount);
      NeedClearStep(fm, rank, fieldId, deps, i, registers, ClearedByIds(fm, VisitsAll(fm, rank, fieldId, deps[..i])), cleared, after);
    }

    /** unNeed(): the exact reverse of need(). */
    method UnNeed(fieldId: string, ghost rank: map<string, nat>)
      requires Ranked(fieldMap, rank) && fieldId in fieldMap
      modifies this
      ensures fields == old(fields) && fieldMap == old(fieldMap)
      ensures Moved(neededCount, old(neededCount), -1, Visits(fieldMap, rank, fieldId))
      decreases rank[fieldId], 2
    {
      neededCount := neededCount[fieldId := Count(neededCount, fieldId) - 1];
      ghost var counted := neededCount;
      UnNeedRequired(fieldId, rank);
      CountOwn(fieldMap, rank, fieldId, -1, old(neededCount), counted, neededCount);
    }

    /** `requiredFields.forEach { it.unNeed() }`: unNeed() on each required field present, in order. */
    method UnNeedRequired(fieldId: string, ghost rank: map<string, nat>)
      requires Ranked(fieldMap, rank) && fieldId in fieldMap
      modifies this
      ensures fields == old(fields) && fieldMap == old(fieldMap)
      ensures Moved(neededCount, old(neededCount), -1, VisitsAll(fieldMap, rank, fieldId, Deps(fieldMap, fieldId)))
      decreases rank[fieldId], 1
    {
      ghost var fm := fieldMap;
      ghost var start := neededCount;
      var deps := Deps(fieldMap, fieldId);
      assert deps[..0] == [];
      ghost var seen := VisitsAll(fm, rank, fieldId, deps[..0]);
      var i := 0;
      while i < |deps|
        invariant 0 <= i <= |deps|
        invariant fields == old(fields) && fieldMap == fm
        invariant seen == VisitsAll(fm, rank, fieldId, deps[..i])
        invariant Moved(neededCount, start, -1, seen)
      {
        UnNeedNext(fieldId, rank, fm, deps, i, start);
        seen := VisitsAll(fm, rank, fieldId, deps[..i + 1]);
        i := i + 1;
      }
      assert deps[..|deps|] == deps;
    }

    /** One turn of unNeed()'s forEach: unNeed() of the i-th required field, after the first i. */
    method UnNeedNext(fieldId: string, ghost rank: map<string, nat>, ghost fm: FieldMap, deps: seq<string>, i: int,
                      ghost start: map<string, int>)
      requires fieldMap == fm && Ranked(fm, rank) && fieldId in fm && deps == Deps(fm, fieldId) && 0 <= i < |deps|
      requires Moved(neededCount, start, -1, VisitsAll(fm, rank, fieldId, deps[..i]))
      modifies this
      ensures fields == old(fields) && fieldMap == fm
      ensures Moved(neededCount, start, -1, VisitsAll(fm, rank, fieldId, deps[..i + 1]))
      decreases rank[fieldId], 0
    {
      ghost var before := neededCount;
      UnNeed(deps[i], rank);
      CountStep(fm, rank, fieldId, deps, i, -1, start, before, neededCount);
    }

    /** initialize(): every field's checks, then the circular reference check. */
    function Initialize(): (r: Result<bool>)
      requires Valid()
      reads this
      ensures r == Ok(true) ==> CheckCircularReferences(fieldMap, fields).Ok?
      ensures r == Ok(true) ==> forall f :: f in fields ==> Fields.Initialize(f, fieldMap.Keys).Ok? && Fields.Initialize(f, fieldMap.Keys).value.0
    {
      InitializeAll(fields, fieldMap)
    }
  }

  /** The state addField leaves: each new field appended and indexed. */
  function AddedFields(fields: seq<FieldDef>, fm: FieldMap, fs: seq<FieldDef>): (seq<FieldDef>, FieldMap)
  {
    if fs == [] then (fields, fm)
    else
      var (l, m) := AddedFields(fields, fm, fs[..|fs| - 1]);
      var f := fs[|fs| - 1];
      if f in l then (l, m) else (l + [f], m[f.id := f])
  }

  /** Adding the same fields again changes nothing. */
  lemma {:induction false} AddFieldsTwice(fields: seq<FieldDef>, fm: FieldMap, fs: seq<FieldDef>)
    ensures var (l, m) := AddedFields(fields, fm, fs);
      (forall f :: f in l <==> f in fields || f in fs) &&
      AddedFields(l, m, fs) == (l, m)
  {
    var (l, m) := AddedFields(fields, fm, fs);
    if fs != [] {
      AddFieldsTwice(fields, fm, fs[..|fs| - 1]);
      AddedKeepsPresent(l, m, fs);
    }
  }

  /** Adding fields that are all present already changes nothing. */
  lemma {:induction false} AddedKeepsPresent(fields: seq<FieldDef>, fm: FieldMap, fs: seq<FieldDef>)
    requires forall f :: f in fs ==> f in fields
    ensures AddedFields(fields, fm, fs) == (fields, fm)
  {
    if fs != [] {
      AddedKeepsPresent(fields, fm, fs[..|fs| - 1]);
    }
  }

  /** The field checks in list order; the first failure is thrown. */
  function InitializeEach(fields: seq<FieldDef>, ids: set<string>): (r: Result<bool>)
    ensures r == Ok(true) ==> forall f :: f in fields ==> Fields.Initialize(f, ids).Ok? && Fields.Initialize(f, ids).value.0
  {
    if fields == [] then Ok(true)
    else
      var head := Fields.Initialize(fields[0], ids);
      if head.Fail? then Fail(head.failure)
      else
        var rest := InitializeEach(fields[1..], ids);
        if rest.Fail? then rest
        else
          assert forall f :: f in fields ==> f == fields[0] || f in fields[1..];
          Ok(head.value.0 && rest.value)
  }

  /**
   * Block.initialize(): a field check that throws aborts; a field that does
   * not initialize gives false; otherwise the circular reference check runs.
   */
  function InitializeAll(fields: seq<FieldDef>, fm: FieldMap): (r: Result<bool>)
    requires IdsKeyed(fm) && forall f :: f in fields ==> f.id in fm
    ensures r == Ok(true) ==> CheckCircularReferences(fm, fields).Ok?
    ensures r == Ok(true) ==> forall f :: f in fields ==> Fields.Initialize(f, fm.Keys).Ok? && Fields.Initialize(f, fm.Keys).value.0
  {
    var each := InitializeEach(fields, fm.Keys);
    if each.Fail? then Fail(each.failure)
    else if !each.value then Ok(false)
    else
      var c := CheckCircularReferences(fm, fields);
      if c.Fail? then Fail(c.failure)
      else Ok(true)
  }
}
