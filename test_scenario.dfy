/**
 * Test scenarios of a schema (TestScenario.kt): the register and discrete
 * blocks a scenario loads into the schema device, and the values it
 * expects the fields to show on them.
 *
 * The schema device is seen through its block and field ids and its value
 * cache; the value a field shows for comparison (`testCompareValue`) is a
 * function of the block id, the field id and the loaded values, because
 * the expressions that compute it are modelled elsewhere.
 */
module TestScenarios {
  import opened Wrappers
  import opened ModbusValues
  import opened ModbusBlocks

  /** SchemaDevice.TestResult: what was expected, what the field showed, and whether they are equal. */
  datatype TestResult = TestResult(expectedValue: seq<string>, actualValue: seq<string>, passed: bool)

  /** An expected block: the block id and the expected value of each field id, in order. */
  datatype ExpectedBlock = ExpectedBlock(blockId: string, expected: seq<(string, seq<string>)>)

  /** The results of one scenario, by block id and then by field id. */
  type Results = map<string, map<string, TestResult>>

  /** The schema device's blocks: for each block id, the ids of its fields. */
  type Schema = map<string, set<string>>

  /** testCompareValue of a field (block id, field id) on the loaded values. */
  type Compare = (string, string, Values) -> seq<string>

  // ---------------------------------------------------------------------------
  // loadTestModbusValues

  /** The cache wiped, then every test block merged in, in order. */
  function LoadedValues(cache: Values, blocks: seq<Values>): Values
  {
    if blocks == [] then ClearedValues(cache)
    else MergeValues(LoadedValues(cache, blocks[..|blocks| - 1]), blocks[|blocks| - 1])
  }

  /** Loading one more block merges it into what was loaded before. */
  lemma LoadedSnoc(cache: Values, blocks: seq<Values>, i: int)
    requires 0 <= i < |blocks|
    ensures LoadedValues(cache, blocks[..i + 1]) == MergeValues(LoadedValues(cache, blocks[..i]), blocks[i])
  {
    assert blocks[..i + 1][..i] == blocks[..i];
  }

  /** After loading there is an entry for every address of the cache and of the test blocks, and no other. */
  lemma {:induction false} LoadedKeys(cache: Values, blocks: seq<Values>)
    ensures forall a :: a in LoadedValues(cache, blocks) <==> a in cache || exists k :: 0 <= k < |blocks| && a in blocks[k]
  {
    if blocks != [] {
      var init := blocks[..|blocks| - 1];
      var last := blocks[|blocks| - 1];
      LoadedKeys(cache, init);
      forall a
        ensures (exists k :: 0 <= k < |blocks| && a in blocks[k]) <==> a in last || exists k :: 0 <= k < |init| && a in init[k]
      {
        if exists k :: 0 <= k < |blocks| && a in blocks[k] {
          var k :| 0 <= k < |blocks| && a in blocks[k];
          if k < |init| {
            assert init[k] == blocks[k];
          }
        }
        if exists k :: 0 <= k < |init| && a in init[k] {
          var k :| 0 <= k < |init| && a in init[k];
          assert blocks[k] == init[k];
        }
      }
    }
  }

  /** After loading, every value present came from a test block: nothing cached before survives. */
  lemma {:induction false} LoadedFromBlocks(cache: Values, blocks: seq<Values>)
    ensures forall a :: a in LoadedValues(cache, blocks) && LoadedValues(cache, blocks)[a].value.Some? ==>
      exists k :: 0 <= k < |blocks| && a in blocks[k] && LoadedValues(cache, blocks)[a].value == blocks[k][a].value
  {
    if blocks != [] {
      var init := blocks[..|blocks| - 1];
      var last := blocks[|blocks| - 1];
      LoadedFromBlocks(cache, init);
      var prev := LoadedValues(cache, init);
      var r := MergeValues(prev, last);
      forall a | a in r && r[a].value.Some?
        ensures exists k :: 0 <= k < |blocks| && a in blocks[k] && r[a].value == blocks[k][a].value
      {
        MergeEffect(prev, last, a);
        if a in last {
          assert a in blocks[|blocks| - 1];
        } else {
          assert a in prev && prev[a].value.Some? && r[a] == prev[a];
          var k :| 0 <= k < |init| && a in init[k] && prev[a].value == init[k][a].value;
          assert blocks[k] == init[k];
        }
      }
    }
  }

  /** After loading, the last test block's values are all there. */
  lemma LoadedLastBlock(cache: Values, blocks: seq<Values>)
    requires blocks != []
    ensures forall a :: a in blocks[|blocks| - 1] ==>
      a in LoadedValues(cache, blocks) && LoadedValues(cache, blocks)[a].value == blocks[|blocks| - 1][a].value
  {
    var prev := LoadedValues(cache, blocks[..|blocks| - 1]);
    var last := blocks[|blocks| - 1];
    forall a | a in last
      ensures MergeValues(prev, last)[a].value == last[a].value
    {
      MergeEffect(prev, last, a);
    }
  }

  // ---------------------------------------------------------------------------
  // verify

  /**
   * The loop over the expected values of one block: requireNotNull on
   * each field id (IllegalArgumentException), then the result of comparing
   * the expected value with what the field shows.
   */
  function FieldResults(fieldIds: set<string>, compare: Compare, loaded: Values, blockId: string,
                        pairs: seq<(string, seq<string>)>): Result<map<string, TestResult>>
  {
    if pairs == [] then Ok(map[])
    else
      var prev := FieldResults(fieldIds, compare, loaded, blockId, pairs[..|pairs| - 1]);
      var (fieldId, expected) := pairs[|pairs| - 1];
      if prev.Fail? then prev
      else if fieldId !in fieldIds then Fail(IllegalArgument)
      else
        var actual := compare(blockId, fieldId, loaded);
        Ok(prev.value[fieldId := TestResult(expected, actual, expected == actual)])
  }

  /**
   * The loop over the expected blocks: requireNotNull on each block id,
   * a fresh result map for the block (a later expected block with the
   * same id replaces an earlier one), then its fields.
   */
  function ScenarioResults(schema: Schema, compare: Compare, loaded: Values, ebs: seq<ExpectedBlock>): Result<Results>
  {
    if ebs == [] then Ok(map[])
    else
      var prev := ScenarioResults(schema, compare, loaded, ebs[..|ebs| - 1]);
      var eb := ebs[|ebs| - 1];
      if prev.Fail? then prev
      else if eb.blockId !in schema then Fail(IllegalArgument)
      else
        var fields := FieldResults(schema[eb.blockId], compare, loaded, eb.blockId, eb.expected);
        if fields.Fail? then Fail(fields.failure)
        else Ok(prev.value[eb.blockId := fields.value])
  }

  /** Every field id of the expectations is a field of the block. */
  ghost predicate KnownFields(fieldIds: set<string>, pairs: seq<(string, seq<string>)>)
  {
    forall i :: 0 <= i < |pairs| ==> pairs[i].0 in fieldIds
  }

  /** Every result of a block holds what the field showed, and passes exactly when it equals what was expected. */
  ghost predicate Compared(compare: Compare, loaded: Values, blockId: string, results: map<string, TestResult>)
  {
    forall f :: f in results ==>
      results[f].actualValue == compare(blockId, f, loaded) &&
      (results[f].passed <==> results[f].expectedValue == results[f].actualValue)
  }

  /** Some expectation of the block is for field f. */
  ghost predicate ExpectsField(pairs: seq<(string, seq<string>)>, f: string)
  {
    exists i :: 0 <= i < |pairs| && pairs[i].0 == f
  }

  lemma KnownFieldsSnoc(fieldIds: set<string>, pairs: seq<(string, seq<string>)>)
    requires pairs != []
    ensures KnownFields(fieldIds, pairs) <==>
      KnownFields(fieldIds, pairs[..|pairs| - 1]) && pairs[|pairs| - 1].0 in fieldIds
  {
    var init := pairs[..|pairs| - 1];
    if KnownFields(fieldIds, init) && pairs[|pairs| - 1].0 in fieldIds {
      forall i | 0 <= i < |pairs|
        ensures pairs[i].0 in fieldIds
      {
        if i < |init| {
          assert pairs[i] == init[i];
        }
      }
    }
    if KnownFields(fieldIds, pairs) {
      forall i | 0 <= i < |init|
        ensures init[i].0 in fieldIds
      {
        assert init[i] == pairs[i];
      }
    }
  }

  lemma ExpectsFieldSnoc(pairs: seq<(string, seq<string>)>, f: string)
    requires pairs != []
    ensures ExpectsField(pairs, f) <==> ExpectsField(pairs[..|pairs| - 1], f) || pairs[|pairs| - 1].0 == f
  {
    var init := pairs[..|pairs| - 1];
    if ExpectsField(pairs, f) {
      var i :| 0 <= i < |pairs| && pairs[i].0 == f;
      if i < |init| {
        assert init[i] == pairs[i];
      }
    }
    if ExpectsField(init, f) {
      var i :| 0 <= i < |init| && init[i].0 == f;
      assert pairs[i] == init[i];
    }
  }

  /**
   * A block's expectations fail exactly on an unknown field id; otherwise
   * there is one result per expected field id, and each is the comparison
   * with what the field shows.
   */
  lemma {:induction false} FieldResultsMeaning(fieldIds: set<string>, compare: Compare, loaded: Values, blockId: string,
                                               pairs: seq<(string, seq<string>)>)
    ensures var r := FieldResults(fieldIds, compare, loaded, blockId, pairs);
      (r.Ok? <==> KnownFields(fieldIds, pairs)) &&
      (r.Fail? ==> r.failure == IllegalArgument) &&
      (r.Ok? ==> (forall f :: f in r.value <==> ExpectsField(pairs, f)) &&
                 Compared(compare, loaded, blockId, r.value))
  {
    if pairs != [] {
      var init := pairs[..|pairs| - 1];
      FieldResultsMeaning(fieldIds, compare, loaded, blockId, init);
      KnownFieldsSnoc(fieldIds, pairs);
      var r := FieldResults(fieldIds, compare, loaded, blockId, pairs);
      if r.Ok? {
        forall f
          ensures f in r.value <==> ExpectsField(pairs, f)
        {
          ExpectsFieldSnoc(pairs, f);
        }
      }
    }
  }

  /** Every block id of the expectations is a block of the schema, and every field id one of its fields. */
  ghost predicate KnownIds(schema: Schema, ebs: seq<ExpectedBlock>)
  {
    forall i :: 0 <= i < |ebs| ==> ebs[i].blockId in schema && KnownFields(schema[ebs[i].blockId], ebs[i].expected)
  }

  /** Some expected block is for block b. */
  ghost predicate ExpectsBlock(ebs: seq<ExpectedBlock>, b: string)
  {
    exists i :: 0 <= i < |ebs| && ebs[i].blockId == b
  }

  lemma KnownIdsSnoc(schema: Schema, ebs: seq<ExpectedBlock>)
    requires ebs != []
    ensures var eb := ebs[|ebs| - 1];
      KnownIds(schema, ebs) <==>
        KnownIds(schema, ebs[..|ebs| - 1]) && eb.blockId in schema && KnownFields(schema[eb.blockId], eb.expected)
  {
    var init := ebs[..|ebs| - 1];
    var eb := ebs[|ebs| - 1];
    if KnownIds(schema, init) && eb.blockId in schema && KnownFields(schema[eb.blockId], eb.expected) {
      forall i | 0 <= i < |ebs|
        ensures ebs[i].blockId in schema && KnownFields(schema[ebs[i].blockId], ebs[i].expected)
      {
        if i < |init| {
          assert ebs[i] == init[i];
        }
      }
    }
    if KnownIds(schema, ebs) {
      forall i | 0 <= i < |init|
        ensures init[i].blockId in schema && KnownFields(schema[init[i].blockId], init[i].expected)
      {
        assert init[i] == ebs[i];
      }
    }
  }

  lemma ExpectsBlockSnoc(ebs: seq<ExpectedBlock>, b: string)
    requires ebs != []
    ensures ExpectsBlock(ebs, b) <==> ExpectsBlock(ebs[..|ebs| - 1], b) || ebs[|ebs| - 1].blockId == b
  {
    var init := ebs[..|ebs| - 1];
    if ExpectsBlock(ebs, b) {
      var i :| 0 <= i < |ebs| && ebs[i].blockId == b;
      if i < |init| {
        assert init[i] == ebs[i];
      }
    }
    if ExpectsBlock(init, b) {
      var i :| 0 <= i < |init| && init[i].blockId == b;
      assert ebs[i] == init[i];
    }
  }

  /**
   * verify fails (IllegalArgumentException) exactly on an unknown block
   * or field id; otherwise there is one result map per expected block id,
   * and every result is the comparison with what the field shows.
   */
  lemma {:induction false} ScenarioResultsMeaning(schema: Schema, compare: Compare, loaded: Values, ebs: seq<ExpectedBlock>)
    ensures var r := ScenarioResults(schema, compare, loaded, ebs);
      (r.Ok? <==> KnownIds(schema, ebs)) &&
      (r.Fail? ==> r.failure == IllegalArgument) &&
      (r.Ok? ==> (forall b :: b in r.value <==> ExpectsBlock(ebs, b)) &&
                 forall b :: b in r.value ==> Compared(compare, loaded, b, r.value[b]))
  {
    if ebs != [] {
      var init := ebs[..|ebs| - 1];
      var eb := ebs[|ebs| - 1];
      ScenarioResultsMeaning(schema, compare, loaded, init);
      if eb.blockId in schema {
        FieldResultsMeaning(schema[eb.blockId], compare, loaded, eb.blockId, eb.expected);
      }
      KnownIdsSnoc(schema, ebs);
      var r := ScenarioResults(schema, compare, loaded, ebs);
      if r.Ok? {
        forall b
          ensures b in r.value <==> ExpectsBlock(ebs, b)
        {
          ExpectsBlockSnoc(ebs, b);
        }
      }
    }
  }

  // ---------------------------------------------------------------------------
  // The results

  /** TestScenarioResults.allPassed: at least one block of results, and every result passed. */
  predicate AllPassed(results: Results)
  {
    results != map[] && forall b, f :: b in results && f in results[b] ==> results[b][f].passed
  }

  /**
   * A scenario whose ids are all known passes exactly when it has an
   * expected block and every field showed what was expected.
   */
  lemma ScenarioPasses(schema: Schema, compare: Compare, loaded: Values, ebs: seq<ExpectedBlock>)
    requires ScenarioResults(schema, compare, loaded, ebs).Ok?
    ensures var res := ScenarioResults(schema, compare, loaded, ebs).value;
      AllPassed(res) <==>
        ebs != [] &&
        forall b, f :: b in res && f in res[b] ==> res[b][f].expectedValue == compare(b, f, loaded)
  {
    ScenarioResultsMeaning(schema, compare, loaded, ebs);
    var res := ScenarioResults(schema, compare, loaded, ebs).value;
    if ebs != [] {
      assert ebs[0].blockId in res;
    }
  }

  /** The outcome of one scenario. */
  datatype ScenarioOutcome = ScenarioOutcome(testName: string, results: Results)

  /** TestScenarioResultsList.allPassed: no results at all, or none failed. */
  predicate ListAllPassed(list: seq<ScenarioOutcome>)
  {
    |list| == 0 || forall i :: 0 <= i < |list| ==> AllPassed(list[i].results)
  }

  /** failedTests: the names of the scenarios that did not pass, in order. */
  function FailedTests(list: seq<ScenarioOutcome>): (r: seq<string>)
    ensures |r| <= |list|
    ensures forall n :: n in r <==> exists i :: 0 <= i < |list| && !AllPassed(list[i].results) && list[i].testName == n
  {
    if list == [] then []
    else
      var rest := FailedTests(list[1..]);
      assert forall i :: 0 < i < |list| ==> list[i] == list[1..][i - 1];
      assert forall i :: 0 <= i < |list| - 1 ==> list[1..][i] == list[i + 1];
      if AllPassed(list[0].results) then rest else [list[0].testName] + rest
  }

  /** The list passes exactly when no test is named as failed. */
  lemma ListAllPassedIffNoneFailed(list: seq<ScenarioOutcome>)
    ensures ListAllPassed(list) <==> FailedTests(list) == []
  {
    if !ListAllPassed(list) {
      var i :| 0 <= i < |list| && !AllPassed(list[i].results);
      assert list[i].testName in FailedTests(list);
    }
  }

  /** logResults: the scenarios one by one; the answer is whether every one passed (the log lines are not modelled). */
  method LogResults(list: seq<ScenarioOutcome>) returns (success: bool)
    ensures success == ListAllPassed(list)
  {
    success := true;
    var i := 0;
    while i < |list|
      invariant 0 <= i <= |list|
      invariant success <==> forall k :: 0 <= k < i ==> AllPassed(list[k].results)
    {
      if !AllPassed(list[i].results) {
        success := false;
      }
      i := i + 1;
    }
  }

  // ---------------------------------------------------------------------------
  // The scenario

  /** TestScenario: a name, the blocks it loads and the values it expects. */
  class TestScenario {
    const name: string
    var modbusBlocks: seq<Values>
    var expectedBlocks: seq<ExpectedBlock>

    constructor(name: string)
      ensures this.name == name && modbusBlocks == [] && expectedBlocks == []
    {
      this.name := name;
      modbusBlocks := [];
      expectedBlocks := [];
    }

    method AddModbusBlock(block: Values)
      modifies this
      ensures modbusBlocks == old(modbusBlocks) + [block] && expectedBlocks == old(expectedBlocks)
    {
      modbusBlocks := modbusBlocks + [block];
    }

    method AddExpectedBlock(block: ExpectedBlock)
      modifies this
      ensures expectedBlocks == old(expectedBlocks) + [block] && modbusBlocks == old(modbusBlocks)
    {
      expectedBlocks := expectedBlocks + [block];
    }

    /** loadTestModbusValues: the device's values cleared, then every test block merged in. */
    method LoadTestModbusValues(cache: Values) returns (loaded: Values)
      ensures loaded == LoadedValues(cache, modbusBlocks)
    {
      loaded := ClearedValues(cache);
      var i := 0;
      while i < |modbusBlocks|
        invariant 0 <= i <= |modbusBlocks|
        invariant loaded == LoadedValues(cache, modbusBlocks[..i])
      {
        LoadedSnoc(cache, modbusBlocks, i);
        loaded := MergeValues(loaded, modbusBlocks[i]);
        i := i + 1;
      }
      assert modbusBlocks[..i] == modbusBlocks;
    }

    /**
     * verify: the test values loaded, every expectation compared, and the
     * device's values cleared again. A failed requireNotNull leaves the
     * test values loaded.
     */
    method Verify(schema: Schema, compare: Compare, cache: Values) returns (r: Result<Results>, after: Values)
      ensures var loaded := LoadedValues(cache, modbusBlocks);
        r == ScenarioResults(schema, compare, loaded, expectedBlocks) &&
        after == (if r.Ok? then ClearedValues(loaded) else loaded)
    {
      var loaded := LoadTestModbusValues(cache);
      r := CompareBlocks(schema, compare, loaded, expectedBlocks);
      after := if r.Ok? then ClearedValues(loaded) else loaded;
    }
  }

  /** The outer loop of verify: the fields of every expected block compared, block after block. */
  method CompareBlocks(schema: Schema, compare: Compare, loaded: Values, ebs: seq<ExpectedBlock>) returns (r: Result<Results>)
    ensures r == ScenarioResults(schema, compare, loaded, ebs)
  {
    var results: Results := map[];
    var i := 0;
    while i < |ebs|
      invariant 0 <= i <= |ebs|
      invariant ScenarioResults(schema, compare, loaded, ebs[..i]) == Ok(results)
    {
      var eb := ebs[i];
      ScenarioNext(schema, compare, loaded, ebs, i);
      if eb.blockId !in schema {
        ScenarioFails(schema, compare, loaded, ebs, i + 1);
        return Fail(IllegalArgument);
      }
      var blockResult := CompareFields(schema[eb.blockId], compare, loaded, eb.blockId, eb.expected);
      if blockResult.Fail? {
        ScenarioFails(schema, compare, loaded, ebs, i + 1);
        return Fail(blockResult.failure);
      }
      results := results[eb.blockId := blockResult.value];
      i := i + 1;
    }
    assert ebs[..i] == ebs;
    return Ok(results);
  }

  /** The inner loop of verify: every expected field of one block compared, in order. */
  method CompareFields(fieldIds: set<string>, compare: Compare, loaded: Values, blockId: string,
                       pairs: seq<(string, seq<string>)>) returns (r: Result<map<string, TestResult>>)
    ensures r == FieldResults(fieldIds, compare, loaded, blockId, pairs)
  {
    var blockResult: map<string, TestResult> := map[];
    var j := 0;
    while j < |pairs|
      invariant 0 <= j <= |pairs|
      invariant FieldResults(fieldIds, compare, loaded, blockId, pairs[..j]) == Ok(blockResult)
    {
      var (fieldId, expectedValue) := pairs[j];
      assert pairs[..j + 1][..j] == pairs[..j];
      assert pairs[..j + 1][j] == (fieldId, expectedValue);
      if fieldId !in fieldIds {
        FieldsFail(fieldIds, compare, loaded, blockId, pairs, j + 1);
        return Fail(IllegalArgument);
      }
      var actualValue := compare(blockId, fieldId, loaded);
      blockResult := blockResult[fieldId := TestResult(expectedValue, actualValue, expectedValue == actualValue)];
      j := j + 1;
    }
    assert pairs[..j] == pairs;
    return Ok(blockResult);
  }

  /** A failure at some expected field is the failure of all the block's fields. */
  lemma {:induction false} FieldsFail(fieldIds: set<string>, compare: Compare, loaded: Values, blockId: string,
                                      pairs: seq<(string, seq<string>)>, k: int)
    requires 0 <= k <= |pairs| && FieldResults(fieldIds, compare, loaded, blockId, pairs[..k]).Fail?
    ensures FieldResults(fieldIds, compare, loaded, blockId, pairs) == FieldResults(fieldIds, compare, loaded, blockId, pairs[..k])
  {
    if k < |pairs| {
      assert pairs[..|pairs| - 1][..k] == pairs[..k];
      FieldsFail(fieldIds, compare, loaded, blockId, pairs[..|pairs| - 1], k);
    } else {
      assert pairs[..k] == pairs;
    }
  }

  /** One more expected block compared after the ones before it. */
  lemma ScenarioNext(schema: Schema, compare: Compare, loaded: Values, ebs: seq<ExpectedBlock>, i: int)
    requires 0 <= i < |ebs|
    ensures var prev := ScenarioResults(schema, compare, loaded, ebs[..i]);
      var eb := ebs[i];
      ScenarioResults(schema, compare, loaded, ebs[..i + 1]) ==
        if prev.Fail? then prev
        else if eb.blockId !in schema then Fail(IllegalArgument)
        else
          var fields := FieldResults(schema[eb.blockId], compare, loaded, eb.blockId, eb.expected);
          if fields.Fail? then Fail(fields.failure)
          else Ok(prev.value[eb.blockId := fields.value])
  {
    assert ebs[..i + 1][..i] == ebs[..i];
    assert ebs[..i + 1][i] == ebs[i];
  }

  /** A failure at some expected block is the failure of the scenario. */
  lemma {:induction false} ScenarioFails(schema: Schema, compare: Compare, loaded: Values, ebs: seq<ExpectedBlock>, k: int)
    requires 0 <= k <= |ebs| && ScenarioResults(schema, compare, loaded, ebs[..k]).Fail?
    ensures ScenarioResults(schema, compare, loaded, ebs) == ScenarioResults(schema, compare, loaded, ebs[..k])
  {
    if k < |ebs| {
      assert ebs[..|ebs| - 1][..k] == ebs[..k];
      ScenarioFails(schema, compare, loaded, ebs[..|ebs| - 1], k);
    } else {
      assert ebs[..k] == ebs;
    }
  }
}
