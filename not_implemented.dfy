/**
 * The "not implemented" markers of an expression (NotImplemented.kt): byte
 * patterns, given as hex strings in the schema, that a device returns for a
 * register it does not support. A value whose bytes equal one of them reads
 * as absent.
 */
module NotImplementedPatterns {
  import opened Wrappers
  import opened ByteConversions

  /** The register count the expression returns and the parsed patterns. */
  datatype NotImplemented = NotImplemented(expectedRegisters: int, patterns: seq<seq<byte>>)

  /** Every pattern is a whole number of registers (the constructor's display loop needs it). */
  predicate Valid(n: NotImplemented)
  {
    forall i :: 0 <= i < |n.patterns| ==> |n.patterns[i]| % 2 == 0
  }

  /** hexStringToBytes of every string, in order; the first failure is the result. */
  function ParsePatterns(strings: seq<string>): (r: Result<seq<seq<byte>>>)
    ensures r.Ok? ==> |r.value| == |strings|
  {
    if |strings| == 0 then Ok([])
    else match HexToBytes(strings[0])
      case Fail(f) => Fail(f)
      case Ok(first) =>
        match ParsePatterns(strings[1..])
        case Fail(f) => Fail(f)
        case Ok(rest) => Ok([first] + rest)
  }

  /** The patterns parse exactly when every string does, each to its own pattern. */
  lemma {:induction false} ParsePatternsMeaning(strings: seq<string>)
    ensures ParsePatterns(strings).Ok? <==> forall i :: 0 <= i < |strings| ==> HexToBytes(strings[i]).Ok?
    ensures ParsePatterns(strings).Ok? ==>
      forall i :: 0 <= i < |strings| ==> HexToBytes(strings[i]) == Ok(ParsePatterns(strings).value[i])
  {
    if |strings| > 0 {
      var tail := strings[1..];
      ParsePatternsMeaning(tail);
      var h := HexToBytes(strings[0]);
      if h.Fail? {
        assert ParsePatterns(strings) == Fail(h.failure);
      } else {
        var t := ParsePatterns(tail);
        if t.Fail? {
          assert ParsePatterns(strings) == Fail(t.failure);
          var k :| 0 <= k < |tail| && HexToBytes(tail[k]).Fail?;
          assert strings[k + 1] == tail[k];
        } else {
          var r := [h.value] + t.value;
          assert ParsePatterns(strings) == Ok(r);
          forall i | 0 <= i < |strings|
            ensures HexToBytes(strings[i]) == Ok(r[i])
          {
            if i > 0 {
              assert strings[i] == tail[i - 1];
              assert r[i] == t.value[i - 1];
            }
          }
        }
      }
    }
  }

  /**
   * The constructor: the strings are parsed, and the display loop then reads
   * each pattern two bytes at a time, which runs past the end of an odd one.
   */
  function NewNotImplemented(expectedRegisters: int, strings: seq<string>): (r: Result<NotImplemented>)
    ensures r.Ok? <==> ParsePatterns(strings).Ok? && forall i :: 0 <= i < |strings| ==> |ParsePatterns(strings).value[i]| % 2 == 0
    ensures ParsePatterns(strings).Ok? && r.Fail? ==> r.failure == IndexOutOfBounds
    ensures r.Ok? ==> Valid(r.value) && r.value.expectedRegisters == expectedRegisters && r.value.patterns == ParsePatterns(strings).value
  {
    match ParsePatterns(strings)
    case Fail(f) => Fail(f)
    case Ok(patterns) =>
      if AllEven(patterns) then Ok(NotImplemented(expectedRegisters, patterns)) else Fail(IndexOutOfBounds)
  }

  function AllEven(patterns: seq<seq<byte>>): (r: bool)
    ensures r <==> forall i :: 0 <= i < |patterns| ==> |patterns[i]| % 2 == 0
  {
    if |patterns| == 0 then true
    else
      assert forall i :: 1 <= i < |patterns| ==> patterns[i] == patterns[1..][i - 1];
      |patterns[0]| % 2 == 0 && AllEven(patterns[1..])
  }

  /** allAreOfSize: every pattern has exactly `size` bytes. */
  function AllAreOfSize(patterns: seq<seq<byte>>, size: int): (r: bool)
    ensures r <==> forall p :: p in patterns ==> |p| == size
  {
    if |patterns| == 0 then true
    else
      assert forall p :: p in patterns <==> p == patterns[0] || p in patterns[1..];
      |patterns[0]| == size && AllAreOfSize(patterns[1..], size)
  }

  /** problems: one fatal problem when a pattern is not exactly the expression's registers long. */
  function HasProblem(n: NotImplemented): (r: bool)
    ensures r <==> exists p :: p in n.patterns && |p| != 2 * n.expectedRegisters
  {
    !AllAreOfSize(n.patterns, 2 * n.expectedRegisters)
  }

  /** arrayOfByteArraysContains: some pattern has exactly these bytes. */
  function Contains(patterns: seq<seq<byte>>, bytes: seq<byte>): (r: bool)
    ensures r <==> bytes in patterns
  {
    if |patterns| == 0 then false
    else
      assert bytes in patterns <==> bytes == patterns[0] || bytes in patterns[1..];
      patterns[0] == bytes || Contains(patterns[1..], bytes)
  }

  /** isNotImplemented */
  predicate IsNotImplemented(n: NotImplemented, bytes: seq<byte>)
  {
    Contains(n.patterns, bytes)
  }

  /** Without patterns every value is implemented. */
  lemma NoPatternsImplemented(n: NotImplemented, bytes: seq<byte>)
    requires n.patterns == []
    ensures !IsNotImplemented(n, bytes)
    ensures !HasProblem(n)
  {
    assert bytes !in n.patterns;
  }

  /** "0xABCD 0xEF01": how one pattern is shown. */
  function Display(pattern: seq<byte>): string
    requires |pattern| % 2 == 0
  {
    "0x" + BytesToSeparatedTwoByteHexString(pattern, " 0x")
  }

  function JoinDisplays(patterns: seq<seq<byte>>): (r: string)
    requires forall i :: 0 <= i < |patterns| ==> |patterns[i]| % 2 == 0
    ensures |patterns| > 0 ==> |r| >= 2 && r[..2] == "0x"
  {
    if |patterns| == 0 then ""
    else if |patterns| == 1 then Display(patterns[0])
    else Display(patterns[0]) + " ; " + JoinDisplays(patterns[1..])
  }

  /** toString: nothing without patterns, otherwise " ; " in front of every shown pattern. */
  function ToString(n: NotImplemented): (r: string)
    requires Valid(n)
    ensures r == "" <==> n.patterns == []
    ensures n.patterns != [] ==> |r| >= 5 && r[..3] == " ; " && r[3..5] == "0x"
  {
    if |n.patterns| == 0 then ""
    else " ; " + JoinDisplays(n.patterns)
  }
}
