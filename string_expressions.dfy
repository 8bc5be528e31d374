/**
 * Expressions that render register bytes as text: bitset (BitsetStringList.kt),
 * enum (EnumString.kt), eui48 (Eui48String.kt) and ipv6addr (IPv6AddrString.kt).
 *
 * The register expression each of them reads is a parameter: its bytes, or
 * None where it returns null, and the register count it reports.
 */
module StringExpressions {
  import opened Wrappers
  import opened Text
  import opened ByteConversions
  import opened NotImplementedPatterns
  import RegisterExpressions

  /** The fatal problems these expressions report. */
  datatype Problem = NoRegisters | TooManyRegisters | WrongRegisterCount | PatternSizeMismatch

  /** The problems of bitset and enum: 1 to 4 registers (a long's worth), and well-sized patterns. */
  function KeyedProblems(returnedRegisters: int, notImplemented: NotImplemented): (r: seq<Problem>)
    ensures NoRegisters in r <==> returnedRegisters <= 0
    ensures TooManyRegisters in r <==> returnedRegisters > LONG_BYTES / 2
    ensures PatternSizeMismatch in r <==> HasProblem(notImplemented)
    ensures WrongRegisterCount !in r
    ensures r == [] <==> 1 <= returnedRegisters <= 4 && !HasProblem(notImplemented)
  {
    (if returnedRegisters > 0 then [] else [NoRegisters])
    + (if returnedRegisters <= LONG_BYTES / 2 then [] else [TooManyRegisters])
    + (if HasProblem(notImplemented) then [PatternSizeMismatch] else [])
  }

  /** The problems of eui48 (3 or 4 registers) and ipv6addr (8 registers). */
  function CountProblems(returnedRegisters: int, allowed: set<int>, notImplemented: NotImplemented): (r: seq<Problem>)
    ensures WrongRegisterCount in r <==> returnedRegisters !in allowed
    ensures PatternSizeMismatch in r <==> HasProblem(notImplemented)
    ensures r == [] <==> returnedRegisters in allowed && !HasProblem(notImplemented)
  {
    (if returnedRegisters in allowed then [] else [WrongRegisterCount])
    + (if HasProblem(notImplemented) then [PatternSizeMismatch] else [])
  }

  // ---------------------------------------------------------------------------
  // bitset

  /** Bit i of the value: bit i % 8 of the byte i / 8 places from the end (bit 0 is the lowest bit of the last register). */
  predicate BitOf(bytes: seq<byte>, i: nat)
    requires i < 8 * |bytes|
  {
    (bytes[|bytes| - 1 - i / 8] / RegisterExpressions.Pow2(i % 8)) % 2 == 1
  }

  /** The numbers of the set bits from `from` on, ascending. */
  function SetBits(bytes: seq<byte>, from: nat): (r: seq<nat>)
    ensures forall k :: 0 <= k < |r| ==> from <= r[k] < 8 * |bytes|
    decreases 8 * |bytes| - from
  {
    if from >= 8 * |bytes| then []
    else (if BitOf(bytes, from) then [from] else []) + SetBits(bytes, from + 1)
  }

  /** The name of a set bit: its mapping, or "Bit i". */
  function BitLabel(i: nat, mappings: map<int, string>): string
  {
    if i in mappings then mappings[i] else "Bit " + Decimal(i)
  }

  function Labels(bits: seq<nat>, mappings: map<int, string>): (r: seq<string>)
    ensures |r| == |bits|
  {
    if bits == [] then [] else [BitLabel(bits[0], mappings)] + Labels(bits[1..], mappings)
  }

  /** The set-bit list is ascending and holds exactly the set bits at or above `from`. */
  lemma SetBitsMeaning(bytes: seq<byte>, from: nat)
    ensures forall j, k :: 0 <= j < k < |SetBits(bytes, from)| ==> SetBits(bytes, from)[j] < SetBits(bytes, from)[k]
    ensures forall i: nat :: i in SetBits(bytes, from) <==> from <= i < 8 * |bytes| && BitOf(bytes, i)
  {
    SetBitsAscending(bytes, from);
    SetBitsMembers(bytes, from);
  }

  predicate Ascending(s: seq<nat>)
  {
    forall j, k :: 0 <= j < k < |s| ==> s[j] < s[k]
  }

  /** A number below every element of an ascending list stays ascending in front of it. */
  lemma ConsAscending(x: nat, rest: seq<nat>)
    requires Ascending(rest) && forall k :: 0 <= k < |rest| ==> x < rest[k]
    ensures Ascending([x] + rest)
  {
    var r := [x] + rest;
    forall j, k | 0 <= j < k < |r|
      ensures r[j] < r[k]
    {
      assert r[k] == rest[k - 1];
      if j > 0 {
        assert r[j] == rest[j - 1];
      }
    }
  }

  lemma {:induction false} SetBitsAscending(bytes: seq<byte>, from: nat)
    ensures Ascending(SetBits(bytes, from))
    decreases 8 * |bytes| - from
  {
    if from < 8 * |bytes| {
      SetBitsAscending(bytes, from + 1);
      var rest := SetBits(bytes, from + 1);
      if BitOf(bytes, from) {
        ConsAscending(from, rest);
        assert SetBits(bytes, from) == [from] + rest;
      } else {
        assert SetBits(bytes, from) == [] + rest;
      }
    }
  }

  lemma SetBitsMembers(bytes: seq<byte>, from: nat)
    ensures forall i: nat :: i in SetBits(bytes, from) <==> from <= i < 8 * |bytes| && BitOf(bytes, i)
  {
    forall i: nat
      ensures i in SetBits(bytes, from) <==> from <= i < 8 * |bytes| && BitOf(bytes, i)
    {
      SetBitsMember(bytes, from, i);
    }
  }

  lemma {:induction false} SetBitsMember(bytes: seq<byte>, from: nat, i: nat)
    ensures i in SetBits(bytes, from) <==> from <= i < 8 * |bytes| && BitOf(bytes, i)
    decreases 8 * |bytes| - from
  {
    if from < 8 * |bytes| {
      SetBitsMember(bytes, from + 1, i);
      var rest := SetBits(bytes, from + 1);
      var head: seq<nat> := if BitOf(bytes, from) then [from] else [];
      assert SetBits(bytes, from) == head + rest;
      assert i in head + rest <==> i in head || i in rest;
    }
  }

  /** getValueAsStringList as a value: null for missing, empty or not implemented bytes. */
  function Bitset(input: Option<seq<byte>>, notImplemented: NotImplemented, mappings: map<int, string>): Option<seq<string>>
  {
    match input
    case None => None
    case Some(bytes) =>
      if |bytes| == 0 || IsNotImplemented(notImplemented, bytes) then None
      else Some(Labels(SetBits(bytes, 0), mappings))
  }

  /**
   * The bitset names each set bit once, lowest bit first: entry k is the label
   * of the k-th set bit, and a bit is named exactly when it is set.
   */
  lemma BitsetMeaning(bytes: seq<byte>, notImplemented: NotImplemented, mappings: map<int, string>)
    requires |bytes| > 0 && !IsNotImplemented(notImplemented, bytes)
    ensures Bitset(Some(bytes), notImplemented, mappings).Some?
    ensures var bits := SetBits(bytes, 0);
      Bitset(Some(bytes), notImplemented, mappings).value == Labels(bits, mappings)
      && (forall j, k :: 0 <= j < k < |bits| ==> bits[j] < bits[k])
      && (forall i: nat :: i in bits <==> i < 8 * |bytes| && BitOf(bytes, i))
  {
    SetBitsMeaning(bytes, 0);
  }

  /**
   * getValueAsStringList: the bytes are reversed in place, so that bit i of
   * the BitSet over them is bit i counted from the end, then every set bit is
   * named in order.
   */
  method GetValueAsStringList(input: Option<seq<byte>>, notImplemented: NotImplemented, mappings: map<int, string>)
    returns (r: Option<seq<string>>)
    ensures r == Bitset(input, notImplemented, mappings)
  {
    if input.None? || |input.value| == 0 || IsNotImplemented(notImplemented, input.value) {
      return None;
    }
    var bytes := input.value;
    var buffer := new byte[|bytes|](i requires 0 <= i < |bytes| => bytes[i]);
    assert buffer[..] == bytes;
    Reverse(buffer);
    var size := 8 * buffer.Length;
    var result: seq<string> := [];
    ghost var goal := Labels(SetBits(bytes, 0), mappings);
    var i := 0;
    while i < size
      invariant 0 <= i <= size
      invariant buffer[..] == Reversed(bytes)
      invariant goal == result + Labels(SetBits(bytes, i), mappings)
    {
      var isSet := (buffer[i / 8] / RegisterExpressions.Pow2(i % 8)) % 2 == 1;
      ReversedBit(buffer[..], bytes, i);
      WalkStep(goal, result, bytes, i, mappings);
      if isSet {
        result := result + [BitLabel(i, mappings)];
      }
      i := i + 1;
    }
    assert SetBits(bytes, i) == [];
    assert result + [] == result;
    return Some(result);
  }

  /** Bit i of the BitSet over the reversed bytes is bit i counted from the end of the bytes. */
  lemma ReversedBit(reversed: seq<byte>, bytes: seq<byte>, i: nat)
    requires reversed == Reversed(bytes) && i < 8 * |bytes|
    ensures (reversed[i / 8] / RegisterExpressions.Pow2(i % 8)) % 2 == 1 <==> BitOf(bytes, i)
  {
    assert reversed[i / 8] == bytes[|bytes| - 1 - i / 8];
  }

  /** The bit walk keeps the labels found so far followed by those still to find. */
  lemma WalkStep(goal: seq<string>, result: seq<string>, bytes: seq<byte>, i: nat, mappings: map<int, string>)
    requires i < 8 * |bytes| && goal == result + Labels(SetBits(bytes, i), mappings)
    ensures goal == (if BitOf(bytes, i) then result + [BitLabel(i, mappings)] else result) + Labels(SetBits(bytes, i + 1), mappings)
  {
    LabelsStep(bytes, i, mappings);
    var rest := Labels(SetBits(bytes, i + 1), mappings);
    if BitOf(bytes, i) {
      assert result + ([BitLabel(i, mappings)] + rest) == (result + [BitLabel(i, mappings)]) + rest;
    }
  }

  /** One step of the bit walk: the label of bit i, if it is set, then those of the bits above it. */
  lemma LabelsStep(bytes: seq<byte>, i: nat, mappings: map<int, string>)
    requires i < 8 * |bytes|
    ensures BitOf(bytes, i) ==> Labels(SetBits(bytes, i), mappings) == [BitLabel(i, mappings)] + Labels(SetBits(bytes, i + 1), mappings)
    ensures !BitOf(bytes, i) ==> Labels(SetBits(bytes, i), mappings) == Labels(SetBits(bytes, i + 1), mappings)
  {
    var rest := SetBits(bytes, i + 1);
    var b := BitOf(bytes, i);
    assert SetBits(bytes, i) == (if b then [i] else []) + rest;
    if b {
      assert ([i] + rest)[1..] == rest;
    } else {
      assert [] + rest == rest;
    }
  }

  /** A single register 0x0005 has bits 0 and 2 set. */
  lemma BitsetExample(b: seq<byte>)
    requires b == [0x00, 0x05]
    ensures Bitset(Some(b), NotImplemented(1, []), map[2 := "Two"]) == Some(["Bit 0", "Two"])
  {
    ExampleBits(b);
    NoPatternsImplemented(NotImplemented(1, []), b);
    var m := map[2 := "Two"];
    assert Decimal(0) == "0";
    assert BitLabel(0, m) == "Bit 0";
    var bits: seq<nat> := [0, 2];
    assert bits[1..] == [2];
    assert Labels(bits, m) == ["Bit 0"] + Labels([2], m);
    assert Labels([2], m) == ["Two"];
    assert SetBits(b, 0) == bits;
    assert b != [] && !IsNotImplemented(NotImplemented(1, []), b);
    assert Bitset(Some(b), NotImplemented(1, []), m) == Some(Labels(bits, m));
    assert ["Bit 0"] + ["Two"] == ["Bit 0", "Two"];
  }

  lemma ExampleBits(b: seq<byte>)
    requires b == [0x00, 0x05]
    ensures SetBits(b, 0) == [0, 2]
  {
    ExampleHighBits(b);
    ExampleMiddleBits(b);
    SetBitsZero(b, 3);
    ExampleLowBits(b);
    assert SetBits(b, 2) == [2] + [];
    assert SetBits(b, 1) == [] + [2];
    assert SetBits(b, 0) == [0] + [2];
  }

  /** The first register of the example is zero. */
  lemma ExampleHighBits(b: seq<byte>)
    requires b == [0x00, 0x05]
    ensures forall i | 8 <= i < 16 :: !BitOf(b, i)
  {
    forall i | 8 <= i < 16
      ensures !BitOf(b, i)
    {
      var p := RegisterExpressions.Pow2(i % 8);
      assert b[|b| - 1 - i / 8] == 0;
      assert 0 / p == 0;
    }
  }

  /** 5 has no bit at or above bit 3. */
  lemma ExampleMiddleBits(b: seq<byte>)
    requires b == [0x00, 0x05]
    ensures forall i | 3 <= i < 8 :: !BitOf(b, i)
  {
    forall i | 3 <= i < 8
      ensures !BitOf(b, i)
    {
      PowTwoAtLeast(i);
      assert i % 8 == i && i / 8 == 0;
      SmallQuotient(5, RegisterExpressions.Pow2(i));
    }
  }

  lemma SmallQuotient(x: nat, p: nat)
    requires x < p
    ensures x / p == 0
  {
  }

  /** 5 is bits 0 and 2. */
  lemma ExampleLowBits(b: seq<byte>)
    requires b == [0x00, 0x05]
    ensures BitOf(b, 2) && !BitOf(b, 1) && BitOf(b, 0)
  {
    assert RegisterExpressions.Pow2(0) == 1;
    assert RegisterExpressions.Pow2(1) == 2;
    assert RegisterExpressions.Pow2(2) == 4;
    assert b[|b| - 1 - 0 / 8] == 5;
  }

  lemma PowTwoAtLeast(n: nat)
    requires n >= 3
    ensures RegisterExpressions.Pow2(n) >= 8
  {
    if n > 3 {
      PowTwoAtLeast(n - 1);
    }
  }

  /** No set bit from `from` on gives no more names. */
  lemma {:induction false} SetBitsZero(bytes: seq<byte>, from: nat)
    requires forall i :: from <= i < 8 * |bytes| ==> !BitOf(bytes, i)
    ensures SetBits(bytes, from) == []
    decreases 8 * |bytes| - from
  {
    if from < 8 * |bytes| {
      SetBitsZero(bytes, from + 1);
    }
  }

  // ---------------------------------------------------------------------------
  // enum

  /** The enum key: the bytes as a signed short, int or long; no key for other sizes. */
  function EnumKey(bytes: seq<byte>): (r: Option<int>)
    ensures r.Some? <==> |bytes| == SHORT_BYTES || |bytes| == INTEGER_BYTES || |bytes| == LONG_BYTES
  {
    if |bytes| == SHORT_BYTES || |bytes| == INTEGER_BYTES || |bytes| == LONG_BYTES
    then Some(Signed(FromBytesBE(bytes), |bytes|))
    else None
  }

  /** A key is the signed value whose big-endian bytes are the input, so equal keys of one size mean equal bytes. */
  lemma EnumKeyRoundTrip(a: seq<byte>, b: seq<byte>)
    requires EnumKey(a).Some? && |a| == |b|
    ensures -(Pow256(|a|) / 2) <= EnumKey(a).value < Pow256(|a|) / 2
    ensures ToBytesBE(EnumKey(a).value, |a|) == a
    ensures EnumKey(a) == EnumKey(b) ==> a == b
  {
    UnpackPack(a);
    UnpackPack(b);
  }

  /** getValue of enum: the mapped text, or "No mapping for value " and the hex bytes. */
  function Enum(input: Option<seq<byte>>, notImplemented: NotImplemented, mappings: map<int, string>): (r: Option<string>)
    ensures r.None? <==> input.None? || IsNotImplemented(notImplemented, input.value)
    ensures r.Some? ==>
      var key := EnumKey(input.value);
      if key.Some? && key.value in mappings then r.value == mappings[key.value]
      else r.value == "No mapping for value " + BytesToHexString(input.value)
  {
    match input
    case None => None
    case Some(bytes) =>
      if IsNotImplemented(notImplemented, bytes) then None
      else
        var key := EnumKey(bytes);
        if key.Some? && key.value in mappings then Some(mappings[key.value])
        else Some("No mapping for value " + BytesToHexString(bytes))
  }

  /** 0xFFFF is the short -1, so it finds the mapping of -1. */
  lemma EnumExample()
    ensures Enum(Some([0xFF, 0xFF]), NotImplemented(1, []), map[-1 := "Minus one"]) == Some("Minus one")
  {
    NoPatternsImplemented(NotImplemented(1, []), [0xFF, 0xFF]);
    var s: seq<byte> := [0xFF, 0xFF];
    assert s[..1] == [0xFF];
    assert FromBytesBE(s) == 0xFFFF;
    assert Pow256(2) == 0x10000;
  }

  // ---------------------------------------------------------------------------
  // eui48

  const EUI48_BYTES: nat := 6

  /** getValue of eui48: the last six bytes as "AA:BB:CC:DD:EE:FF", null when either byte run is not implemented. */
  function Eui48(input: Option<seq<byte>>, notImplemented: NotImplemented): (r: Option<string>)
    ensures input.None? ==> r.None?
    ensures input.Some? && IsNotImplemented(notImplemented, input.value) ==> r.None?
  {
    match input
    case None => None
    case Some(bytes) =>
      if IsNotImplemented(notImplemented, bytes) then None
      else
        var tail := if |bytes| > EUI48_BYTES then bytes[|bytes| - EUI48_BYTES..] else bytes;
        if IsNotImplemented(notImplemented, tail) then None
        else Some(BytesToSeparatedHexString(tail, ":"))
  }

  /**
   * From six bytes on, the text is six upper-case hex pairs joined by ':',
   * pair i showing byte i of the last six.
   */
  lemma Eui48Layout(bytes: seq<byte>, notImplemented: NotImplemented)
    requires |bytes| >= EUI48_BYTES
    requires !IsNotImplemented(notImplemented, bytes) && !IsNotImplemented(notImplemented, bytes[|bytes| - EUI48_BYTES..])
    ensures Eui48(Some(bytes), notImplemented).Some?
    ensures var text := Eui48(Some(bytes), notImplemented).value;
      |text| == 17
      && (forall i :: 0 <= i < 6 ==> text[3 * i..3 * i + 2] == HexByte(bytes[|bytes| - 6 + i]))
      && (forall i :: 0 <= i < 5 ==> text[3 * i + 2] == ':')
  {
    var tail := bytes[|bytes| - EUI48_BYTES..];
    assert |bytes| == EUI48_BYTES ==> tail == bytes;
    var text := JoinedHex(tail, ":");
    assert Eui48(Some(bytes), notImplemented) == Some(text);
    JoinedHexLayout(tail, ":");
    forall i | 0 <= i < 6
      ensures text[3 * i..3 * i + 2] == HexByte(bytes[|bytes| - 6 + i])
    {
      assert tail[i] == bytes[|bytes| - 6 + i];
    }
  }

  // ---------------------------------------------------------------------------
  // ipv6addr

  const IPV6_REGISTERS: nat := 8

  /** getValue of ipv6addr: the registers as "ABCD:EF01:...", null when missing or not implemented. */
  function IPv6(input: Option<seq<byte>>, notImplemented: NotImplemented): (r: Result<Option<string>>)
    ensures input.None? ==> r == Ok(None)
    ensures input.Some? && IsNotImplemented(notImplemented, input.value) ==> r == Ok(None)
    ensures input.Some? && !IsNotImplemented(notImplemented, input.value) ==>
      (r.Fail? <==> |input.value| % 2 == 1) && (r.Fail? ==> r.failure == IndexOutOfBounds)
  {
    match input
    case None => Ok(None)
    case Some(bytes) =>
      if IsNotImplemented(notImplemented, bytes) then Ok(None)
      else if |bytes| % 2 == 1 then Fail(IndexOutOfBounds)
      else Ok(Some(BytesToSeparatedTwoByteHexString(bytes, ":")))
  }

  /** Eight registers give eight groups of four upper-case hex digits joined by ':'. */
  lemma IPv6Layout(bytes: seq<byte>, notImplemented: NotImplemented)
    requires |bytes| == 2 * IPV6_REGISTERS && !IsNotImplemented(notImplemented, bytes)
    ensures IPv6(Some(bytes), notImplemented).Ok? && IPv6(Some(bytes), notImplemented).value.Some?
    ensures var text := IPv6(Some(bytes), notImplemented).value.value;
      |text| == 39
      && (forall i :: 0 <= i < 8 ==> text[5 * i..5 * i + 4] == HexByte(bytes[2 * i]) + HexByte(bytes[2 * i + 1]))
      && (forall i :: 0 <= i < 7 ==> text[5 * i + 4] == ':')
  {
    TwoByteHexLayout(bytes, ":");
  }

  /** The hex rendering shows every byte, so two different byte runs never render alike. */
  lemma HexByteInjective(a: byte, b: byte)
    requires HexByte(a) == HexByte(b)
    ensures a == b
  {
    assert HexByte(a)[0] == HexByte(b)[0] && HexByte(a)[1] == HexByte(b)[1];
    HexDigitInjective(a / 16, b / 16);
    HexDigitInjective(a % 16, b % 16);
  }

  lemma HexDigitInjective(x: int, y: int)
    requires 0 <= x < 16 && 0 <= y < 16 && HexDigit(x) == HexDigit(y)
    ensures x == y
  {
  }
}
