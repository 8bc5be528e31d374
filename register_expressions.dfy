/**
 * Expressions that transform or widen raw register bytes: swapbytes,
 * swapendian (SwapBytes.kt, SwapEndian.kt) and the unsigned integers of 16
 * and 64 bits (IntegerUnsigned16.kt, IntegerUnsigned64.kt).
 *
 * The sub-expression these read from is a parameter: its bytes, or None
 * where it returns null.
 */
module RegisterExpressions {
  import opened Wrappers
  import opened ByteConversions
  import opened NotImplementedPatterns

  /** The problems check of both swaps: the operand must return exactly one register. */
  predicate NeedsExactlyOneRegister(returnedRegisters: int)
  {
    returnedRegisters == 1
  }

  // ---------------------------------------------------------------------------
  // swapbytes

  /** getByteArray of swapbytes: the first two input bytes, exchanged. */
  function SwapBytes(input: Option<seq<byte>>): (r: Result<Option<seq<byte>>>)
    ensures input.None? ==> r == Ok(None)
    ensures input.Some? && |input.value| < 2 ==> r == Fail(IndexOutOfBounds)
    ensures input.Some? && |input.value| >= 2 ==>
      r.Ok? && r.value.Some? && r.value.value == [input.value[1], input.value[0]]
  {
    match input
    case None => Ok(None)
    case Some(bytes) =>
      if |bytes| < 2 then Fail(IndexOutOfBounds) else Ok(Some([bytes[1], bytes[0]]))
  }

  /** Swapping the bytes of a register twice gives the register back; 0xABCD becomes 0xCDAB. */
  lemma SwapBytesTwice(bytes: seq<byte>)
    requires |bytes| == 2
    ensures SwapBytes(Some(bytes)).Ok? && SwapBytes(SwapBytes(Some(bytes)).value) == Ok(Some(bytes))
    ensures SwapBytes(Some([0xAB, 0xCD])) == Ok(Some([0xCD, 0xAB]))
  {
    assert [bytes[0], bytes[1]] == bytes;
  }

  // ---------------------------------------------------------------------------
  // swapendian: reverseBits

  const SHORT_RANGE := 0x10000

  /** `toShort()`: the low 16 bits, read as a two's-complement number. */
  function ToShort(x: int): (r: short)
    ensures -0x8000 <= x < 0x8000 ==> r == x
  {
    x - SHORT_RANGE * ((x + 0x8000) / SHORT_RANGE)
  }

  /** toShort only sees the value modulo 2^16. */
  lemma ToShortShift(x: int, k: int)
    ensures ToShort(x + SHORT_RANGE * k) == ToShort(x)
  {
    var z := x + 0x8000;
    assert (z + SHORT_RANGE * k) / SHORT_RANGE == z / SHORT_RANGE + k;
  }

  /** Narrowing both operands of an addition first does not change the narrowed sum. */
  lemma ToShortAdd(a: int, b: int)
    ensures ToShort(ToShort(a) + ToShort(b)) == ToShort(a + b)
  {
    var ka := (a + 0x8000) / SHORT_RANGE;
    var kb := (b + 0x8000) / SHORT_RANGE;
    assert ToShort(a) + ToShort(b) == a + b + SHORT_RANGE * (-ka - kb);
    ToShortShift(a + b, -ka - kb);
  }

  function Pow2(n: nat): (r: nat)
    ensures r >= 1
  {
    if n == 0 then 1 else 2 * Pow2(n - 1)
  }

  /** The n low bits of v, least significant first (`shr` on a negative value floors). */
  function Bits(v: int, n: nat): (r: seq<bool>)
    ensures |r| == n
    decreases n
  {
    if n == 0 then [] else [v % 2 == 1] + Bits(v / 2, n - 1)
  }

  /** The number spelt by bits, least significant first. */
  function Val(s: seq<bool>): (r: nat)
    ensures r < Pow2(|s|)
  {
    if s == [] then 0 else (if s[0] then 1 else 0) + 2 * Val(s[1..])
  }

  /** What reverseBits accumulates: `(v and 1) shl (n-1)`, then the rest of v shifted right. */
  function RevBits(v: int, n: nat): int
    decreases n
  {
    if n == 0 then 0 else (if v % 2 == 1 then Pow2(n - 1) else 0) + RevBits(v / 2, n - 1)
  }

  /** reverseBits as a value: the 16 bits of the short in the opposite order. */
  function ReverseBitsOf(value: short): short
  {
    ToShort(RevBits(value, 16))
  }

  /** Adding a multiple of 2^n does not change the n low bits. */
  lemma {:induction false} BitsPeriodic(v: int, k: int, n: nat)
    ensures Bits(v + k * Pow2(n), n) == Bits(v, n)
    decreases n
  {
    if n > 0 {
      var m := k * Pow2(n - 1);
      assert k * Pow2(n) == 2 * m;
      assert (v + 2 * m) / 2 == v / 2 + m;
      assert (v + 2 * m) % 2 == v % 2;
      BitsPeriodic(v / 2, k, n - 1);
    }
  }

  /** A number below 2^n is spelt by its n low bits. */
  lemma {:induction false} ValBitsSmall(u: int, n: nat)
    requires 0 <= u < Pow2(n)
    ensures Val(Bits(u, n)) == u
    decreases n
  {
    if n > 0 {
      ValBitsSmall(u / 2, n - 1);
      assert Bits(u, n)[1..] == Bits(u / 2, n - 1);
    }
  }

  /** The bits of a number spelt by bits are those bits. */
  lemma {:induction false} BitsVal(s: seq<bool>)
    ensures Bits(Val(s), |s|) == s
  {
    if s != [] {
      BitsVal(s[1..]);
      var v := Val(s);
      assert v / 2 == Val(s[1..]);
      assert (v % 2 == 1) == s[0];
    }
  }

  /** A bit more at the top adds its weight. */
  lemma {:induction false} ValAppend(s: seq<bool>, b: bool)
    ensures Val(s + [b]) == Val(s) + (if b then Pow2(|s|) else 0)
  {
    if s != [] {
      ValAppend(s[1..], b);
      assert (s + [b])[1..] == s[1..] + [b];
    }
  }

  /** The accumulated sum is the reversed bit sequence read as a number. */
  lemma {:induction false} RevBitsVal(v: int, n: nat)
    ensures RevBits(v, n) == Val(Reversed(Bits(v, n)))
    decreases n
  {
    if n > 0 {
      RevBitsVal(v / 2, n - 1);
      var s := Bits(v, n);
      assert s[1..] == Bits(v / 2, n - 1);
      assert Reversed(s) == Reversed(s[1..]) + [s[0]];
      ValAppend(Reversed(s[1..]), s[0]);
    }
  }

  lemma Pow2Sixteen()
    ensures Pow2(16) == SHORT_RANGE
  {
    assert Pow2(4) == 16;
    assert Pow2(8) == 256 by {
      assert Pow2(8) == 16 * Pow2(4);
    }
    assert Pow2(12) == 16 * Pow2(8);
    assert Pow2(16) == 16 * Pow2(12);
  }

  /** The 16 bits of a short, read back unsigned and narrowed, give the short. */
  lemma ShortBits(value: short)
    ensures ToShort(Val(Bits(value, 16))) == value
  {
    Pow2Sixteen();
    if value >= 0 {
      ValBitsSmall(value, 16);
    } else {
      ValBitsNegative(value, 16);
      ToShortShift(value, 1);
    }
  }

  /** A negative number above -2^n is spelt by its n low bits as itself plus 2^n. */
  lemma ValBitsNegative(v: int, n: nat)
    requires -(Pow2(n) as int) <= v < 0
    ensures Val(Bits(v, n)) == v + Pow2(n)
  {
    BitsPeriodic(v, 1, n);
    ValBitsSmall(v + Pow2(n), n);
  }

  /** Reversing the bits of a register twice gives the register back. */
  lemma ReverseBitsTwice(value: short)
    ensures ReverseBitsOf(ReverseBitsOf(value)) == value
  {
    var s := Bits(value, 16);
    var x := ReverseBitsOf(value);
    ReverseBitsBits(value);
    RevBitsVal(x, 16);
    ReversedTwice(s);
    ShortBits(value);
  }

  /** The 16 bits of the reversed register are the register's bits in the opposite order. */
  lemma ReverseBitsBits(value: short)
    ensures Bits(ReverseBitsOf(value), 16) == Reversed(Bits(value, 16))
  {
    Pow2Sixteen();
    var s := Bits(value, 16);
    var once := RevBits(value, 16);
    RevBitsVal(value, 16);
    var x := ReverseBitsOf(value);
    var k := if once < 0x8000 then 0 else -1;
    ToShortShift(once, k);
    assert x == once + k * SHORT_RANGE;
    BitsPeriodic(once, k, 16);
    BitsVal(Reversed(s));
  }


  /** 0xABCD reversed bit by bit is 0xB3D5. */
  lemma ReverseBitsExample()
    ensures ReverseBitsOf(-21555) == -19499
  {
    assert RevBits(-1, 1) == 1;
    assert RevBits(-2, 2) == 1;
    assert RevBits(-3, 3) == 5;
    assert RevBits(-6, 4) == 5;
    assert RevBits(-11, 5) == 21;
    assert RevBits(-22, 6) == 21;
    assert RevBits(-43, 7) == 85;
    assert RevBits(-85, 8) == 213;
    assert RevBits(-169, 9) == 469;
    assert RevBits(-337, 10) == 981;
    assert RevBits(-674, 11) == 981;
    assert RevBits(-1348, 12) == 981;
    assert RevBits(-2695, 13) == 5077;
    assert RevBits(-5389, 14) == 13269;
    assert RevBits(-10778, 15) == 13269;
    assert RevBits(-21555, 16) == 46037;
  }

  /**
   * reverseBits: sixteen steps from the top position down, each adding the
   * lowest bit of `number` at the position and shifting `number` right.
   */
  method ReverseBits(value: short) returns (reverse: short)
    ensures reverse == ReverseBitsOf(value)
  {
    var number: short := value;
    reverse := 0;
    ghost var acc := 0;
    var position := 15;
    while position >= 0
      invariant -1 <= position <= 15
      invariant RevBits(value, 16) == acc + RevBits(number, position + 1)
      invariant reverse == ToShort(acc)
    {
      var shifted := if number % 2 == 1 then Pow2(position) else 0;
      ToShortAdd(acc, shifted);
      acc := acc + shifted;
      reverse := ToShort(reverse + ToShort(shifted));
      number := ToShort(number / 2);
      position := position - 1;
    }
  }

  /** getByteArray of swapendian: null stays null, and a two-byte register has its bits reversed. */
  function SwapEndian(input: Option<seq<byte>>): (r: Result<Option<seq<byte>>>)
    ensures input.None? ==> r == Ok(None)
    ensures input.Some? && |input.value| != 2 ==> r == Fail(IllegalArgument)
    ensures input.Some? && |input.value| == 2 ==> r.Ok? && r.value.Some? && |r.value.value| == 2
  {
    match input
    case None => Ok(None)
    case Some(bytes) =>
      if |bytes| != SHORT_BYTES then Fail(IllegalArgument)
      else Ok(Some(ToBytesBE(ReverseBitsOf(Signed(FromBytesBE(bytes), SHORT_BYTES)), SHORT_BYTES)))
  }

  /** getByteArray: bytesToShort, reverseBits, shortToBytes. */
  method SwapEndianBytes(input: Option<seq<byte>>) returns (r: Result<Option<seq<byte>>>)
    ensures r == SwapEndian(input)
  {
    if input.None? {
      return Ok(None);
    }
    var bytes := input.value;
    if |bytes| != SHORT_BYTES {
      return Fail(IllegalArgument);
    }
    var reversed := ReverseBits(Signed(FromBytesBE(bytes), SHORT_BYTES));
    return Ok(Some(ToBytesBE(reversed, SHORT_BYTES)));
  }

  /** swapendian applied twice to a register gives the register back. */
  lemma SwapEndianTwice(bytes: seq<byte>)
    requires |bytes| == 2
    ensures SwapEndian(Some(bytes)).Ok? && SwapEndian(SwapEndian(Some(bytes)).value) == Ok(Some(bytes))
  {
    var v := Signed(FromBytesBE(bytes), 2);
    UnpackPack(bytes);
    var x := ReverseBitsOf(v);
    PackUnpack(x, 2);
    ReverseBitsTwice(v);
  }

  // ---------------------------------------------------------------------------
  // Unsigned integers

  /** uint16: the two bytes zero-extended to a long, or null when missing or not implemented. */
  function Unsigned16(input: Option<seq<byte>>, notImplemented: NotImplemented): (r: Result<Option<int>>)
    ensures input.None? ==> r == Ok(None)
    ensures input.Some? && IsNotImplemented(notImplemented, input.value) ==> r == Ok(None)
    ensures input.Some? && !IsNotImplemented(notImplemented, input.value) && |input.value| < 2 ==> r == Fail(IndexOutOfBounds)
    ensures input.Some? && !IsNotImplemented(notImplemented, input.value) && |input.value| >= 2 ==>
      r == Ok(Some((input.value[0] as int) * 256 + input.value[1]))
  {
    match input
    case None => Ok(None)
    case Some(bytes) =>
      if IsNotImplemented(notImplemented, bytes) then Ok(None)
      else if |bytes| < 2 then Fail(IndexOutOfBounds)
      else
        var longBytes := [0, 0, 0, 0, 0, 0, bytes[0], bytes[1]];
        LongOfTwoBytes(bytes[0], bytes[1]);
        Ok(Some(Signed(FromBytesBE(longBytes), LONG_BYTES)))
  }

  /** Six zero bytes in front make a long that is the unsigned 16-bit value. */
  lemma LongOfTwoBytes(b0: byte, b1: byte)
    ensures Signed(FromBytesBE([0, 0, 0, 0, 0, 0, b0, b1]), LONG_BYTES) == (b0 as int) * 256 + b1
  {
    var s: seq<byte> := [0, 0, 0, 0, 0, 0, b0, b1];
    assert s[..7] == [0, 0, 0, 0, 0, 0, b0];
    assert s[..7][..6] == seq(6, _ => 0);
    ZerosValue(6);
    assert Pow256(8) == 0x1_0000_0000_0000_0000;
  }

  /** Zero bytes spell zero. */
  lemma {:induction false} ZerosValue(n: nat)
    ensures FromBytesBE(seq(n, _ => 0)) == 0
  {
    if n > 0 {
      ZerosValue(n - 1);
      assert seq(n, _ => 0)[..n - 1] == seq(n - 1, _ => 0);
    }
  }

  /** The uint16 value always lies in 0..65535 and spells the two bytes back. */
  lemma Unsigned16Range(bytes: seq<byte>, notImplemented: NotImplemented)
    requires |bytes| >= 2 && !IsNotImplemented(notImplemented, bytes)
    ensures Unsigned16(Some(bytes), notImplemented).Ok? && Unsigned16(Some(bytes), notImplemented).value.Some?
    ensures 0 <= Unsigned16(Some(bytes), notImplemented).value.value <= 0xFFFF
    ensures ToBytesBE(Unsigned16(Some(bytes), notImplemented).value.value, 2) == bytes[..2]
  {
    var v := (bytes[0] as int) * 256 + bytes[1];
    assert ToBytesBE(v, 2) == ToBytesBE(v / 256, 1) + [v % 256];
  }

  /**
   * uint64: the eight bytes as a long, null when missing, not implemented or
   * when the top bit is set (a long cannot hold it).
   */
  function Unsigned64(input: Option<seq<byte>>, notImplemented: NotImplemented): (r: Result<Option<int>>)
    ensures input.None? ==> r == Ok(None)
    ensures input.Some? && IsNotImplemented(notImplemented, input.value) ==> r == Ok(None)
    ensures input.Some? && !IsNotImplemented(notImplemented, input.value) && |input.value| == 0 ==> r == Fail(IndexOutOfBounds)
    ensures input.Some? && !IsNotImplemented(notImplemented, input.value) && |input.value| > 0 && input.value[0] >= 0x80 ==> r == Ok(None)
  {
    match input
    case None => Ok(None)
    case Some(bytes) =>
      if IsNotImplemented(notImplemented, bytes) then Ok(None)
      else if |bytes| == 0 then Fail(IndexOutOfBounds)
      else if bytes[0] >= 0x80 then Ok(None)
      else if |bytes| != LONG_BYTES then Fail(IllegalArgument)
      else Ok(Some(Signed(FromBytesBE(bytes), LONG_BYTES)))
  }

  /** Below the top bit the long is the unsigned big-endian value, never negative. */
  lemma Unsigned64Value(bytes: seq<byte>, notImplemented: NotImplemented)
    requires |bytes| == 8 && bytes[0] < 0x80 && !IsNotImplemented(notImplemented, bytes)
    ensures Unsigned64(Some(bytes), notImplemented) == Ok(Some(FromBytesBE(bytes)))
    ensures FromBytesBE(bytes) >= 0
  {
    LeadByteBound(bytes);
  }

  /** A lead byte below 0x80 keeps the value in the lower half of the range. */
  lemma {:induction false} LeadByteBound(s: seq<byte>)
    requires |s| >= 1 && s[0] < 0x80
    ensures FromBytesBE(s) < Pow256(|s|) / 2
  {
    if |s| == 1 {
      assert FromBytesBE(s) == s[0];
    } else {
      var init := s[..|s| - 1];
      assert init[0] == s[0];
      LeadByteBound(init);
      assert Pow256(|s|) == 256 * Pow256(|init|);
      assert Pow256(|init|) == 2 * (Pow256(|init|) / 2) by {
        Pow256Even(|init|);
      }
    }
  }
}
