/**
 * Byte-level helpers of the schema toolkit (ByteConversions.kt): big-endian
 * packing of short/int/long values, hex rendering and parsing, string
 * chunking, UTF-8 prefix decoding and in-place reversal.
 *
 * A Kotlin `Byte` is signed, and every arithmetic use of one in this file
 * first masks it with `0xFF`; a byte is therefore modelled by that unsigned
 * value 0..255.
 */
module ByteConversions {
  import opened Wrappers
  import opened Text

  type byte = x: int | 0 <= x < 256

  /** Kotlin's signed Byte, as it is stored in a ByteArray. */
  type int8 = x: int | -0x80 <= x < 0x80

  /** `b.toInt() and 0xFF`: the unsigned reading of a signed byte. */
  function UnsignedByte(b: int8): (r: byte)
  {
    b % 256
  }

  /** `toByte()` of a value 0..255: the signed byte with the same bit pattern. */
  function SignedByte(u: byte): (r: int8)
  {
    if u < 0x80 then u else u - 256
  }

  /** The two readings of a byte are inverse to each other; negative bytes read as 128..255. */
  lemma ByteReadings(b: int8, u: byte)
    ensures UnsignedByte(SignedByte(u)) == u
    ensures SignedByte(UnsignedByte(b)) == b
    ensures UnsignedByte(b) >= 0x80 <==> b < 0
  {
  }

  /** Kotlin's Short, Int and Long value ranges. */
  type short = x: int | -0x8000 <= x < 0x8000
  type int32 = x: int | -0x8000_0000 <= x < 0x8000_0000
  type int64 = x: int | -0x8000_0000_0000_0000 <= x < 0x8000_0000_0000_0000

  const SHORT_BYTES: nat := 2
  const INTEGER_BYTES: nat := 4
  const LONG_BYTES: nat := 8

  // ===========================================================================
  // Big-endian packing

  /** 256^n: the number of distinct n-byte patterns. */
  function Pow256(n: nat): (r: nat)
    ensures r >= 1
  {
    if n == 0 then 1 else 256 * Pow256(n - 1)
  }

  /** The n low-order bytes of v, most significant first (two's complement for a negative v). */
  function ToBytesBE(v: int, n: nat): (r: seq<byte>)
    ensures |r| == n
    decreases n
  {
    if n == 0 then [] else ToBytesBE(v / 256, n - 1) + [v % 256]
  }

  /** The unsigned big-endian number that a byte sequence spells. */
  function FromBytesBE(s: seq<byte>): (r: nat)
    ensures r < Pow256(|s|)
  {
    if s == [] then 0 else FromBytesBE(s[..|s| - 1]) * 256 + s[|s| - 1]
  }

  /** Reads an n-byte pattern as a two's-complement number. */
  function Signed(u: nat, n: nat): int
  {
    if u >= Pow256(n) / 2 then u - Pow256(n) else u
  }

  /** Arithmetic right shift by 8·k bits (`shr` on a signed value floors). */
  function Shift(v: int, k: nat): int
    decreases k
  {
    if k == 0 then v else Shift(v / 256, k - 1)
  }

  /** Packing keeps the low n bytes: what is lost is a multiple of 256^n. */
  lemma {:induction false} ToBytesBESplit(v: int, n: nat)
    ensures FromBytesBE(ToBytesBE(v, n)) + Pow256(n) * Shift(v, n) == v
    decreases n
  {
    if n > 0 {
      var w := v / 256;
      ToBytesBESplit(w, n - 1);
      var s := ToBytesBE(v, n);
      assert s[..|s| - 1] == ToBytesBE(w, n - 1);
      assert Pow256(n) * Shift(v, n) == 256 * (Pow256(n - 1) * Shift(w, n - 1));
    }
  }

  lemma MulBounds(p: nat, k: int)
    requires p >= 1
    ensures k >= 1 ==> p * k >= p
    ensures k <= -2 ==> p * k <= -2 * p
  {
    if k >= 1 {
      assert p * k == p * (k - 1) + p;
      assert p * (k - 1) >= 0;
    } else if k <= -2 {
      assert p * k == -2 * p + p * (k + 2);
      assert p * (-(k + 2)) >= 0;
    }
  }

  /** A value that fits in n bytes as a two's-complement number packs and unpacks to itself. */
  lemma PackUnpack(v: int, n: nat)
    requires n >= 1 && -(Pow256(n) / 2) <= v < Pow256(n) / 2
    ensures Signed(FromBytesBE(ToBytesBE(v, n)), n) == v
  {
    ToBytesBESplit(v, n);
    Pow256Even(n);
    SignedOfLowPart(v, FromBytesBE(ToBytesBE(v, n)), Pow256(n), Shift(v, n));
  }

  /** The low part u of a value v in the signed range reads back as v. */
  lemma SignedOfLowPart(v: int, u: int, p: nat, k: int)
    requires p >= 1 && p == 2 * (p / 2) && -(p / 2) <= v < p / 2
    requires u + p * k == v && 0 <= u < p
    ensures (if u >= p / 2 then u - p else u) == v
  {
    MulBounds(p, k);
    assert k == 0 || k == -1;
    if k == 0 {
      assert u == v;
    } else {
      assert u == v + p;
    }
  }

  /** Adding a multiple of 256^n does not change the n low bytes. */
  lemma {:induction false} ToBytesBEPeriodic(v: int, k: int, n: nat)
    ensures ToBytesBE(v + k * Pow256(n), n) == ToBytesBE(v, n)
    decreases n
  {
    if n > 0 {
      var m := k * Pow256(n - 1);
      assert k * Pow256(n) == 256 * m;
      assert (v + 256 * m) / 256 == v / 256 + m;
      assert (v + 256 * m) % 256 == v % 256;
      ToBytesBEPeriodic(v / 256, k, n - 1);
    }
  }

  /** Unsigned reading followed by packing gives back the bytes. */
  lemma {:induction false} ToBytesBEOfFromBytesBE(s: seq<byte>)
    ensures ToBytesBE(FromBytesBE(s), |s|) == s
  {
    if s != [] {
      var init := s[..|s| - 1];
      ToBytesBEOfFromBytesBE(init);
      var u := FromBytesBE(s);
      assert u / 256 == FromBytesBE(init);
      assert u % 256 == s[|s| - 1];
    }
  }

  lemma Pow256Even(n: nat)
    requires n >= 1
    ensures Pow256(n) == 2 * (Pow256(n) / 2)
  {
    var m := Pow256(n - 1);
    assert Pow256(n) == 256 * m;
    assert (256 * m) / 2 == 128 * m;
  }

  /** Signed reading followed by packing gives back the bytes. */
  lemma UnpackPack(s: seq<byte>)
    requires |s| >= 1
    ensures -(Pow256(|s|) / 2) <= Signed(FromBytesBE(s), |s|) < Pow256(|s|) / 2
    ensures ToBytesBE(Signed(FromBytesBE(s), |s|), |s|) == s
  {
    var n := |s|;
    var u := FromBytesBE(s);
    Pow256Even(n);
    ToBytesBEOfFromBytesBE(s);
    if u >= Pow256(n) / 2 {
      ToBytesBEPeriodic(u, -1, n);
      assert u + -1 * Pow256(n) == Signed(u, n);
    } else {
      assert Signed(u, n) == u;
    }
  }

  /** The loop shared by shortToBytes, integerToBytes and longToBytes. */
  method PackBigEndian(input: int, size: nat) returns (bytes: array<byte>)
    ensures bytes.Length == size && bytes[..] == ToBytesBE(input, size)
  {
    bytes := new byte[size];
    var value := input;
    var i := size;
    while i > 0
      invariant 0 <= i <= size
      invariant ToBytesBE(value, i) + bytes[i..] == ToBytesBE(input, size)
    {
      bytes[i - 1] := value % 256;
      assert bytes[i - 1..] == [value % 256] + bytes[i..];
      value := value / 256;
      i := i - 1;
    }
  }

  /** The loop shared by bytesToShort, bytesToInteger and bytesToLong, on an unbounded accumulator. */
  method UnpackBigEndian(bytes: array<byte>) returns (acc: nat)
    ensures acc == FromBytesBE(bytes[..])
  {
    acc := 0;
    var i := 0;
    while i < bytes.Length
      invariant 0 <= i <= bytes.Length
      invariant acc == FromBytesBE(bytes[..i])
    {
      assert bytes[..i + 1][..i] == bytes[..i];
      acc := acc * 256 + bytes[i];
      i := i + 1;
    }
    assert bytes[..bytes.Length] == bytes[..];
  }

  method ShortToBytes(input: short) returns (bytes: array<byte>)
    ensures bytes.Length == SHORT_BYTES && bytes[..] == ToBytesBE(input, SHORT_BYTES)
    ensures Signed(FromBytesBE(bytes[..]), SHORT_BYTES) == input
  {
    bytes := PackBigEndian(input, SHORT_BYTES);
    PackUnpack(input, SHORT_BYTES);
  }

  method IntegerToBytes(input: int32) returns (bytes: array<byte>)
    ensures bytes.Length == INTEGER_BYTES && bytes[..] == ToBytesBE(input, INTEGER_BYTES)
    ensures Signed(FromBytesBE(bytes[..]), INTEGER_BYTES) == input
  {
    bytes := PackBigEndian(input, INTEGER_BYTES);
    PackUnpack(input, INTEGER_BYTES);
  }

  method LongToBytes(input: int64) returns (bytes: array<byte>)
    ensures bytes.Length == LONG_BYTES && bytes[..] == ToBytesBE(input, LONG_BYTES)
    ensures Signed(FromBytesBE(bytes[..]), LONG_BYTES) == input
  {
    bytes := PackBigEndian(input, LONG_BYTES);
    PackUnpack(input, LONG_BYTES);
  }

  /**
   * bytesToShort: exactly 2 bytes, else IllegalArgumentException. The Kotlin
   * loop truncates to 16 bits after every step; only the final truncation
   * matters, which is the two's-complement reading of the bytes.
   */
  method BytesToShort(bytes: array<byte>) returns (r: Result<short>)
    ensures r.Ok? <==> bytes.Length == SHORT_BYTES
    ensures r.Fail? ==> r.failure == IllegalArgument
    ensures r.Ok? ==> ToBytesBE(r.value, SHORT_BYTES) == bytes[..]
  {
    if bytes.Length != SHORT_BYTES {
      return Fail(IllegalArgument);
    }
    var acc := UnpackBigEndian(bytes);
    UnpackPack(bytes[..]);
    r := Ok(Signed(acc, SHORT_BYTES));
  }

  method BytesToInteger(bytes: array<byte>) returns (r: Result<int32>)
    ensures r.Ok? <==> bytes.Length == INTEGER_BYTES
    ensures r.Fail? ==> r.failure == IllegalArgument
    ensures r.Ok? ==> ToBytesBE(r.value, INTEGER_BYTES) == bytes[..]
  {
    if bytes.Length != INTEGER_BYTES {
      return Fail(IllegalArgument);
    }
    var acc := UnpackBigEndian(bytes);
    UnpackPack(bytes[..]);
    r := Ok(Signed(acc, INTEGER_BYTES));
  }

  method BytesToLong(bytes: array<byte>) returns (r: Result<int64>)
    ensures r.Ok? <==> bytes.Length == LONG_BYTES
    ensures r.Fail? ==> r.failure == IllegalArgument
    ensures r.Ok? ==> ToBytesBE(r.value, LONG_BYTES) == bytes[..]
  {
    if bytes.Length != LONG_BYTES {
      return Fail(IllegalArgument);
    }
    var acc := UnpackBigEndian(bytes);
    UnpackPack(bytes[..]);
    r := Ok(Signed(acc, LONG_BYTES));
  }

  // ===========================================================================
  // Hex rendering

  function HexDigit(d: int): char
    requires 0 <= d < 16
  {
    "0123456789ABCDEF"[d]
  }

  /** `String.format("%02X", b)`: two upper-case hex digits. */
  function HexByte(b: byte): string
  {
    [HexDigit(b / 16), HexDigit(b % 16)]
  }

  /** The `%02X` renderings of the bytes, joined by sep. */
  function JoinedHex(bytes: seq<byte>, sep: string): string
  {
    if bytes == [] then "" else HexByte(bytes[0]) + SeparatedHex(bytes[1..], sep)
  }

  function SeparatedHex(bytes: seq<byte>, sep: string): string
  {
    if bytes == [] then "" else sep + HexByte(bytes[0]) + SeparatedHex(bytes[1..], sep)
  }

  /** bytesToHexString: "" or "0xAB 0xCD ...". */
  function BytesToHexString(bytes: seq<byte>): string
  {
    if bytes == [] then "" else "0x" + JoinedHex(bytes, " 0x")
  }

  /** bytesToSeparatedHexString: "AB:CD:..." for the separator ":". */
  function BytesToSeparatedHexString(bytes: seq<byte>, sep: string): string
  {
    JoinedHex(bytes, sep)
  }

  /** bytesToSeparatedTwoByteHexString: "ABCD:EF01:..." (an odd count would index past the end). */
  function BytesToSeparatedTwoByteHexString(bytes: seq<byte>, sep: string): string
    requires |bytes| % 2 == 0
  {
    if bytes == [] then "" else HexByte(bytes[0]) + HexByte(bytes[1]) + SeparatedTwoByteHex(bytes[2..], sep)
  }

  function SeparatedTwoByteHex(bytes: seq<byte>, sep: string): string
    requires |bytes| % 2 == 0
  {
    if bytes == [] then "" else sep + HexByte(bytes[0]) + HexByte(bytes[1]) + SeparatedTwoByteHex(bytes[2..], sep)
  }

  predicate IsUpperHexDigit(c: char)
  {
    '0' <= c <= '9' || 'A' <= c <= 'F'
  }

  /** With a one-character separator, byte i occupies characters 3i and 3i+1 and is followed by the separator. */
  lemma {:induction false} JoinedHexLayout(bytes: seq<byte>, sep: string)
    requires |sep| == 1 && |bytes| >= 1
    ensures |JoinedHex(bytes, sep)| == 3 * |bytes| - 1
    ensures forall i :: 0 <= i < |bytes| ==> JoinedHex(bytes, sep)[3 * i..3 * i + 2] == HexByte(bytes[i])
    ensures forall i :: 0 <= i < |bytes| - 1 ==> JoinedHex(bytes, sep)[3 * i + 2] == sep[0]
  {
    SeparatedHexLayout(bytes[1..], sep);
  }

  lemma {:induction false} SeparatedHexLayout(bytes: seq<byte>, sep: string)
    requires |sep| == 1
    ensures |SeparatedHex(bytes, sep)| == 3 * |bytes|
    ensures forall i :: 0 <= i < |bytes| ==> SeparatedHex(bytes, sep)[3 * i + 1..3 * i + 3] == HexByte(bytes[i])
    ensures forall i :: 0 <= i < |bytes| ==> SeparatedHex(bytes, sep)[3 * i] == sep[0]
  {
    if bytes != [] {
      SeparatedHexLayout(bytes[1..], sep);
      var t := SeparatedHex(bytes[1..], sep);
      var s := SeparatedHex(bytes, sep);
      assert s == sep + HexByte(bytes[0]) + t;
      forall i | 1 <= i < |bytes|
        ensures s[3 * i + 1..3 * i + 3] == HexByte(bytes[i]) && s[3 * i] == sep[0]
      {
        assert s[3 * i + 1..3 * i + 3] == t[3 * (i - 1) + 1..3 * (i - 1) + 3];
        assert s[3 * i] == t[3 * (i - 1)];
      }
    }
  }

  /** With a one-character separator, register i (bytes 2i, 2i+1) occupies characters 5i..5i+3. */
  lemma TwoByteHexLayout(bytes: seq<byte>, sep: string)
    requires |sep| == 1 && |bytes| >= 2 && |bytes| % 2 == 0
    ensures |BytesToSeparatedTwoByteHexString(bytes, sep)| == 5 * (|bytes| / 2) - 1
    ensures forall i :: 0 <= i < |bytes| / 2 ==>
      BytesToSeparatedTwoByteHexString(bytes, sep)[5 * i..5 * i + 4] == HexByte(bytes[2 * i]) + HexByte(bytes[2 * i + 1])
    ensures forall i :: 0 <= i < |bytes| / 2 - 1 ==> BytesToSeparatedTwoByteHexString(bytes, sep)[5 * i + 4] == sep[0]
  {
    var rest := bytes[2..];
    SeparatedTwoByteHexLength(rest, sep);
    forall i | 0 <= i < |bytes| / 2
      ensures BytesToSeparatedTwoByteHexString(bytes, sep)[5 * i..5 * i + 4] == HexByte(bytes[2 * i]) + HexByte(bytes[2 * i + 1])
      ensures i < |bytes| / 2 - 1 ==> BytesToSeparatedTwoByteHexString(bytes, sep)[5 * i + 4] == sep[0]
    {
      TwoByteHexAt(bytes, sep, i);
    }
  }

  /** Register i of the string without a leading separator. */
  lemma TwoByteHexAt(bytes: seq<byte>, sep: string, i: int)
    requires |sep| == 1 && |bytes| >= 2 && |bytes| % 2 == 0 && 0 <= i < |bytes| / 2
    ensures |BytesToSeparatedTwoByteHexString(bytes, sep)| == 5 * (|bytes| / 2) - 1
    ensures BytesToSeparatedTwoByteHexString(bytes, sep)[5 * i..5 * i + 4] == HexByte(bytes[2 * i]) + HexByte(bytes[2 * i + 1])
    ensures i < |bytes| / 2 - 1 ==> BytesToSeparatedTwoByteHexString(bytes, sep)[5 * i + 4] == sep[0]
  {
    var rest := bytes[2..];
    SeparatedTwoByteHexLength(rest, sep);
    var p := HexByte(bytes[0]) + HexByte(bytes[1]);
    var t := SeparatedTwoByteHex(rest, sep);
    assert |p| == 4;
    assert BytesToSeparatedTwoByteHexString(bytes, sep) == p + t;
    if i == 0 {
      SliceOfAppend(p, t, 0, -4, 4);
      assert p[0..4] == p;
    } else {
      var k := i - 1;
      SeparatedTwoByteHexAt(rest, sep, k);
      SliceOfAppend(p, t, 5 * i, 5 * k + 1, 4);
      IndexOfDrop(bytes, 2, 2 * k, 2 * i);
      IndexOfDrop(bytes, 2, 2 * k + 1, 2 * i + 1);
    }
    if i < |bytes| / 2 - 1 {
      SeparatedTwoByteHexAt(rest, sep, i);
      IndexOfAppend(p, t, 5 * i + 4, 5 * i);
    }
  }

  lemma {:induction false} SeparatedTwoByteHexLength(bytes: seq<byte>, sep: string)
    requires |sep| == 1 && |bytes| % 2 == 0
    ensures |SeparatedTwoByteHex(bytes, sep)| == 5 * (|bytes| / 2)
  {
    if bytes != [] {
      SeparatedTwoByteHexLength(bytes[2..], sep);
    }
  }

  /** Register i of the string with a leading separator: the separator at 5i, the four digits after it. */
  lemma {:induction false} SeparatedTwoByteHexAt(bytes: seq<byte>, sep: string, i: int)
    requires |sep| == 1 && |bytes| % 2 == 0 && 0 <= i < |bytes| / 2
    ensures |SeparatedTwoByteHex(bytes, sep)| == 5 * (|bytes| / 2)
    ensures SeparatedTwoByteHex(bytes, sep)[5 * i + 1..5 * i + 5] == HexByte(bytes[2 * i]) + HexByte(bytes[2 * i + 1])
    ensures SeparatedTwoByteHex(bytes, sep)[5 * i] == sep[0]
  {
    SeparatedTwoByteHexLength(bytes, sep);
    var rest := bytes[2..];
    SeparatedTwoByteHexLength(rest, sep);
    var digits := HexByte(bytes[0]) + HexByte(bytes[1]);
    var p := sep + digits;
    var t := SeparatedTwoByteHex(rest, sep);
    assert |p| == 5;
    assert SeparatedTwoByteHex(bytes, sep) == p + t;
    if i == 0 {
      SliceOfAppend(p, t, 1, -4, 4);
      IndexOfAppend(p, t, 0, -5);
      assert p[1..5] == digits;
    } else {
      var k := i - 1;
      SeparatedTwoByteHexAt(rest, sep, k);
      SliceOfAppend(p, t, 5 * i + 1, 5 * k + 1, 4);
      IndexOfAppend(p, t, 5 * i, 5 * k);
      IndexOfDrop(bytes, 2, 2 * k, 2 * i);
      IndexOfDrop(bytes, 2, 2 * k + 1, 2 * i + 1);
    }
  }

  /** The slice of p + t at m = |p| + j: a slice of t when j is not negative, of p otherwise. */
  lemma SliceOfAppend<T>(p: seq<T>, t: seq<T>, m: int, j: int, n: nat)
    requires m == |p| + j && 0 <= m && j + n <= |t|
    requires j < 0 ==> j + n <= 0
    ensures j >= 0 ==> (p + t)[m..m + n] == t[j..j + n]
    ensures j < 0 ==> (p + t)[m..m + n] == p[m..m + n]
  {
  }

  lemma IndexOfDrop<T>(s: seq<T>, k: int, j: int, m: int)
    requires 0 <= k <= |s| && 0 <= j < |s| - k && m == k + j
    ensures s[k..][j] == s[m]
  {
  }

  /** The element of p + t at m = |p| + j. */
  lemma IndexOfAppend<T>(p: seq<T>, t: seq<T>, m: int, j: int)
    requires m == |p| + j && 0 <= m && j < |t|
    ensures (p + t)[m] == if j >= 0 then t[j] else p[m]
  {
  }

  // ===========================================================================
  // splitStringBySize

  /** The pieces of s of the given size, the last one possibly shorter, no empty piece. */
  function Chunks(s: string, size: nat): seq<string>
    requires size > 0
  {
    if |s| == 0 then [] else if |s| <= size then [s] else [s[..size]] + Chunks(s[size..], size)
  }

  function Concat(parts: seq<string>): string
  {
    if parts == [] then "" else parts[0] + Concat(parts[1..])
  }

  /**
   * splitStringBySize. The Kotlin loop runs i over 0..length/size and takes
   * the substring [i·size, min((i+1)·size, length)) when it is not empty; the
   * loop below runs `start` over the same values i·size. A size of 0 divides
   * by zero in the source and is excluded here.
   */
  method SplitStringBySize(str: string, size: int) returns (split: seq<string>)
    requires size > 0
    ensures split == Chunks(str, size)
  {
    split := [];
    var start := 0;
    while start <= |str|
      invariant 0 <= start
      invariant start <= |str| ==> split + Chunks(str[start..], size) == Chunks(str, size)
      invariant start > |str| ==> split == Chunks(str, size)
      decreases |str| + 1 - start
    {
      var stop := if start + size < |str| then start + size else |str|;
      var substring := str[start..stop];
      ghost var rest := str[start..];
      if start + size < |str| {
        assert rest[..size] == substring && rest[size..] == str[start + size..];
      } else {
        assert substring == rest;
      }
      if substring != [] {
        split := split + [substring];
      }
      start := start + size;
    }
  }

  /** Chunks partition the string. */
  lemma {:induction false} ChunksConcat(s: string, size: nat)
    requires size > 0
    ensures Concat(Chunks(s, size)) == s
  {
    if |s| > size {
      ChunksConcat(s[size..], size);
      assert s == s[..size] + s[size..];
    }
  }

  /** Every chunk is non-empty and at most size long; all but the last are exactly size long. */
  lemma {:induction false} ChunksSizes(s: string, size: nat)
    requires size > 0
    ensures forall i :: 0 <= i < |Chunks(s, size)| ==> 0 < |Chunks(s, size)[i]| <= size
    ensures forall i :: 0 <= i < |Chunks(s, size)| - 1 ==> |Chunks(s, size)[i]| == size
  {
    if |s| > size {
      ChunksSizes(s[size..], size);
      var rest := Chunks(s[size..], size);
      assert Chunks(s, size) == [s[..size]] + rest;
    }
  }

  // ===========================================================================
  // hexStringToBytes

  /** Java `String.replace("0x", "")`: removes non-overlapping occurrences, scanning left to right. */
  function RemoveLiteral0x(s: string): string
  {
    if |s| >= 2 && s[0] == '0' && s[1] == 'x' then RemoveLiteral0x(s[2..])
    else if s == [] then ""
    else [s[0]] + RemoveLiteral0x(s[1..])
  }

  function RemoveSpaces(s: string): string
  {
    if s == [] then "" else (if s[0] == ' ' then "" else [s[0]]) + RemoveSpaces(s[1..])
  }

  /** The value of a hex digit, either case (`Character.digit(c, 16)` on ASCII). */
  function HexDigitValue(c: char): Option<nat>
  {
    if '0' <= c <= '9' then Some(c as int - 48)
    else if 'a' <= c <= 'f' then Some(c as int - 87)
    else if 'A' <= c <= 'F' then Some(c as int - 55)
    else None
  }

  function HexDigitsValue(s: string): Option<nat>
  {
    if s == [] then Some(0)
    else match (HexDigitsValue(s[..|s| - 1]), HexDigitValue(s[|s| - 1]))
      case (Some(high), Some(low)) => Some(high * 16 + low)
      case _ => None
  }

  /** The value of an optional '+' or '-' followed by at least one hex digit. */
  function SignedHexValue(t: string): Option<int>
  {
    if t == [] then None
    else if t[0] < '0' then
      if |t| == 1 then None
      else if t[0] == '-' then
        (match HexDigitsValue(t[1..]) case Some(v) => Some(-(v as int)) case None => None)
      else if t[0] == '+' then
        (match HexDigitsValue(t[1..]) case Some(v) => Some(v as int) case None => None)
      else None
    else match HexDigitsValue(t) case Some(v) => Some(v as int) case None => None
  }

  /** Kotlin `String.toInt(16)`: a signed hex number that fits in 32 bits, else NumberFormatException. */
  function ParseHexInt(t: string): (r: Result<int>)
    ensures r.Ok? <==> SignedHexValue(t).Some? && -0x8000_0000 <= SignedHexValue(t).value <= INT_MAX
    ensures r.Ok? ==> r.value == SignedHexValue(t).value
    ensures r.Fail? ==> r.failure == NumberFormat
  {
    match SignedHexValue(t)
    case None => Fail(NumberFormat)
    case Some(v) => if v < -0x8000_0000 || v > INT_MAX then Fail(NumberFormat) else Ok(v)
  }

  /**
   * The bytes parsed from the remaining words, appended to `done`: blank
   * words are skipped, a bad word fails with NumberFormat, and a word beyond
   * the array's capacity fails with IndexOutOfBounds.
   */
  function DecodeWords(words: seq<string>, done: seq<byte>, capacity: nat): (r: Result<seq<byte>>)
    requires forall i :: 0 <= i < |words| ==> |words[i]| <= 2
    requires |done| <= capacity
    ensures r.Ok? ==> |r.value| <= capacity
  {
    if words == [] then Ok(done)
    else
      var toParse := Trim(words[0]);
      TrimShorter(words[0]);
      if toParse == [] then DecodeWords(words[1..], done, capacity)
      else match ParseHexInt(Lowercase(toParse))
        case Fail(f) => Fail(f)
        case Ok(v) =>
          if |done| == capacity then Fail(IndexOutOfBounds)
          else DecodeWords(words[1..], done + [v % 256], capacity)
  }

  /** The string that hexStringToBytes splits into two-character words. */
  function CleanHex(input: string): string
  {
    Trim(RemoveSpaces(RemoveLiteral0x(input)))
  }

  /** hexStringToBytes as a function: the parsed bytes, padded with zeros to half the cleaned length. */
  function HexToBytes(input: string): Result<seq<byte>>
  {
    var cleaned := CleanHex(input);
    ChunksSizes(cleaned, 2);
    PaddedDecode(Chunks(cleaned, 2), |cleaned| / 2)
  }

  /** The decoded words, padded with zeros to the array's capacity. */
  function PaddedDecode(words: seq<string>, capacity: nat): Result<seq<byte>>
    requires forall i :: 0 <= i < |words| ==> |words[i]| <= 2
  {
    match DecodeWords(words, [], capacity)
    case Fail(f) => Fail(f)
    case Ok(bytes) => Ok(bytes + seq(capacity - |bytes|, _ => 0))
  }

  method HexStringToBytes(input: string) returns (r: Result<seq<byte>>)
    ensures r == HexToBytes(input)
  {
    var hexByteValues := CleanHex(input);
    var words := SplitStringBySize(hexByteValues, 2);
    ChunksSizes(hexByteValues, 2);
    r := DecodeIntoArray(words, |hexByteValues| / 2);
  }

  /** The loop of hexStringToBytes: each non-blank word parsed into the next byte of a zero-filled array. */
  method DecodeIntoArray(words: seq<string>, capacity: nat) returns (r: Result<seq<byte>>)
    requires forall i :: 0 <= i < |words| ==> |words[i]| <= 2
    ensures r == PaddedDecode(words, capacity)
  {
    var result := new byte[capacity](_ => 0);
    var nextByteIndex := 0;
    var w := 0;
    assert words[0..] == words;
    while w < |words|
      invariant 0 <= w <= |words|
      invariant 0 <= nextByteIndex <= result.Length
      invariant forall k :: nextByteIndex <= k < result.Length ==> result[k] == 0
      invariant DecodeWords(words[w..], result[..nextByteIndex], result.Length) == DecodeWords(words, [], result.Length)
    {
      var toParse := Trim(words[w]);
      if toParse == [] {
        w := w + 1;
        continue;
      }
      TrimShorter(words[w]);
      var parsed := ParseHexInt(Lowercase(toParse));
      if parsed.Fail? {
        return Fail(parsed.failure);
      }
      if nextByteIndex == result.Length {
        return Fail(IndexOutOfBounds);
      }
      result[nextByteIndex] := parsed.value % 256;
      assert result[..nextByteIndex + 1] == result[..nextByteIndex] + [parsed.value % 256];
      nextByteIndex := nextByteIndex + 1;
      w := w + 1;
    }
    assert result[..] == result[..nextByteIndex] + seq(result.Length - nextByteIndex, _ => 0);
    r := Ok(result[..]);
  }

  // --- hexStringToBytes inverts bytesToHexString

  /** The hex digits of the bytes with nothing in between. */
  function PlainHex(bytes: seq<byte>): string
  {
    if bytes == [] then "" else HexByte(bytes[0]) + PlainHex(bytes[1..])
  }

  /** The two-character words of PlainHex(bytes). */
  function HexWords(bytes: seq<byte>): seq<string>
  {
    if bytes == [] then [] else [HexByte(bytes[0])] + HexWords(bytes[1..])
  }

  /** The hex digits of the bytes, separated by single spaces. */
  function SpacedHex(bytes: seq<byte>): string
  {
    if bytes == [] then "" else " " + HexByte(bytes[0]) + SpacedHex(bytes[1..])
  }

  lemma HexByteDigits(b: byte)
    ensures IsUpperHexDigit(HexByte(b)[0]) && IsUpperHexDigit(HexByte(b)[1])
  {
  }

  /**
   * Removing "0x" passes over a prefix that contains no 'x', provided the
   * prefix does not end in '0' right before an 'x'.
   */
  lemma {:induction false} RemoveLiteral0xSkips(u: string, v: string)
    requires forall i :: 0 <= i < |u| ==> u[i] != 'x'
    requires u == [] || v == [] || u[|u| - 1] != '0' || v[0] != 'x'
    ensures RemoveLiteral0x(u + v) == u + RemoveLiteral0x(v)
  {
    if u == [] {
      assert u + v == v;
    } else {
      RemoveLiteral0xHead(u, v);
      RemoveLiteral0xSkips(u[1..], v);
      assert [u[0]] + (u[1..] + RemoveLiteral0x(v)) == u + RemoveLiteral0x(v);
    }
  }

  /** A first character that does not open a "0x" is kept. */
  lemma RemoveLiteral0xHead(u: string, v: string)
    requires u != [] && forall i :: 0 <= i < |u| ==> u[i] != 'x'
    requires v == [] || u[|u| - 1] != '0' || v[0] != 'x'
    ensures RemoveLiteral0x(u + v) == [u[0]] + RemoveLiteral0x(u[1..] + v)
  {
    var w := u + v;
    assert w[0] == u[0];
    assert !(|w| >= 2 && w[0] == '0' && w[1] == 'x') by {
      if |u| >= 2 {
        assert w[1] == u[1];
      } else if v != [] {
        assert w[1] == v[0];
      }
    }
    assert w[1..] == u[1..] + v;
  }

  lemma {:induction false} RemoveSpacesAppend(u: string, v: string)
    ensures RemoveSpaces(u + v) == RemoveSpaces(u) + RemoveSpaces(v)
  {
    if u == [] {
      assert u + v == v;
    } else {
      var w := u + v;
      var head: string := if u[0] == ' ' then "" else [u[0]];
      assert w[0] == u[0];
      assert w[1..] == u[1..] + v;
      assert RemoveSpaces(w) == head + RemoveSpaces(u[1..] + v);
      RemoveSpacesAppend(u[1..], v);
      assert RemoveSpaces(u) == head + RemoveSpaces(u[1..]);
    }
  }

  lemma RemoveSpacesHexByte(b: byte)
    ensures RemoveSpaces(HexByte(b)) == HexByte(b)
  {
    var h := HexByte(b);
    assert h[1..][1..] == [];
  }

  lemma HexByteNoX(b: byte)
    ensures |HexByte(b)| == 2
    ensures forall i :: 0 <= i < |HexByte(b)| ==> HexByte(b)[i] != 'x'
  {
    HexByteDigits(b);
  }

  /** A separator " 0x" loses its "0x". */
  lemma DropMarker(x: string)
    ensures RemoveLiteral0x(" " + ("0x" + x)) == " " + RemoveLiteral0x(x)
  {
    RemoveLiteral0xSkips(" ", "0x" + x);
    assert ("0x" + x)[2..] == x;
  }

  /** The " 0x" separators lose their "0x". */
  lemma {:induction false} RemoveMarkers(bytes: seq<byte>)
    ensures RemoveLiteral0x(SeparatedHex(bytes, " 0x")) == SpacedHex(bytes)
  {
    if bytes != [] {
      var h := HexByte(bytes[0]);
      RemoveMarkerStep(bytes);
      RemoveMarkers(bytes[1..]);
      assert SpacedHex(bytes) == " " + (h + SpacedHex(bytes[1..]));
    }
  }

  /** The first separator loses its "0x" and the hex pair after it stays. */
  lemma RemoveMarkerStep(bytes: seq<byte>)
    requires bytes != []
    ensures RemoveLiteral0x(SeparatedHex(bytes, " 0x")) ==
      " " + (HexByte(bytes[0]) + RemoveLiteral0x(SeparatedHex(bytes[1..], " 0x")))
  {
    var h := HexByte(bytes[0]);
    var t := SeparatedHex(bytes[1..], " 0x");
    assert SeparatedHex(bytes, " 0x") == " " + ("0x" + (h + t));
    DropMarker(h + t);
    HexByteNoX(bytes[0]);
    RemoveLiteral0xSkips(h, t);
  }

  /** The spaces go next. */
  lemma {:induction false} RemoveSeparators(bytes: seq<byte>)
    ensures RemoveSpaces(SpacedHex(bytes)) == PlainHex(bytes)
  {
    if bytes != [] {
      var h := HexByte(bytes[0]);
      var t := SpacedHex(bytes[1..]);
      assert SpacedHex(bytes) == " " + (h + t);
      RemoveSpacesAppend(" ", h + t);
      RemoveSpacesAppend(h, t);
      RemoveSpacesHexByte(bytes[0]);
      RemoveSeparators(bytes[1..]);
    }
  }

  lemma {:induction false} PlainHexShape(bytes: seq<byte>)
    ensures |PlainHex(bytes)| == 2 * |bytes|
    ensures forall i :: 0 <= i < |PlainHex(bytes)| ==> IsUpperHexDigit(PlainHex(bytes)[i])
  {
    if bytes != [] {
      PlainHexShape(bytes[1..]);
      HexByteDigits(bytes[0]);
      var t := PlainHex(bytes[1..]);
      var s := PlainHex(bytes);
      assert s == HexByte(bytes[0]) + t;
      forall i | 2 <= i < |s|
        ensures IsUpperHexDigit(s[i])
      {
        assert s[i] == t[i - 2];
      }
    }
  }

  lemma {:induction false} ChunksOfPlainHex(bytes: seq<byte>)
    ensures Chunks(PlainHex(bytes), 2) == HexWords(bytes)
  {
    if bytes != [] {
      var h := HexByte(bytes[0]);
      var s := PlainHex(bytes);
      HexByteNoX(bytes[0]);
      PlainHexShape(bytes[1..]);
      assert s == h + PlainHex(bytes[1..]);
      if |bytes| == 1 {
        assert PlainHex(bytes[1..]) == "" && HexWords(bytes[1..]) == [];
        assert s == h;
      } else {
        assert s[..2] == h && s[2..] == PlainHex(bytes[1..]);
        ChunksOfPlainHex(bytes[1..]);
      }
    }
  }

  lemma ParseHexByte(b: byte)
    ensures Trim(HexByte(b)) == HexByte(b)
    ensures ParseHexInt(Lowercase(HexByte(b))) == Ok(b)
  {
    var l := Lowercase(HexByte(b));
    LowerHexDigit(b / 16);
    LowerHexDigit(b % 16);
    assert l[..1] == [l[0]];
    assert l[..1][..0] == [];
    assert HexDigitsValue(l[..1]) == Some(b / 16);
    assert HexDigitsValue(l) == Some(b / 16 * 16 + b % 16);
    assert SignedHexValue(l) == Some(b);
  }

  /** A digit of `%02X`, lower-cased, reads back as its value. */
  lemma LowerHexDigit(d: int)
    requires 0 <= d < 16
    ensures HexDigitValue(LowerChar(HexDigit(d))) == Some(d)
    ensures LowerChar(HexDigit(d)) >= '0'
  {
    if d < 10 {
      assert HexDigit(d) == (d + 48) as char;
    } else {
      assert HexDigit(d) == (d + 55) as char;
    }
  }

  lemma {:induction false} HexWordsShort(bytes: seq<byte>)
    ensures |HexWords(bytes)| == |bytes|
    ensures forall i :: 0 <= i < |HexWords(bytes)| ==> |HexWords(bytes)[i]| <= 2
  {
    if bytes != [] {
      HexWordsShort(bytes[1..]);
      var w := HexWords(bytes);
      forall i | 1 <= i < |w|
        ensures |w[i]| <= 2
      {
        assert w[i] == HexWords(bytes[1..])[i - 1];
      }
    }
  }

  /** One step of DecodeWords on the word of a byte. */
  lemma DecodeHexWord(bytes: seq<byte>, done: seq<byte>, capacity: nat)
    requires bytes != [] && |done| + |bytes| <= capacity
    ensures forall i :: 0 <= i < |HexWords(bytes)| ==> |HexWords(bytes)[i]| <= 2
    ensures forall i :: 0 <= i < |HexWords(bytes[1..])| ==> |HexWords(bytes[1..])[i]| <= 2
    ensures DecodeWords(HexWords(bytes), done, capacity)
         == DecodeWords(HexWords(bytes[1..]), done + [bytes[0]], capacity)
  {
    HexWordsShort(bytes);
    HexWordsShort(bytes[1..]);
    ParseHexByte(bytes[0]);
    var w := HexWords(bytes);
    assert w[0] == HexByte(bytes[0]) && w[1..] == HexWords(bytes[1..]);
    var toParse := Trim(w[0]);
    assert toParse == HexByte(bytes[0]) && toParse != [];
    assert ParseHexInt(Lowercase(toParse)) == Ok(bytes[0]);
    assert |done| < capacity && bytes[0] as int % 256 == bytes[0] as int;
  }

  lemma {:induction false} DecodeHexWords(bytes: seq<byte>, done: seq<byte>, capacity: nat)
    requires |done| + |bytes| <= capacity
    requires forall i :: 0 <= i < |HexWords(bytes)| ==> |HexWords(bytes)[i]| <= 2
    ensures DecodeWords(HexWords(bytes), done, capacity) == Ok(done + bytes)
  {
    if bytes == [] {
      assert done + bytes == done;
    } else {
      var done' := done + [bytes[0]];
      assert done' + bytes[1..] == done + bytes;
      DecodeHexWord(bytes, done, capacity);
      DecodeHexWords(bytes[1..], done', capacity);
    }
  }

  /** Cleaning the rendering of the bytes leaves their plain hex digits. */
  lemma CleanRendering(bytes: seq<byte>)
    requires bytes != []
    ensures RemoveSpaces(RemoveLiteral0x(BytesToHexString(bytes))) == PlainHex(bytes)
  {
    var h := HexByte(bytes[0]);
    var t := SeparatedHex(bytes[1..], " 0x");
    var s := BytesToHexString(bytes);
    assert s == "0x" + (h + t);
    assert s[2..] == h + t;
    HexByteNoX(bytes[0]);
    RemoveLiteral0xSkips(h, t);
    RemoveMarkers(bytes[1..]);
    RemoveSeparators(bytes[1..]);
    RemoveSpacesAppend(h, SpacedHex(bytes[1..]));
    RemoveSpacesHexByte(bytes[0]);
  }

  /** Any text that cleans to the plain hex digits of some bytes decodes to those bytes. */
  lemma DecodePlainHex(input: string, bytes: seq<byte>)
    requires CleanHex(input) == PlainHex(bytes)
    ensures HexToBytes(input) == Ok(bytes)
  {
    var cleaned := CleanHex(input);
    PlainHexShape(bytes);
    assert |cleaned| / 2 == |bytes|;
    ChunksOfPlainHex(bytes);
    HexWordsShort(bytes);
    DecodeHexWords(bytes, [], |bytes|);
    assert [] + bytes == bytes;
    assert DecodeWords(Chunks(cleaned, 2), [], |bytes|) == Ok(bytes);
    assert bytes + seq(0, _ => 0) == bytes;
  }

  /** hexStringToBytes reads back what bytesToHexString writes. */
  lemma HexRoundTrip(bytes: seq<byte>)
    ensures HexToBytes(BytesToHexString(bytes)) == Ok(bytes)
  {
    var s := BytesToHexString(bytes);
    if bytes == [] {
      assert CleanHex(s) == "" && Chunks(CleanHex(s), 2) == [];
      assert [] + seq(0, _ => 0) == bytes;
    } else {
      CleanRendering(bytes);
      PlainHexShape(bytes);
      TrimOfTrimmed(PlainHex(bytes));
      DecodePlainHex(s, bytes);
    }
  }

  /** A space or a "0x" marker in front of the text is ignored. */
  lemma PrefixesIgnored(input: string)
    ensures HexToBytes(" " + input) == HexToBytes(input)
    ensures HexToBytes("0x" + input) == HexToBytes(input)
  {
    RemoveLiteral0xSkips(" ", input);
    RemoveSpacesAppend(" ", RemoveLiteral0x(input));
    var r := RemoveLiteral0x(input);
    assert RemoveLiteral0x(" " + input) == " " + r;
    assert RemoveSpaces(" ") == "";
    assert RemoveSpaces(" " + r) == "" + RemoveSpaces(r) == RemoveSpaces(r);
    assert ("0x" + input)[2..] == input;
    assert CleanHex("0x" + input) == CleanHex(input);
  }

  // ===========================================================================
  // UTF-8

  /** isInRange: the signed byte, read unsigned, lies in first..last. */
  predicate IsInRange(b: int8, first: int, last: int)
  {
    first <= UnsignedByte(b) <= last
  }

  /** So a byte with its top bit set is in a range above 0x7F exactly when its unsigned value is. */
  lemma InRangeUnsigned(u: byte, first: int, last: int)
    ensures IsInRange(SignedByte(u), first, last) <==> first <= u <= last
  {
    ByteReadings(SignedByte(u), u);
  }

  /** isValidUtf8 on the first n bytes, n = |s|, per the table of well-formed UTF-8 byte sequences. */
  predicate IsValidUtf8(s: seq<byte>)
  {
    match |s|
    case 1 => IsInRange(SignedByte(s[0]), 0x01, 0x7F)
    case 2 => IsInRange(SignedByte(s[0]), 0xC2, 0xDF) && IsInRange(SignedByte(s[1]), 0x80, 0xBF)
    case 3 =>
      (IsInRange(SignedByte(s[0]), 0xE0, 0xE0) && IsInRange(SignedByte(s[1]), 0xA0, 0xBF) && IsInRange(SignedByte(s[2]), 0x80, 0xBF)) ||
      (IsInRange(SignedByte(s[0]), 0xE1, 0xEC) && IsInRange(SignedByte(s[1]), 0x80, 0xBF) && IsInRange(SignedByte(s[2]), 0x80, 0xBF)) ||
      (IsInRange(SignedByte(s[0]), 0xED, 0xED) && IsInRange(SignedByte(s[1]), 0x80, 0x9F) && IsInRange(SignedByte(s[2]), 0x80, 0xBF)) ||
      (IsInRange(SignedByte(s[0]), 0xEE, 0xEF) && IsInRange(SignedByte(s[1]), 0x80, 0xBF) && IsInRange(SignedByte(s[2]), 0x80, 0xBF))
    case 4 =>
      (IsInRange(SignedByte(s[0]), 0xF0, 0xF0) && IsInRange(SignedByte(s[1]), 0x90, 0xBF) && IsInRange(SignedByte(s[2]), 0x80, 0xBF) && IsInRange(SignedByte(s[3]), 0x80, 0xBF)) ||
      (IsInRange(SignedByte(s[0]), 0xF1, 0xF3) && IsInRange(SignedByte(s[1]), 0x80, 0xBF) && IsInRange(SignedByte(s[2]), 0x80, 0xBF) && IsInRange(SignedByte(s[3]), 0x80, 0xBF)) ||
      (IsInRange(SignedByte(s[0]), 0xF4, 0xF4) && IsInRange(SignedByte(s[1]), 0x80, 0x8F) && IsInRange(SignedByte(s[2]), 0x80, 0xBF) && IsInRange(SignedByte(s[3]), 0x80, 0xBF))
    case _ => false
  }

  /**
   * The length a lead byte announces: 0xxxxxxx → 1, 110xxxxx → 2,
   * 1110xxxx → 3, 11110xxx → 4, anything else → 0 (stop).
   */
  function LeadLength(b: byte): nat
  {
    if b < 0x80 then 1
    else if 0xC0 <= b < 0xE0 then 2
    else if 0xE0 <= b < 0xF0 then 3
    else if 0xF0 <= b < 0xF8 then 4
    else 0
  }

  /** The character a valid 1..4 byte sequence encodes. */
  function DecodeChar(s: seq<byte>): char
    requires IsValidUtf8(s)
  {
    if |s| == 1 then s[0] as char
    else if |s| == 2 then ((s[0] as int - 0xC0) * 64 + (s[1] as int - 0x80)) as char
    else if |s| == 3 then ThreeByteValue(s) as char
    else FourByteValue(s) as char
  }

  /** The value a valid three-byte sequence encodes: above 0x7FF, below 0x10000, never a surrogate. */
  function ThreeByteValue(s: seq<byte>): (v: int)
    requires |s| == 3 && IsValidUtf8(s)
    ensures 0x800 <= v < 0xD800 || 0xE000 <= v < 0x10000
  {
    (s[0] as int - 0xE0) * 4096 + (s[1] as int - 0x80) * 64 + (s[2] as int - 0x80)
  }

  /** The value a valid four-byte sequence encodes: from 0x10000 to 0x10FFFF. */
  function FourByteValue(s: seq<byte>): (v: int)
    requires |s| == 4 && IsValidUtf8(s)
    ensures 0x10000 <= v < 0x110000
  {
    (s[0] as int - 0xF0) * 262144 + (s[1] as int - 0x80) * 4096 + (s[2] as int - 0x80) * 64 + (s[3] as int - 0x80)
  }

  /** The UTF-8 encoding of one character (`toByteArray(UTF_8)`). */
  function EncodeChar(c: char): (r: seq<byte>)
    ensures 1 <= |r| <= 4
  {
    var cp := c as int;
    if cp < 0x80 then [cp]
    else if cp < 0x800 then [0xC0 + cp / 64, 0x80 + cp % 64]
    else if cp < 0x10000 then [0xE0 + cp / 4096, 0x80 + (cp / 64) % 64, 0x80 + cp % 64]
    else [0xF0 + cp / 262144, 0x80 + (cp / 4096) % 64, 0x80 + (cp / 64) % 64, 0x80 + cp % 64]
  }

  /** stringToBytes. */
  function StringToBytes(s: string): seq<byte>
  {
    if s == [] then [] else EncodeChar(s[0]) + StringToBytes(s[1..])
  }

  /** Every character but NUL encodes to a well-formed sequence whose lead byte announces its length and which decodes back to it. */
  lemma EncodeDecodeChar(c: char)
    requires c != '\0'
    ensures LeadLength(EncodeChar(c)[0]) == |EncodeChar(c)|
    ensures IsValidUtf8(EncodeChar(c))
    ensures DecodeChar(EncodeChar(c)) == c
  {
    var cp := c as int;
    if cp < 0x80 {
    } else if cp < 0x800 {
      EncodeTwo(c);
    } else if cp < 0x10000 {
      EncodeThree(c);
    } else {
      EncodeFour(c);
    }
  }

  lemma EncodeTwo(c: char)
    requires 0x80 <= c as int < 0x800
    ensures LeadLength(EncodeChar(c)[0]) == |EncodeChar(c)| == 2
    ensures IsValidUtf8(EncodeChar(c)) && DecodeChar(EncodeChar(c)) == c
  {
    var cp := c as int;
    assert EncodeChar(c) == [0xC0 + cp / 64, 0x80 + cp % 64];
  }

  lemma EncodeThree(c: char)
    requires 0x800 <= c as int < 0x10000
    ensures LeadLength(EncodeChar(c)[0]) == |EncodeChar(c)| == 3
    ensures IsValidUtf8(EncodeChar(c)) && DecodeChar(EncodeChar(c)) == c
  {
    var cp := c as int;
    var hi, q, lo := cp / 4096, cp / 64 % 64, cp % 64;
    DivMod64(cp);
    assert cp == hi * 4096 + q * 64 + lo;
    assert cp < 0xD800 || cp >= 0xE000;
    assert hi == 0 ==> q >= 32;
    assert hi == 13 ==> q < 32;
    assert EncodeChar(c) == [0xE0 + hi, 0x80 + q, 0x80 + lo];
    ValidThree(hi, q, lo);
  }

  /** Three bytes that spell a code point from 0x800 to 0xFFFF, surrogates excepted, form valid UTF-8. */
  lemma ValidThree(hi: int, q: int, lo: int)
    requires 0 <= hi < 16 && 0 <= q < 64 && 0 <= lo < 64
    requires hi == 0 ==> q >= 32
    requires hi == 13 ==> q < 32
    ensures IsValidUtf8([0xE0 + hi, 0x80 + q, 0x80 + lo])
    ensures ThreeByteValue([0xE0 + hi, 0x80 + q, 0x80 + lo]) == hi * 4096 + q * 64 + lo
  {
    var s: seq<byte> := [0xE0 + hi, 0x80 + q, 0x80 + lo];
    assert SignedByte(s[0]) == 0xE0 + hi - 256;
    assert SignedByte(s[1]) == 0x80 + q - 256;
    assert SignedByte(s[2]) == 0x80 + lo - 256;
  }

  lemma EncodeFour(c: char)
    requires 0x10000 <= c as int
    ensures LeadLength(EncodeChar(c)[0]) == |EncodeChar(c)| == 4
    ensures IsValidUtf8(EncodeChar(c)) && DecodeChar(EncodeChar(c)) == c
  {
    var cp := c as int;
    var top, p, q, lo := cp / 262144, cp / 4096 % 64, cp / 64 % 64, cp % 64;
    DivMod64(cp);
    DivMod64(cp / 64);
    assert cp / 64 / 64 == cp / 4096 && cp / 4096 / 64 == cp / 262144;
    assert cp == top * 262144 + p * 4096 + q * 64 + lo;
    assert top == 0 ==> p >= 16;
    assert top == 4 ==> p < 16;
    var e := [0xF0 + top, 0x80 + p, 0x80 + q, 0x80 + lo];
    assert EncodeChar(c) == e;
    ValidFour(top, p, q, lo);
  }

  /** Four bytes that spell a code point from 0x10000 to 0x10FFFF form valid UTF-8. */
  lemma ValidFour(top: int, p: int, q: int, lo: int)
    requires 0 <= top <= 4 && 0 <= p < 64 && 0 <= q < 64 && 0 <= lo < 64
    requires top == 0 ==> p >= 16
    requires top == 4 ==> p < 16
    ensures IsValidUtf8([0xF0 + top, 0x80 + p, 0x80 + q, 0x80 + lo])
    ensures DecodeChar([0xF0 + top, 0x80 + p, 0x80 + q, 0x80 + lo]) as int == top * 262144 + p * 4096 + q * 64 + lo
  {
    var s: seq<byte> := [0xF0 + top, 0x80 + p, 0x80 + q, 0x80 + lo];
    assert SignedByte(s[0]) == 0xF0 + top - 256;
    assert SignedByte(s[1]) == 0x80 + p - 256;
    assert SignedByte(s[2]) == 0x80 + q - 256;
    assert SignedByte(s[3]) == 0x80 + lo - 256;
  }

  lemma DivMod64(n: nat)
    ensures n == n / 64 * 64 + n % 64
    ensures n / 64 == n / 4096 * 64 + n / 64 % 64
    ensures n / 4096 == n / 262144 * 64 + n / 4096 % 64
  {
  }

  /** stringToBytes is read back by the scan when the text holds no NUL. */
  lemma {:induction false} ScanOfEncoded(s: string)
    requires forall i :: 0 <= i < |s| ==> s[i] != '\0'
    ensures Scan(StringToBytes(s)) == (s, false)
  {
    if s != [] {
      var e := EncodeChar(s[0]);
      var b := StringToBytes(s);
      EncodeDecodeChar(s[0]);
      assert b == e + StringToBytes(s[1..]);
      assert b[0] == e[0] && b[..|e|] == e && b[|e|..] == StringToBytes(s[1..]);
      ScanOfEncoded(s[1..]);
      assert [s[0]] + s[1..] == s;
    }
  }

  /** bytesToString(stringToBytes(s)) == s for every text without NUL. */
  lemma Utf8RoundTrip(s: string)
    requires forall i :: 0 <= i < |s| ==> s[i] != '\0'
    ensures Utf8Prefix(StringToBytes(s)) == Some(s)
  {
    ScanOfEncoded(s);
    if s != [] {
      EncodeDecodeChar(s[0]);
      assert StringToBytes(s)[0] == EncodeChar(s[0])[0];
    }
  }

  /**
   * The characters decoded from the front of b, and whether decoding stopped
   * on an invalid or truncated sequence (a lead byte that announces no length
   * stops without being invalid).
   */
  function Scan(b: seq<byte>): (string, bool)
  {
    if b == [] then ("", false)
    else
      var n := LeadLength(b[0]);
      if n == 0 then ("", false)
      else if |b| < n then ("", true)
      else if !IsValidUtf8(b[..n]) then ("", true)
      else
        var rest := Scan(b[n..]);
        ([DecodeChar(b[..n])] + rest.0, rest.1)
  }

  /** bytesToString(ByteArray) as a function: None stands for Kotlin's null. */
  function Utf8Prefix(b: seq<byte>): Option<string>
  {
    if b == [] || b[0] == 0 then Some("")
    else
      var (text, invalid) := Scan(b);
      if invalid && text == "" then None else Some(text)
  }

  /**
   * The inner loop of bytesToString: copies the n bytes of one character
   * into nextChar, or reports that the array ends first.
   */
  method CopyChar(bytes: array<byte>, start: nat, n: nat, nextChar: array<byte>) returns (end: nat, truncated: bool)
    requires start <= bytes.Length && n <= nextChar.Length && bytes != nextChar
    modifies nextChar
    ensures truncated <==> bytes.Length - start < n
    ensures !truncated ==> end == start + n && nextChar[..n] == bytes[start..end]
  {
    end := start;
    var b := 0;
    truncated := false;
    while b < n
      invariant 0 <= b <= n && end == start + b && end <= bytes.Length
      invariant nextChar[..b] == bytes[start..end]
    {
      if end == bytes.Length {
        truncated := true;
        return;
      }
      nextChar[b] := bytes[end];
      end := end + 1;
      b := b + 1;
    }
  }

  /**
   * One turn of the outer loop of bytesToString: the length of the
   * character from its lead byte, its bytes copied, checked and decoded;
   * stop at a NUL or invalid lead byte, and at a truncated or invalid
   * sequence, which marks the string invalid.
   */
  method ScanChar(bytes: array<byte>, i: nat, nextChar: array<byte>) returns (stop: bool, invalid: bool, c: char, end: nat)
    requires i < bytes.Length && nextChar.Length == 4 && bytes != nextChar
    modifies nextChar
    ensures stop ==> Scan(bytes[i..]) == ("", invalid)
    ensures !stop ==> i < end <= bytes.Length && Scan(bytes[i..]) == ([c] + Scan(bytes[end..]).0, Scan(bytes[end..]).1)
  {
    ghost var rest := bytes[i..];
    assert rest[0] == bytes[i];
    var bytesInChar := LeadLength(bytes[i]);
    c := ' ';
    if bytesInChar == 0 {
      return true, false, c, i;
    }
    var truncated;
    end, truncated := CopyChar(bytes, i, bytesInChar, nextChar);
    if truncated {
      return true, true, c, end;
    }
    assert nextChar[..bytesInChar] == rest[..bytesInChar];
    if !IsValidUtf8(nextChar[..bytesInChar]) {
      return true, true, c, end;
    }
    assert rest[bytesInChar..] == bytes[end..];
    c := DecodeChar(nextChar[..bytesInChar]);
    return false, false, c, end;
  }

  method BytesToString(bytes: array<byte>) returns (r: Option<string>)
    ensures r == Utf8Prefix(bytes[..])
  {
    if bytes.Length == 0 || bytes[0] == 0 {
      return Some("");
    }
    var sb := "";
    var invalidString := false;
    var nextChar := new byte[4];
    var i := 0;
    assert bytes[0..] == bytes[..];
    assert "" + Scan(bytes[..]).0 == Scan(bytes[..]).0;
    while i < bytes.Length
      invariant 0 <= i <= bytes.Length
      invariant sb + Scan(bytes[i..]).0 == Scan(bytes[..]).0
      invariant Scan(bytes[i..]).1 == Scan(bytes[..]).1
    {
      var stop, invalid, c, end := ScanChar(bytes, i, nextChar);
      if stop {
        invalidString := invalid;
        assert sb + "" == sb;
        break;
      }
      assert sb + [c] + Scan(bytes[end..]).0 == sb + ([c] + Scan(bytes[end..]).0);
      sb := sb + [c];
      i := end;
    }
    if i == bytes.Length {
      assert bytes[i..] == [];
      assert sb + "" == sb;
    }
    assert (sb, invalidString) == Scan(bytes[..]);
    if invalidString && sb == "" {
      return None;
    }
    return Some(sb);
  }

  // ===========================================================================
  // reverse

  /** The elements in the opposite order. */
  function Reversed<T>(s: seq<T>): (r: seq<T>)
    ensures |r| == |s|
    ensures forall i :: 0 <= i < |s| ==> r[i] == s[|s| - 1 - i]
  {
    if s == [] then [] else Reversed(s[1..]) + [s[0]]
  }

  /** reverse: swaps the first and last element, the second and second-to-last, and so on. */
  method Reverse(bytes: array<byte>)
    modifies bytes
    ensures bytes[..] == Reversed(old(bytes[..]))
  {
    var size := bytes.Length;
    var index := 0;
    while index < size / 2
      invariant 0 <= index <= size / 2
      invariant forall k :: 0 <= k < index ==> bytes[k] == old(bytes[size - 1 - k]) && bytes[size - 1 - k] == old(bytes[k])
      invariant forall k :: index <= k < size - index ==> bytes[k] == old(bytes[k])
    {
      var temp := bytes[index];
      bytes[index] := bytes[size - index - 1];
      bytes[size - index - 1] := temp;
      index := index + 1;
    }
  }

  /** Reversing twice restores the sequence. */
  lemma ReversedTwice<T>(s: seq<T>)
    ensures Reversed(Reversed(s)) == s
  {
    var r := Reversed(Reversed(s));
    assert forall i :: 0 <= i < |s| ==> r[i] == s[i];
  }
}
