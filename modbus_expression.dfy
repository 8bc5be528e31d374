/**
 * The leaf expressions that read raw registers (ModbusExpression.kt): the
 * check that an expression's addresses form one unbroken run, the bytes
 * read from the register block and the printed form of the address list.
 */
module ModbusExpressions {
  import opened Wrappers
  import opened Text
  import opened AddressClasses
  import opened Addresses
  import opened AddressSets
  import opened ByteConversions
  import opened ModbusValues
  import opened ModbusBlocks

  /** The problems an address list can have, in the order they are looked for. */
  datatype Problem = NoAddresses | DuplicateAddresses | IllegalAddressRange

  /** Distinct addresses of one class that lie closer together than their number: one unbroken run. */
  predicate IsRun(addresses: seq<Address>)
  {
    |addresses| > 0 && Distinct(addresses) &&
    forall a, b :: a in addresses && b in addresses ==>
      a.addressClass == b.addressClass && b.physicalAddress - a.physicalAddress < |addresses|
  }

  // ---------------------------------------------------------------------------
  // problems, as written

  /**
   * The loop over the sorted set: each address must be the expected one, and
   * the expected one then moves on with `increment()`, which throws past
   * address 0xFFFF.
   */
  function WalkAsWritten(sorted: seq<Address>, expected: Address): Result<bool>
  {
    if |sorted| == 0 then Ok(true)
    else if sorted[0] != expected then Ok(false)
    else match Increment(expected, 1)
      case Fail(f) => Fail(f)
      case Ok(next) => WalkAsWritten(sorted[1..], next)
  }

  /** problems as the code computes it, including the throw of the final `increment()`. */
  function ProblemsAsWritten(addresses: seq<Address>): Result<seq<Problem>>
  {
    if |addresses| == 0 then Ok([NoAddresses])
    else
      var sorted := SortedSet(addresses);
      if |sorted| != |addresses| then Ok([DuplicateAddresses])
      else match WalkAsWritten(sorted, sorted[0])
        case Fail(f) => Fail(f)
        case Ok(contiguous) => if contiguous then Ok([]) else Ok([IllegalAddressRange])
  }

  /** Away from address 0xFFFF the walk answers whether the list is a run starting at the expected address. */
  lemma {:induction false} WalkAsWrittenMeaning(sorted: seq<Address>, expected: Address)
    requires forall a :: a in sorted ==> a.physicalAddress < MAX_PHYSICAL_ADDRESS
    ensures WalkAsWritten(sorted, expected) == Ok(|sorted| == 0 || (sorted[0] == expected && Consecutive(sorted)))
  {
    if |sorted| > 0 && sorted[0] == expected {
      var next := Increment(expected, 1).value;
      assert forall a :: a in sorted[1..] ==> a in sorted;
      WalkAsWrittenMeaning(sorted[1..], next);
      ConsecutiveCons(sorted, next);
    }
  }

  /** A list is a run when its second address follows the first and the rest is a run. */
  lemma ConsecutiveCons(s: seq<Address>, next: Address)
    requires |s| > 0 && next.addressClass == s[0].addressClass && next.physicalAddress == s[0].physicalAddress + 1
    ensures Consecutive(s) <==> |s| == 1 || (s[1..][0] == next && Consecutive(s[1..]))
  {
    if |s| > 1 && s[1] == next && Consecutive(s[1..]) {
      forall i | 1 < i < |s|
        ensures s[i].addressClass == s[i - 1].addressClass && s[i].physicalAddress == s[i - 1].physicalAddress + 1
      {
        assert s[i] == s[1..][i - 1] && s[i - 1] == s[1..][i - 2];
      }
    }
  }

  /** With no address at 0xFFFF, the code computes the corrected problems. */
  lemma ProblemsAsWrittenAgrees(addresses: seq<Address>)
    requires forall a :: a in addresses ==> a.physicalAddress < MAX_PHYSICAL_ADDRESS
    ensures ProblemsAsWritten(addresses) == Ok(Problems(addresses))
  {
    if |addresses| > 0 {
      WalkAsWrittenMeaning(SortedSet(addresses), SortedSet(addresses)[0]);
    }
  }

  /** A single register at the top of the address space throws instead of passing the check. */
  lemma ProblemsAsWrittenThrowsAtTop()
    ensures ProblemsAsWritten([Address(HoldingRegister, 0xFFFF)]) == Fail(IllegalArgument)
    ensures Problems([Address(HoldingRegister, 0xFFFF)]) == []
  {
    var s := [Address(HoldingRegister, 0xFFFF)];
    assert SortedSet(s) == s;
  }

  // ---------------------------------------------------------------------------
  // problems, corrected

  /** problems: none for a run; otherwise the first of: no addresses, duplicates, a broken run. */
  function Problems(addresses: seq<Address>): (r: seq<Problem>)
    ensures |r| <= 1
    ensures r == [NoAddresses] <==> |addresses| == 0
    ensures r == [DuplicateAddresses] <==> |addresses| > 0 && !Distinct(addresses)
  {
    if |addresses| == 0 then [NoAddresses]
    else
      var sorted := SortedSet(addresses);
      if |sorted| != |addresses| then [DuplicateAddresses]
      else if Consecutive(sorted) then []
      else [IllegalAddressRange]
  }

  /** No problem is reported exactly for a run of distinct addresses of one class. */
  lemma ProblemsMeaning(addresses: seq<Address>)
    ensures Problems(addresses) == [] <==> IsRun(addresses)
  {
    var n := |addresses|;
    if n > 0 {
      var sorted := SortedSet(addresses);
      if Problems(addresses) == [] {
        ConsecutiveRange(sorted);
      }
      if IsRun(addresses) {
        assert sorted[0] in addresses && sorted[n - 1] in addresses;
        KeysSpread(sorted, 0, n - 1);
        SameClassKeys(sorted[0], sorted[n - 1]);
        ConsecutiveSpan(sorted);
      }
    }
  }

  // ---------------------------------------------------------------------------
  // toString

  /** isSortedList: no problems, and the list is its own sorted set. */
  predicate IsSortedList(addresses: seq<Address>)
  {
    Problems(addresses) == [] && addresses == SortedSet(addresses)
  }

  /** A sorted list is exactly an ascending run. */
  lemma IsSortedListMeaning(addresses: seq<Address>)
    ensures IsSortedList(addresses) <==> |addresses| > 0 && Increasing(addresses) && Consecutive(addresses)
  {
    if |addresses| > 0 && Increasing(addresses) && Consecutive(addresses) {
      SortedSetOfIncreasing(addresses);
      assert Distinct(addresses);
    }
  }

  /** `joinToString(", ")` of the clean formats. */
  function JoinAddresses(addresses: seq<Address>): string
  {
    if |addresses| == 0 then ""
    else if |addresses| == 1 then ToCleanFormat(addresses[0])
    else ToCleanFormat(addresses[0]) + ", " + JoinAddresses(addresses[1..])
  }

  /** toString: "first # n" for a sorted run of several, the address itself for one, else the comma list. */
  function ToString(addresses: seq<Address>): string
  {
    if IsSortedList(addresses) then
      if |addresses| > 1 then ToCleanFormat(addresses[0]) + " # " + Decimal(|addresses|)
      else ToCleanFormat(addresses[0])
    else JoinAddresses(addresses)
  }

  /**
   * The short "first # n" form is printed exactly for ascending runs of more
   * than one address, and it names every address of the list.
   */
  lemma ToStringForms(addresses: seq<Address>)
    ensures |addresses| > 1 && Increasing(addresses) && Consecutive(addresses) ==>
      ToString(addresses) == ToCleanFormat(addresses[0]) + " # " + Decimal(|addresses|) &&
      forall a :: a in addresses <==>
        a.addressClass == addresses[0].addressClass &&
        addresses[0].physicalAddress <= a.physicalAddress < addresses[0].physicalAddress + |addresses|
    ensures |addresses| == 1 ==> ToString(addresses) == ToCleanFormat(addresses[0])
    ensures !(Increasing(addresses) && Consecutive(addresses)) ==> ToString(addresses) == JoinAddresses(addresses)
  {
    IsSortedListMeaning(addresses);
    if |addresses| > 0 && Consecutive(addresses) {
      ConsecutiveRange(addresses);
    }
  }

  // ---------------------------------------------------------------------------
  // getByteArray

  /** The value of an address in a block, without creating an entry (`getValue`). */
  function ValueAt(m: Values, a: Address): Option<int>
  {
    if a in m then m[a].value else None
  }

  /** Two big-endian bytes per address, or None as soon as one value is missing. */
  function RegisterBytes(m: Values, addresses: seq<Address>): (r: Option<seq<byte>>)
    ensures r.Some? ==> |r.value| == 2 * |addresses|
  {
    if |addresses| == 0 then Some([])
    else match ValueAt(m, addresses[0])
      case None => None
      case Some(v) =>
        match RegisterBytes(m, addresses[1..])
        case None => None
        case Some(rest) => Some(ToBytesBE(v, 2) + rest)
  }

  /**
   * The bytes exist exactly when every address has a value, and then bytes
   * 2i and 2i+1 are the high and low byte of the i-th address's value.
   */
  lemma {:induction false} RegisterBytesLayout(m: Values, addresses: seq<Address>)
    ensures RegisterBytes(m, addresses).Some? <==> forall a :: a in addresses ==> ValueAt(m, a).Some?
    ensures RegisterBytes(m, addresses).Some? ==> forall i :: 0 <= i < |addresses| ==>
      RegisterBytes(m, addresses).value[2 * i] == (ValueAt(m, addresses[i]).value / 256) % 256 &&
      RegisterBytes(m, addresses).value[2 * i + 1] == ValueAt(m, addresses[i]).value % 256
  {
    if |addresses| > 0 {
      RegisterBytesLayout(m, addresses[1..]);
      assert forall a :: a in addresses <==> a == addresses[0] || a in addresses[1..];
      var r := RegisterBytes(m, addresses);
      if r.Some? {
        var v := ValueAt(m, addresses[0]).value;
        var rest := RegisterBytes(m, addresses[1..]).value;
        assert r.value == ToBytesBE(v, 2) + rest;
        forall i | 0 <= i < |addresses|
          ensures r.value[2 * i] == (ValueAt(m, addresses[i]).value / 256) % 256
          ensures r.value[2 * i + 1] == ValueAt(m, addresses[i]).value % 256
        {
          if i > 0 {
            assert addresses[i] == addresses[1..][i - 1];
            assert r.value[2 * i] == rest[2 * (i - 1)];
            assert r.value[2 * i + 1] == rest[2 * (i - 1) + 1];
          }
        }
      }
    }
  }

  /** A known prefix in front of bytes that may be missing. */
  function Prefixed(prefix: seq<byte>, rest: Option<seq<byte>>): Option<seq<byte>>
  {
    if rest.None? then None else Some(prefix + rest.value)
  }

  /** One valued address more: its two bytes in front of the rest. */
  lemma RegisterBytesStep(m: Values, addresses: seq<Address>, prefix: seq<byte>, v: int)
    requires |addresses| > 0 && ValueAt(m, addresses[0]) == Some(v)
    ensures Prefixed(prefix, RegisterBytes(m, addresses)) ==
      Prefixed(prefix + [(v / 256) % 256, v % 256], RegisterBytes(m, addresses[1..]))
  {
    assert ToBytesBE(v, 2) == [(v / 256) % 256, v % 256];
    var rest := RegisterBytes(m, addresses[1..]);
    if rest.Some? {
      assert prefix + (ToBytesBE(v, 2) + rest.value) == prefix + [(v / 256) % 256, v % 256] + rest.value;
    }
  }

  /**
   * getByteArray on the register block of the first address's class: an
   * empty list has no class, a block of bits is refused, and otherwise the
   * register bytes are filled in address order.
   */
  method GetByteArray(block: ModbusBlock, addresses: seq<Address>) returns (r: Result<Option<seq<byte>>>)
    requires |addresses| > 0 ==> block.addressClass == addresses[0].addressClass
    ensures |addresses| == 0 ==> r == Fail(IndexOutOfBounds)
    ensures |addresses| > 0 && BitsPerValue(block.addressClass) != 16 ==> r == Fail(IllegalArgument)
    ensures |addresses| > 0 && BitsPerValue(block.addressClass) == 16 ==> r == Ok(RegisterBytes(block.values, addresses))
  {
    if |addresses| == 0 {
      return Fail(IndexOutOfBounds);
    }
    if BitsPerValue(block.addressClass) != 16 {
      return Fail(IllegalArgument);
    }
    var bytes := FillRegisterBytes(block, addresses);
    return Ok(bytes);
  }

  /** The loop of getByteArray: two bytes per address, stopping at the first address without a value. */
  method FillRegisterBytes(block: ModbusBlock, addresses: seq<Address>) returns (r: Option<seq<byte>>)
    ensures r == RegisterBytes(block.values, addresses)
  {
    ghost var goal := RegisterBytes(block.values, addresses);
    assert addresses[0..] == addresses;
    assert goal.Some? ==> [] + goal.value == goal.value;
    var bytes := new byte[2 * |addresses|];
    var next := 0;
    for i := 0 to |addresses|
      invariant next == 2 * i
      invariant goal == Prefixed(bytes[..next], RegisterBytes(block.values, addresses[i..]))
    {
      var value := block.GetValue(addresses[i]);
      if value.None? {
        assert RegisterBytes(block.values, addresses[i..]) == None;
        return None;
      }
      var v := value.value;
      RegisterBytesStep(block.values, addresses[i..], bytes[..next], v);
      assert addresses[i..][1..] == addresses[i + 1..];
      PutRegister(bytes, next, v);
      next := next + 2;
    }
    assert RegisterBytes(block.values, addresses[|addresses|..]) == Some([]);
    assert bytes[..next] + [] == bytes[..];
    return Some(bytes[..]);
  }

  /** The high and the low byte of a register value, written at `next`. */
  method PutRegister(bytes: array<byte>, next: int, v: int)
    requires 0 <= next && next + 2 <= bytes.Length
    modifies bytes
    ensures bytes[..next + 2] == old(bytes[..next]) + [(v / 256) % 256, v % 256]
  {
    bytes[next] := (v / 256) % 256;
    bytes[next + 1] := v % 256;
  }
}
