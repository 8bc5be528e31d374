/**
 * The in-memory Modbus device of MockedModbusDevice.kt: one stored block
 * per address class for registers and one for discretes, filled from
 * blocks or text, and read back a range at a time the way a real device
 * answers: all values, or a read error for the whole range.
 *
 * The stored blocks are kept as value maps (`Values`); the clock
 * (`System.currentTimeMillis()`) is the parameter `now`.
 */
module MockedDevices {
  import opened Wrappers
  import opened ByteConversions
  import opened AddressClasses
  import opened Addresses
  import opened ModbusValues
  import opened ModbusBlocks
  import opened ModbusBlockLoaders

  /** How a range read ends. */
  datatype Outcome =
    | Found(values: Values)   // the valued entries of the range
    | ReadErrorFound          // some entry of the range is a read error
    | OutOfRange              // the range passes address 65535

  /** The stored block after the read, and the outcome. */
  datatype Scan = Scan(stored: Values, outcome: Outcome)

  /**
   * The read loop of getRegisters/getDiscretes from address p up to (not
   * including) end: each address is fetched with `get` (which creates an
   * empty entry); a read error ends the read; a valued entry is stamped
   * with `now` and added to the result.
   */
  function ReadRange(stored: Values, found: Values, c: AddressClass, p: int, end: int, now: int64): Scan
    requires p >= 0
    decreases end - p
  {
    if p >= end then Scan(stored, Found(found))
    else if p > MAX_PHYSICAL_ADDRESS then Scan(stored, OutOfRange)
    else
      var a := Address(c, p);
      var v := Entry(stored, a);
      if v.IsReadError() then Scan(stored[a := v], ReadErrorFound)
      else if v.HasValue() then
        var stamped := v.(fetchTimestamp := now);
        ReadRange(stored[a := stamped], found[a := stamped], c, p + 1, end, now)
      else ReadRange(stored[a := v], found, c, p + 1, end, now)
  }

  /** Whether address a lies in [p, end) of class c. */
  predicate InRange(a: Address, c: AddressClass, p: int, end: int)
  {
    a.addressClass == c && p <= a.physicalAddress < end
  }

  /**
   * What a read of [p, end) answers, computed on the stored entries as
   * they were before the read (the read only changes entries it has
   * already passed).
   */
  function ReadOutcome(stored: Values, c: AddressClass, p: int, end: int, now: int64): (r: Outcome)
    requires p >= 0
    ensures r.Found? ==> forall a :: a in r.values ==>
      InRange(a, c, p, end) && Entry(stored, a).HasValue() && r.values[a] == Entry(stored, a).(fetchTimestamp := now)
    decreases end - p
  {
    if p >= end then Found(map[])
    else if p > MAX_PHYSICAL_ADDRESS then OutOfRange
    else
      var v := Entry(stored, Address(c, p));
      if v.IsReadError() then ReadErrorFound
      else
        var rest := ReadOutcome(stored, c, p + 1, end, now);
        if rest.Found? && v.HasValue() then Found(rest.values[Address(c, p) := v.(fetchTimestamp := now)])
        else rest
  }

  /** The values found before address p, put in front of the outcome of the rest. */
  function Prepend(found: Values, o: Outcome): Outcome
  {
    if o.Found? then Found(found + o.values) else o
  }

  /** The outcome depends only on the entries of the range. */
  lemma {:induction false} ReadOutcomeFrame(s1: Values, s2: Values, c: AddressClass, p: int, end: int, now: int64)
    requires p >= 0
    requires forall a :: InRange(a, c, p, end) ==> Entry(s1, a) == Entry(s2, a)
    ensures ReadOutcome(s1, c, p, end, now) == ReadOutcome(s2, c, p, end, now)
    decreases end - p
  {
    if p < end && p <= MAX_PHYSICAL_ADDRESS {
      assert InRange(Address(c, p), c, p, end);
      ReadOutcomeFrame(s1, s2, c, p + 1, end, now);
    }
  }

  /** The loop-shaped read and the outcome function agree. */
  lemma {:induction false} ReadRangeOutcome(stored: Values, found: Values, c: AddressClass, p: int, end: int, now: int64)
    requires p >= 0
    ensures ReadRange(stored, found, c, p, end, now).outcome == Prepend(found, ReadOutcome(stored, c, p, end, now))
    decreases end - p
  {
    if p < end && p <= MAX_PHYSICAL_ADDRESS {
      var a0 := Address(c, p);
      var v := Entry(stored, a0);
      var rest := ReadOutcome(stored, c, p + 1, end, now);
      if v.IsReadError() {
      } else if v.HasValue() {
        var stamped := v.(fetchTimestamp := now);
        var stored' := stored[a0 := stamped];
        ReadRangeOutcome(stored', found[a0 := stamped], c, p + 1, end, now);
        ReadOutcomeFrame(stored', stored, c, p + 1, end, now);
        if rest.Found? {
          StampedInFront(found, rest.values, a0, stamped);
        }
      } else {
        var stored' := stored[a0 := v];
        ReadRangeOutcome(stored', found, c, p + 1, end, now);
        ReadOutcomeFrame(stored', stored, c, p + 1, end, now);
      }
    }
  }

  /** Stamping the first address of a range into the values found before it or into those found after it is the same. */
  lemma StampedInFront(found: Values, rest: Values, a0: Address, stamped: ValueState)
    requires a0 !in rest
    ensures found[a0 := stamped] + rest == found + rest[a0 := stamped]
  {
  }

  /**
   * A range read reports a read error exactly when an entry in the range
   * (below 65536) is one.
   */
  lemma {:induction false} ReadOutcomeError(stored: Values, c: AddressClass, p: int, end: int, now: int64)
    requires p >= 0
    ensures ReadOutcome(stored, c, p, end, now).ReadErrorFound? <==>
      exists q :: p <= q < end && q <= MAX_PHYSICAL_ADDRESS && Entry(stored, Address(c, q)).IsReadError()
    decreases end - p
  {
    if p < end && p <= MAX_PHYSICAL_ADDRESS {
      ReadOutcomeError(stored, c, p + 1, end, now);
      if Entry(stored, Address(c, p)).IsReadError() {
        assert p <= p < end;
      } else if exists q :: p <= q < end && q <= MAX_PHYSICAL_ADDRESS && Entry(stored, Address(c, q)).IsReadError() {
        var q :| p <= q < end && q <= MAX_PHYSICAL_ADDRESS && Entry(stored, Address(c, q)).IsReadError();
        assert q != p;
      }
    }
  }

  /**
   * A range read fails on the address range exactly when the range passes
   * 65535 and no entry before that is a read error.
   */
  lemma {:induction false} ReadOutcomeOutOfRange(stored: Values, c: AddressClass, p: int, end: int, now: int64)
    requires p >= 0
    ensures ReadOutcome(stored, c, p, end, now).OutOfRange? <==>
      end - 1 > MAX_PHYSICAL_ADDRESS && p < end &&
      forall q :: p <= q <= MAX_PHYSICAL_ADDRESS ==> !Entry(stored, Address(c, q)).IsReadError()
    decreases end - p
  {
    if p < end && p <= MAX_PHYSICAL_ADDRESS {
      ReadOutcomeOutOfRange(stored, c, p + 1, end, now);
      if Entry(stored, Address(c, p)).IsReadError() {
        assert !ReadOutcome(stored, c, p, end, now).OutOfRange?;
      }
    }
  }

  /** A read that ends normally returns every valued entry of the range. */
  lemma {:induction false} ReadOutcomeFound(stored: Values, c: AddressClass, p: int, end: int, now: int64, a: Address)
    requires p >= 0 && ReadOutcome(stored, c, p, end, now).Found?
    requires InRange(a, c, p, end) && Entry(stored, a).HasValue()
    ensures a in ReadOutcome(stored, c, p, end, now).values
    decreases end - p
  {
    if a.physicalAddress != p {
      ReadOutcomeFound(stored, c, p + 1, end, now, a);
    }
  }

  /**
   * `createReadErrorRegisterBlock(first, count)` / `createReadErrorDiscreteBlock`:
   * a soft read error at each of the count addresses from first (up to 65535).
   */
  function ReadErrorValues(c: AddressClass, p: int, count: int): Values
    requires p >= 0
    decreases count
  {
    if count <= 0 || p > MAX_PHYSICAL_ADDRESS then map[]
    else ReadErrorValues(c, p + 1, count - 1)[Address(c, p) := NewState(Address(c, p)).WithSoftReadError()]
  }

  /** Every address of the range is in the read-error block, each a soft read error. */
  lemma ReadErrorValuesCover(c: AddressClass, p: int, count: int, a: Address)
    requires p >= 0
    ensures a in ReadErrorValues(c, p, count) <==> InRange(a, c, p, p + count)
    ensures a in ReadErrorValues(c, p, count) ==> ReadErrorValues(c, p, count)[a].IsReadError()
    decreases count
  {
    ReadErrorValuesKeys(c, p, count, a);
    if a in ReadErrorValues(c, p, count) {
      ReadErrorValuesEntry(c, p, count, a);
      ReadErrorSetters(NewState(a), 0, 0);
    }
  }

  lemma {:induction false} ReadErrorValuesEntry(c: AddressClass, p: int, count: int, a: Address)
    requires p >= 0 && a in ReadErrorValues(c, p, count)
    ensures ReadErrorValues(c, p, count)[a] == NewState(a).WithSoftReadError()
    decreases count
  {
    if a != Address(c, p) {
      ReadErrorValuesEntry(c, p + 1, count - 1, a);
    }
  }

  lemma {:induction false} ReadErrorValuesKeys(c: AddressClass, p: int, count: int, a: Address)
    requires p >= 0
    ensures a in ReadErrorValues(c, p, count) <==> InRange(a, c, p, p + count)
    decreases count
  {
    if count > 0 && p <= MAX_PHYSICAL_ADDRESS {
      if a.addressClass != c || a.physicalAddress != p {
        ReadErrorValuesKeys(c, p + 1, count - 1, a);
      }
    }
  }

  /** The stored block of a class, or an empty one. */
  function StoredOrEmpty(blocks: map<AddressClass, Values>, c: AddressClass): Values
  {
    if c in blocks then blocks[c] else map[]
  }

  /** Every stored block has the bits per value of its kind and is well formed. */
  predicate BlocksValid(blocks: map<AddressClass, Values>, bits: int)
  {
    forall c :: c in blocks ==> BitsPerValue(c) == bits && WellFormed(c, blocks[c])
  }

  /**
   * The shared read of getRegisters (bits 16) and getDiscretes (bits 1):
   * the new stored blocks and the returned block.
   */
  method Read(blocks: map<AddressClass, Values>, bits: int, first: Address, count: int, now: int64)
    returns (blocks': map<AddressClass, Values>, r: Result<ModbusBlock>)
    ensures first.addressClass !in blocks ==> blocks' == blocks
    ensures first.addressClass !in blocks ==>
      (r.Ok? <==> BitsPerValue(first.addressClass) == bits) &&
      (r.Ok? ==> r.value.addressClass == first.addressClass && r.value.values == map[]) &&
      (r.Fail? ==> r.failure == IllegalAddressClass)
    ensures first.addressClass in blocks && BitsPerValue(first.addressClass) == bits ==>
      var p := first.physicalAddress;
      var stored := blocks[first.addressClass];
      blocks' == blocks[first.addressClass := ReadRange(stored, map[], first.addressClass, p, p + count, now).stored] &&
      match ReadOutcome(stored, first.addressClass, p, p + count, now)
      case Found(values) => r.Ok? && r.value.addressClass == first.addressClass && r.value.values == values
      case ReadErrorFound =>
        r.Ok? && r.value.addressClass == first.addressClass &&
        r.value.values == ReadErrorValues(first.addressClass, p, count)
      case OutOfRange => r == Fail(IllegalArgument)
  {
    var c := first.addressClass;
    if c !in blocks {
      blocks' := blocks;
      r := NewBlock(c, bits);
      return;
    }
    var created := NewBlock(c, bits);
    if created.Fail? {
      return blocks, Fail(created.failure);
    }
    var result := created.value;
    var p0 := first.physicalAddress;
    ReadRangeOutcome(blocks[c], map[], c, p0, p0 + count, now);
    var stored, outcome := ReadInto(result, blocks[c], c, p0, p0 + count, now);
    ghost var o := ReadOutcome(blocks[c], c, p0, p0 + count, now);
    assert outcome == Prepend(map[], o);
    match outcome
    case Found(values) =>
      assert map[] + o.values == o.values;
      return blocks[c := stored], Ok(result);
    case ReadErrorFound =>
      var errors := new ModbusBlock(c);
      errors.values := ReadErrorValues(c, p0, count);
      return blocks[c := stored], Ok(errors);
    case OutOfRange =>
      return blocks[c := stored], Fail(IllegalArgument);
  }

  /**
   * The read loop of getRegisters/getDiscretes: the entries of [p0, end)
   * fetched one at a time, the valued ones stamped and set into the
   * result block, until a read error or an address past 65535.
   */
  method ReadInto(result: ModbusBlock, stored: Values, c: AddressClass, p0: nat, end: int, now: int64)
    returns (stored': Values, outcome: Outcome)
    requires result.addressClass == c && result.values == map[]
    modifies result
    ensures result.addressClass == c
    ensures Scan(stored', outcome) == ReadRange(stored, map[], c, p0, end, now)
    ensures outcome.Found? ==> result.values == outcome.values
  {
    ghost var goal := ReadRange(stored, map[], c, p0, end, now);
    stored' := stored;
    var n := p0;
    while n < end
      invariant p0 <= n && (n <= end || n == p0)
      invariant result.addressClass == c
      invariant forall a :: a in result.values ==> !InRange(a, c, n, end)
      invariant goal == ReadRange(stored', result.values, c, n, end, now)
      decreases end - n
    {
      var a := Of(c, n);
      if a.Fail? {
        return stored', OutOfRange;
      }
      assert a.value == Address(c, n);
      var v := Entry(stored', a.value);
      if v.IsReadError() {
        return stored'[a.value := v], ReadErrorFound;
      }
      assert a.value !in result.values by {
        assert InRange(a.value, c, n, end);
      }
      ghost var before := (stored', result.values);
      stored' := ReadValue(result, stored', a.value, now);
      ReadRangeStep(before.0, before.1, c, n, end, now);
      n := n + 1;
    }
    return stored', Found(result.values);
  }

  /** One address of the read loop that holds no read error: fetched, and when valued stamped and set into the result. */
  method ReadValue(result: ModbusBlock, stored: Values, a: Address, now: int64) returns (stored': Values)
    requires a.addressClass == result.addressClass && a !in result.values && !Entry(stored, a).IsReadError()
    modifies result
    ensures (stored', result.values) == ReadValueStep(stored, old(result.values), a, now)
  {
    var v := Entry(stored, a);
    if v.HasValue() {
      var stamped := v.(fetchTimestamp := now);
      var _ := result.Set(a, stamped);
      return stored[a := stamped];
    }
    return stored[a := v];
  }

  /** The stored and found entries after reading address a, which holds no read error. */
  function ReadValueStep(stored: Values, found: Values, a: Address, now: int64): (Values, Values)
  {
    var v := Entry(stored, a);
    if v.HasValue() then (stored[a := v.(fetchTimestamp := now)], found[a := v.(fetchTimestamp := now)])
    else (stored[a := v], found)
  }

  /** A read of [n, end) that starts on an address without a read error goes on from n + 1. */
  lemma ReadRangeStep(stored: Values, found: Values, c: AddressClass, n: int, end: int, now: int64)
    requires 0 <= n < end && n <= MAX_PHYSICAL_ADDRESS && !Entry(stored, Address(c, n)).IsReadError()
    ensures var next := ReadValueStep(stored, found, Address(c, n), now);
      ReadRange(stored, found, c, n, end, now) == ReadRange(next.0, next.1, c, n + 1, end, now)
  {
  }

  class MockedModbusDevice {
    var registerBlocks: map<AddressClass, Values>
    var discreteBlocks: map<AddressClass, Values>

    predicate Valid()
      reads this
    {
      BlocksValid(registerBlocks, 16) && BlocksValid(discreteBlocks, 1)
    }

    constructor()
      ensures registerBlocks == map[] && discreteBlocks == map[] && Valid()
    {
      registerBlocks := map[];
      discreteBlocks := map[];
    }

    /** getRegisters(firstRegister, count) at time now. */
    method GetRegisters(first: Address, count: int, now: int64) returns (r: Result<ModbusBlock>)
      modifies this
      ensures discreteBlocks == old(discreteBlocks)
      ensures first.addressClass !in old(registerBlocks) ==>
        registerBlocks == old(registerBlocks) &&
        (r.Ok? <==> BitsPerValue(first.addressClass) == 16) &&
        (r.Ok? ==> r.value.values == map[]) &&
        (r.Fail? ==> r.failure == IllegalAddressClass)
      ensures first.addressClass in old(registerBlocks) && BitsPerValue(first.addressClass) == 16 ==>
        var p := first.physicalAddress;
        var stored := old(registerBlocks)[first.addressClass];
        registerBlocks == old(registerBlocks)[first.addressClass := ReadRange(stored, map[], first.addressClass, p, p + count, now).stored] &&
        match ReadOutcome(stored, first.addressClass, p, p + count, now)
        case Found(values) => r.Ok? && r.value.values == values
        case ReadErrorFound => r.Ok? && r.value.values == ReadErrorValues(first.addressClass, first.physicalAddress, count)
        case OutOfRange => r == Fail(IllegalArgument)
    {
      registerBlocks, r := Read(registerBlocks, 16, first, count, now);
    }

    /** getDiscretes(firstDiscrete, count) at time now. */
    method GetDiscretes(first: Address, count: int, now: int64) returns (r: Result<ModbusBlock>)
      modifies this
      ensures registerBlocks == old(registerBlocks)
      ensures first.addressClass !in old(discreteBlocks) ==>
        discreteBlocks == old(discreteBlocks) &&
        (r.Ok? <==> BitsPerValue(first.addressClass) == 1) &&
        (r.Ok? ==> r.value.values == map[]) &&
        (r.Fail? ==> r.failure == IllegalAddressClass)
      ensures first.addressClass in old(discreteBlocks) && BitsPerValue(first.addressClass) == 1 ==>
        var p := first.physicalAddress;
        var stored := old(discreteBlocks)[first.addressClass];
        discreteBlocks == old(discreteBlocks)[first.addressClass := ReadRange(stored, map[], first.addressClass, p, p + count, now).stored] &&
        match ReadOutcome(stored, first.addressClass, p, p + count, now)
        case Found(values) => r.Ok? && r.value.values == values
        case ReadErrorFound => r.Ok? && r.value.values == ReadErrorValues(first.addressClass, first.physicalAddress, count)
        case OutOfRange => r == Fail(IllegalArgument)
    {
      discreteBlocks, r := Read(discreteBlocks, 1, first, count, now);
    }

    /** addRegisters(block): merge into the stored block of the class, created empty when absent. */
    method AddRegisters(block: ModbusBlock) returns (r: Result<()>)
      requires block.Valid()
      modifies this
      ensures discreteBlocks == old(discreteBlocks)
      ensures r.Ok? <==> block.addressClass in old(registerBlocks) || BitsPerValue(block.addressClass) == 16
      ensures r.Fail? ==> r.failure == IllegalAddressClass && registerBlocks == old(registerBlocks)
      ensures r.Ok? ==>
        registerBlocks == old(registerBlocks)[block.addressClass := MergeValues(StoredOrEmpty(old(registerBlocks), block.addressClass), block.values)]
      ensures old(Valid()) ==> Valid()
    {
      registerBlocks, r := AddTo(registerBlocks, 16, block);
    }

    /** addDiscretes(block): the same for the discrete blocks. */
    method AddDiscretes(block: ModbusBlock) returns (r: Result<()>)
      requires block.Valid()
      modifies this
      ensures registerBlocks == old(registerBlocks)
      ensures r.Ok? <==> block.addressClass in old(discreteBlocks) || BitsPerValue(block.addressClass) == 1
      ensures r.Fail? ==> r.failure == IllegalAddressClass && discreteBlocks == old(discreteBlocks)
      ensures r.Ok? ==>
        discreteBlocks == old(discreteBlocks)[block.addressClass := MergeValues(StoredOrEmpty(old(discreteBlocks), block.addressClass), block.values)]
      ensures old(Valid()) ==> Valid()
    {
      discreteBlocks, r := AddTo(discreteBlocks, 1, block);
    }

    /** addRegister(value): put one value into the stored block of its class. */
    method AddRegister(v: ValueState) returns (r: Result<()>)
      modifies this
      ensures discreteBlocks == old(discreteBlocks)
      ensures r.Ok? <==> v.address.addressClass in old(registerBlocks) || BitsPerValue(v.address.addressClass) == 16
      ensures r.Fail? ==> r.failure == IllegalAddressClass && registerBlocks == old(registerBlocks)
      ensures r.Ok? ==>
        registerBlocks == old(registerBlocks)[v.address.addressClass := PutValue(StoredOrEmpty(old(registerBlocks), v.address.addressClass), v)]
    {
      registerBlocks, r := PutInto(registerBlocks, 16, v);
    }

    /** addDiscretes(value): put one value into the stored block of its class. */
    method AddDiscrete(v: ValueState) returns (r: Result<()>)
      modifies this
      ensures registerBlocks == old(registerBlocks)
      ensures r.Ok? <==> v.address.addressClass in old(discreteBlocks) || BitsPerValue(v.address.addressClass) == 1
      ensures r.Fail? ==> r.failure == IllegalAddressClass && discreteBlocks == old(discreteBlocks)
      ensures r.Ok? ==>
        discreteBlocks == old(discreteBlocks)[v.address.addressClass := PutValue(StoredOrEmpty(old(discreteBlocks), v.address.addressClass), v)]
    {
      discreteBlocks, r := PutInto(discreteBlocks, 1, v);
    }

    /** addRegisters(addressClass, firstPhysicalAddress, text): load the text and merge it in. */
    method AddRegisterText(c: AddressClass, firstPhysicalAddress: int, text: string) returns (r: Result<()>)
      modifies this
      ensures discreteBlocks == old(discreteBlocks)
      ensures Of(c, firstPhysicalAddress).Fail? ==> r == Fail(IllegalArgument) && registerBlocks == old(registerBlocks)
      ensures Of(c, firstPhysicalAddress).Ok? && RegisterLoad(text, Of(c, firstPhysicalAddress).value).Fail? ==>
        r == Fail(RegisterLoad(text, Of(c, firstPhysicalAddress).value).failure) && registerBlocks == old(registerBlocks)
      ensures Of(c, firstPhysicalAddress).Ok? && RegisterLoad(text, Of(c, firstPhysicalAddress).value).Ok? ==>
        r.Ok? && registerBlocks == old(registerBlocks)[c := MergeValues(StoredOrEmpty(old(registerBlocks), c), RegisterLoad(text, Of(c, firstPhysicalAddress).value).value)]
      ensures old(Valid()) ==> Valid()
    {
      var first := Of(c, firstPhysicalAddress);
      if first.Fail? {
        return Fail(first.failure);
      }
      var loaded := ToRegisterBlock(text, first.value);
      if loaded.Fail? {
        return Fail(loaded.failure);
      }
      r := AddRegisters(loaded.value);
    }

    /** addDiscretes(addressClass, firstPhysicalAddress, text): load the text and merge it in. */
    method AddDiscreteText(c: AddressClass, firstPhysicalAddress: int, text: string) returns (r: Result<()>)
      modifies this
      ensures registerBlocks == old(registerBlocks)
      ensures Of(c, firstPhysicalAddress).Fail? ==> r == Fail(IllegalArgument) && discreteBlocks == old(discreteBlocks)
      ensures Of(c, firstPhysicalAddress).Ok? && DiscreteLoad(text, Of(c, firstPhysicalAddress).value).Fail? ==>
        r == Fail(DiscreteLoad(text, Of(c, firstPhysicalAddress).value).failure) && discreteBlocks == old(discreteBlocks)
      ensures Of(c, firstPhysicalAddress).Ok? && DiscreteLoad(text, Of(c, firstPhysicalAddress).value).Ok? ==>
        r.Ok? && discreteBlocks == old(discreteBlocks)[c := MergeValues(StoredOrEmpty(old(discreteBlocks), c), DiscreteLoad(text, Of(c, firstPhysicalAddress).value).value)]
      ensures old(Valid()) ==> Valid()
    {
      var first := Of(c, firstPhysicalAddress);
      if first.Fail? {
        return Fail(first.failure);
      }
      var loaded := ToDiscreteBlock(text, first.value);
      if loaded.Fail? {
        return Fail(loaded.failure);
      }
      r := AddDiscretes(loaded.value);
    }

    /**
     * addModbusValues(firstAddress, text): registers or discretes by the
     * class's kind. The text is loaded from the first address; when it
     * loads, every loaded address holds the loaded value and every other
     * stored value is kept; when it does not, nothing changes.
     */
    method AddModbusValues(first: Address, text: string) returns (r: Result<()>)
      modifies this
      ensures BitsPerValue(first.addressClass) == 1 ==> registerBlocks == old(registerBlocks)
      ensures BitsPerValue(first.addressClass) == 16 ==> discreteBlocks == old(discreteBlocks)
      ensures var c := first.addressClass;
        var loaded := if BitsPerValue(c) == 1 then DiscreteLoad(text, first) else RegisterLoad(text, first);
        var before := if BitsPerValue(c) == 1 then old(discreteBlocks) else old(registerBlocks);
        var after := if BitsPerValue(c) == 1 then discreteBlocks else registerBlocks;
        (loaded.Fail? ==> r == Fail(loaded.failure) && after == before) &&
        (loaded.Ok? ==>
          r.Ok? && after == before[c := MergeValues(StoredOrEmpty(before, c), loaded.value)] &&
          (forall a :: a in loaded.value ==>
            (a in after[c] && after[c][a].value == loaded.value[a].value &&
             after[c][a].hardReadError == loaded.value[a].hardReadError)) &&
          (forall a :: a in StoredOrEmpty(before, c) && a !in loaded.value ==> after[c][a] == before[c][a]))
      ensures old(Valid()) ==> Valid()
    {
      var c := first.addressClass;
      assert Of(c, first.physicalAddress) == Ok(first);
      if BitsPerValue(c) == 1 {
        r := AddDiscreteText(c, first.physicalAddress, text);
        var loaded := DiscreteLoad(text, first);
        if loaded.Ok? {
          MergeEffects(StoredOrEmpty(old(discreteBlocks), c), loaded.value);
        }
      } else {
        r := AddRegisterText(c, first.physicalAddress, text);
        var loaded := RegisterLoad(text, first);
        if loaded.Ok? {
          MergeEffects(StoredOrEmpty(old(registerBlocks), c), loaded.value);
        }
      }
    }
  }

  /** `computeIfAbsent(c) { newBlock(c) }.merge(block)` on one kind of stored blocks. */
  method AddTo(blocks: map<AddressClass, Values>, bits: int, block: ModbusBlock)
    returns (blocks': map<AddressClass, Values>, r: Result<()>)
    requires block.Valid()
    ensures r.Ok? <==> block.addressClass in blocks || BitsPerValue(block.addressClass) == bits
    ensures r.Fail? ==> r.failure == IllegalAddressClass && blocks' == blocks
    ensures r.Ok? ==> blocks' == blocks[block.addressClass := MergeValues(StoredOrEmpty(blocks, block.addressClass), block.values)]
    ensures BlocksValid(blocks, bits) ==> BlocksValid(blocks', bits)
  {
    var c := block.addressClass;
    if c !in blocks && BitsPerValue(c) != bits {
      return blocks, Fail(IllegalAddressClass);
    }
    var target := new ModbusBlock(c);
    target.values := StoredOrEmpty(blocks, c);
    var merged := target.Merge(block);
    if BlocksValid(blocks, bits) {
      MergeWellFormed(c, StoredOrEmpty(blocks, c), block.values);
    }
    return blocks[c := target.values], Ok(());
  }

  /** `computeIfAbsent(c) { newBlock(c) }.put(value)` on one kind of stored blocks. */
  method PutInto(blocks: map<AddressClass, Values>, bits: int, v: ValueState)
    returns (blocks': map<AddressClass, Values>, r: Result<()>)
    ensures r.Ok? <==> v.address.addressClass in blocks || BitsPerValue(v.address.addressClass) == bits
    ensures r.Fail? ==> r.failure == IllegalAddressClass && blocks' == blocks
    ensures r.Ok? ==> blocks' == blocks[v.address.addressClass := PutValue(StoredOrEmpty(blocks, v.address.addressClass), v)]
  {
    var c := v.address.addressClass;
    if c !in blocks && BitsPerValue(c) != bits {
      return blocks, Fail(IllegalAddressClass);
    }
    var target := new ModbusBlock(c);
    target.values := StoredOrEmpty(blocks, c);
    var put := target.Put(v);
    return blocks[c := target.values], Ok(());
  }
}
