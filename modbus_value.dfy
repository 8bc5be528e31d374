/**
 * The cached state of one Modbus coil, discrete input or register
 * (ModbusValue.kt): the last value, when it was fetched, and whether the
 * last read failed softly (may be retried) or hard (may not).
 *
 * `ValueState` is the state as a value, with the source's queries and the
 * transitions its setters perform; the class `ModbusValue` holds the same
 * fields and changes them in place, each setter proved against the
 * matching transition.
 */
module ModbusValues {
  import opened Wrappers
  import opened ByteConversions
  import opened AddressClasses
  import opened Addresses

  /** 1900-01-01T00:00:00.000Z in epoch milliseconds: earlier timestamps are never valid. */
  const NEVER_VALID_BEFORE: int64 := -2208988800000

  /** 1888-08-08T08:08:08.888Z in epoch milliseconds: the timestamp of a read error. */
  const READERROR_TIMESTAMP: int64 := -2568642711112

  /** `Long.MIN_VALUE`: the timestamp of a value never fetched. */
  const NO_TIMESTAMP: int64 := -0x8000_0000_0000_0000

  /** Kotlin's `Long` subtraction, which wraps around in 64 bits. */
  function LongMinus(a: int64, b: int64): (r: int64)
    ensures -0x8000_0000_0000_0000 <= a - b < 0x8000_0000_0000_0000 ==> r == a - b
    ensures (r - (a - b)) % 0x1_0000_0000_0000_0000 == 0
  {
    var d := (a - b) % 0x1_0000_0000_0000_0000;
    if d >= 0x8000_0000_0000_0000 then d - 0x1_0000_0000_0000_0000 else d
  }

  /** Every field of a ModbusValue. The value is 0/1 for a discrete and the unsigned 16-bit word for a register. */
  datatype ValueState = ValueState(
    address: Address,
    fetchGroup: string,
    immutable: bool,
    value: Option<int>,
    comment: Option<string>,
    fetchTimestamp: int64,
    hardReadError: bool)
  {
    predicate HasValue()
    {
      value.Some?
    }

    /** No value, and the read-error timestamp. */
    predicate IsReadError()
    {
      value.None? && fetchTimestamp == READERROR_TIMESTAMP
    }

    /** The timestamp property: null when immutable or not after 1900. */
    function Timestamp(): (r: Option<int64>)
      ensures r.Some? <==> !immutable && fetchTimestamp > NEVER_VALID_BEFORE
      ensures r.Some? ==> r.value == fetchTimestamp
    {
      if fetchTimestamp <= NEVER_VALID_BEFORE || immutable then None else Some(fetchTimestamp)
    }

    /** needsToBeUpdated(now, maxAge), with the age computed in 64-bit arithmetic. */
    predicate NeedsToBeUpdated(now: int64, maxAge: int64)
    {
      if IsReadError() then false
      else if value.None? then true
      else if immutable then false
      else if fetchTimestamp < NEVER_VALID_BEFORE then true
      else LongMinus(now, fetchTimestamp) > maxAge
    }

    /** setValue(value, timestamp). */
    function WithValue(v: int, timestamp: int64): ValueState
    {
      this.(value := Some(v), fetchTimestamp := timestamp, hardReadError := false)
    }

    /** setValue(other): the value, timestamp and error flag of another value. */
    function WithValueOf(other: ValueState): ValueState
    {
      this.(value := other.value, fetchTimestamp := other.fetchTimestamp, hardReadError := other.hardReadError)
    }

    function WithSoftReadError(): ValueState
    {
      this.(value := None, fetchTimestamp := READERROR_TIMESTAMP, hardReadError := false)
    }

    function WithHardReadError(): ValueState
    {
      this.(value := None, fetchTimestamp := READERROR_TIMESTAMP, hardReadError := true)
    }

    /** clearSoftReadError: only a read error that is not hard is forgotten. */
    function WithoutSoftReadError(): ValueState
    {
      if IsReadError() && !hardReadError then this.(value := None, fetchTimestamp := NO_TIMESTAMP) else this
    }

    /** clear: no value and no timestamp; the error flag is left as it is. */
    function Cleared(): ValueState
    {
      this.(value := None, fetchTimestamp := NO_TIMESTAMP)
    }
  }

  /** The state of a newly constructed value. */
  function NewState(address: Address): ValueState
  {
    ValueState(address, "FG_" + ToCleanFormat(address), false, None, None, NO_TIMESTAMP, false)
  }

  // ---------------------------------------------------------------------------
  // Properties of the transitions

  /** After setValue the value is present, no read error remains, and only value, timestamp and flag changed. */
  lemma SetValueEffect(s: ValueState, v: int, timestamp: int64)
    ensures var t := s.WithValue(v, timestamp);
      t.HasValue() && !t.IsReadError() && !t.hardReadError && t.value == Some(v) && t.fetchTimestamp == timestamp &&
      t.address == s.address && t.fetchGroup == s.fetchGroup && t.immutable == s.immutable && t.comment == s.comment
  {
  }

  /** A fresh value with a valid timestamp needs an update exactly when it is older than maxAge. */
  lemma SetValueStaleness(s: ValueState, v: int, timestamp: int64, now: int64, maxAge: int64)
    requires !s.immutable && timestamp >= NEVER_VALID_BEFORE
    requires -0x8000_0000_0000_0000 <= now - timestamp < 0x8000_0000_0000_0000
    ensures s.WithValue(v, timestamp).NeedsToBeUpdated(now, maxAge) <==> now - timestamp > maxAge
    ensures s.WithValue(v, timestamp).Timestamp() == (if timestamp > NEVER_VALID_BEFORE then Some(timestamp) else None)
  {
  }

  /** After either read-error setter: no value, the read-error timestamp, a read error, no timestamp, never stale. */
  lemma ReadErrorSetters(s: ValueState, now: int64, maxAge: int64)
    ensures s.WithSoftReadError().IsReadError() && s.WithHardReadError().IsReadError()
    ensures s.WithSoftReadError().value.None? && s.WithHardReadError().value.None?
    ensures s.WithSoftReadError().fetchTimestamp == READERROR_TIMESTAMP == s.WithHardReadError().fetchTimestamp
    ensures s.WithSoftReadError().Timestamp().None? && s.WithHardReadError().Timestamp().None?
    ensures !s.WithSoftReadError().NeedsToBeUpdated(now, maxAge) && !s.WithHardReadError().NeedsToBeUpdated(now, maxAge)
  {
  }

  /** clearSoftReadError forgets a soft read error, so the value is fetched again; a hard one stays. */
  lemma ClearSoftReadErrorEffect(s: ValueState, now: int64, maxAge: int64)
    ensures s.WithSoftReadError().WithoutSoftReadError().NeedsToBeUpdated(now, maxAge)
    ensures !s.WithSoftReadError().WithoutSoftReadError().IsReadError()
    ensures s.WithHardReadError().WithoutSoftReadError() == s.WithHardReadError()
    ensures !s.IsReadError() ==> s.WithoutSoftReadError() == s
    ensures s.WithoutSoftReadError().WithoutSoftReadError() == s.WithoutSoftReadError()
  {
  }

  /** A read error never needs an update; otherwise a missing value always does. */
  lemma NeedsToBeUpdatedRules(s: ValueState, now: int64, maxAge: int64)
    ensures s.IsReadError() ==> !s.NeedsToBeUpdated(now, maxAge)
    ensures !s.IsReadError() && !s.HasValue() ==> s.NeedsToBeUpdated(now, maxAge)
    ensures s.HasValue() && s.immutable ==> !s.NeedsToBeUpdated(now, maxAge)
    ensures s.HasValue() && !s.immutable && s.fetchTimestamp < NEVER_VALID_BEFORE ==> s.NeedsToBeUpdated(now, maxAge)
  {
  }

  /** A value that is stale now is still stale later (as long as the age does not overflow). */
  lemma StalenessPersists(s: ValueState, now: int64, later: int64, maxAge: int64)
    requires now <= later && s.NeedsToBeUpdated(now, maxAge)
    requires s.fetchTimestamp >= NEVER_VALID_BEFORE ==>
      -0x8000_0000_0000_0000 <= now - s.fetchTimestamp && later - s.fetchTimestamp < 0x8000_0000_0000_0000
    ensures s.NeedsToBeUpdated(later, maxAge)
  {
  }

  /** clear forgets the value and any read error, so the value is fetched again. */
  lemma ClearedNeedsUpdate(s: ValueState, now: int64, maxAge: int64)
    ensures !s.Cleared().HasValue() && !s.Cleared().IsReadError()
    ensures s.Cleared().NeedsToBeUpdated(now, maxAge)
    ensures s.Cleared().Timestamp().None?
  {
  }

  /** setValue(other) copies exactly what the source copies: the rest of the state stays. */
  lemma SetValueOfEffect(s: ValueState, other: ValueState)
    ensures var t := s.WithValueOf(other);
      t.value == other.value && t.fetchTimestamp == other.fetchTimestamp && t.hardReadError == other.hardReadError &&
      t.IsReadError() == other.IsReadError() &&
      t.address == s.address && t.fetchGroup == s.fetchGroup && t.immutable == s.immutable && t.comment == s.comment
  {
  }

  // ---------------------------------------------------------------------------
  // The mutable object

  class ModbusValue {
    const address: Address
    var fetchGroup: string
    var immutable: bool
    var value: Option<int>
    var comment: Option<string>
    var fetchTimestamp: int64
    var hardReadError: bool

    function State(): ValueState
      reads this
    {
      ValueState(address, fetchGroup, immutable, value, comment, fetchTimestamp, hardReadError)
    }

    constructor(address: Address)
      ensures State() == NewState(address)
    {
      this.address := address;
      fetchGroup := "FG_" + ToCleanFormat(address);
      immutable := false;
      value := None;
      comment := None;
      fetchTimestamp := NO_TIMESTAMP;
      hardReadError := false;
    }

    /** clone: a new object with every field copied. */
    method Clone() returns (c: ModbusValue)
      ensures fresh(c) && c.State() == State()
    {
      c := new ModbusValue(address);
      c.fetchGroup := fetchGroup;
      c.immutable := immutable;
      c.value := value;
      c.comment := comment;
      c.fetchTimestamp := fetchTimestamp;
      c.hardReadError := hardReadError;
    }

    method SetValue(v: int, timestamp: int64)
      modifies this
      ensures State() == old(State()).WithValue(v, timestamp)
    {
      value := Some(v);
      fetchTimestamp := timestamp;
      hardReadError := false;
    }

    /** setValue(modbusValue): copies the other's value, timestamp and error flag (other may be this). */
    method SetValueOf(other: ModbusValue)
      modifies this
      ensures State() == old(State()).WithValueOf(old(other.State()))
    {
      var v, ts, hard := other.value, other.fetchTimestamp, other.hardReadError;
      value := v;
      fetchTimestamp := ts;
      hardReadError := hard;
    }

    method SetSoftReadError()
      modifies this
      ensures State() == old(State()).WithSoftReadError()
    {
      value := None;
      fetchTimestamp := READERROR_TIMESTAMP;
      hardReadError := false;
    }

    method SetHardReadError()
      modifies this
      ensures State() == old(State()).WithHardReadError()
    {
      value := None;
      fetchTimestamp := READERROR_TIMESTAMP;
      hardReadError := true;
    }

    method ClearSoftReadError()
      modifies this
      ensures State() == old(State()).WithoutSoftReadError()
    {
      if value.None? && fetchTimestamp == READERROR_TIMESTAMP && !hardReadError {
        value := None;
        fetchTimestamp := NO_TIMESTAMP;
      }
    }

    method Clear()
      modifies this
      ensures State() == old(State()).Cleared()
    {
      value := None;
      fetchTimestamp := NO_TIMESTAMP;
    }
  }

  /**
   * The constructor's class check: a value of `requiredBitsPerValue` bits
   * (1 for DiscreteValue, 16 for RegisterValue) on an address class of
   * another width fails with ModbusIllegalAddressClassException.
   */
  method NewValue(address: Address, requiredBitsPerValue: int) returns (r: Result<ModbusValue>)
    ensures r.Ok? <==> BitsPerValue(address.addressClass) == requiredBitsPerValue
    ensures r.Ok? ==> fresh(r.value) && r.value.State() == NewState(address)
    ensures r.Fail? ==> r.failure == IllegalAddressClass
  {
    if BitsPerValue(address.addressClass) != requiredBitsPerValue {
      return Fail(IllegalAddressClass);
    }
    var v := new ModbusValue(address);
    return Ok(v);
  }
}
