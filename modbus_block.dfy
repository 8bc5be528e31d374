/**
 * A block of cached values of one address class (ModbusBlock.kt), keyed
 * and ordered by address, and the text loaders that fill a block from a
 * list of hex words or discrete characters.
 *
 * The block's values are snapshots (`ValueState`) in a map. The pure
 * functions on such maps (`Entry`, `Touch`, `PutValue`, `MergeValues`, ...)
 * state what the block's methods do; the class `ModbusBlock` holds the
 * map and changes it in place.
 */
module ModbusBlocks {
  import opened Wrappers
  import opened Text
  import opened ByteConversions
  import opened AddressClasses
  import opened Addresses
  import opened ModbusValues

  type Values = map<Address, ValueState>

  /** Every key has the block's class and is the address of its value. */
  predicate WellFormed(c: AddressClass, m: Values)
  {
    forall a :: a in m ==> a.addressClass == c && m[a].address == a
  }

  /** The stored value, or the empty one `computeIfAbsent` would create. */
  function Entry(m: Values, a: Address): ValueState
  {
    if a in m then m[a] else NewState(a)
  }

  /** `computeIfAbsent(address) { newValue(address) }`: the map with an entry for a. */
  function Touch(m: Values, a: Address): (r: Values)
    ensures r.Keys == m.Keys + {a} && r[a] == Entry(m, a)
    ensures forall b :: b in m ==> r[b] == m[b]
  {
    m[a := Entry(m, a)]
  }

  /** put(value): the entry at value.address takes the value, timestamp and error flag. */
  function PutValue(m: Values, v: ValueState): (r: Values)
    ensures r.Keys == m.Keys + {v.address}
    ensures r[v.address] == Entry(m, v.address).WithValueOf(v)
    ensures forall b :: b in m && b != v.address ==> r[b] == m[b]
  {
    m[v.address := Entry(m, v.address).WithValueOf(v)]
  }

  /** merge: every incoming address put, every other address left as it was. */
  function MergeValues(m: Values, incoming: Values): (r: Values)
    ensures r.Keys == m.Keys + incoming.Keys
  {
    map a | a in m.Keys + incoming.Keys :: if a in incoming then Entry(m, a).WithValueOf(incoming[a]) else m[a]
  }

  /** clear: every value cleared, every key kept. */
  function ClearedValues(m: Values): (r: Values)
    ensures r.Keys == m.Keys
  {
    map a | a in m :: m[a].Cleared()
  }

  /** One more incoming value, at an address not yet merged, is one more put. */
  lemma MergeOneMore(m: Values, incoming: Values, v: ValueState)
    requires v.address !in incoming
    ensures MergeValues(m, incoming[v.address := v]) == PutValue(MergeValues(m, incoming), v)
  {
    var a := v.address;
    var l, r := MergeValues(m, incoming[a := v]), PutValue(MergeValues(m, incoming), v);
    assert l.Keys == r.Keys;
    forall b | b in l
      ensures l[b] == r[b]
    {
      if b != a && b in incoming {
        assert Entry(MergeValues(m, incoming), b) == Entry(m, b).WithValueOf(incoming[b]);
      }
    }
  }

  /** merge copies value, timestamp and error flag of each incoming address and leaves the others untouched. */
  lemma MergeEffect(m: Values, incoming: Values, a: Address)
    ensures a in incoming ==>
      var r := MergeValues(m, incoming)[a];
      r.value == incoming[a].value && r.fetchTimestamp == incoming[a].fetchTimestamp &&
      r.hardReadError == incoming[a].hardReadError && r.IsReadError() == incoming[a].IsReadError()
    ensures a in m && a !in incoming ==> MergeValues(m, incoming)[a] == m[a]
    ensures a in m ==> MergeValues(m, incoming)[a].comment == m[a].comment && MergeValues(m, incoming)[a].immutable == m[a].immutable
  {
  }

  /** MergeEffect at every address: the incoming values are taken over, the other values kept. */
  lemma MergeEffects(m: Values, incoming: Values)
    ensures forall a :: a in incoming ==>
      MergeValues(m, incoming)[a].value == incoming[a].value &&
      MergeValues(m, incoming)[a].hardReadError == incoming[a].hardReadError
    ensures forall a :: a in m && a !in incoming ==> MergeValues(m, incoming)[a] == m[a]
  {
    forall a | a in m.Keys + incoming.Keys
      ensures a in incoming ==>
        MergeValues(m, incoming)[a].value == incoming[a].value &&
        MergeValues(m, incoming)[a].hardReadError == incoming[a].hardReadError
      ensures a in m && a !in incoming ==> MergeValues(m, incoming)[a] == m[a]
    {
      MergeEffect(m, incoming, a);
    }
  }

  /** Merging the same block a second time changes nothing. */
  lemma MergeIdempotent(m: Values, incoming: Values)
    ensures MergeValues(MergeValues(m, incoming), incoming) == MergeValues(m, incoming)
  {
    var once := MergeValues(m, incoming);
    var twice := MergeValues(once, incoming);
    forall a | a in twice
      ensures twice[a] == once[a]
    {
      if a in incoming {
        assert Entry(once, a) == once[a];
      }
    }
  }

  /** A merge keeps the block well formed. */
  lemma MergeWellFormed(c: AddressClass, m: Values, incoming: Values)
    requires WellFormed(c, m) && WellFormed(c, incoming)
    ensures WellFormed(c, MergeValues(m, incoming))
  {
  }

  /** clear keeps the keys and comments and forgets every value and read error. */
  lemma ClearEffect(m: Values, a: Address, now: int64, maxAge: int64)
    requires a in m
    ensures a in ClearedValues(m)
    ensures ClearedValues(m)[a].comment == m[a].comment
    ensures !ClearedValues(m)[a].HasValue() && !ClearedValues(m)[a].IsReadError()
    ensures ClearedValues(m)[a].NeedsToBeUpdated(now, maxAge)
  {
    ClearedNeedsUpdate(m[a], now, maxAge);
  }

  /** The smallest key in the compareTo order. */
  predicate IsFirstKey(m: Values, a: Address)
  {
    a in m && forall b :: b in m ==> SortKey(a) <= SortKey(b)
  }

  /** The largest key in the compareTo order. */
  predicate IsLastKey(m: Values, a: Address)
  {
    a in m && forall b :: b in m ==> SortKey(b) <= SortKey(a)
  }

  /** Only one key can be the first. */
  lemma FirstKeyUnique(m: Values, a: Address, b: Address)
    requires IsFirstKey(m, a) && IsFirstKey(m, b)
    ensures a == b
  {
    CompareSortKey(a, b);
  }

  /** The values at the addresses lo..hi of class c, with an empty value where m has none. */
  function Span(m: Values, c: AddressClass, lo: PhysicalAddress, hi: int): (r: seq<ValueState>)
    requires lo - 1 <= hi <= MAX_PHYSICAL_ADDRESS
    ensures |r| == hi - lo + 1
    decreases hi - lo
  {
    if hi < lo then [] else Span(m, c, lo, hi - 1) + [Entry(m, Address(c, hi))]
  }

  /** Element i of a span is the entry at address lo + i. */
  lemma {:induction false} SpanAt(m: Values, c: AddressClass, lo: PhysicalAddress, hi: int, i: int)
    requires lo - 1 <= hi <= MAX_PHYSICAL_ADDRESS && 0 <= i <= hi - lo
    ensures Span(m, c, lo, hi)[i] == Entry(m, Address(c, lo + i))
    decreases hi - lo
  {
    if i < hi - lo {
      SpanAt(m, c, lo, hi - 1, i);
    }
  }

  /** In a well-formed map, the first key's class and address are not after the last key's. */
  lemma FirstNotAfterLast(m: Values, f: Address, l: Address)
    requires IsFirstKey(m, f) && IsLastKey(m, l)
    ensures SortKey(f) <= SortKey(l)
  {
  }

  /**
   * Of a well-formed map whose first and last keys are f and l, the span
   * from f to l lists address f.physicalAddress + i at position i and
   * holds every stored value at its own position.
   */
  lemma SpanAddresses(m: Values, c: AddressClass, lo: PhysicalAddress, hi: PhysicalAddress)
    requires WellFormed(c, m) && lo <= hi
    requires IsFirstKey(m, Address(c, lo)) && IsLastKey(m, Address(c, hi))
    ensures forall i :: 0 <= i < |Span(m, c, lo, hi)| ==>
      Span(m, c, lo, hi)[i].address.addressClass == c && Span(m, c, lo, hi)[i].address.physicalAddress == lo + i
    ensures forall a :: a in m ==>
      lo <= a.physicalAddress <= hi && Span(m, c, lo, hi)[a.physicalAddress - lo] == m[a]
  {
    var s := Span(m, c, lo, hi);
    forall i | 0 <= i < |s|
      ensures s[i].address.addressClass == c && s[i].address.physicalAddress == lo + i
    {
      SpanAt(m, c, lo, hi, i);
    }
    forall a | a in m
      ensures lo <= a.physicalAddress <= hi && s[a.physicalAddress - lo] == m[a]
    {
      assert SortKey(Address(c, lo)) <= SortKey(a) <= SortKey(Address(c, hi));
      SpanAt(m, c, lo, hi, a.physicalAddress - lo);
      assert Address(c, a.physicalAddress) == a;
    }
  }

  // ---------------------------------------------------------------------------
  // The block

  class ModbusBlock {
    const addressClass: AddressClass
    var values: Values

    predicate Valid()
      reads this
    {
      WellFormed(addressClass, values)
    }

    constructor(addressClass: AddressClass)
      ensures this.addressClass == addressClass && values == map[] && Valid()
    {
      this.addressClass := addressClass;
      values := map[];
    }

    /** get(address): the entry, created empty when absent; another class fails. */
    method Get(address: Address) returns (r: Result<ValueState>)
      modifies this
      ensures address.addressClass != addressClass ==> r == Fail(IllegalAddressClass) && values == old(values)
      ensures address.addressClass == addressClass ==> r == Ok(Entry(old(values), address)) && values == Touch(old(values), address)
      ensures old(Valid()) ==> Valid()
    {
      if address.addressClass != addressClass {
        return Fail(IllegalAddressClass);
      }
      var v := Entry(values, address);
      values := values[address := v];
      return Ok(v);
    }

    /** setValue(address): create the entry if absent. */
    method SetAbsent(address: Address) returns (r: Result<()>)
      modifies this
      ensures r.Ok? <==> address.addressClass == addressClass
      ensures r.Fail? ==> r.failure == IllegalAddressClass && values == old(values)
      ensures r.Ok? ==> values == Touch(old(values), address)
      ensures old(Valid()) ==> Valid()
    {
      var g := Get(address);
      if g.Fail? {
        return Fail(g.failure);
      }
      return Ok(());
    }

    /** setReadError(address): the entry becomes a soft read error. */
    method SetReadError(address: Address) returns (r: Result<()>)
      modifies this
      ensures r.Ok? <==> address.addressClass == addressClass
      ensures r.Fail? ==> r.failure == IllegalAddressClass && values == old(values)
      ensures r.Ok? ==> values == old(values)[address := Entry(old(values), address).WithSoftReadError()]
      ensures old(Valid()) ==> Valid()
    {
      var g := Get(address);
      if g.Fail? {
        return Fail(g.failure);
      }
      values := values[address := g.value.WithSoftReadError()];
      return Ok(());
    }

    /** setValue(address, value, timestamp). */
    method SetValue(address: Address, v: int, timestamp: int64) returns (r: Result<()>)
      modifies this
      ensures r.Ok? <==> address.addressClass == addressClass
      ensures r.Fail? ==> r.failure == IllegalAddressClass && values == old(values)
      ensures r.Ok? ==> values == old(values)[address := Entry(old(values), address).WithValue(v, timestamp)]
      ensures old(Valid()) ==> Valid()
    {
      var g := Get(address);
      if g.Fail? {
        return Fail(g.failure);
      }
      values := values[address := g.value.WithValue(v, timestamp)];
      return Ok(());
    }

    /** put(value): the entry at the value's address copies its value, timestamp and error flag. */
    method Put(v: ValueState) returns (r: Result<()>)
      modifies this
      ensures r.Ok? <==> v.address.addressClass == addressClass
      ensures r.Fail? ==> r.failure == IllegalAddressClass && values == old(values)
      ensures r.Ok? ==> values == PutValue(old(values), v)
      ensures old(Valid()) ==> Valid()
    {
      var g := Get(v.address);
      if g.Fail? {
        return Fail(g.failure);
      }
      values := values[v.address := g.value.WithValueOf(v)];
      return Ok(());
    }

    /**
     * set(address, value): an existing entry given a value is updated
     * through setValue at the value's own address; anything else stores
     * the value as it is, without a class check.
     */
    method Set(address: Address, v: ValueState) returns (r: Result<()>)
      modifies this
      ensures address in old(values) && v.HasValue() ==>
        (r.Ok? <==> v.address.addressClass == addressClass) &&
        (r.Ok? ==> values == old(values)[v.address := Entry(old(values), v.address).WithValue(v.value.value, v.fetchTimestamp)])
      ensures !(address in old(values) && v.HasValue()) ==> r.Ok? && values == old(values)[address := v]
      ensures r.Fail? ==> r.failure == IllegalAddressClass && values == old(values)
      ensures old(Valid()) && address.addressClass == addressClass && v.address == address ==> Valid()
    {
      if address in values && v.HasValue() {
        r := SetValue(v.address, v.value.value, v.fetchTimestamp);
      } else {
        values := values[address := v];
        r := Ok(());
      }
    }

    /** merge(block): every value of the other block put into this one. */
    method Merge(other: ModbusBlock) returns (r: Result<()>)
      requires other.Valid()
      modifies this
      ensures r.Ok? <==> other.addressClass == addressClass
      ensures r.Fail? ==> r.failure == IllegalAddressClass && values == old(values)
      ensures r.Ok? ==> values == MergeValues(old(values), old(other.values))
      ensures old(Valid()) ==> Valid()
    {
      if other.addressClass != addressClass {
        return Fail(IllegalAddressClass);
      }
      var incoming := other.values;
      var todo := incoming.Keys;
      ghost var done: Values := map[];
      assert MergeValues(values, done) == values;
      while todo != {}
        invariant todo <= incoming.Keys
        invariant done.Keys == incoming.Keys - todo
        invariant forall a :: a in done ==> done[a] == incoming[a]
        invariant values == MergeValues(old(values), done)
        invariant old(Valid()) ==> Valid()
        decreases todo
      {
        var a :| a in todo;
        var p := Put(incoming[a]);
        MergeOneMore(old(values), done, incoming[a]);
        done := done[a := incoming[a]];
        todo := todo - {a};
      }
      assert done == incoming;
      return Ok(());
    }

    /** clear: every value cleared (the comments are kept). */
    method Clear()
      modifies this
      ensures values == ClearedValues(old(values))
      ensures old(Valid()) ==> Valid()
    {
      var todo := values.Keys;
      while todo != {}
        invariant todo <= values.Keys && values.Keys == old(values).Keys
        invariant forall a :: a in values ==> values[a] == if a in todo then old(values)[a] else old(values)[a].Cleared()
        decreases todo
      {
        var a :| a in todo;
        values := values[a := values[a].Cleared()];
        todo := todo - {a};
      }
    }

    /** getValue(address): the value, or null when there is no entry. */
    function GetValue(address: Address): (r: Option<int>)
      reads this
      ensures r.Some? ==> address in values && values[address].HasValue() && r.value == values[address].value.value
      ensures address in values && values[address].HasValue() ==> r.Some?
    {
      if address in values then values[address].value else None
    }

    function Size(): nat
      reads this
    {
      |values|
    }

    /** firstAddress: the smallest key, or null for an empty block. */
    method FirstAddress() returns (r: Option<Address>)
      ensures r.None? <==> values == map[]
      ensures r.Some? ==> IsFirstKey(values, r.value)
    {
      if values == map[] {
        return None;
      }
      var todo := values.Keys;
      var best :| best in todo;
      while todo != {}
        invariant todo <= values.Keys && best in values
        invariant forall b :: b in values && b !in todo ==> SortKey(best) <= SortKey(b)
        decreases todo
      {
        var a :| a in todo;
        if SortKey(a) < SortKey(best) {
          best := a;
        }
        todo := todo - {a};
      }
      return Some(best);
    }

    /** The largest key (a helper of noGapsValuesList). */
    method LastAddress() returns (r: Option<Address>)
      ensures r.None? <==> values == map[]
      ensures r.Some? ==> IsLastKey(values, r.value)
    {
      if values == map[] {
        return None;
      }
      var todo := values.Keys;
      var best :| best in todo;
      while todo != {}
        invariant todo <= values.Keys && best in values
        invariant forall b :: b in values && b !in todo ==> SortKey(b) <= SortKey(best)
        decreases todo
      {
        var a :| a in todo;
        if SortKey(a) > SortKey(best) {
          best := a;
        }
        todo := todo - {a};
      }
      return Some(best);
    }

    /**
     * noGapsValuesList: one value per address from the first key to the
     * last, the stored value where there is one and an empty one between.
     */
    method NoGapsValuesList() returns (r: seq<ValueState>)
      requires Valid()
      ensures values == map[] <==> r == []
      ensures r != [] ==>
        IsFirstKey(values, r[0].address) && IsLastKey(values, r[|r| - 1].address) &&
        r == Span(values, addressClass, r[0].address.physicalAddress, r[|r| - 1].address.physicalAddress)
    {
      var first := FirstAddress();
      var last := LastAddress();
      if first.None? {
        return [];
      }
      var f, l := first.value, last.value;
      FirstNotAfterLast(values, f, l);
      r := [];
      var p := f.physicalAddress;
      while p <= l.physicalAddress
        invariant f.physicalAddress <= p <= l.physicalAddress + 1
        invariant r == Span(values, addressClass, f.physicalAddress, p - 1)
        decreases l.physicalAddress + 1 - p
      {
        r := r + [Entry(values, Address(addressClass, p))];
        p := p + 1;
      }
      SpanAddresses(values, addressClass, f.physicalAddress, l.physicalAddress);
      assert r[0].address == f && r[|r| - 1].address == l;
    }

    /** clone: a new block of the same class holding copies of every value. */
    method Clone() returns (b: ModbusBlock)
      ensures fresh(b) && b.addressClass == addressClass && b.values == values
    {
      b := new ModbusBlock(addressClass);
      b.values := values;
    }
  }

  /**
   * The block constructor's class check: a RegisterBlock needs 16 bits per
   * value and a DiscreteBlock 1, else ModbusIllegalAddressClassException.
   */
  method NewBlock(c: AddressClass, requiredBitsPerValue: int) returns (r: Result<ModbusBlock>)
    ensures r.Ok? <==> BitsPerValue(c) == requiredBitsPerValue
    ensures r.Ok? ==> fresh(r.value) && r.value.addressClass == c && r.value.values == map[]
    ensures r.Fail? ==> r.failure == IllegalAddressClass
  {
    if BitsPerValue(c) != requiredBitsPerValue {
      return Fail(IllegalAddressClass);
    }
    var b := new ModbusBlock(c);
    return Ok(b);
  }
}
