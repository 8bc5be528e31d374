/**
 * A Modbus address (Address.kt): an address class and a physical wire
 * address 0..65535, its textual notations and the parsers that read them.
 *
 * The register number of the Modicon notations is the physical address plus
 * the class's register-number offset (always 1). The constructor's range
 * check is the `Of` function; every `Address` value satisfies it.
 */
module Addresses {
  import opened Wrappers
  import opened Text
  import opened AddressClasses

  const MAX_PHYSICAL_ADDRESS: int := 0xFFFF

  type PhysicalAddress = x: int | 0 <= x <= MAX_PHYSICAL_ADDRESS

  datatype Address = Address(addressClass: AddressClass, physicalAddress: PhysicalAddress)

  /** The constructor: an address outside 0..65535 fails with IllegalArgument. */
  function Of(addressClass: AddressClass, physicalAddress: int): (r: Result<Address>)
    ensures r.Ok? <==> 0 <= physicalAddress <= MAX_PHYSICAL_ADDRESS
    ensures r.Ok? ==> r.value.addressClass == addressClass && r.value.physicalAddress == physicalAddress
    ensures r.Fail? ==> r.failure == IllegalArgument
  {
    if physicalAddress < 0 || physicalAddress > MAX_PHYSICAL_ADDRESS then Fail(IllegalArgument)
    else Ok(Address(addressClass, physicalAddress))
  }

  function RegisterNumber(a: Address): int
  {
    a.physicalAddress + RegisterNumberOffset(a.addressClass)
  }

  /**
   * increment(step): the same class, step further on. Kotlin adds in 32
   * bits, but a sum that wraps around is as much out of range as the exact
   * sum, so both fail alike.
   */
  function Increment(a: Address, step: int): (r: Result<Address>)
    ensures r.Ok? <==> 0 <= a.physicalAddress + step <= MAX_PHYSICAL_ADDRESS
    ensures r.Ok? ==> r.value.addressClass == a.addressClass && r.value.physicalAddress == a.physicalAddress + step
  {
    Of(a.addressClass, a.physicalAddress + step)
  }

  // ---------------------------------------------------------------------------
  // Formatting

  /** `"%s:%05d"` of the short label and the physical address, e.g. "hr:00123". */
  function ToCleanFormat(a: Address): string
  {
    ShortLabel(a.addressClass) + ":" + ZeroPadded(a.physicalAddress, 5)
  }

  /** `"%d%04d"` of base offset and register number, or None (null) above register 9999. */
  function ToModicon5(a: Address): (r: Option<string>)
    ensures r.None? <==> RegisterNumber(a) > 9999
  {
    if RegisterNumber(a) > 9999 then None
    else Some(Decimal(BaseOffset(a.addressClass)) + ZeroPadded(RegisterNumber(a), 4))
  }

  /** `"%d%05d"` of base offset and register number, e.g. "400124". */
  function ToModicon6(a: Address): string
  {
    Decimal(BaseOffset(a.addressClass)) + ZeroPadded(RegisterNumber(a), 5)
  }

  /** `"%dx%05d"` of base offset and register number, e.g. "4x00124". */
  function ToModiconX(a: Address): string
  {
    Decimal(BaseOffset(a.addressClass)) + "x" + ZeroPadded(RegisterNumber(a), 5)
  }

  // ---------------------------------------------------------------------------
  // Ordering

  /** `Int.compareTo`: -1, 0 or 1. */
  function CompareInt(x: int, y: int): int
  {
    if x < y then -1 else if x > y then 1 else 0
  }

  /** compareTo: by address class (enum order), then by physical address. */
  function Compare(a: Address, b: Address): int
  {
    var byClass := Ordinal(a.addressClass) - Ordinal(b.addressClass);
    if byClass != 0 then byClass else CompareInt(a.physicalAddress, b.physicalAddress)
  }

  /** The order is lexicographic on (class, physical address) and consistent with equality. */
  lemma CompareOrder(a: Address, b: Address)
    ensures Compare(a, b) == 0 <==> a == b
    ensures Compare(a, b) < 0 <==>
      Ordinal(a.addressClass) < Ordinal(b.addressClass) ||
      (a.addressClass == b.addressClass && a.physicalAddress < b.physicalAddress)
    ensures Compare(a, b) < 0 <==> Compare(b, a) > 0
  {
    OrdinalInjective(a.addressClass, b.addressClass);
  }

  /** The position of an address in the compareTo order, as one number. */
  function SortKey(a: Address): int
  {
    Ordinal(a.addressClass) * 0x10000 + a.physicalAddress
  }

  /** compareTo agrees with the order of the sort keys, which are distinct for distinct addresses. */
  lemma CompareSortKey(a: Address, b: Address)
    ensures Compare(a, b) < 0 <==> SortKey(a) < SortKey(b)
    ensures SortKey(a) == SortKey(b) <==> a == b
  {
    CompareOrder(a, b);
    OrdinalInjective(a.addressClass, b.addressClass);
  }

  /** compareTo is transitive. */
  lemma CompareTransitive(a: Address, b: Address, c: Address)
    requires Compare(a, b) < 0 && Compare(b, c) < 0
    ensures Compare(a, c) < 0
  {
    CompareOrder(a, b);
    CompareOrder(b, c);
    CompareOrder(a, c);
  }

  // ---------------------------------------------------------------------------
  // Parsing numbers

  /** Kotlin's `/` on Int: the quotient truncated toward zero. */
  function TruncDiv(x: int, d: int): int
    requires d > 0
  {
    if x >= 0 then x / d else -((-x) / d)
  }

  /** `AddressClass.entries.find { it.baseOffset == offset }`. */
  function FindByOffset(entries: seq<AddressClass>, offset: int): (r: Option<AddressClass>)
    ensures r.Some? ==> r.value in entries && BaseOffset(r.value) == offset
    ensures r.None? ==> forall c :: c in entries ==> BaseOffset(c) != offset
  {
    if entries == [] then None
    else if BaseOffset(entries[0]) == offset then Some(entries[0])
    else FindByOffset(entries[1..], offset)
  }

  /** The class and register number of a Modicon number: tag / scale and the remainder. */
  function FromModicon(tag: int, scale: nat): Result<Address>
    requires scale > 0
  {
    var classCode := TruncDiv(tag, scale);
    var registerNumber := tag - classCode * scale;
    match FindByOffset(ENTRIES, classCode)
    case None => Fail(IllegalArgument)
    case Some(c) => Of(c, registerNumber - RegisterNumberOffset(c))
  }

  /** ofModicon5(Int): a tag outside 0..99999 fails, else class = tag / 10000. */
  function OfModicon5(tag: int): Result<Address>
  {
    if tag < 0 || tag > 99999 then Fail(IllegalArgument) else FromModicon(tag, 10000)
  }

  /** ofModicon6(Int): class = tag / 100000, truncated toward zero. */
  function OfModicon6(tag: int): Result<Address>
  {
    FromModicon(tag, 100000)
  }

  // ---------------------------------------------------------------------------
  // Parsing text

  /** A character of `[a-zA-Z-]`. */
  predicate IsLabelChar(c: char)
  {
    'a' <= c <= 'z' || 'A' <= c <= 'Z' || c == '-'
  }

  /** The index of the first occurrence of c, or |s|. */
  function IndexOf(s: string, c: char): (r: nat)
    ensures r <= |s| && (r < |s| ==> s[r] == c)
    ensures forall i :: 0 <= i < r ==> s[i] != c
  {
    if s == [] || s[0] == c then 0 else 1 + IndexOf(s[1..], c)
  }

  /** `^([a-zA-Z-]+):(\d+)$`: a label of letters and '-', a colon and a run of digits. */
  function MatchColon(s: string): (r: Option<(string, string)>)
    ensures r.Some? ==> s == r.value.0 + ":" + r.value.1 && AllDigits(r.value.1)
  {
    var i := IndexOf(s, ':');
    if 0 < i < |s| - 1 && (forall k :: 0 <= k < i ==> IsLabelChar(s[k])) && AllDigits(s[i + 1..])
    then
      assert s == s[..i] + ":" + s[i + 1..];
      Some((s[..i], s[i + 1..]))
    else None
  }

  /** `^(\d)x(\d+)$`. */
  predicate IsXForm(s: string)
  {
    |s| >= 3 && IsDigit(s[0]) && s[1] == 'x' && AllDigits(s[2..])
  }

  /** `^(\d)(\d{4,5})$`. */
  predicate IsDigitsForm(s: string)
  {
    (|s| == 5 || |s| == 6) && AllDigits(s)
  }

  /** The address with the class named by code at register number `number` (physical address one lower). */
  function FromRegisterNumber(code: string, number: string): Result<Address>
    requires AllDigits(number)
  {
    var c := OfLabel(code);
    if c.Fail? then Fail(c.failure)
    else
      var n := ParseDigits(number);
      if n.Fail? then Fail(n.failure)
      else Of(c.value, n.value - RegisterNumberOffset(c.value))
  }

  /**
   * of(registerTag): lower-cased and trimmed, then read as "label:physical",
   * "Nx<register>" or a 5 or 6 digit Modicon number, in that order; anything
   * else fails with IllegalArgument.
   */
  function OfTag(registerTag: string): (r: Result<Address>)
    ensures (var t := Trim(Lowercase(registerTag));
             MatchColon(t).None? && !IsXForm(t) && !IsDigitsForm(t)) ==> r == Fail(IllegalArgument)
  {
    var t := Trim(Lowercase(registerTag));
    match MatchColon(t)
    case Some((code, digits)) =>
      (match OfLabel(code)
       case Fail(f) => Fail(f)
       case Ok(c) =>
         match ParseDigits(digits)
         case Fail(f) => Fail(f)
         case Ok(p) => Of(c, p))
    case None =>
      if IsXForm(t) then FromRegisterNumber(t[..1], t[2..])
      else if IsDigitsForm(t) then FromRegisterNumber(t[..1], t[1..])
      else Fail(IllegalArgument)
  }

  // ---------------------------------------------------------------------------
  // Round trips

  lemma ShortLabelShape(c: AddressClass)
    ensures 1 <= |ShortLabel(c)| <= 2
    ensures forall i :: 0 <= i < |ShortLabel(c)| ==> 'a' <= ShortLabel(c)[i] <= 'z'
  {
  }

  /** The class code of a label: of(label) on the short label gives the class back. */
  lemma OfShortLabel(c: AddressClass)
    ensures OfLabel(ShortLabel(c)) == Ok(c)
  {
    var l := ShortLabel(c);
    ShortLabelShape(c);
    TrimOfTrimmed(l);
    LowercaseOfLower(l);
    LabelsAreKeys(c, 0);
    OfKnownLabel(l, c);
  }

  /** The lower-cased, trimmed form of a string that is already lower-case with no blank ends. */
  lemma CleanedTag(s: string)
    requires s != [] && s[0] > ' ' && s[|s| - 1] > ' '
    requires forall i :: 0 <= i < |s| ==> !('A' <= s[i] <= 'Z')
    ensures Trim(Lowercase(s)) == s
  {
    LowercaseOfLower(s);
    TrimOfTrimmed(s);
  }

  /** The "label:physical" branch of of(registerTag). */
  lemma OfTagColon(tag: string, code: string, digits: string, c: AddressClass, p: int)
    requires MatchColon(Trim(Lowercase(tag))) == Some((code, digits))
    requires OfLabel(code) == Ok(c) && ParseDigits(digits) == Ok(p)
    ensures OfTag(tag) == Of(c, p)
  {
    var r := OfTag(tag);
    assert r.Ok? ==> r.value == Address(c, p);
    assert r.Fail? ==> r.failure == IllegalArgument;
    assert r.Ok? <==> 0 <= p <= MAX_PHYSICAL_ADDRESS;
  }

  /** The clean format is lower-case, trimmed, and splits at its colon. */
  lemma CleanFormatShape(a: Address)
    ensures Trim(Lowercase(ToCleanFormat(a))) == ToCleanFormat(a)
    ensures MatchColon(ToCleanFormat(a)) == Some((ShortLabel(a.addressClass), ZeroPadded(a.physicalAddress, 5)))
  {
    var c, l, z := a.addressClass, ShortLabel(a.addressClass), ZeroPadded(a.physicalAddress, 5);
    var s := ToCleanFormat(a);
    ShortLabelShape(c);
    ZeroPaddedFive(a.physicalAddress);
    assert s == l + ":" + z;
    assert s[|l| + 1..] == z;
    assert s[..|l|] == l;
    CleanedTag(s);
    assert s[|l|] == ':';
    assert forall k :: 0 <= k < |l| ==> s[k] == l[k];
    assert IndexOf(s, ':') == |l|;
  }

  /** Parsing toCleanFormat gives the address back. */
  lemma CleanFormatRoundTrip(a: Address)
    ensures OfTag(ToCleanFormat(a)) == Ok(a)
  {
    var z := ZeroPadded(a.physicalAddress, 5);
    CleanFormatShape(a);
    ZeroPaddedFive(a.physicalAddress);
    OfShortLabel(a.addressClass);
    OfTagColon(ToCleanFormat(a), ShortLabel(a.addressClass), z, a.addressClass, a.physicalAddress);
  }

  /** The class code of a Modicon number: the one digit of its base offset. */
  lemma OfOffsetDigit(c: AddressClass)
    ensures Decimal(BaseOffset(c)) == [DigitChar(BaseOffset(c))]
    ensures OfLabel(Decimal(BaseOffset(c))) == Ok(c)
  {
    OfKnownOffset(c);
  }

  lemma FromRegisterNumberSteps(code: string, number: string, c: AddressClass, n: int)
    requires AllDigits(number)
    requires OfLabel(code) == Ok(c) && ParseDigits(number) == Ok(n)
    ensures FromRegisterNumber(code, number) == Of(c, n - RegisterNumberOffset(c))
  {
    var r := FromRegisterNumber(code, number);
    assert r.Ok? ==> r.value == Address(c, n - 1);
    assert r.Fail? ==> r.failure == IllegalArgument;
    assert r.Ok? <==> 0 <= n - 1 <= MAX_PHYSICAL_ADDRESS;
  }

  /** A register number behind its one-digit class code reads back as the address. */
  lemma FromRegisterNumberOf(a: Address, number: string)
    requires AllDigits(number) && DigitsValue(number) == RegisterNumber(a)
    ensures FromRegisterNumber(Decimal(BaseOffset(a.addressClass)), number) == Ok(a)
  {
    var c := a.addressClass;
    OfOffsetDigit(c);
    FromRegisterNumberSteps(Decimal(BaseOffset(c)), number, c, RegisterNumber(a));
  }

  /** The "Nx<register>" branch of of(registerTag). */
  lemma OfTagX(tag: string)
    requires MatchColon(Trim(Lowercase(tag))).None? && IsXForm(Trim(Lowercase(tag)))
    ensures OfTag(tag) == FromRegisterNumber(Trim(Lowercase(tag))[..1], Trim(Lowercase(tag))[2..])
  {
  }

  /** "Nx<digits>" is lower-case, trimmed, has no colon and is of the X form. */
  lemma XFormShape(d: char, z: string)
    requires IsDigit(d) && z != [] && AllDigits(z)
    ensures var s := [d] + "x" + z;
      Trim(Lowercase(s)) == s && MatchColon(s).None? && IsXForm(s) && s[..1] == [d] && s[2..] == z
  {
    var s := [d] + "x" + z;
    assert s[..1] == [d] && s[2..] == z && s[1] == 'x';
    assert forall i :: 2 <= i < |s| ==> s[i] == z[i - 2];
    CleanedTag(s);
    assert s[IndexOf(s, ':')..] == [];
  }

  /** A digit followed by four or five digits: lower-case, trimmed, no colon, not the X form. */
  lemma DigitsFormShape(d: char, z: string)
    requires IsDigit(d) && (|z| == 4 || |z| == 5) && AllDigits(z)
    ensures var s := [d] + z;
      Trim(Lowercase(s)) == s && MatchColon(s).None? && !IsXForm(s) && IsDigitsForm(s) && s[..1] == [d] && s[1..] == z
  {
    var s := [d] + z;
    assert s[..1] == [d] && s[1..] == z;
    assert forall i :: 1 <= i < |s| ==> s[i] == z[i - 1];
    CleanedTag(s);
    assert s[IndexOf(s, ':')..] == [];
  }

  /** Parsing toModiconX gives the address back. */
  lemma ModiconXRoundTrip(a: Address)
    ensures OfTag(ToModiconX(a)) == Ok(a)
  {
    var b, z := BaseOffset(a.addressClass), ZeroPadded(RegisterNumber(a), 5);
    OfOffsetDigit(a.addressClass);
    ZeroPaddedFive(RegisterNumber(a));
    XFormShape(DigitChar(b), z);
    assert ToModiconX(a) == [DigitChar(b)] + "x" + z;
    OfTagX(ToModiconX(a));
    FromRegisterNumberOf(a, z);
  }

  /** The digits-only branch of of(registerTag). */
  lemma OfTagDigits(tag: string)
    requires MatchColon(Trim(Lowercase(tag))).None? && !IsXForm(Trim(Lowercase(tag))) && IsDigitsForm(Trim(Lowercase(tag)))
    ensures OfTag(tag) == FromRegisterNumber(Trim(Lowercase(tag))[..1], Trim(Lowercase(tag))[1..])
  {
  }

  /** Parsing toModicon6 gives the address back. */
  lemma Modicon6RoundTrip(a: Address)
    ensures OfTag(ToModicon6(a)) == Ok(a)
  {
    var b, z := BaseOffset(a.addressClass), ZeroPadded(RegisterNumber(a), 5);
    OfOffsetDigit(a.addressClass);
    ZeroPaddedFive(RegisterNumber(a));
    DigitsFormShape(DigitChar(b), z);
    assert ToModicon6(a) == [DigitChar(b)] + z;
    OfTagDigits(ToModicon6(a));
    FromRegisterNumberOf(a, z);
  }

  /** Parsing toModicon5, when it is not null, gives the address back. */
  lemma Modicon5RoundTrip(a: Address)
    requires ToModicon5(a).Some?
    ensures OfTag(ToModicon5(a).value) == Ok(a)
  {
    var b, z := BaseOffset(a.addressClass), ZeroPadded(RegisterNumber(a), 4);
    OfOffsetDigit(a.addressClass);
    ZeroPaddedFour(RegisterNumber(a));
    DigitsFormShape(DigitChar(b), z);
    assert ToModicon5(a).value == [DigitChar(b)] + z;
    OfTagDigits(ToModicon5(a).value);
    FromRegisterNumberOf(a, z);
  }

  /** The numeric Modicon forms: base offset times 100000 (or 10000) plus the register number. */
  lemma ModiconNumberRoundTrip(a: Address)
    ensures OfModicon6(BaseOffset(a.addressClass) * 100000 + RegisterNumber(a)) == Ok(a)
    ensures RegisterNumber(a) <= 9999 ==> OfModicon5(BaseOffset(a.addressClass) * 10000 + RegisterNumber(a)) == Ok(a)
  {
    var c := a.addressClass;
    var f := FindByOffset(ENTRIES, BaseOffset(c));
    assert c in ENTRIES;
    assert f.Some? && f.value == c by {
      if f.Some? {
        OffsetInjective(f.value, c);
      }
    }
  }

  lemma OffsetInjective(c: AddressClass, d: AddressClass)
    requires BaseOffset(c) == BaseOffset(d)
    ensures c == d
  {
  }
}
