/**
 * The Modbus function codes this toolkit uses (FunctionCode.kt): a fixed
 * table of eight codes, each bound to one address class, with lookups by
 * numeric code and by what a caller wants to do with an address class.
 */
module FunctionCodes {
  import opened Wrappers
  import opened AddressClasses

  datatype FunctionCode =
    | ReadCoil
    | ReadDiscreteInput
    | ReadHoldingRegisters
    | ReadInputRegisters
    | WriteSingleCoil
    | WriteSingleHoldingRegister
    | WriteMultipleCoils
    | WriteMultipleHoldingRegisters

  /** `entries`, in declaration order. */
  const FUNCTION_CODES: seq<FunctionCode> := [
    ReadCoil, ReadDiscreteInput, ReadHoldingRegisters, ReadInputRegisters,
    WriteSingleCoil, WriteSingleHoldingRegister, WriteMultipleCoils, WriteMultipleHoldingRegisters
  ]

  /** The numeric Modbus function code. */
  function Code(f: FunctionCode): int
  {
    match f
    case ReadCoil => 0x01
    case ReadDiscreteInput => 0x02
    case ReadHoldingRegisters => 0x03
    case ReadInputRegisters => 0x04
    case WriteSingleCoil => 0x05
    case WriteSingleHoldingRegister => 0x06
    case WriteMultipleCoils => 0x0F
    case WriteMultipleHoldingRegisters => 0x10
  }

  /** The address class the code may be used on. */
  function ClassOf(f: FunctionCode): AddressClass
  {
    match f
    case ReadCoil => Coil
    case ReadDiscreteInput => DiscreteInput
    case ReadHoldingRegisters => HoldingRegister
    case ReadInputRegisters => InputRegister
    case WriteSingleCoil => Coil
    case WriteSingleHoldingRegister => HoldingRegister
    case WriteMultipleCoils => Coil
    case WriteMultipleHoldingRegisters => HoldingRegister
  }

  predicate ForWriting(f: FunctionCode)
  {
    f in {WriteSingleCoil, WriteSingleHoldingRegister, WriteMultipleCoils, WriteMultipleHoldingRegisters}
  }

  predicate ForWritingMultiple(f: FunctionCode)
  {
    f in {WriteMultipleCoils, WriteMultipleHoldingRegisters}
  }

  predicate IsForReading(f: FunctionCode)
  {
    !ForWriting(f)
  }

  predicate IsForWritableSingle(f: FunctionCode)
  {
    ForWriting(f) && !ForWritingMultiple(f)
  }

  /** bitsPerValue, taken from the address class. */
  function FunctionBitsPerValue(f: FunctionCode): int
  {
    BitsPerValue(ClassOf(f))
  }

  /** What a lookup by address class asks for. */
  datatype Purpose = Reading | WritingSingle | WritingMultiple

  predicate Serves(f: FunctionCode, c: AddressClass, purpose: Purpose)
  {
    ClassOf(f) == c &&
    match purpose
    case Reading => IsForReading(f)
    case WritingSingle => IsForWritableSingle(f)
    case WritingMultiple => ForWritingMultiple(f)
  }

  /** `firstOrNull` over the entries with the numeric code. */
  function FindByCode(entries: seq<FunctionCode>, code: int): (r: Option<FunctionCode>)
    ensures r.Some? ==> r.value in entries && Code(r.value) == code
    ensures r.None? ==> forall f :: f in entries ==> Code(f) != code
  {
    if entries == [] then None
    else if Code(entries[0]) == code then Some(entries[0])
    else FindByCode(entries[1..], code)
  }

  /** `filter` on the class and purpose, then `firstOrNull`. */
  function FindServing(entries: seq<FunctionCode>, c: AddressClass, purpose: Purpose): (r: Option<FunctionCode>)
    ensures r.Some? ==> r.value in entries && Serves(r.value, c, purpose)
    ensures r.None? ==> forall f :: f in entries ==> !Serves(f, c, purpose)
  {
    if entries == [] then None
    else if Serves(entries[0], c, purpose) then Some(entries[0])
    else FindServing(entries[1..], c, purpose)
  }

  /** of(code): an unsupported code fails with IllegalArgument. */
  function Of(code: int): (r: Result<FunctionCode>)
    ensures r.Fail? ==> r.failure == IllegalArgument
  {
    match FindByCode(FUNCTION_CODES, code)
    case None => Fail(IllegalArgument)
    case Some(f) => Ok(f)
  }

  function Lookup(c: AddressClass, purpose: Purpose): (r: Result<FunctionCode>)
    ensures r.Fail? ==> r.failure == IllegalArgument
  {
    match FindServing(FUNCTION_CODES, c, purpose)
    case None => Fail(IllegalArgument)
    case Some(f) => Ok(f)
  }

  function ForReading(c: AddressClass): Result<FunctionCode>
  {
    Lookup(c, Reading)
  }

  function ForWritingSingle(c: AddressClass): Result<FunctionCode>
  {
    Lookup(c, WritingSingle)
  }

  function ForWritingMultipleOf(c: AddressClass): Result<FunctionCode>
  {
    Lookup(c, WritingMultiple)
  }

  // ---------------------------------------------------------------------------
  // Properties of the table

  lemma EveryCodeListed(f: FunctionCode)
    ensures f in FUNCTION_CODES
  {
  }

  /** The numeric codes are distinct. */
  lemma CodeInjective(f: FunctionCode, g: FunctionCode)
    requires Code(f) == Code(g)
    ensures f == g
  {
  }

  /** The numeric codes of the table. */
  predicate ListedCode(code: int)
  {
    code == 0x01 || code == 0x02 || code == 0x03 || code == 0x04 ||
    code == 0x05 || code == 0x06 || code == 0x0F || code == 0x10
  }

  /** The function code with a listed numeric code. */
  function CodeToFunction(code: int): (f: FunctionCode)
    requires ListedCode(code)
    ensures Code(f) == code
  {
    if code == 0x01 then ReadCoil
    else if code == 0x02 then ReadDiscreteInput
    else if code == 0x03 then ReadHoldingRegisters
    else if code == 0x04 then ReadInputRegisters
    else if code == 0x05 then WriteSingleCoil
    else if code == 0x06 then WriteSingleHoldingRegister
    else if code == 0x0F then WriteMultipleCoils
    else WriteMultipleHoldingRegisters
  }

  /** of(code) succeeds exactly on the eight listed codes and inverts Code. */
  lemma OfTable(code: int)
    ensures Of(code).Ok? <==> ListedCode(code)
    ensures Of(code).Ok? ==> Code(Of(code).value) == code
  {
    if ListedCode(code) {
      OfCode(CodeToFunction(code));
    }
    var r := FindByCode(FUNCTION_CODES, code);
    if r.Some? {
      CodeListed(r.value);
    }
  }

  lemma CodeListed(f: FunctionCode)
    ensures ListedCode(Code(f))
  {
  }

  /** of(Code(f)) is f. */
  lemma OfCode(f: FunctionCode)
    ensures Of(Code(f)) == Ok(f)
  {
    EveryCodeListed(f);
    var r := FindByCode(FUNCTION_CODES, Code(f));
    assert r.Some?;
    CodeInjective(r.value, f);
  }

  /** The only code serving a class and purpose is the one the lookup returns. */
  lemma ServingUnique(f: FunctionCode, g: FunctionCode, c: AddressClass, purpose: Purpose)
    requires Serves(f, c, purpose) && Serves(g, c, purpose)
    ensures f == g
  {
  }

  /** A lookup by class and purpose gives exactly the code that serves them. */
  lemma LookupExact(c: AddressClass, purpose: Purpose, f: FunctionCode)
    ensures Lookup(c, purpose) == Ok(f) <==> Serves(f, c, purpose)
  {
    EveryCodeListed(f);
    var r := FindServing(FUNCTION_CODES, c, purpose);
    if r.Some? {
      if Serves(f, c, purpose) {
        ServingUnique(r.value, f, c, purpose);
      }
    }
  }

  /** forReading returns the unique read code of the class; it never fails. */
  lemma ForReadingTable(c: AddressClass, f: FunctionCode)
    ensures ForReading(c).Ok?
    ensures ForReading(c) == Ok(f) <==> ClassOf(f) == c && IsForReading(f)
  {
    LookupExact(c, Reading, f);
    var read := match c
      case Coil => ReadCoil
      case DiscreteInput => ReadDiscreteInput
      case InputRegister => ReadInputRegisters
      case HoldingRegister => ReadHoldingRegisters;
    LookupExact(c, Reading, read);
  }

  /** A write lookup fails exactly on the read-only classes, and otherwise gives the code serving the class. */
  lemma WritingLookup(c: AddressClass, purpose: Purpose)
    requires purpose != Reading
    ensures Lookup(c, purpose).Fail? <==> c == DiscreteInput || c == InputRegister
    ensures Lookup(c, purpose).Ok? ==> Serves(Lookup(c, purpose).value, c, purpose)
  {
    if c == Coil || c == HoldingRegister {
      var f := WriterOf(c, purpose);
      LookupExact(c, purpose, f);
      assert Lookup(c, purpose) == Ok(f);
    } else {
      ReadOnlyUnserved(c, purpose);
      assert FindServing(FUNCTION_CODES, c, purpose).None?;
    }
  }

  /** The code that writes one or several values of a writable class. */
  function WriterOf(c: AddressClass, purpose: Purpose): (f: FunctionCode)
    requires purpose != Reading && (c == Coil || c == HoldingRegister)
    ensures Serves(f, c, purpose)
  {
    match (c, purpose)
    case (Coil, WritingSingle) => WriteSingleCoil
    case (Coil, _) => WriteMultipleCoils
    case (_, WritingSingle) => WriteSingleHoldingRegister
    case _ => WriteMultipleHoldingRegisters
  }

  /** No code writes to a discrete input or an input register. */
  lemma ReadOnlyUnserved(c: AddressClass, purpose: Purpose)
    requires purpose != Reading && (c == DiscreteInput || c == InputRegister)
    ensures forall f :: !Serves(f, c, purpose)
  {
  }

  /** forWritingSingle and forWritingMultiple throw for discrete inputs and input registers. */
  lemma ForWritingTable(c: AddressClass)
    ensures ForWritingSingle(c).Fail? <==> c == DiscreteInput || c == InputRegister
    ensures ForWritingMultipleOf(c).Fail? <==> c == DiscreteInput || c == InputRegister
    ensures ForWritingSingle(c).Ok? ==> ClassOf(ForWritingSingle(c).value) == c && IsForWritableSingle(ForWritingSingle(c).value)
    ensures ForWritingMultipleOf(c).Ok? ==> ClassOf(ForWritingMultipleOf(c).value) == c && ForWritingMultiple(ForWritingMultipleOf(c).value)
  {
    WritingLookup(c, WritingSingle);
    WritingLookup(c, WritingMultiple);
  }

  /** isForReading holds exactly when the code is not for writing, i.e. the codes 1 to 4. */
  lemma ReadingCodes(f: FunctionCode)
    ensures IsForReading(f) <==> !ForWriting(f)
    ensures IsForReading(f) <==> 1 <= Code(f) <= 4
    ensures ForWriting(f) ==> ClassOf(f) == Coil || ClassOf(f) == HoldingRegister
    ensures FunctionBitsPerValue(f) == (if ClassOf(f) == Coil || ClassOf(f) == DiscreteInput then 1 else 16)
  {
  }
}
