/**
 * A field of a schema block (Field.kt): what the fetcher and the block need
 * to know about it. The parsed expression is reduced to the facts the
 * field reads from it: whether it initialized without problems, whether it
 * is immutable, the fields and registers it requires and its return type.
 *
 * The mutable parts of a Kotlin Field (its need counter, its initialized
 * flag) live in the block that owns it, keyed by field id.
 */
module Fields {
  import opened Wrappers
  import opened AddressClasses
  import opened Addresses
  import opened ParameterValidations
  import opened NumericalOperations

  /** The per-request register limit of the Modbus protocol. */
  const MODBUS_MAX_REGISTERS_PER_REQUEST: int := 125

  /** What a field uses of its parsed expression. */
  datatype ExpressionInfo = ExpressionInfo(
    initializesCleanly: bool,           // expression.initialize(field) && problems.isEmpty()
    isImmutable: bool,
    requiredFields: seq<string>,
    requiredRegisters: seq<Address>,
    returnType: ReturnType)

  /**
   * A field: its block's id, its own id, the explicit immutable flag, the
   * fetch group as configured (possibly blank) and the parsed expression
   * (None when the expression text is blank).
   */
  datatype FieldDef = FieldDef(
    blockId: string,
    id: string,
    immutable: bool,
    fetchGroupSetting: string,
    expression: Option<ExpressionInfo>)

  /** The ASCII characters `Char.isWhitespace` accepts. */
  predicate IsWhitespace(c: char)
  {
    c == ' ' || '\t' <= c <= '\r' || '\U{1C}' <= c <= '\U{1F}'
  }

  /** `isBlank()`: empty or only whitespace. */
  predicate IsBlank(s: string)
  {
    forall i :: 0 <= i < |s| ==> IsWhitespace(s[i])
  }

  /**
   * The constructor: the raw id must be an identifier (the check runs on the
   * id as given, the property holds it trimmed, which for an identifier is
   * the same string).
   */
  function NewField(blockId: string, rawId: string, immutable: bool, fetchGroup: string, expression: Option<ExpressionInfo>): (r: Result<FieldDef>)
    ensures r.Ok? <==> IsValidIdentifier(rawId)
    ensures r.Ok? ==> r.value.id == rawId && r.value.blockId == blockId && r.value.fetchGroupSetting == fetchGroup
    ensures r.Fail? ==> r.failure == SchemaParse
  {
    ValidIdentifierIsPattern(rawId);
    if RequireValidIdentifier(rawId).Fail? then Fail(SchemaParse)
    else Ok(FieldDef(blockId, rawId, immutable, fetchGroup, expression))
  }

  /** The fetch group a field gets when none is configured. */
  function DefaultFetchGroup(blockId: string, id: string): string
  {
    "<<" + blockId + " | " + id + ">>"
  }

  /** The fetchGroup getter: the configured group, or the default when it is blank. */
  function FetchGroup(f: FieldDef): (r: string)
    ensures !IsBlank(f.fetchGroupSetting) ==> r == f.fetchGroupSetting
    ensures IsBlank(f.fetchGroupSetting) ==> r == DefaultFetchGroup(f.blockId, f.id)
  {
    if IsBlank(f.fetchGroupSetting) then DefaultFetchGroup(f.blockId, f.id) else f.fetchGroupSetting
  }

  predicate FetchGroupIsDefault(f: FieldDef)
  {
    IsBlank(f.fetchGroupSetting)
  }

  /** The position of the '|' in a default fetch group, counted from the end. */
  lemma DefaultFetchGroupShape(b: string, i: string)
    requires '|' !in i
    ensures var s := DefaultFetchGroup(b, i);
      |s| == |b| + |i| + 7 &&
      s[|s| - |i| - 4] == '|' &&
      (forall k :: |s| - |i| - 4 < k < |s| ==> s[k] != '|') &&
      s[2..2 + |b|] == b && s[|s| - |i| - 2..|s| - 2] == i
  {
    var s := DefaultFetchGroup(b, i);
    assert s == "<<" + b + " | " + i + ">>";
    forall k | |s| - |i| - 4 < k < |s|
      ensures s[k] != '|'
    {
      if |s| - |i| - 2 <= k < |s| - 2 {
        assert s[k] == i[k - (|s| - |i| - 2)];
      }
    }
  }

  /**
   * Two fields whose ids are identifiers get the same default fetch group
   * only when they have the same block id and the same id: every field
   * without a configured group is fetched on its own.
   */
  lemma DefaultFetchGroupsDistinct(b1: string, i1: string, b2: string, i2: string)
    requires IsValidIdentifier(i1) && IsValidIdentifier(i2)
    requires DefaultFetchGroup(b1, i1) == DefaultFetchGroup(b2, i2)
    ensures b1 == b2 && i1 == i2
  {
    if '|' in i1 { ValidIdentifierChars(i1, '|'); }
    if '|' in i2 { ValidIdentifierChars(i2, '|'); }
    var s := DefaultFetchGroup(b1, i1);
    DefaultFetchGroupShape(b1, i1);
    DefaultFetchGroupShape(b2, i2);
    assert |i1| == |i2|;
  }

  function RequiredFieldNames(f: FieldDef): seq<string>
  {
    if f.expression.Some? then f.expression.value.requiredFields else []
  }

  function RequiredRegisters(f: FieldDef): seq<Address>
  {
    if f.expression.Some? then f.expression.value.requiredRegisters else []
  }

  /** All registers in one address class. */
  predicate SingleClass(regs: seq<Address>)
  {
    forall i :: 0 <= i < |regs| ==> regs[i].addressClass == regs[0].addressClass
  }

  /**
   * The checks initialize() applies once the expression has initialized
   * cleanly, in their order: at most 125 registers (ModbusSchemaParse), every
   * required field present in the block (ModbusSchemaMissingField), a known
   * return type (IllegalArgument) and one address class (ModbusSchemaParse).
   * The result is whether the field is initialized and, if it uses
   * registers, their address class.
   */
  function Initialize(f: FieldDef, fieldIds: set<string>): (r: Result<(bool, Option<AddressClass>)>)
    ensures r.Ok? && r.value.0 ==>
      f.expression.Some? && |RequiredRegisters(f)| <= MODBUS_MAX_REGISTERS_PER_REQUEST &&
      (forall n :: n in RequiredFieldNames(f) ==> n in fieldIds) &&
      f.expression.value.returnType != Unknown && SingleClass(RequiredRegisters(f))
    ensures r.Ok? && r.value.0 ==>
      (r.value.1.None? <==> RequiredRegisters(f) == []) &&
      (r.value.1.Some? ==> forall a :: a in RequiredRegisters(f) ==> a.addressClass == r.value.1.value)
    ensures r.Ok? && !r.value.0 ==> f.expression.None? || !f.expression.value.initializesCleanly
    ensures |RequiredRegisters(f)| > MODBUS_MAX_REGISTERS_PER_REQUEST && f.expression.Some? && f.expression.value.initializesCleanly ==>
      r == Fail(SchemaParse)
    ensures f.expression.Some? && f.expression.value.initializesCleanly && !SingleClass(RequiredRegisters(f)) ==> r.Fail?
  {
    if f.expression.None? || !f.expression.value.initializesCleanly then Ok((false, None))
    else
      var e := f.expression.value;
      if |e.requiredRegisters| > MODBUS_MAX_REGISTERS_PER_REQUEST then Fail(SchemaParse)
      else if exists n :: n in e.requiredFields && n !in fieldIds then Fail(SchemaMissingField)
      else if e.returnType == Unknown then Fail(IllegalArgument)
      else if e.requiredRegisters == [] then Ok((true, None))
      else if !SingleClass(e.requiredRegisters) then Fail(SchemaParse)
      else
        assert forall a :: a in e.requiredRegisters ==> a.addressClass == e.requiredRegisters[0].addressClass;
        Ok((true, Some(e.requiredRegisters[0].addressClass)))
  }

  /**
   * The address class initialize() leaves in the field: the class of its
   * registers once it initialized, null when it uses no register or did not
   * initialize (its expression is missing or has problems, or a check threw).
   */
  function InitializedClass(f: FieldDef, fieldIds: set<string>): (r: Option<AddressClass>)
    ensures r.Some? <==> Initialize(f, fieldIds).Ok? && Initialize(f, fieldIds).value.0 && RequiredRegisters(f) != []
    ensures r.Some? ==> forall a :: a in RequiredRegisters(f) ==> a.addressClass == r.value
  {
    var init := Initialize(f, fieldIds);
    if init.Ok? && init.value.0 then init.value.1 else None
  }

  /**
   * compareTo: fields without registers sort after fields with registers
   * and tie among themselves; otherwise by their first register.
   */
  function CompareFields(f: FieldDef, g: FieldDef): int
  {
    var fr, gr := RequiredRegisters(f), RequiredRegisters(g);
    if fr == [] && gr == [] then 0
    else if fr == [] then 1
    else if gr == [] then -1
    else Compare(fr[0], gr[0])
  }

  /** The sort position of a field: its first register's key, or past every key. */
  function FieldSortKey(f: FieldDef): int
  {
    var regs := RequiredRegisters(f);
    if regs == [] then 4 * 0x10000 else SortKey(regs[0])
  }

  lemma SortKeyBound(a: Address)
    ensures SortKey(a) < 4 * 0x10000
  {
  }

  /**
   * compareTo orders fields by their sort keys, so it is a total preorder:
   * antisymmetric in sign, transitive, and fields without registers come
   * last.
   */
  lemma CompareFieldsOrder(f: FieldDef, g: FieldDef)
    ensures CompareFields(f, g) < 0 <==> FieldSortKey(f) < FieldSortKey(g)
    ensures CompareFields(f, g) == 0 <==> FieldSortKey(f) == FieldSortKey(g)
    ensures CompareFields(f, g) < 0 <==> CompareFields(g, f) > 0
    ensures RequiredRegisters(f) == [] && RequiredRegisters(g) != [] ==> CompareFields(f, g) > 0
  {
    var fr, gr := RequiredRegisters(f), RequiredRegisters(g);
    if fr != [] { SortKeyBound(fr[0]); }
    if gr != [] { SortKeyBound(gr[0]); }
    if fr != [] && gr != [] {
      CompareSortKey(fr[0], gr[0]);
      CompareSortKey(gr[0], fr[0]);
      CompareOrder(fr[0], gr[0]);
    }
  }
}
