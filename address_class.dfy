/**
 * The four Modbus address classes (AddressClass.kt): their Modicon base
 * offsets, value widths and labels, and the lookup of a class by label or
 * by base offset.
 */
module AddressClasses {
  import opened Wrappers
  import opened Text

  datatype AddressClass = Coil | DiscreteInput | InputRegister | HoldingRegister

  /** The enum's declaration order. */
  const ENTRIES: seq<AddressClass> := [Coil, DiscreteInput, InputRegister, HoldingRegister]

  /** The position in the declaration, which orders the classes. */
  function Ordinal(c: AddressClass): nat
  {
    match c
    case Coil => 0
    case DiscreteInput => 1
    case InputRegister => 2
    case HoldingRegister => 3
  }

  lemma OrdinalInjective(c: AddressClass, d: AddressClass)
    ensures Ordinal(c) == Ordinal(d) <==> c == d
  {
  }

  /** The digit in front of a Modicon address (a shift by 10000 or 100000). */
  function BaseOffset(c: AddressClass): nat
  {
    match c
    case Coil => 0
    case DiscreteInput => 1
    case InputRegister => 3
    case HoldingRegister => 4
  }

  /** One bit per value for coils and discrete inputs, 16 for registers. */
  function BitsPerValue(c: AddressClass): nat
  {
    match c
    case Coil => 1
    case DiscreteInput => 1
    case InputRegister => 16
    case HoldingRegister => 16
  }

  /** The register number is the physical address plus this. */
  function RegisterNumberOffset(c: AddressClass): nat
  {
    1
  }

  function ReadableId(c: AddressClass): string
  {
    match c
    case Coil => "Coil"
    case DiscreteInput => "Discrete Input"
    case InputRegister => "Input Register"
    case HoldingRegister => "Holding Register"
  }

  function ShortLabel(c: AddressClass): string
  {
    match c
    case Coil => "c"
    case DiscreteInput => "di"
    case InputRegister => "ir"
    case HoldingRegister => "hr"
  }

  function LongLabel(c: AddressClass): string
  {
    match c
    case Coil => "coil"
    case DiscreteInput => "discrete-input"
    case InputRegister => "input-register"
    case HoldingRegister => "holding-register"
  }

  /** The labels: short label, long label, then the extra labels of the declaration. */
  function Labels(c: AddressClass): seq<string>
  {
    [ShortLabel(c), LongLabel(c)] +
    match c
    case Coil => ["coil", "coils"]
    case DiscreteInput => ["discrete input", "discrete inputs"]
    case InputRegister => ["input register", "input registers"]
    case HoldingRegister => ["holding register", "holding registers"]
  }

  /** The lookup keys one label contributes: itself, and with a space also its '-' and '_' spellings. */
  function LabelKeys(name: string): seq<string>
  {
    [name] + (if ' ' in name then [ReplaceChar(name, ' ', '-'), ReplaceChar(name, ' ', '_')] else [])
  }

  function AllLabelKeys(labels: seq<string>): seq<string>
  {
    if labels == [] then [] else LabelKeys(labels[0]) + AllLabelKeys(labels[1..])
  }

  /** The keys under which the companion object registers a class: its base offset in decimal, then its label keys. */
  function KeysOf(c: AddressClass): seq<string>
  {
    [Decimal(BaseOffset(c))] + AllLabelKeys(Labels(c))
  }

  /** `labelLookup[key] = c` for each key in turn. */
  function Register(m: map<string, AddressClass>, keys: seq<string>, c: AddressClass): (r: map<string, AddressClass>)
    ensures r.Keys == m.Keys + set k | k in keys
    ensures forall k :: k in r ==> r[k] == (if k in keys then c else m[k])
    decreases keys
  {
    if keys == [] then m else Register(m[keys[0] := c], keys[1..], c)
  }

  /** The lookup table, filled class by class in declaration order. */
  function BuildLookup(entries: seq<AddressClass>): map<string, AddressClass>
  {
    if entries == [] then map[]
    else Register(BuildLookup(entries[..|entries| - 1]), KeysOf(entries[|entries| - 1]), entries[|entries| - 1])
  }

  function LabelLookup(): map<string, AddressClass>
  {
    BuildLookup(ENTRIES)
  }

  /**
   * of(label): the class registered under the trimmed, lower-cased label;
   * an unknown label fails with IllegalArgument.
   */
  function OfLabel(name: string): (r: Result<AddressClass>)
    ensures r.Fail? <==> Lowercase(Trim(name)) !in LabelLookup()
    ensures r.Fail? ==> r.failure == IllegalArgument
  {
    var key := Lowercase(Trim(name));
    if key in LabelLookup() then Ok(LabelLookup()[key]) else Fail(IllegalArgument)
  }

  /** `Int.toString()`. */
  function IntToString(n: int): string
  {
    if n < 0 then "-" + Decimal(-n) else Decimal(n)
  }

  /** of(baseOffset): the lookup of the offset written in decimal. */
  function OfBaseOffset(baseOffset: int): Result<AddressClass>
  {
    OfLabel(IntToString(baseOffset))
  }

  // ---------------------------------------------------------------------------
  // The lookup table

  /** The letter every label of a class starts with. */
  function Initial(c: AddressClass): char
  {
    match c
    case Coil => 'c'
    case DiscreteInput => 'd'
    case InputRegister => 'i'
    case HoldingRegister => 'h'
  }

  lemma {:induction false} AllLabelKeysInitial(labels: seq<string>, initial: char)
    requires initial != ' '
    requires forall i :: 0 <= i < |labels| ==> labels[i] != [] && labels[i][0] == initial
    ensures forall k :: k in AllLabelKeys(labels) ==> k != [] && k[0] == initial
  {
    if labels != [] {
      AllLabelKeysInitial(labels[1..], initial);
    }
  }

  lemma {:induction false} AllLabelKeysMember(labels: seq<string>, i: nat)
    requires i < |labels|
    ensures labels[i] in AllLabelKeys(labels)
    ensures ' ' in labels[i] ==>
      ReplaceChar(labels[i], ' ', '-') in AllLabelKeys(labels) && ReplaceChar(labels[i], ' ', '_') in AllLabelKeys(labels)
  {
    if i > 0 {
      AllLabelKeysMember(labels[1..], i - 1);
    }
  }

  /** A key of a class is its base offset in decimal, or starts with the class's initial letter. */
  lemma KeyShape(c: AddressClass, k: string)
    requires k in KeysOf(c)
    ensures k == Decimal(BaseOffset(c)) || (k != [] && k[0] == Initial(c))
  {
    var l := Labels(c);
    assert |l| == 4;
    forall i | 0 <= i < 4
      ensures l[i] != [] && l[i][0] == Initial(c)
    {
      assert i == 0 || i == 1 || i == 2 || i == 3;
    }
    AllLabelKeysInitial(l, Initial(c));
    if k != Decimal(BaseOffset(c)) {
      assert k in AllLabelKeys(l);
    }
  }

  /** No key is registered by two classes. */
  lemma KeysDisjoint(c: AddressClass, d: AddressClass, k: string)
    requires k in KeysOf(c) && k in KeysOf(d)
    ensures c == d
  {
    KeyShape(c, k);
    KeyShape(d, k);
    DecimalDigits(BaseOffset(c));
    DecimalDigits(BaseOffset(d));
  }

  lemma {:induction false} BuildLookupContents(entries: seq<AddressClass>, k: string)
    ensures k in BuildLookup(entries) <==> exists e :: e in entries && k in KeysOf(e)
    ensures forall e :: e in entries && k in KeysOf(e) ==> BuildLookup(entries)[k] == e
  {
    if entries != [] {
      var init, last := entries[..|entries| - 1], entries[|entries| - 1];
      assert entries == init + [last];
      BuildLookupContents(init, k);
      var m := BuildLookup(init);
      assert BuildLookup(entries) == Register(m, KeysOf(last), last);
      forall e | e in entries && k in KeysOf(e)
        ensures BuildLookup(entries)[k] == e
      {
        if k in KeysOf(last) {
          KeysDisjoint(e, last, k);
        } else {
          assert e in init;
        }
      }
    }
  }

  /** The lookup table holds exactly the keys of the four classes, each mapped to its own class. */
  lemma LookupTable(c: AddressClass, k: string)
    ensures k in KeysOf(c) ==> k in LabelLookup() && LabelLookup()[k] == c
    ensures k in LabelLookup() ==> k in KeysOf(LabelLookup()[k])
  {
    BuildLookupContents(ENTRIES, k);
    assert c in ENTRIES;
  }

  /** Every label of a class, and the '-' and '_' spellings of a label with a space, are keys of that class. */
  lemma LabelsAreKeys(c: AddressClass, i: nat)
    requires i < |Labels(c)|
    ensures Labels(c)[i] in KeysOf(c)
    ensures ' ' in Labels(c)[i] ==>
      ReplaceChar(Labels(c)[i], ' ', '-') in KeysOf(c) && ReplaceChar(Labels(c)[i], ' ', '_') in KeysOf(c)
  {
    AllLabelKeysMember(Labels(c), i);
  }

  /** The lookup maps every label of a class, and both spellings of a label with a space, to that class. */
  lemma LabelSpellings(c: AddressClass, i: nat)
    requires i < |Labels(c)|
    ensures Labels(c)[i] in LabelLookup() && LabelLookup()[Labels(c)[i]] == c
    ensures ' ' in Labels(c)[i] ==>
      var dashed, underscored := ReplaceChar(Labels(c)[i], ' ', '-'), ReplaceChar(Labels(c)[i], ' ', '_');
      dashed in LabelLookup() && LabelLookup()[dashed] == c && underscored in LabelLookup() && LabelLookup()[underscored] == c
  {
    var name := Labels(c)[i];
    LabelsAreKeys(c, i);
    LookupTable(c, name);
    if ' ' in name {
      LookupTable(c, ReplaceChar(name, ' ', '-'));
      LookupTable(c, ReplaceChar(name, ' ', '_'));
    }
  }

  /** of(label) finds the class whose key the trimmed, lower-cased label is. */
  lemma OfKnownLabel(name: string, c: AddressClass)
    requires Lowercase(Trim(name)) in KeysOf(c)
    ensures OfLabel(name) == Ok(c)
  {
    LookupTable(c, Lowercase(Trim(name)));
  }

  /** of(label) does not distinguish upper from lower case. */
  lemma OfLabelIgnoresCase(s: string, t: string)
    requires Lowercase(s) == Lowercase(t)
    ensures OfLabel(s) == OfLabel(t)
  {
    TrimLowercase(s);
    TrimLowercase(t);
  }

  /** of(baseOffset) succeeds exactly for the offsets 0, 1, 3 and 4, each giving the class with that offset. */
  lemma OfBaseOffsetTable(n: int)
    ensures OfBaseOffset(n).Ok? <==> n in {0, 1, 3, 4}
    ensures OfBaseOffset(n).Ok? ==> BaseOffset(OfBaseOffset(n).value) == n
  {
    if n == 0 || n == 1 || n == 3 || n == 4 {
      OfOffsetOf(OffsetClass(n), n);
    } else {
      OfUnknownOffset(n);
    }
  }

  /** The class whose base offset is n. */
  function OffsetClass(n: int): (c: AddressClass)
    requires n == 0 || n == 1 || n == 3 || n == 4
    ensures BaseOffset(c) == n
  {
    if n == 0 then Coil else if n == 1 then DiscreteInput else if n == 3 then InputRegister else HoldingRegister
  }

  lemma OfOffsetOf(c: AddressClass, n: int)
    requires n == BaseOffset(c)
    ensures OfBaseOffset(n) == Ok(c)
  {
    OfKnownOffset(c);
  }

  lemma OfKnownOffset(c: AddressClass)
    ensures OfBaseOffset(BaseOffset(c)) == Ok(c)
  {
    var s := IntToString(BaseOffset(c));
    assert s == Decimal(BaseOffset(c)) == [DigitChar(BaseOffset(c))];
    assert Trim(s) == s;
    assert Lowercase(s) == s;
    OfKnownLabel(s, c);
  }

  lemma OfUnknownOffset(n: int)
    requires n !in {0, 1, 3, 4}
    ensures OfBaseOffset(n).Fail?
  {
    var s := IntToString(n);
    OffsetTextTrimmed(n);
    var key := Lowercase(s);
    if key in LabelLookup() {
      var c := LabelLookup()[key];
      LookupTable(c, key);
      KeyShape(c, key);
      if n >= 0 {
        NonNegativeOffsetNotKey(n, c);
      } else {
        NegativeOffsetNotKey(n, c);
      }
    }
  }

  /** The text of a number has no surrounding blanks. */
  lemma OffsetTextTrimmed(n: int)
    ensures Trim(IntToString(n)) == IntToString(n)
  {
    var s := IntToString(n);
    if n >= 0 {
      DecimalDigits(n);
    } else {
      DecimalDigits(-n);
      assert s[0] == '-';
    }
    assert s[|s| - 1] > ' ';
    TrimOfTrimmed(s);
  }

  /** A number other than 0, 1, 3 and 4 is not the digit of a class. */
  lemma NonNegativeOffsetNotKey(n: int, c: AddressClass)
    requires 0 <= n && n !in {0, 1, 3, 4}
    ensures var key := Lowercase(IntToString(n));
      key != Decimal(BaseOffset(c)) && (key == [] || key[0] != Initial(c))
  {
    var s := IntToString(n);
    var key := Lowercase(s);
    DecimalDigits(n);
    LowercaseDigits(s);
    assert key[0] == LowerChar(s[0]);
    if key == Decimal(BaseOffset(c)) {
      DecimalInjective(n, BaseOffset(c));
    }
  }

  /** A negative number starts with '-', which no key does. */
  lemma NegativeOffsetNotKey(n: int, c: AddressClass)
    requires n < 0
    ensures var key := Lowercase(IntToString(n));
      key != Decimal(BaseOffset(c)) && (key == [] || key[0] != Initial(c))
  {
    var s := IntToString(n);
    var key := Lowercase(s);
    DecimalDigits(-n);
    assert s[0] == '-';
    assert key[0] == LowerChar(s[0]);
    DecimalDigits(BaseOffset(c));
  }

  lemma DecimalInjective(m: nat, n: nat)
    requires Decimal(m) == Decimal(n)
    ensures m == n
  {
    DecimalDigits(m);
    DecimalDigits(n);
  }
}
