# modbus-schema core, modelled in Dafny

This project models the runtime core of modbus-schema, a Kotlin toolkit. The toolkit describes a Modbus device as a schema: blocks of named fields whose values are expressions over register and discrete addresses. The model covers the parts that turn such a schema into values read from a device:

- **Addresses and address classes.** The four address classes (coil, discrete input, input register, holding register) with their label and base-offset lookup. Addresses with their clean, Modicon-5, Modicon-6 and "Nx" notations, their parsers, their order and `increment`. The function-code table and its lookups.
- **Byte codecs.** Big-endian packing and unpacking of shorts, ints and longs. Hex strings in both directions. `splitStringBySize`. UTF-8 prefix decoding (`bytesToString`, `isValidUtf8`, `isInRange`). The in-place `reverse`.
- **Register cache.** `ModbusValue` is a per-address state machine: value, timestamp, soft and hard read errors, staleness, immutability and fetch group. `ModbusBlock` is the sorted per-class cache of these values, with get, set, merge, clear, clone and `noGapsValuesList`. It can be loaded from the hex and bit text forms.
- **Mocked device.** It answers register and discrete reads from its blocks and marks missing addresses as read errors.
- **Fetch planning and batching.** The fetch-group mapping and its consistency check. The choice of the stale, needed fields. One query per fetch group. The optimising fetcher merges neighbouring queries under a maximum count and gap, inserting hole queries, and splits a merged query that failed.
- **Fields and blocks.** The need/unNeed reference counting over field dependencies, `initialize`, the circular-reference search, and field ordering.
- **Expression decoders.** The contiguity check and byte extraction of register expressions, not-implemented patterns, bitset, enum, EUI-48 and IPv6 rendering, byte swapping and bit reversal, unsigned 16- and 64-bit widening, and the sign guarantees, return types and long evaluation of the arithmetic operators.
- **Test scenarios.** Loading the test blocks into the cache, comparing the expected field values, and the pass/fail summaries.

**How the model is built**

- Pure Kotlin code is modelled with datatypes and functions.
- Code that updates state in place becomes classes (`ModbusValue`, `ModbusBlock`, `MockedModbusDevice`, the fetchers, `Block`, `TestScenario`) or methods with loops. Each of these is proved against a specification function.
- A Kotlin exception becomes the `Fail` case of a `Result`.
- A nullable result becomes an `Option`.
- The wall clock is a `now` parameter.
- The device is a function from a query to a reply.

**Where the documented intent and the code disagree, the model follows the code.**

- The fetch plan builds each group's query from the first address and the size of the raw address list, as `ModbusBlockFetcher.kt` does. It does not use the sorted, distinct set.
- The merger keeps the as-written count update and its negative holes.
- The operator guarantees use the as-written multiply table.

The corrected versions are modelled beside these and compared with them under "## Findings".

## Model

| member | source | states |
|---|---|---|
| AddressClasses.OrdinalInjective | modbus-api-parent/modbus-api/src/main/kotlin/nl/basjes/modbus/device/api/AddressClass.kt:35-42 | the four enum entries have distinct ordinals, so comparing by ordinal is comparing by class |
| AddressClasses.Register | modbus-api-parent/modbus-api/src/main/kotlin/nl/basjes/modbus/device/api/AddressClass.kt:58-63 | storing a class under several keys adds exactly those keys, maps each to the class and leaves every other key as it was |
| AddressClasses.OfLabel | modbus-api-parent/modbus-api/src/main/kotlin/nl/basjes/modbus/device/api/AddressClass.kt:75-79 | of(label) fails with IllegalArgument exactly when the trimmed, lower-cased label is not a key of the lookup table |
| AddressClasses.AllLabelKeysInitial | modbus-api-parent/modbus-api/src/main/kotlin/nl/basjes/modbus/device/api/AddressClass.kt:59-64 | every key made from a class's labels (including the '-' and '_' spellings) starts with the class's initial letter |
| AddressClasses.AllLabelKeysMember | modbus-api-parent/modbus-api/src/main/kotlin/nl/basjes/modbus/device/api/AddressClass.kt:59-64 | each label is a key, and so are both respellings of a label holding a space |
| AddressClasses.KeyShape | modbus-api-parent/modbus-api/src/main/kotlin/nl/basjes/modbus/device/api/AddressClass.kt:57-66 | a key registered for a class is its base offset in decimal or starts with the class's initial letter |
| AddressClasses.KeysDisjoint | modbus-api-parent/modbus-api/src/main/kotlin/nl/basjes/modbus/device/api/AddressClass.kt:36-42 | no key is registered by two different classes, so the order of registration does not matter |
| AddressClasses.BuildLookupContents | modbus-api-parent/modbus-api/src/main/kotlin/nl/basjes/modbus/device/api/AddressClass.kt:56-67 | the table built over all entries holds exactly the keys of the entries, each mapped to an entry that registered it |
| AddressClasses.LookupTable | modbus-api-parent/modbus-api/src/main/kotlin/nl/basjes/modbus/device/api/AddressClass.kt:53-67 | the lookup table holds exactly the keys of the four classes, each mapped to its own class |
| AddressClasses.LabelsAreKeys | modbus-api-parent/modbus-api/src/main/kotlin/nl/basjes/modbus/device/api/AddressClass.kt:44-50 | the short label, long label and extra labels of a class, and the '-'/'_' spellings of those with a space, are keys of that class |
| AddressClasses.LabelSpellings | modbus-api-parent/modbus-api/src/main/kotlin/nl/basjes/modbus/device/api/AddressClass.kt:59-64 | the lookup maps every label of a class and both respellings to that class |
| AddressClasses.OfKnownLabel | modbus-api-parent/modbus-api/src/main/kotlin/nl/basjes/modbus/device/api/AddressClass.kt:75-79 | of(label) returns the class whose key the trimmed, lower-cased label is |
| AddressClasses.OfLabelIgnoresCase | modbus-api-parent/modbus-api/src/main/kotlin/nl/basjes/modbus/device/api/AddressClass.kt:76 | two labels that differ only in letter case give the same answer |
| AddressClasses.OfBaseOffsetTable | modbus-api-parent/modbus-api/src/main/kotlin/nl/basjes/modbus/device/api/AddressClass.kt:86-89 | of(baseOffset) succeeds exactly for 0, 1, 3 and 4, and gives the class with that base offset |
| AddressClasses.OffsetClass | modbus-api-parent/modbus-api/src/main/kotlin/nl/basjes/modbus/device/api/AddressClass.kt:36-42 | the class picked for an offset has that base offset |
| AddressClasses.OfOffsetOf | modbus-api-parent/modbus-api/src/main/kotlin/nl/basjes/modbus/device/api/AddressClass.kt:86-89 | of(n) for one of the four offsets returns the class with that offset |
| AddressClasses.OfKnownOffset | modbus-api-parent/modbus-api/src/main/kotlin/nl/basjes/modbus/device/api/AddressClass.kt:86-89 | of(baseOffset(c)) == c for every class |
| AddressClasses.OfUnknownOffset | modbus-api-parent/modbus-api/src/main/kotlin/nl/basjes/modbus/device/api/AddressClass.kt:86-89 | any other number (negative ones included) fails |
| AddressClasses.NonNegativeOffsetNotKey | modbus-api-parent/modbus-api/src/main/kotlin/nl/basjes/modbus/device/api/AddressClass.kt:58 | the decimal text of a non-negative number other than 0, 1, 3, 4 is not a key |
| AddressClasses.NegativeOffsetNotKey | modbus-api-parent/modbus-api/src/main/kotlin/nl/basjes/modbus/device/api/AddressClass.kt:58 | the text of a negative number starts with '-', which no key does |
| Addresses.Of | modbus-api-parent/modbus-api/src/main/kotlin/nl/basjes/modbus/device/api/Address.kt:39-43 | an address is made exactly when the physical address is in 0..65535, keeping class and physical address; otherwise IllegalArgument |
| Addresses.Increment | modbus-api-parent/modbus-api/src/main/kotlin/nl/basjes/modbus/device/api/Address.kt:107-110 | increment(step) succeeds exactly when physical + step stays in 0..65535, giving the same class step further on |
| Addresses.ToModicon5 | modbus-api-parent/modbus-api/src/main/kotlin/nl/basjes/modbus/device/api/Address.kt:130-135 | toModicon5 is null exactly when the register number is above 9999 |
| Addresses.CompareOrder | modbus-api-parent/modbus-api/src/main/kotlin/nl/basjes/modbus/device/api/Address.kt:151-168 | compareTo is 0 exactly for equal addresses, negative exactly when the class is lower or the class is equal and the physical address lower, and antisymmetric |
| Addresses.CompareSortKey | modbus-api-parent/modbus-api/src/main/kotlin/nl/basjes/modbus/device/api/Address.kt:151-157 | compareTo agrees with a numeric sort key that is distinct for distinct addresses |
| Addresses.CompareTransitive | modbus-api-parent/modbus-api/src/main/kotlin/nl/basjes/modbus/device/api/Address.kt:151-157 | compareTo is transitive |
| Addresses.FindByOffset | modbus-api-parent/modbus-api/src/main/kotlin/nl/basjes/modbus/device/api/Address.kt:203-219 | the entries search finds a class with the base offset, or none exists |
| Addresses.MatchColon | modbus-api-parent/modbus-api/src/main/kotlin/nl/basjes/modbus/device/api/Address.kt:178 | a match of the colon pattern splits the tag into a label, a colon and a run of digits (also lines 231-237) |
| Addresses.OfTag | modbus-api-parent/modbus-api/src/main/kotlin/nl/basjes/modbus/device/api/Address.kt:226-262 | of(registerTag) lower-cases and trims, then tries the colon form, the "Nx" form and the 5/6-digit form in that order, failing with IllegalArgument otherwise |
| Addresses.OfShortLabel | modbus-api-parent/modbus-api/src/main/kotlin/nl/basjes/modbus/device/api/Address.kt:123-125 | the short label printed by toCleanFormat reads back as the class |
| Addresses.OfTagColon | modbus-api-parent/modbus-api/src/main/kotlin/nl/basjes/modbus/device/api/Address.kt:231-237 | the colon branch: the class of the label at the physical address given |
| Addresses.CleanFormatShape | modbus-api-parent/modbus-api/src/main/kotlin/nl/basjes/modbus/device/api/Address.kt:123-125 | "%s:%05d" is already lower-case and trimmed and splits at its colon into the short label and five digits |
| Addresses.CleanFormatRoundTrip | modbus-api-parent/modbus-api/src/main/kotlin/nl/basjes/modbus/device/api/Address.kt:123-125 | parsing toCleanFormat() gives the same address (also lines 231-237) |
| Addresses.OfOffsetDigit | modbus-api-parent/modbus-api/src/main/kotlin/nl/basjes/modbus/device/api/Address.kt:241-259 | the one-digit class code of a Modicon tag is looked up as that class |
| Addresses.FromRegisterNumberSteps | modbus-api-parent/modbus-api/src/main/kotlin/nl/basjes/modbus/device/api/Address.kt:243-247 | a register number read behind a class code gives the address register number minus the class's offset |
| Addresses.FromRegisterNumberOf | modbus-api-parent/modbus-api/src/main/kotlin/nl/basjes/modbus/device/api/Address.kt:243-258 | the register number of an address behind its class digit reads back as that address |
| Addresses.OfTagX | modbus-api-parent/modbus-api/src/main/kotlin/nl/basjes/modbus/device/api/Address.kt:241-248 | the "Nx" branch reads the class digit and the register number |
| Addresses.XFormShape | modbus-api-parent/modbus-api/src/main/kotlin/nl/basjes/modbus/device/api/Address.kt:147-179 | "%dx%05d" is lower-case, trimmed, has no colon and matches the X pattern |
| Addresses.DigitsFormShape | modbus-api-parent/modbus-api/src/main/kotlin/nl/basjes/modbus/device/api/Address.kt:134 | a digit and four or five digits is lower-case, trimmed, has no colon and does not match the X pattern (also lines 141, 180) |
| Addresses.ModiconXRoundTrip | modbus-api-parent/modbus-api/src/main/kotlin/nl/basjes/modbus/device/api/Address.kt:147-149 | parsing toModiconX() gives the same address (also lines 241-248) |
| Addresses.OfTagDigits | modbus-api-parent/modbus-api/src/main/kotlin/nl/basjes/modbus/device/api/Address.kt:252-259 | the 5/6-digit branch reads the class digit and the register number |
| Addresses.Modicon6RoundTrip | modbus-api-parent/modbus-api/src/main/kotlin/nl/basjes/modbus/device/api/Address.kt:140-142 | parsing toModicon6() gives the same address (also lines 252-259) |
| Addresses.Modicon5RoundTrip | modbus-api-parent/modbus-api/src/main/kotlin/nl/basjes/modbus/device/api/Address.kt:130-135 | parsing toModicon5(), when not null, gives the same address (also lines 252-259) |
| Addresses.ModiconNumberRoundTrip | modbus-api-parent/modbus-api/src/main/kotlin/nl/basjes/modbus/device/api/Address.kt:194-224 | ofModicon6 of base offset * 100000 + register number, and ofModicon5 of base offset * 10000 + register number (up to 9999), give the address back |
| AddressSets.Insert | modbus-schema-device/src/main/kotlin/nl/basjes/modbus/schema/expression/modbus/ModbusExpression.kt:127 | adding to a TreeSet keeps the list ascending, holds exactly the old addresses and the new one, and grows by one unless it was there already |
| AddressSets.SortedSet | modbus-schema-device/src/main/kotlin/nl/basjes/modbus/schema/fetcher/ModbusBlockFetcher.kt:71 | sorted().distinct() (and TreeSet) gives an ascending list with exactly the addresses of the input, no longer than it, and as long exactly when the input has no duplicates |
| AddressSets.SortedSetOfIncreasing | modbus-schema-device/src/main/kotlin/nl/basjes/modbus/schema/expression/modbus/ModbusExpression.kt:149 | an ascending list without duplicates is its own TreeSet, so `addresses == ArrayList(TreeSet(addresses))` holds exactly for such lists |
| AddressSets.KeysSpread | modbus-api-parent/modbus-api/src/main/kotlin/nl/basjes/modbus/device/api/Address.kt:151-157 | in an ascending list, positions i <= j are at least j - i apart in address order |
| AddressSets.SameClassKeys | modbus-api-parent/modbus-api/src/main/kotlin/nl/basjes/modbus/device/api/Address.kt:151-157 | within one class, the distance in address order is the difference of physical addresses |
| AddressSets.ConsecutiveSpan | modbus-schema-device/src/main/kotlin/nl/basjes/modbus/schema/fetcher/ModbusBlockFetcher.kt:76-80 | an ascending list is one gap-free run exactly when its first address incremented by size - 1 is its last address, in the same class |
| AddressSets.ConsecutiveOffsets | modbus-schema-device/src/main/kotlin/nl/basjes/modbus/schema/fetcher/ModbusBlockFetcher.kt:76-80 | a run holds the first address incremented by each position |
| AddressSets.ConsecutiveRange | modbus-schema-device/src/main/kotlin/nl/basjes/modbus/schema/fetcher/ModbusBlockFetcher.kt:76-80 | a run of n addresses holds exactly the n addresses of its class from the first one on |
| Text.TrimEnds | modbus-api-parent/modbus-api/src/main/kotlin/nl/basjes/modbus/device/api/AddressClass.kt:76 | `trim { it <= ' ' }` leaves no character <= ' ' at either end |
| Text.TrimOfTrimmed | modbus-api-parent/modbus-api/src/main/kotlin/nl/basjes/modbus/device/api/AddressClass.kt:76 | trimming a string that has no blank ends changes nothing |
| Text.ReplaceChar | modbus-api-parent/modbus-api/src/main/kotlin/nl/basjes/modbus/device/api/AddressClass.kt:62-63 | replace(' ', '-') changes exactly the matching characters and keeps the length |
| Text.ParseDigits | modbus-api-parent/modbus-api/src/main/kotlin/nl/basjes/modbus/device/api/Address.kt:235-256 | toInt() of a digit run succeeds exactly when its value fits in an Int, and gives that value |
| Text.ZeroPaddedValue | modbus-api-parent/modbus-api/src/main/kotlin/nl/basjes/modbus/device/api/Address.kt:124-148 | "%0wd" of a non-negative number reads back as that number |
| Text.ZeroPaddedLength | modbus-api-parent/modbus-api/src/main/kotlin/nl/basjes/modbus/device/api/Address.kt:124-148 | "%0wd" of a number below 10^w is exactly w characters long |
| Text.TrimLowercase | modbus-api-parent/modbus-api/src/main/kotlin/nl/basjes/modbus/device/api/Address.kt:227 | lower-casing commutes with trimming, so lowercase().trim() and trim().lowercase() agree |
| Text.StringLessTotal | modbus-schema-device/src/main/kotlin/nl/basjes/modbus/schema/fetcher/ModbusBlockFetcher.kt:46 | the TreeMap key order of fetch groups is strict and total |
| Text.StringLessTransitive | modbus-schema-device/src/main/kotlin/nl/basjes/modbus/schema/fetcher/ModbusBlockFetcher.kt:46 | the TreeMap key order is transitive |
| Text.FirstString | modbus-schema-device/src/main/kotlin/nl/basjes/modbus/schema/fetcher/ModbusBlockFetcher.kt:70 | a non-empty set of fetch groups has a first key in that order, so the check visits the first group first |
| FunctionCodes.FindByCode | modbus-api-parent/modbus-api/src/main/kotlin/nl/basjes/modbus/device/api/FunctionCode.kt:72-73 | firstOrNull on the code finds an entry with that code, or no entry has it |
| FunctionCodes.FindServing | modbus-api-parent/modbus-api/src/main/kotlin/nl/basjes/modbus/device/api/FunctionCode.kt:84-113 | the filtered firstOrNull finds an entry of the class serving the purpose, or none serves it |
| FunctionCodes.Of | modbus-api-parent/modbus-api/src/main/kotlin/nl/basjes/modbus/device/api/FunctionCode.kt:71-75 | of(code) fails only with IllegalArgument |
| FunctionCodes.CodeInjective | modbus-api-parent/modbus-api/src/main/kotlin/nl/basjes/modbus/device/api/FunctionCode.kt:41-49 | the eight numeric codes are distinct |
| FunctionCodes.OfTable | modbus-api-parent/modbus-api/src/main/kotlin/nl/basjes/modbus/device/api/FunctionCode.kt:71-75 | of(code) succeeds exactly for the eight listed codes and returns the entry with that code |
| FunctionCodes.OfCode | modbus-api-parent/modbus-api/src/main/kotlin/nl/basjes/modbus/device/api/FunctionCode.kt:71-75 | of(code(f)) == f for every entry |
| FunctionCodes.ServingUnique | modbus-api-parent/modbus-api/src/main/kotlin/nl/basjes/modbus/device/api/FunctionCode.kt:41-49 | at most one entry serves a given class and purpose, so firstOrNull does not depend on the order |
| FunctionCodes.LookupExact | modbus-api-parent/modbus-api/src/main/kotlin/nl/basjes/modbus/device/api/FunctionCode.kt:82-115 | a lookup by class and purpose returns f exactly when f serves them |
| FunctionCodes.ForReadingTable | modbus-api-parent/modbus-api/src/main/kotlin/nl/basjes/modbus/device/api/FunctionCode.kt:82-89 | forReading never throws and returns exactly the read code of the class |
| FunctionCodes.WritingLookup | modbus-api-parent/modbus-api/src/main/kotlin/nl/basjes/modbus/device/api/FunctionCode.kt:96-115 | a write lookup throws exactly for discrete inputs and input registers, and otherwise returns the code serving the class |
| FunctionCodes.ReadOnlyUnserved | modbus-api-parent/modbus-api/src/main/kotlin/nl/basjes/modbus/device/api/FunctionCode.kt:41-49 | no entry writes to a discrete input or an input register |
| FunctionCodes.ForWritingTable | modbus-api-parent/modbus-api/src/main/kotlin/nl/basjes/modbus/device/api/FunctionCode.kt:96-115 | forWritingSingle and forWritingMultiple throw exactly for the read-only classes, and otherwise return a single (resp. multiple) write code of the class |
| FunctionCodes.ReadingCodes | modbus-api-parent/modbus-api/src/main/kotlin/nl/basjes/modbus/device/api/FunctionCode.kt:51-58 | isForReading is !forWriting and holds exactly for codes 1..4; writing codes are for coils and holding registers; bitsPerValue is 1 for bit classes and 16 otherwise |
| ParameterValidations.ValidIdentifierIsPattern | modbus-schema-device/src/main/kotlin/nl/basjes/modbus/schema/utils/ParameterValidations.kt:21-23 | the character-level rule accepts exactly the strings `^[a-zA-Z]([a-zA-Z0-9_ ]*[a-zA-Z0-9_]+)?$` matches |
| ParameterValidations.EmptyIsInvalid | modbus-schema-device/src/main/kotlin/nl/basjes/modbus/schema/utils/ParameterValidations.kt:21-23 | the empty string is not an identifier |
| ParameterValidations.ValidIdentifierChars | modbus-schema-device/src/main/kotlin/nl/basjes/modbus/schema/utils/ParameterValidations.kt:21 | an identifier only holds letters, digits, '_' and ' ' |
| ParameterValidations.ValidIdentifierIsTrimmed | modbus-schema-device/src/main/kotlin/nl/basjes/modbus/schema/utils/ParameterValidations.kt:21 | an identifier starts with a letter and does not end in a space |
| ParameterValidations.RequireValidIdentifier | modbus-schema-device/src/main/kotlin/nl/basjes/modbus/schema/utils/ParameterValidations.kt:25-32 | requireValidIdentifier passes exactly on a matching id and otherwise throws ModbusSchemaParseException |
| ParameterValidations.NewNameUsableAsClassName | modbus-schema-device/src/main/kotlin/nl/basjes/modbus/schema/utils/ParameterValidations.kt:34-41 | the value class is built exactly from a matching string, keeping it, and otherwise throws IllegalArgument |
| ByteConversions.ByteReadings | modbus-schema-device/src/main/kotlin/nl/basjes/modbus/schema/utils/ByteConversions.kt:172 | the signed Kotlin byte and its unsigned `and 0xFF` reading are inverse to each other; negative bytes read as 128..255 |
| ByteConversions.ToBytesBESplit | modbus-schema-device/src/main/kotlin/nl/basjes/modbus/schema/utils/ByteConversions.kt:313-321 | packing keeps the low n bytes of the value: what it drops is a multiple of 256^n (also lines 335-343, 356-364) |
| ByteConversions.PackUnpack | modbus-schema-device/src/main/kotlin/nl/basjes/modbus/schema/utils/ByteConversions.kt:313-374 | a value in the n-byte two's-complement range packs and unpacks to itself |
| ByteConversions.ToBytesBEPeriodic | modbus-schema-device/src/main/kotlin/nl/basjes/modbus/schema/utils/ByteConversions.kt:316-319 | adding a multiple of 256^n does not change the n low bytes |
| ByteConversions.ToBytesBEOfFromBytesBE | modbus-schema-device/src/main/kotlin/nl/basjes/modbus/schema/utils/ByteConversions.kt:323-374 | reading bytes unsigned and packing them again gives the bytes back |
| ByteConversions.UnpackPack | modbus-schema-device/src/main/kotlin/nl/basjes/modbus/schema/utils/ByteConversions.kt:323-374 | reading bytes as a signed number lands in the signed range and packs back to the same bytes |
| ByteConversions.PackBigEndian | modbus-schema-device/src/main/kotlin/nl/basjes/modbus/schema/utils/ByteConversions.kt:313-321 | the shared packing loop fills an array of the given size with the value's bytes, most significant first (also lines 335-343, 356-364) |
| ByteConversions.UnpackBigEndian | modbus-schema-device/src/main/kotlin/nl/basjes/modbus/schema/utils/ByteConversions.kt:326-330 | the shared shift-and-or loop computes the unsigned big-endian number the bytes spell (also lines 348-352, 369-373) |
| ByteConversions.ShortToBytes | modbus-schema-device/src/main/kotlin/nl/basjes/modbus/schema/utils/ByteConversions.kt:313-321 | shortToBytes gives 2 big-endian bytes that read back as the input |
| ByteConversions.IntegerToBytes | modbus-schema-device/src/main/kotlin/nl/basjes/modbus/schema/utils/ByteConversions.kt:335-343 | integerToBytes gives 4 big-endian bytes that read back as the input |
| ByteConversions.LongToBytes | modbus-schema-device/src/main/kotlin/nl/basjes/modbus/schema/utils/ByteConversions.kt:356-364 | longToBytes gives 8 big-endian bytes that read back as the input |
| ByteConversions.BytesToShort | modbus-schema-device/src/main/kotlin/nl/basjes/modbus/schema/utils/ByteConversions.kt:28-32 | bytesToShort succeeds exactly on 2 bytes (IllegalArgument otherwise) and returns the short those bytes encode (also lines 323-332) |
| ByteConversions.BytesToInteger | modbus-schema-device/src/main/kotlin/nl/basjes/modbus/schema/utils/ByteConversions.kt:28-32 | bytesToInteger succeeds exactly on 4 bytes (IllegalArgument otherwise) and returns the int those bytes encode (also lines 345-353) |
| ByteConversions.BytesToLong | modbus-schema-device/src/main/kotlin/nl/basjes/modbus/schema/utils/ByteConversions.kt:28-32 | bytesToLong succeeds exactly on 8 bytes (IllegalArgument otherwise) and returns the long those bytes encode (also lines 366-374) |
| ByteConversions.JoinedHexLayout | modbus-schema-device/src/main/kotlin/nl/basjes/modbus/schema/utils/ByteConversions.kt:45-54 | with a one-character separator, byte i is rendered as "%02X" at characters 3i..3i+1 and followed by the separator |
| ByteConversions.SeparatedHexLayout | modbus-schema-device/src/main/kotlin/nl/basjes/modbus/schema/utils/ByteConversions.kt:34-43 | in "0x" + join(" 0x") each byte sits after a separator, at fixed positions |
| ByteConversions.TwoByteHexLayout | modbus-schema-device/src/main/kotlin/nl/basjes/modbus/schema/utils/ByteConversions.kt:67-79 | bytesToSeparatedTwoByteHexString renders register i as "%02X%02X" at characters 5i..5i+3, separated by the separator |
| ByteConversions.TwoByteHexAt | modbus-schema-device/src/main/kotlin/nl/basjes/modbus/schema/utils/ByteConversions.kt:67-79 | the four hex digits of register i and the separator after it |
| ByteConversions.SeparatedTwoByteHexAt | modbus-schema-device/src/main/kotlin/nl/basjes/modbus/schema/utils/ByteConversions.kt:67-79 | the same rendering with a leading separator puts register i after a separator at 5i |
| ByteConversions.SplitStringBySize | modbus-schema-device/src/main/kotlin/nl/basjes/modbus/schema/utils/ByteConversions.kt:82-94 | the loop collects the non-empty substrings [i*size, min((i+1)*size, length)), i.e. the chunks of the string |
| ByteConversions.ChunksConcat | modbus-schema-device/src/main/kotlin/nl/basjes/modbus/schema/utils/ByteConversions.kt:82-94 | the chunks concatenate to the input |
| ByteConversions.ChunksSizes | modbus-schema-device/src/main/kotlin/nl/basjes/modbus/schema/utils/ByteConversions.kt:82-94 | every chunk is non-empty and at most size long, and all but the last are exactly size long |
| ByteConversions.ParseHexInt | modbus-schema-device/src/main/kotlin/nl/basjes/modbus/schema/utils/ByteConversions.kt:110 | toInt(16) succeeds exactly on a signed hex number that fits in 32 bits and returns its value; otherwise NumberFormatException |
| ByteConversions.DecodeWords | modbus-schema-device/src/main/kotlin/nl/basjes/modbus/schema/utils/ByteConversions.kt:104-113 | the words decode into at most the array's capacity of bytes |
| ByteConversions.HexStringToBytes | modbus-schema-device/src/main/kotlin/nl/basjes/modbus/schema/utils/ByteConversions.kt:96-115 | hexStringToBytes removes "0x" and spaces, trims, splits into pairs, skips blank pairs and parses each into the next byte of a zero-filled array of half the length |
| ByteConversions.DecodeIntoArray | modbus-schema-device/src/main/kotlin/nl/basjes/modbus/schema/utils/ByteConversions.kt:102-114 | the array loop stores each parsed byte at the next index, failing like the source on a bad pair or a full array |
| ByteConversions.RemoveMarkers | modbus-schema-device/src/main/kotlin/nl/basjes/modbus/schema/utils/ByteConversions.kt:42 | removing "0x" from the rendering removes exactly the " 0x" markers (also lines 98) |
| ByteConversions.RemoveSeparators | modbus-schema-device/src/main/kotlin/nl/basjes/modbus/schema/utils/ByteConversions.kt:99 | removing spaces leaves the plain hex digits |
| ByteConversions.ChunksOfPlainHex | modbus-schema-device/src/main/kotlin/nl/basjes/modbus/schema/utils/ByteConversions.kt:104 | the plain hex digits split into pairs give one pair per byte |
| ByteConversions.ParseHexByte | modbus-schema-device/src/main/kotlin/nl/basjes/modbus/schema/utils/ByteConversions.kt:105-111 | a "%02X" pair, trimmed, lower-cased and parsed with toInt(16), gives the byte back |
| ByteConversions.DecodeHexWords | modbus-schema-device/src/main/kotlin/nl/basjes/modbus/schema/utils/ByteConversions.kt:104-113 | the pairs of a byte sequence decode to those bytes |
| ByteConversions.CleanRendering | modbus-schema-device/src/main/kotlin/nl/basjes/modbus/schema/utils/ByteConversions.kt:34-43 | cleaning the output of bytesToHexString leaves its plain hex digits (also lines 97-100) |
| ByteConversions.DecodePlainHex | modbus-schema-device/src/main/kotlin/nl/basjes/modbus/schema/utils/ByteConversions.kt:96-115 | any text that cleans to the plain hex digits of some bytes decodes to those bytes |
| ByteConversions.HexRoundTrip | modbus-schema-device/src/main/kotlin/nl/basjes/modbus/schema/utils/ByteConversions.kt:34-43 | hexStringToBytes(bytesToHexString(b)) == b for every byte sequence (also lines 96-115) |
| ByteConversions.PrefixesIgnored | modbus-schema-device/src/main/kotlin/nl/basjes/modbus/schema/utils/ByteConversions.kt:97-100 | a leading space or "0x" does not change the result |
| ByteConversions.InRangeUnsigned | modbus-schema-device/src/main/kotlin/nl/basjes/modbus/schema/utils/ByteConversions.kt:171-174 | isInRange tests the unsigned value 0..255 of the byte against the inclusive range |
| ByteConversions.ThreeByteValue | modbus-schema-device/src/main/kotlin/nl/basjes/modbus/schema/utils/ByteConversions.kt:197-216 | a valid three-byte sequence encodes a code point from 0x800 to 0xFFFF that is not a surrogate |
| ByteConversions.FourByteValue | modbus-schema-device/src/main/kotlin/nl/basjes/modbus/schema/utils/ByteConversions.kt:218-232 | a valid four-byte sequence encodes a code point from 0x10000 to 0x10FFFF |
| ByteConversions.EncodeChar | modbus-schema-device/src/main/kotlin/nl/basjes/modbus/schema/utils/ByteConversions.kt:308-310 | the UTF-8 encoding of a character is 1 to 4 bytes |
| ByteConversions.EncodeDecodeChar | modbus-schema-device/src/main/kotlin/nl/basjes/modbus/schema/utils/ByteConversions.kt:181-236 | every character but NUL encodes to a sequence whose lead byte announces its length, that isValidUtf8 accepts, and that decodes back to it (also lines 257-281, 308-310) |
| ByteConversions.ValidThree | modbus-schema-device/src/main/kotlin/nl/basjes/modbus/schema/utils/ByteConversions.kt:197-216 | the three-byte patterns of code points 0x800..0xFFFF (surrogates excepted) pass isValidUtf8 |
| ByteConversions.ValidFour | modbus-schema-device/src/main/kotlin/nl/basjes/modbus/schema/utils/ByteConversions.kt:218-232 | the four-byte patterns of code points 0x10000..0x10FFFF pass isValidUtf8 |
| ByteConversions.ScanOfEncoded | modbus-schema-device/src/main/kotlin/nl/basjes/modbus/schema/utils/ByteConversions.kt:256-300 | the scan reads stringToBytes(s) back as s without marking it invalid, when s holds no NUL |
| ByteConversions.Utf8RoundTrip | modbus-schema-device/src/main/kotlin/nl/basjes/modbus/schema/utils/ByteConversions.kt:245-310 | bytesToString(stringToBytes(s)) == s for every text without NUL |
| ByteConversions.CopyChar | modbus-schema-device/src/main/kotlin/nl/basjes/modbus/schema/utils/ByteConversions.kt:283-289 | the inner loop copies the n bytes of one character, or reports that the array ends first |
| ByteConversions.ScanChar | modbus-schema-device/src/main/kotlin/nl/basjes/modbus/schema/utils/ByteConversions.kt:256-299 | one turn of the outer loop stops on NUL, a bad lead byte, a truncated or an invalid sequence, and otherwise appends one decoded character |
| ByteConversions.BytesToString | modbus-schema-device/src/main/kotlin/nl/basjes/modbus/schema/utils/ByteConversions.kt:245-306 | bytesToString returns "" for an empty or NUL-led array, the longest valid prefix otherwise, and null only when the text is invalid with nothing decoded |
| ByteConversions.Reversed | modbus-schema-device/src/main/kotlin/nl/basjes/modbus/schema/utils/ByteConversions.kt:397-399 | the reversed sequence has element \|s\|-1-i at position i |
| ByteConversions.Reverse | modbus-schema-device/src/main/kotlin/nl/basjes/modbus/schema/utils/ByteConversions.kt:400-410 | reverse leaves the array holding its old contents in the opposite order |
| ByteConversions.ReversedTwice | modbus-schema-device/src/main/kotlin/nl/basjes/modbus/schema/utils/ByteConversions.kt:400-410 | reversing twice restores the sequence (bytes, and the bits of reverseBits) |
| ModbusValues.LongMinus | modbus-api-parent/modbus-api/src/main/kotlin/nl/basjes/modbus/device/api/ModbusValue.kt:222 | the Long subtraction in the age check is exact inside the 64-bit range and otherwise differs from the true difference by a multiple of 2^64 |
| ModbusValues.Timestamp | modbus-api-parent/modbus-api/src/main/kotlin/nl/basjes/modbus/device/api/ModbusValue.kt:143-144 | the timestamp is present exactly when the value is not immutable and its fetch time is after 1900, and then it is that fetch time |
| ModbusValues.SetValueEffect | modbus-api-parent/modbus-api/src/main/kotlin/nl/basjes/modbus/device/api/ModbusValue.kt:167-176 | after setValue(value, timestamp) the value is present, no read error remains, and only value, fetch time and hard flag changed |
| ModbusValues.SetValueStaleness | modbus-api-parent/modbus-api/src/main/kotlin/nl/basjes/modbus/device/api/ModbusValue.kt:167-176 | a value just set with a valid timestamp needs an update exactly when it is older than maxAge (also lines 205-223) |
| ModbusValues.ReadErrorSetters | modbus-api-parent/modbus-api/src/main/kotlin/nl/basjes/modbus/device/api/ModbusValue.kt:184-196 | after either read-error setter the value is absent, the read-error timestamp is set, isReadError holds and no timestamp is visible |
| ModbusValues.ClearSoftReadErrorEffect | modbus-api-parent/modbus-api/src/main/kotlin/nl/basjes/modbus/device/api/ModbusValue.kt:198-223 | clearing a soft read error makes the value fetchable again; a hard read error survives it; without a read error nothing changes |
| ModbusValues.NeedsToBeUpdatedRules | modbus-api-parent/modbus-api/src/main/kotlin/nl/basjes/modbus/device/api/ModbusValue.kt:205-223 | a read error never needs an update, a missing value always does, an immutable present value never does, a value from before 1900 always does |
| ModbusValues.StalenessPersists | modbus-api-parent/modbus-api/src/main/kotlin/nl/basjes/modbus/device/api/ModbusValue.kt:205-223 | a value stale at one moment stays stale at any later moment while the age fits in a Long |
| ModbusValues.ClearedNeedsUpdate | modbus-api-parent/modbus-api/src/main/kotlin/nl/basjes/modbus/device/api/ModbusValue.kt:225-228 | clear forgets the value and any read error, so the value needs an update and has no timestamp |
| ModbusValues.SetValueOfEffect | modbus-api-parent/modbus-api/src/main/kotlin/nl/basjes/modbus/device/api/ModbusValue.kt:159-165 | setValue(other) copies value, fetch time and hard flag and keeps address, fetch group, immutability and comment |
| ModbusValues.ModbusValue.constructor | modbus-api-parent/modbus-api/src/main/kotlin/nl/basjes/modbus/device/api/ModbusValue.kt:100-141 | a new value has no value, fetch time Long.MIN_VALUE, no read error and fetch group "FG_" plus the clean address |
| ModbusValues.ModbusValue.Clone | modbus-api-parent/modbus-api/src/main/kotlin/nl/basjes/modbus/device/api/ModbusValue.kt:146-155 | clone returns a new object whose every field equals this one's |
| ModbusValues.ModbusValue.SetValue | modbus-api-parent/modbus-api/src/main/kotlin/nl/basjes/modbus/device/api/ModbusValue.kt:167-176 | the object's new state is the old one with the value and timestamp set and the hard flag cleared |
| ModbusValues.ModbusValue.SetValueOf | modbus-api-parent/modbus-api/src/main/kotlin/nl/basjes/modbus/device/api/ModbusValue.kt:159-165 | the new state takes value, fetch time and hard flag from the other object as it was before the call, also when it is this object |
| ModbusValues.ModbusValue.SetSoftReadError | modbus-api-parent/modbus-api/src/main/kotlin/nl/basjes/modbus/device/api/ModbusValue.kt:184-188 | the new state is a soft read error |
| ModbusValues.ModbusValue.SetHardReadError | modbus-api-parent/modbus-api/src/main/kotlin/nl/basjes/modbus/device/api/ModbusValue.kt:190-194 | the new state is a hard read error |
| ModbusValues.ModbusValue.ClearSoftReadError | modbus-api-parent/modbus-api/src/main/kotlin/nl/basjes/modbus/device/api/ModbusValue.kt:198-203 | the new state has a soft read error reset and anything else untouched |
| ModbusValues.ModbusValue.Clear | modbus-api-parent/modbus-api/src/main/kotlin/nl/basjes/modbus/device/api/ModbusValue.kt:225-228 | the new state has no value and fetch time Long.MIN_VALUE |
| ModbusValues.NewValue | modbus-api-parent/modbus-api/src/main/kotlin/nl/basjes/modbus/device/api/ModbusValue.kt:27-32 | construction succeeds exactly when the address class has the required bits per value (16 for registers, 1 for discretes), and fails with ModbusIllegalAddressClassException otherwise (also lines 65-70, 109-114) |
| Fields.NewField | modbus-schema-device/src/main/kotlin/nl/basjes/modbus/schema/Field.kt:87 | a field is created exactly when its id is a valid identifier, and otherwise fails with ModbusSchemaParseException (also lines 410-411) |
| Fields.FetchGroup | modbus-schema-device/src/main/kotlin/nl/basjes/modbus/schema/Field.kt:97-98 | the fetch group is the configured one unless blank, and then "<<blockId \| id>>" |
| Fields.DefaultFetchGroupsDistinct | modbus-schema-device/src/main/kotlin/nl/basjes/modbus/schema/Field.kt:97-98 | two fields share a default fetch group only when they have the same block and id, so each such field is fetched on its own |
| Fields.InitializedClass | modbus-schema-device/src/main/kotlin/nl/basjes/modbus/schema/Field.kt:168-180 | the address class initialize() leaves in the field is set exactly when the field initialized and uses registers, and then it is the class of every one of them |
| Fields.Initialize | modbus-schema-device/src/main/kotlin/nl/basjes/modbus/schema/Field.kt:109-192 | initialize succeeds only for a cleanly initialized expression with at most 125 registers, all required fields present, a known return type and one address class (which it records), and fails with the source's exception otherwise |
| Fields.CompareFieldsOrder | modbus-schema-device/src/main/kotlin/nl/basjes/modbus/schema/Field.kt:390-405 | compareTo orders fields by their first register, is antisymmetric, and puts fields without registers last |
| ModbusBlocks.Touch | modbus-api-parent/modbus-api/src/main/kotlin/nl/basjes/modbus/device/api/ModbusBlock.kt:121-124 | computeIfAbsent adds an empty entry for a missing address and keeps every existing entry |
| ModbusBlocks.PutValue | modbus-api-parent/modbus-api/src/main/kotlin/nl/basjes/modbus/device/api/ModbusBlock.kt:157-159 | put(value) gives the entry at the value's address the value, timestamp and error flag, and changes no other address |
| ModbusBlocks.MergeValues | modbus-api-parent/modbus-api/src/main/kotlin/nl/basjes/modbus/device/api/ModbusBlock.kt:200-205 | the merged block has the keys of both blocks |
| ModbusBlocks.MergeOneMore | modbus-api-parent/modbus-api/src/main/kotlin/nl/basjes/modbus/device/api/ModbusBlock.kt:200-205 | one more incoming value at a new address is one more put, so the loop order does not matter |
| ModbusBlocks.MergeEffect | modbus-api-parent/modbus-api/src/main/kotlin/nl/basjes/modbus/device/api/ModbusBlock.kt:157-159 | an incoming address takes the incoming value, timestamp and error flag and keeps its comment and immutability; every other address is untouched (also lines 200-205) |
| ModbusBlocks.MergeEffects | modbus-api-parent/modbus-api/src/main/kotlin/nl/basjes/modbus/device/api/ModbusBlock.kt:157-159 | the same at every address at once (also lines 200-205) |
| ModbusBlocks.MergeIdempotent | modbus-api-parent/modbus-api/src/main/kotlin/nl/basjes/modbus/device/api/ModbusBlock.kt:200-205 | merging the same block twice changes nothing more |
| ModbusBlocks.MergeWellFormed | modbus-api-parent/modbus-api/src/main/kotlin/nl/basjes/modbus/device/api/ModbusBlock.kt:200-205 | merging blocks of one class keeps every key in that class and at its own address |
| ModbusBlocks.ClearedValues | modbus-api-parent/modbus-api/src/main/kotlin/nl/basjes/modbus/device/api/ModbusBlock.kt:116-119 | clear keeps every key |
| ModbusBlocks.ClearEffect | modbus-api-parent/modbus-api/src/main/kotlin/nl/basjes/modbus/device/api/ModbusBlock.kt:116-119 | clear keeps the comments and forgets every value and read error, so every entry needs an update |
| ModbusBlocks.FirstKeyUnique | modbus-api-parent/modbus-api/src/main/kotlin/nl/basjes/modbus/device/api/ModbusBlock.kt:138-144 | only one key can be the first |
| ModbusBlocks.Span | modbus-api-parent/modbus-api/src/main/kotlin/nl/basjes/modbus/device/api/ModbusBlock.kt:212-226 | the span from lo to hi holds hi-lo+1 values |
| ModbusBlocks.SpanAt | modbus-api-parent/modbus-api/src/main/kotlin/nl/basjes/modbus/device/api/ModbusBlock.kt:212-226 | element i of the span is the entry at address lo+i |
| ModbusBlocks.FirstNotAfterLast | modbus-api-parent/modbus-api/src/main/kotlin/nl/basjes/modbus/device/api/ModbusBlock.kt:138-144 | the first key never sorts after the last (also lines 212-226) |
| ModbusBlocks.SpanAddresses | modbus-api-parent/modbus-api/src/main/kotlin/nl/basjes/modbus/device/api/ModbusBlock.kt:212-226 | from the first key to the last, position i holds address first+i and every stored value sits at its own position |
| ModbusBlocks.ModbusBlock.constructor | modbus-api-parent/modbus-api/src/main/kotlin/nl/basjes/modbus/device/api/ModbusBlock.kt:101-108 | a new block of the given class is empty |
| ModbusBlocks.ModbusBlock.Get | modbus-api-parent/modbus-api/src/main/kotlin/nl/basjes/modbus/device/api/ModbusBlock.kt:121-124 | get fails on another class and leaves the block alone; otherwise it returns the entry and creates an empty one when absent (also lines 280-287) |
| ModbusBlocks.ModbusBlock.SetAbsent | modbus-api-parent/modbus-api/src/main/kotlin/nl/basjes/modbus/device/api/ModbusBlock.kt:181-183 | setValue(address) only creates the entry when absent, after the class check |
| ModbusBlocks.ModbusBlock.SetReadError | modbus-api-parent/modbus-api/src/main/kotlin/nl/basjes/modbus/device/api/ModbusBlock.kt:188-190 | setReadError turns the entry (created if absent) into a soft read error, after the class check |
| ModbusBlocks.ModbusBlock.SetValue | modbus-api-parent/modbus-api/src/main/kotlin/nl/basjes/modbus/device/api/ModbusBlock.kt:192-198 | setValue(address, value, timestamp) sets that entry (created if absent) and no other, after the class check |
| ModbusBlocks.ModbusBlock.Put | modbus-api-parent/modbus-api/src/main/kotlin/nl/basjes/modbus/device/api/ModbusBlock.kt:157-159 | put(value) updates the entry at the value's own address as PutValue says, after the class check |
| ModbusBlocks.ModbusBlock.Set | modbus-api-parent/modbus-api/src/main/kotlin/nl/basjes/modbus/device/api/ModbusBlock.kt:126-136 | set(address, value) updates an existing entry through setValue when the value has one, and otherwise stores the value object as given without a class check |
| ModbusBlocks.ModbusBlock.Merge | modbus-api-parent/modbus-api/src/main/kotlin/nl/basjes/modbus/device/api/ModbusBlock.kt:200-205 | merge fails on another class and otherwise leaves exactly MergeValues of the two blocks as they were before the call |
| ModbusBlocks.ModbusBlock.Clear | modbus-api-parent/modbus-api/src/main/kotlin/nl/basjes/modbus/device/api/ModbusBlock.kt:116-119 | the block's values become ClearedValues of the old values |
| ModbusBlocks.ModbusBlock.GetValue | modbus-api-parent/modbus-api/src/main/kotlin/nl/basjes/modbus/device/api/ModbusBlock.kt:207-210 | getValue returns a value exactly when the entry exists and holds one, and then that value |
| ModbusBlocks.ModbusBlock.FirstAddress | modbus-api-parent/modbus-api/src/main/kotlin/nl/basjes/modbus/device/api/ModbusBlock.kt:138-144 | firstAddress is null exactly when the block is empty, and otherwise the smallest key |
| ModbusBlocks.ModbusBlock.LastAddress | modbus-api-parent/modbus-api/src/main/kotlin/nl/basjes/modbus/device/api/ModbusBlock.kt:212-226 | the largest key, or null exactly for an empty block |
| ModbusBlocks.ModbusBlock.NoGapsValuesList | modbus-api-parent/modbus-api/src/main/kotlin/nl/basjes/modbus/device/api/ModbusBlock.kt:212-226 | noGapsValuesList is empty exactly for an empty block and otherwise lists one value per address from the first key to the last, stored values in place and empty fillers in the gaps |
| ModbusBlocks.ModbusBlock.Clone | modbus-api-parent/modbus-api/src/main/kotlin/nl/basjes/modbus/device/api/ModbusBlock.kt:289-295 | clone returns a new block of the same class with equal values |
| ModbusBlocks.NewBlock | modbus-api-parent/modbus-api/src/main/kotlin/nl/basjes/modbus/device/api/ModbusBlock.kt:20-68 | a block is created exactly when its class has the required bits per value (16 for RegisterBlock, 1 for DiscreteBlock) and fails with ModbusIllegalAddressClassException otherwise (also lines 110-114) |
| ModbusBlockLoaders.LineEnd | modbus-api-parent/modbus-api/src/main/kotlin/nl/basjes/modbus/device/api/ModbusBlock.kt:307-308 | a comment runs to the first line terminator: none before it, and one at it unless the text ends |
| ModbusBlockLoaders.DropCommentsKeepsLines | modbus-api-parent/modbus-api/src/main/kotlin/nl/basjes/modbus/device/api/ModbusBlock.kt:307-308 | dropping '#' and '//' comments keeps the number of line feeds |
| ModbusBlockLoaders.DropCommentsNeedsLineFeed | modbus-api-parent/modbus-api/src/main/kotlin/nl/basjes/modbus/device/api/ModbusBlock.kt:307-308 | a comment on a last line without a line feed is not dropped, because the pattern needs a "\n" |
| ModbusBlockLoaders.DropCommentsWithoutMarker | modbus-api-parent/modbus-api/src/main/kotlin/nl/basjes/modbus/device/api/ModbusBlock.kt:307-308 | a text without the marker is unchanged |
| ModbusBlockLoaders.Split | modbus-api-parent/modbus-api/src/main/kotlin/nl/basjes/modbus/device/api/ModbusBlock.kt:313 | split(" ") gives at least one piece |
| ModbusBlockLoaders.SplitJoin | modbus-api-parent/modbus-api/src/main/kotlin/nl/basjes/modbus/device/api/ModbusBlock.kt:313 | the pieces join back to the text and none holds a space |
| ModbusBlockLoaders.Tokens | modbus-api-parent/modbus-api/src/main/kotlin/nl/basjes/modbus/device/api/ModbusBlock.kt:328-361 | the words kept are trimmed, non-empty, and no more than the input words |
| ModbusBlockLoaders.LoadRunOk | modbus-api-parent/modbus-api/src/main/kotlin/nl/basjes/modbus/device/api/ModbusBlock.kt:326-345 | a load succeeds exactly when every address stays below 65536 and every token step succeeds (also lines 355-384) |
| ModbusBlockLoaders.LoadRunContents | modbus-api-parent/modbus-api/src/main/kotlin/nl/basjes/modbus/device/api/ModbusBlock.kt:326-345 | a successful load holds the stepped entry at every address of the run and leaves every other entry as it was (also lines 355-384) |
| ModbusBlockLoaders.LoadRunFresh | modbus-api-parent/modbus-api/src/main/kotlin/nl/basjes/modbus/device/api/ModbusBlock.kt:320-385 | a load into a new block holds exactly the run's addresses, each stepped from empty |
| ModbusBlockLoaders.LoadRunFailure | modbus-api-parent/modbus-api/src/main/kotlin/nl/basjes/modbus/device/api/ModbusBlock.kt:334-374 | a failed load failed on an address past 65535 or on a failing step |
| ModbusBlockLoaders.RegisterStepRules | modbus-api-parent/modbus-api/src/main/kotlin/nl/basjes/modbus/device/api/ModbusBlock.kt:363-380 | "null" and "----" leave the register empty, "xxxx" makes it a soft read error, any other token must parse as a hex Int and stores its low 16 bits |
| ModbusBlockLoaders.RegisterRunEffect | modbus-api-parent/modbus-api/src/main/kotlin/nl/basjes/modbus/device/api/ModbusBlock.kt:349-385 | token i goes to address first+i by the token rules and nothing else is in the block; the load fails exactly on a bad hex token or a run past 65535 |
| ModbusBlockLoaders.ToRegisterBlock | modbus-api-parent/modbus-api/src/main/kotlin/nl/basjes/modbus/device/api/ModbusBlock.kt:349-385 | toRegisterBlock returns a new valid block of the first address's class holding exactly the register load, or fails as the load does |
| ModbusBlockLoaders.LoadRegisterWords | modbus-api-parent/modbus-api/src/main/kotlin/nl/basjes/modbus/device/api/ModbusBlock.kt:357-383 | the word loop leaves the block as the load from the given address says |
| ModbusBlockLoaders.LoadRegisterAt | modbus-api-parent/modbus-api/src/main/kotlin/nl/basjes/modbus/device/api/ModbusBlock.kt:362-382 | one token goes to the current address, and the next address is one further |
| ModbusBlockLoaders.LoadRegisterToken | modbus-api-parent/modbus-api/src/main/kotlin/nl/basjes/modbus/device/api/ModbusBlock.kt:363-380 | one token sets the register absent, marks a read error or stores the parsed value, as RegisterStep says |
| ModbusBlockLoaders.DiscreteRunEffect | modbus-api-parent/modbus-api/src/main/kotlin/nl/basjes/modbus/device/api/ModbusBlock.kt:320-346 | character i goes to address first+i and nothing else is in the block; the load fails exactly on a character other than 0/1/-/x or a run past 65535 |
| ModbusBlockLoaders.ToDiscreteBlock | modbus-api-parent/modbus-api/src/main/kotlin/nl/basjes/modbus/device/api/ModbusBlock.kt:320-346 | toDiscreteBlock returns a new valid block holding exactly the discrete load, or fails as the load does |
| ModbusBlockLoaders.LoadDiscreteToken | modbus-api-parent/modbus-api/src/main/kotlin/nl/basjes/modbus/device/api/ModbusBlock.kt:333-343 | the characters of one token go to consecutive addresses and the next address is past them |
| ModbusBlockLoaders.LoadDiscreteChar | modbus-api-parent/modbus-api/src/main/kotlin/nl/basjes/modbus/device/api/ModbusBlock.kt:334-341 | one character sets the discrete as DiscreteStep says, or fails with ModbusApiException |
| MockedDevices.ReadOutcome | modbus-api-parent/modbus-api/src/main/kotlin/nl/basjes/modbus/device/memory/MockedModbusDevice.kt:129-142 | a read that ends normally returns only valued entries of the range, each stamped with the read time (also lines 197-210) |
| MockedDevices.ReadOutcomeFrame | modbus-api-parent/modbus-api/src/main/kotlin/nl/basjes/modbus/device/memory/MockedModbusDevice.kt:129-142 | what a read answers depends only on the stored entries of its range (also lines 197-210) |
| MockedDevices.ReadRangeOutcome | modbus-api-parent/modbus-api/src/main/kotlin/nl/basjes/modbus/device/memory/MockedModbusDevice.kt:129-142 | the loop-shaped read agrees with the outcome function (also lines 197-210) |
| MockedDevices.ReadOutcomeError | modbus-api-parent/modbus-api/src/main/kotlin/nl/basjes/modbus/device/memory/MockedModbusDevice.kt:132-137 | the read answers with a read-error block exactly when some entry of the range below 65536 is a read error (also lines 200-205) |
| MockedDevices.ReadOutcomeOutOfRange | modbus-api-parent/modbus-api/src/main/kotlin/nl/basjes/modbus/device/memory/MockedModbusDevice.kt:130 | the read fails on the address range exactly when the range passes 65535 with no read error before that (also lines 198) |
| MockedDevices.ReadOutcomeFound | modbus-api-parent/modbus-api/src/main/kotlin/nl/basjes/modbus/device/memory/MockedModbusDevice.kt:138-141 | a read that ends normally returns every valued entry of the range (also lines 206-209) |
| MockedDevices.ReadErrorValuesCover | modbus-api-parent/modbus-api/src/main/kotlin/nl/basjes/modbus/device/memory/MockedModbusDevice.kt:136 | the read-error block has every address of the range and nothing else, each a soft read error (also lines 204) |
| MockedDevices.Read | modbus-api-parent/modbus-api/src/main/kotlin/nl/basjes/modbus/device/memory/MockedModbusDevice.kt:117-145 | a class with no stored block returns an empty block and changes nothing; otherwise the stored entries of the range are touched and the answer is the read outcome (also lines 185-213) |
| MockedDevices.ReadInto | modbus-api-parent/modbus-api/src/main/kotlin/nl/basjes/modbus/device/memory/MockedModbusDevice.kt:129-142 | the read loop leaves the stored entries and the result block as the loop-shaped read says (also lines 197-210) |
| MockedDevices.ReadValue | modbus-api-parent/modbus-api/src/main/kotlin/nl/basjes/modbus/device/memory/MockedModbusDevice.kt:130-141 | one address without a read error is fetched (created if absent) and, when valued, stamped and copied into the result (also lines 198-209) |
| MockedDevices.MockedModbusDevice.constructor | modbus-api-parent/modbus-api/src/main/kotlin/nl/basjes/modbus/device/memory/MockedModbusDevice.kt:38-40 | a new device stores no blocks |
| MockedDevices.MockedModbusDevice.GetRegisters | modbus-api-parent/modbus-api/src/main/kotlin/nl/basjes/modbus/device/memory/MockedModbusDevice.kt:185-213 | getRegisters leaves the discretes alone, returns an empty block for an unknown class and otherwise the read outcome over the register blocks |
| MockedDevices.MockedModbusDevice.GetDiscretes | modbus-api-parent/modbus-api/src/main/kotlin/nl/basjes/modbus/device/memory/MockedModbusDevice.kt:117-145 | getDiscretes leaves the registers alone, returns an empty block for an unknown class and otherwise the read outcome over the discrete blocks |
| MockedDevices.MockedModbusDevice.AddRegisters | modbus-api-parent/modbus-api/src/main/kotlin/nl/basjes/modbus/device/memory/MockedModbusDevice.kt:156-163 | addRegisters(block) merges the block into the stored block of its class, created when absent, and fails only when a new block's class has the wrong width |
| MockedDevices.MockedModbusDevice.AddDiscretes | modbus-api-parent/modbus-api/src/main/kotlin/nl/basjes/modbus/device/memory/MockedModbusDevice.kt:80-87 | addDiscretes(block) does the same for discretes |
| MockedDevices.MockedModbusDevice.AddRegister | modbus-api-parent/modbus-api/src/main/kotlin/nl/basjes/modbus/device/memory/MockedModbusDevice.kt:147-154 | addRegister(value) puts one value into the stored block of its class |
| MockedDevices.MockedModbusDevice.AddDiscrete | modbus-api-parent/modbus-api/src/main/kotlin/nl/basjes/modbus/device/memory/MockedModbusDevice.kt:71-78 | addDiscretes(value) puts one value into the stored block of its class |
| MockedDevices.MockedModbusDevice.AddRegisterText | modbus-api-parent/modbus-api/src/main/kotlin/nl/basjes/modbus/device/memory/MockedModbusDevice.kt:175-183 | the text is loaded from the first address and merged in; a bad address or a bad text changes nothing and reports the failure |
| MockedDevices.MockedModbusDevice.AddDiscreteText | modbus-api-parent/modbus-api/src/main/kotlin/nl/basjes/modbus/device/memory/MockedModbusDevice.kt:99-107 | the same for discretes |
| MockedDevices.MockedModbusDevice.AddModbusValues | modbus-api-parent/modbus-api/src/main/kotlin/nl/basjes/modbus/device/memory/MockedModbusDevice.kt:50-69 | by the class's kind, the text is loaded as discretes or registers; on success every loaded address holds its loaded value and every other stored value is kept, on failure nothing changes |
| MockedDevices.AddTo | modbus-api-parent/modbus-api/src/main/kotlin/nl/basjes/modbus/device/memory/MockedModbusDevice.kt:83-86 | computeIfAbsent then merge: the class's block becomes the merge of the stored (or a new empty) block with the given one (also lines 159-162) |
| MockedDevices.PutInto | modbus-api-parent/modbus-api/src/main/kotlin/nl/basjes/modbus/device/memory/MockedModbusDevice.kt:74-77 | computeIfAbsent then put: the class's block becomes the put of the value into the stored (or a new empty) block (also lines 150-153) |
| ModbusQueries.NewQuery | modbus-schema-device/src/main/kotlin/nl/basjes/modbus/schema/fetcher/ModbusQuery.kt:26-51 | a new query has its kind, start and count, status NOT_FETCHED, no fields and no parts (also lines 84-89, 103-106) |
| ModbusQueries.AddField | modbus-schema-device/src/main/kotlin/nl/basjes/modbus/schema/fetcher/ModbusQuery.kt:49-51 | addField appends the field to a plain or merged query and fails with ModbusApiException exactly on a hole (also lines 107-109) |
| ModbusQueries.AddSub | modbus-schema-device/src/main/kotlin/nl/basjes/modbus/schema/fetcher/ModbusQuery.kt:92-95 | adding a part appends the part and its fields, in order |
| ModbusQueries.MergedOf | modbus-schema-device/src/main/kotlin/nl/basjes/modbus/schema/fetcher/ModbusQuery.kt:84-95 | a merged query built part by part keeps its start and count, is not fetched and lists the parts in order |
| ModbusQueries.MergedOfFields | modbus-schema-device/src/main/kotlin/nl/basjes/modbus/schema/fetcher/ModbusQuery.kt:92-95 | the fields of a merged query are those of its parts, in order |
| ModbusQueries.CompareQueriesOrder | modbus-schema-device/src/main/kotlin/nl/basjes/modbus/schema/fetcher/ModbusQuery.kt:55-61 | compareTo orders by start address, then count; it ties exactly on equal start and count and is antisymmetric |
| ModbusQueries.SameQueryTies | modbus-schema-device/src/main/kotlin/nl/basjes/modbus/schema/fetcher/ModbusQuery.kt:55-61 | equal queries tie |
| ModbusQueries.InsertQuery | modbus-schema-device/src/main/kotlin/nl/basjes/modbus/schema/fetcher/ModbusQuery.kt:55-61 | inserting into a sorted list keeps it sorted and adds exactly the one query |
| ModbusQueries.SortQueries | modbus-schema-device/src/main/kotlin/nl/basjes/modbus/schema/fetcher/ModbusBlockFetcher.kt:282 | sorted() returns a permutation of the queries in compareTo order |
| FetchPlans.GroupAddressesKeys | modbus-schema-device/src/main/kotlin/nl/basjes/modbus/schema/fetcher/ModbusBlockFetcher.kt:45-67 | the mapping has an entry for exactly the fetch groups of the fields |
| FetchPlans.GroupAddressesContents | modbus-schema-device/src/main/kotlin/nl/basjes/modbus/schema/fetcher/ModbusBlockFetcher.kt:45-67 | a group's list holds exactly the required registers of the fields of that group |
| FetchPlans.CheckGroupMeaning | modbus-schema-device/src/main/kotlin/nl/basjes/modbus/schema/fetcher/ModbusBlockFetcher.kt:70-82 | a group passes the gap check exactly when its sorted distinct addresses are consecutive |
| FetchPlans.CheckGroupRange | modbus-schema-device/src/main/kotlin/nl/basjes/modbus/schema/fetcher/ModbusBlockFetcher.kt:70-82 | the addresses of a group that passed are all of one class and form the range from the smallest one on |
| FetchPlans.CheckMapping | modbus-schema-device/src/main/kotlin/nl/basjes/modbus/schema/fetcher/ModbusBlockFetcher.kt:69-82 | a failing gap check reports the failure of a group that fails with none failing before it in key order |
| FetchPlans.CheckMappingFirst | modbus-schema-device/src/main/kotlin/nl/basjes/modbus/schema/fetcher/ModbusBlockFetcher.kt:69-82 | the failure reported is that of the first failing group |
| FetchPlans.FirstFailingUnique | modbus-schema-device/src/main/kotlin/nl/basjes/modbus/schema/fetcher/ModbusBlockFetcher.kt:69-82 | there is only one first failing group |
| FetchPlans.CheckMappingMeaning | modbus-schema-device/src/main/kotlin/nl/basjes/modbus/schema/fetcher/ModbusBlockFetcher.kt:69-82 | the mapping passes exactly when the distinct addresses of every fetch group form one unbroken run |
| FetchPlans.GroupQueryAsWritten | modbus-schema-device/src/main/kotlin/nl/basjes/modbus/schema/fetcher/ModbusBlockFetcher.kt:276-277 | as written the query starts at a member of the group's list as stored and counts at least one |
| FetchPlans.GroupQuery | modbus-schema-device/src/main/kotlin/nl/basjes/modbus/schema/fetcher/ModbusBlockFetcher.kt:71-78 | the intended query starts at the smallest address and counts the distinct addresses (also lines 276-277) |
| FetchPlans.GroupQueryCovers | modbus-schema-device/src/main/kotlin/nl/basjes/modbus/schema/fetcher/ModbusBlockFetcher.kt:70-82 | for a group that passed the check, the intended query reads exactly the group's addresses (also lines 276-277) |
| FetchPlans.GroupQueryAgrees | modbus-schema-device/src/main/kotlin/nl/basjes/modbus/schema/fetcher/ModbusBlockFetcher.kt:63-65 | when a group's list is ascending without repeats, the query as written is the intended one (also lines 276-277) |
| FetchPlans.GroupQueryAsWrittenMisses | modbus-schema-device/src/main/kotlin/nl/basjes/modbus/schema/fetcher/ModbusBlockFetcher.kt:63-65 | as written, fields listing [hr:2, hr:3] then [hr:0, hr:1] in one group pass the check but get hr:2 # 4, which misses hr:0 and reads hr:4 (also lines 70-82, 276-277) |
| FetchPlans.GroupQueryAsWrittenOverreads | modbus-schema-device/src/main/kotlin/nl/basjes/modbus/schema/fetcher/ModbusBlockFetcher.kt:63-65 | as written, two fields sharing [hr:0, hr:1] get hr:0 # 4, which reads hr:2 that nobody asked for, where the intended query is hr:0 # 2 (also lines 276-277) |
| FetchPlans.SortedSetIsUnique | modbus-schema-device/src/main/kotlin/nl/basjes/modbus/schema/fetcher/ModbusBlockFetcher.kt:71 | an ascending list with the same members as a list is that list sorted and deduplicated |
| FetchPlans.FieldsToUpdate | modbus-schema-device/src/main/kotlin/nl/basjes/modbus/schema/fetcher/ModbusBlockFetcher.kt:288-311 | allFieldsThatMustBeUpdated fails with IllegalArgumentException exactly when a field is not initialized, and otherwise keeps exactly the fields one of whose registers needs an update |
| FetchPlans.InGroup | modbus-schema-device/src/main/kotlin/nl/basjes/modbus/schema/fetcher/ModbusBlockFetcher.kt:269-280 | the fields of one fetch group, in order |
| FetchPlans.PlanOfFails | modbus-schema-device/src/main/kotlin/nl/basjes/modbus/schema/fetcher/ModbusBlockFetcher.kt:270-280 | a failure part way through the loop is the failure of the whole loop |
| FetchPlans.PlanStepOutcome | modbus-schema-device/src/main/kotlin/nl/basjes/modbus/schema/fetcher/ModbusBlockFetcher.kt:271-279 | one turn fails only on a field whose group has no addresses |
| FetchPlans.PlanStepAdds | modbus-schema-device/src/main/kotlin/nl/basjes/modbus/schema/fetcher/ModbusBlockFetcher.kt:271-275 | a field whose group already has a query joins it |
| FetchPlans.PlanStepOpens | modbus-schema-device/src/main/kotlin/nl/basjes/modbus/schema/fetcher/ModbusBlockFetcher.kt:276-279 | the first field of a group opens a new query for that group |
| FetchPlans.PlanOfInvariant | modbus-schema-device/src/main/kotlin/nl/basjes/modbus/schema/fetcher/ModbusBlockFetcher.kt:269-280 | the loop keeps one query per group seen so far, holding that group's fields in order |
| FetchPlans.QueriesForMembers | modbus-schema-device/src/main/kotlin/nl/basjes/modbus/schema/fetcher/ModbusBlockFetcher.kt:269-282 | every query returned is the query of the group of its first field |
| FetchPlans.QueriesForNoDuplicates | modbus-schema-device/src/main/kotlin/nl/basjes/modbus/schema/fetcher/ModbusBlockFetcher.kt:269-282 | no query is returned twice |
| FetchPlans.QueriesForDistinct | modbus-schema-device/src/main/kotlin/nl/basjes/modbus/schema/fetcher/ModbusBlockFetcher.kt:269-282 | no two returned queries belong to one fetch group |
| FetchPlans.QueriesForCovers | modbus-schema-device/src/main/kotlin/nl/basjes/modbus/schema/fetcher/ModbusBlockFetcher.kt:269-282 | every field to update is in one of the returned queries |
| FetchPlans.QueriesForSucceeds | modbus-schema-device/src/main/kotlin/nl/basjes/modbus/schema/fetcher/ModbusBlockFetcher.kt:270-280 | the plan fails exactly on a field whose group has no addresses |
| FetchPlans.QueriesForShape | modbus-schema-device/src/main/kotlin/nl/basjes/modbus/schema/fetcher/ModbusBlockFetcher.kt:258-283 | the plan is sorted and holds one not-fetched plain query per fetch group, with exactly that group's fields in order and the group's query range |
| FetchPlans.PlanTurn | modbus-schema-device/src/main/kotlin/nl/basjes/modbus/schema/fetcher/ModbusBlockFetcher.kt:271-279 | the loop body computes one step of the plan |
| FetchPlans.PlanGroupQueries | modbus-schema-device/src/main/kotlin/nl/basjes/modbus/schema/fetcher/ModbusBlockFetcher.kt:269-282 | the loop followed by sorted() computes the plan of calculateModbusQueries |
| QueryMerging.Distance | modbus-api-parent/modbus-api/src/test/kotlin/nl/basjes/modbus/device/api/TestAddress.kt:265-267 | the distance exists exactly within one address class, and then it is how far the second address lies after the first |
| QueryMerging.Overlaps | modbus-schema-device/src/main/kotlin/nl/basjes/modbus/schema/fetcher/OptimizingModbusBlockFetcher.kt:241-253 | overlaps is false for no addresses, fails with IllegalArgumentException on a count below one, and otherwise tells whether some address lies in the count addresses from the first |
| QueryMerging.Start | modbus-schema-device/src/main/kotlin/nl/basjes/modbus/schema/fetcher/OptimizingModbusBlockFetcher.kt:168-179 | a new merged query has the start and count of the one query it holds, is not fetched, and has that query's fields |
| QueryMerging.MergeStepAsWritten | modbus-schema-device/src/main/kotlin/nl/basjes/modbus/schema/fetcher/OptimizingModbusBlockFetcher.kt:172-234 | one turn as written either closes the current merged query and starts a new one for the next query, or extends the current one within its address class from the same start; it fails only with IllegalArgumentException |
| QueryMerging.MergeStep | modbus-schema-device/src/main/kotlin/nl/basjes/modbus/schema/fetcher/OptimizingModbusBlockFetcher.kt:172-234 | the corrected turn has the same two outcomes and, for a current query of positive count, succeeds exactly when the classes differ or the current range ends below address 65535 |
| QueryMerging.MergeRun | modbus-schema-device/src/main/kotlin/nl/basjes/modbus/schema/fetcher/OptimizingModbusBlockFetcher.kt:167-234 | the walk as written ends with a merged query being built, or fails with IllegalArgumentException |
| QueryMerging.MergeRunIntended | modbus-schema-device/src/main/kotlin/nl/basjes/modbus/schema/fetcher/OptimizingModbusBlockFetcher.kt:167-234 | the corrected walk ends the same way |
| QueryMerging.MergeInto | modbus-schema-device/src/main/kotlin/nl/basjes/modbus/schema/fetcher/OptimizingModbusBlockFetcher.kt:172-234 | one turn of the loop on the mutable merged query computes the step as written |
| QueryMerging.MergeQueries | modbus-schema-device/src/main/kotlin/nl/basjes/modbus/schema/fetcher/OptimizingModbusBlockFetcher.kt:131-237 | mergeQueries computes the as-written specification: one query is returned as is, others are sorted and walked |
| QueryMerging.MergeSorted | modbus-schema-device/src/main/kotlin/nl/basjes/modbus/schema/fetcher/OptimizingModbusBlockFetcher.kt:154-236 | the loop over the sorted queries computes the walk as written |
| QueryMerging.MergeSpecShape | modbus-schema-device/src/main/kotlin/nl/basjes/modbus/schema/fetcher/OptimizingModbusBlockFetcher.kt:131-237 | with the corrected turn, for plain queries: each input query is a part of exactly one merged query, in sorted order; each merged query reads all its parts and stays within the maximum count |
| QueryMerging.MergeRunOk | modbus-schema-device/src/main/kotlin/nl/basjes/modbus/schema/fetcher/OptimizingModbusBlockFetcher.kt:183 | the corrected walk ends normally when no query reads the last address of the address space |
| QueryMerging.MergeRunTiles | modbus-schema-device/src/main/kotlin/nl/basjes/modbus/schema/fetcher/OptimizingModbusBlockFetcher.kt:197-233 | the walk as written over plain queries keeps every merged query tiled by its parts |
| QueryMerging.MergeSpecTiles | modbus-schema-device/src/main/kotlin/nl/basjes/modbus/schema/fetcher/OptimizingModbusBlockFetcher.kt:131-237 | as written, for plain queries: each input query is a part of exactly one merged query, in sorted order; the parts lie one after the other from the start, the count is their sum, and the count stays within the maximum |
| QueryMerging.TiledWithin | modbus-schema-device/src/main/kotlin/nl/basjes/modbus/schema/fetcher/OptimizingModbusBlockFetcher.kt:197-233 | a tiled merged query with no negative count reads every one of its parts |
| QueryMerging.MergeStepAgrees | modbus-schema-device/src/main/kotlin/nl/basjes/modbus/schema/fetcher/OptimizingModbusBlockFetcher.kt:212-233 | when the next query starts at or after the end of the current one, the turn as written is the corrected turn |
| QueryMerging.MergeRunAgrees | modbus-schema-device/src/main/kotlin/nl/basjes/modbus/schema/fetcher/OptimizingModbusBlockFetcher.kt:167-234 | over queries that do not read into each other, the walk as written is the corrected walk |
| QueryMerging.MergeSpecAgrees | modbus-schema-device/src/main/kotlin/nl/basjes/modbus/schema/fetcher/OptimizingModbusBlockFetcher.kt:131-237 | mergeQueries as written and as corrected agree on queries that do not read into each other |
| QueryMerging.MergeStepAsWrittenShrinks | modbus-schema-device/src/main/kotlin/nl/basjes/modbus/schema/fetcher/OptimizingModbusBlockFetcher.kt:212-227 | as written, hr:0 # 10 followed by hr:2 # 3 becomes hr:0 # 5 with a hole of -8 at hr:10, so hr:5..hr:9 are no longer read; the corrected turn keeps hr:0 # 10 and adds no hole |
| QueryMerging.SplitRun | modbus-schema-device/src/main/kotlin/nl/basjes/modbus/schema/fetcher/OptimizingModbusBlockFetcher.kt:102-120 | the regrouping loop always ends with a merged group being built |
| QueryMerging.SplitMergedQuery | modbus-schema-device/src/main/kotlin/nl/basjes/modbus/schema/fetcher/OptimizingModbusBlockFetcher.kt:88-126 | splitMergedModbusRequest with the retry's isFull test computes the regrouping, then unmerges the groups of at most two parts |
| QueryMerging.SplitRunGroups | modbus-schema-device/src/main/kotlin/nl/basjes/modbus/schema/fetcher/OptimizingModbusBlockFetcher.kt:102-120 | the regrouping keeps every part once and in order, in groups of at most half the parts plus one |
| QueryMerging.UnmergeKeepsParts | modbus-schema-device/src/main/kotlin/nl/basjes/modbus/schema/fetcher/OptimizingModbusBlockFetcher.kt:123-125 | unmerging groups loses no part and adds none |
| QueryMerging.SplitKeepsParts | modbus-schema-device/src/main/kotlin/nl/basjes/modbus/schema/fetcher/OptimizingModbusBlockFetcher.kt:98-126 | expanding the result gives back the parts of the failed query in order; each element is a group of more than two parts or an original part |
| QueryMerging.SplitSmaller | modbus-schema-device/src/main/kotlin/nl/basjes/modbus/schema/fetcher/OptimizingModbusBlockFetcher.kt:72-90 | a retry splits only queries of four or more parts, and every element of the split is smaller than the failed query, so retrying ends |
| QueryMerging.SplitWithin | modbus-schema-device/src/main/kotlin/nl/basjes/modbus/schema/fetcher/OptimizingModbusBlockFetcher.kt:98-126 | a failed tiled query is split into queries that each lie inside its range |
| Fetchers.FetchSpec | modbus-schema-device/src/main/kotlin/nl/basjes/modbus/schema/fetcher/ModbusBlockFetcher.kt:122-158 | fetch only adds cache entries; it returns nothing and changes nothing exactly when the device throws ModbusException, and otherwise returns first the query with status SUCCESS or ERROR by whether the block holds a read error (also lines 174-234) |
| Fetchers.RetrySpec | modbus-schema-device/src/main/kotlin/nl/basjes/modbus/schema/fetcher/OptimizingModbusBlockFetcher.kt:71-91 | a failed merged query of one part is not retried, and every query a retry returns has been fetched |
| Fetchers.FetchAllSpec | modbus-schema-device/src/main/kotlin/nl/basjes/modbus/schema/fetcher/ModbusBlockFetcher.kt:115-117 | fetching a list one by one only adds cache entries, changes nothing when it returns nothing, and returns only fetched queries |
| Fetchers.FetchAllSnoc | modbus-schema-device/src/main/kotlin/nl/basjes/modbus/schema/fetcher/ModbusBlockFetcher.kt:115-117 | one more query fetched after a list is that query's fetch on the cache the list left |
| Fetchers.FetchFailedPlain | modbus-schema-device/src/main/kotlin/nl/basjes/modbus/schema/fetcher/ModbusBlockFetcher.kt:219-226 | a plain query that read an error stores every address read as a hard read error, keeps every other address, and comes back with status ERROR |
| Fetchers.FetchSucceeded | modbus-schema-device/src/main/kotlin/nl/basjes/modbus/schema/fetcher/ModbusBlockFetcher.kt:184-189 | a query that read no error stores every value read with its timestamp, keeps every other address, and comes back with status SUCCESS |
| Fetchers.FetchFailedHole | modbus-schema-device/src/main/kotlin/nl/basjes/modbus/schema/fetcher/ModbusBlockFetcher.kt:193-199 | a hole that read an error stores the block as it came, so the read errors stay soft |
| Fetchers.FetchFailedMergedAlone | modbus-schema-device/src/main/kotlin/nl/basjes/modbus/schema/fetcher/ModbusBlockFetcher.kt:201-212 | a failed merged query of a single part is the only query returned and every address read becomes a hard read error |
| Fetchers.FetchFailedMergedRetriesParts | modbus-schema-device/src/main/kotlin/nl/basjes/modbus/schema/fetcher/ModbusBlockFetcher.kt:201-216 | a failed merged query of two or three parts is followed by the fetch of each part in order, on the cache as it was |
| Fetchers.FetchAllFindsAnswer | modbus-schema-device/src/main/kotlin/nl/basjes/modbus/schema/fetcher/ModbusBlockFetcher.kt:115-117 | a list holding a query the device answers fetches something |
| Fetchers.PlannedQueriesSucceed | modbus-schema-device/src/main/kotlin/nl/basjes/modbus/schema/fetcher/ModbusBlockFetcher.kt:45-84 | the base plan fails exactly for a field that is not initialized, a fetch group with a gap, or a fetch group without addresses (also lines 258-311) |
| Fetchers.StaleGroupsKnown | modbus-schema-device/src/main/kotlin/nl/basjes/modbus/schema/fetcher/ModbusBlockFetcher.kt:270-280 | every field to update has a group with addresses exactly when every stale field has one |
| Fetchers.PlannedQueriesShape | modbus-schema-device/src/main/kotlin/nl/basjes/modbus/schema/fetcher/ModbusBlockFetcher.kt:258-283 | a successful base plan is sorted, with one not-fetched plain query per fetch group of the stale fields, each reading exactly its group's addresses |
| Fetchers.ReadErrorsAmong | modbus-schema-device/src/main/kotlin/nl/basjes/modbus/schema/Field.kt:314-316 | the registers kept are exactly those of the list present in the cache with a read error |
| Fetchers.UsedReadErrorAddresses | modbus-schema-device/src/main/kotlin/nl/basjes/modbus/schema/Field.kt:312-316 | usedReadErrorAddresses is empty when the address class is null, and otherwise holds exactly the required registers the cache holds with a read error |
| Fetchers.UsedReadErrorsOfInitialized | modbus-schema-device/src/main/kotlin/nl/basjes/modbus/schema/Field.kt:312-318 | for a field that initialized, isUsingReadErrorRegisters holds exactly when the fetcher's filter predicate does; for one that did not, usedReadErrorAddresses is empty |
| Fetchers.WithoutReadErrorQueries | modbus-schema-device/src/main/kotlin/nl/basjes/modbus/schema/fetcher/OptimizingModbusBlockFetcher.kt:46-57 | the kept queries are exactly those of the plan none of whose fields uses a read-error register, in order |
| Fetchers.OptimizedQueriesShape | modbus-schema-device/src/main/kotlin/nl/basjes/modbus/schema/fetcher/OptimizingModbusBlockFetcher.kt:42-63 | the optimized plan merges exactly the kept queries: a single one stays as it is; otherwise the parts of the merged queries are those queries sorted, and each merged query is tiled and within the limit |
| Fetchers.OptimizedQueriesSeparated | modbus-schema-device/src/main/kotlin/nl/basjes/modbus/schema/fetcher/OptimizingModbusBlockFetcher.kt:42-63 | when the kept queries do not read into each other, the optimized plan is the one the corrected merge builds and every merged query reads all its parts |
| Fetchers.DropAndMerge | modbus-schema-device/src/main/kotlin/nl/basjes/modbus/schema/fetcher/OptimizingModbusBlockFetcher.kt:42-63 | the drop-and-merge step computes the optimized plan |
| Fetchers.GroupMappingOf | modbus-schema-device/src/main/kotlin/nl/basjes/modbus/schema/fetcher/ModbusBlockFetcher.kt:49-67 | the first mapping loop builds the fetch-group mapping |
| Fetchers.CheckGroupsInKeyOrder | modbus-schema-device/src/main/kotlin/nl/basjes/modbus/schema/fetcher/ModbusBlockFetcher.kt:69-82 | the check loop reports what the gap check of the mapping reports |
| Fetchers.StampRegistersMeaning | modbus-schema-device/src/main/kotlin/nl/basjes/modbus/schema/fetcher/ModbusBlockFetcher.kt:54-61 | stamping one field's registers creates exactly the missing ones, stamps them all with the field's immutability and fetch group, and changes nothing else |
| Fetchers.StampAll | modbus-schema-device/src/main/kotlin/nl/basjes/modbus/schema/fetcher/ModbusBlockFetcher.kt:49-61 | the stamping loop computes the stamping of all fields |
| Fetchers.StampEach | modbus-schema-device/src/main/kotlin/nl/basjes/modbus/schema/fetcher/ModbusBlockFetcher.kt:54-61 | the inner stamping loop computes the stamping of one field's registers |
| Fetchers.StampedMeaning | modbus-schema-device/src/main/kotlin/nl/basjes/modbus/schema/fetcher/ModbusBlockFetcher.kt:49-61 | after stamping, every register some field requires exists and carries the immutability and fetch group of the last field requiring it; values and errors are unchanged and no other register is touched |
| Fetchers.StampedKeepsReadErrors | modbus-schema-device/src/main/kotlin/nl/basjes/modbus/schema/fetcher/ModbusBlockFetcher.kt:49-61 | stamping keeps the queries the optimizing fetcher drops for read errors and the read-error addresses it merges around |
| Fetchers.StampedKeepsOptimized | modbus-schema-device/src/main/kotlin/nl/basjes/modbus/schema/fetcher/ModbusBlockFetcher.kt:266 | the optimizing fetcher plans the same on the stamped cache as on the cache before |
| Fetchers.StampedImmutableStaysFresh | modbus-schema-device/src/main/kotlin/nl/basjes/modbus/schema/fetcher/ModbusBlockFetcher.kt:59 | a register last stamped by an immutable field does not need an update once it holds a value that is not a read error |
| Fetchers.FieldNamed | modbus-schema-device/src/main/kotlin/nl/basjes/modbus/schema/Block.kt:60-71 | getField returns a field of the block with that id, and null exactly when the block has none |
| Fetchers.FieldsNamed | modbus-schema-device/src/main/kotlin/nl/basjes/modbus/schema/Field.kt:302-307 | requiredFields lists the block's field for every required name the block has, and no other field |
| Fetchers.InsertField | modbus-schema-device/src/main/kotlin/nl/basjes/modbus/schema/Field.kt:390-405 | inserting into a sorted list keeps it sorted and adds exactly the one field |
| Fetchers.SortFields | modbus-schema-device/src/main/kotlin/nl/basjes/modbus/schema/fetcher/ModbusBlockFetcher.kt:97 | sorted() returns a permutation of the fields in compareTo order |
| Fetchers.DistinctFields | modbus-schema-device/src/main/kotlin/nl/basjes/modbus/schema/fetcher/ModbusBlockFetcher.kt:97 | distinct() keeps every field once and adds none |
| Fetchers.DistinctFieldsSorted | modbus-schema-device/src/main/kotlin/nl/basjes/modbus/schema/fetcher/ModbusBlockFetcher.kt:97 | distinct() after sorted() is still sorted |
| Fetchers.FieldsForUpdateShape | modbus-schema-device/src/main/kotlin/nl/basjes/modbus/schema/fetcher/ModbusBlockFetcher.kt:97 | update(field) asks for the field and every required field the block has, each once, in compareTo order, and nothing else |
| Fetchers.ModbusBlockFetcher.constructor | modbus-schema-device/src/main/kotlin/nl/basjes/modbus/schema/fetcher/ModbusBlockFetcher.kt:40-43 | a fetcher holds the schema, the device and its limits, with allowedGapReadSize 0 |
| Fetchers.ModbusBlockFetcher.SetAllowedGapReadSize | modbus-schema-device/src/main/kotlin/nl/basjes/modbus/schema/fetcher/OptimizingModbusBlockFetcher.kt:33-37 | the setter refuses a negative size with IllegalArgumentException and leaves the old one; otherwise it stores the new one |
| Fetchers.ModbusBlockFetcher.StampCache | modbus-schema-device/src/main/kotlin/nl/basjes/modbus/schema/fetcher/ModbusBlockFetcher.kt:49-61 | the cache becomes the stamping of all schema fields |
| Fetchers.ModbusBlockFetcher.FetchGroupMapping | modbus-schema-device/src/main/kotlin/nl/basjes/modbus/schema/fetcher/ModbusBlockFetcher.kt:45-84 | the cache is stamped, and the result is the fetch-group mapping exactly when its gap check passes |
| Fetchers.ModbusBlockFetcher.CalculateQueries | modbus-schema-device/src/main/kotlin/nl/basjes/modbus/schema/fetcher/ModbusBlockFetcher.kt:258-283 | the queries are the planning specification of the fields, and the cache is left as planning leaves it |
| Fetchers.ModbusBlockFetcher.Fetch | modbus-schema-device/src/main/kotlin/nl/basjes/modbus/schema/fetcher/ModbusBlockFetcher.kt:174-234 | the new cache and the fetched queries are those FetchSpec gives for the old cache |
| Fetchers.ModbusBlockFetcher.Retry | modbus-schema-device/src/main/kotlin/nl/basjes/modbus/schema/fetcher/OptimizingModbusBlockFetcher.kt:71-91 | the new cache and the fetched queries are those RetrySpec gives |
| Fetchers.ModbusBlockFetcher.FetchEach | modbus-schema-device/src/main/kotlin/nl/basjes/modbus/schema/fetcher/OptimizingModbusBlockFetcher.kt:79-90 | the parts are fetched one after another as FetchAllSpec says |
| Fetchers.ModbusBlockFetcher.Update | modbus-schema-device/src/main/kotlin/nl/basjes/modbus/schema/fetcher/ModbusBlockFetcher.kt:112-120 | update(maxAge) plans the needed fields on the old state and fetches each query in order on the planned cache; a failed plan is returned as the failure (also lines 245-250) |
| Fetchers.ModbusBlockFetcher.UpdateField | modbus-schema-device/src/main/kotlin/nl/basjes/modbus/schema/fetcher/ModbusBlockFetcher.kt:92-104 | update(field, maxAge) refuses a field that is not initialized with IllegalArgumentException and changes nothing; otherwise it updates the field and its required fields, sorted and without repeats |
| Fetchers.ModbusBlockFetcher.FetchQueries | modbus-schema-device/src/main/kotlin/nl/basjes/modbus/schema/fetcher/ModbusBlockFetcher.kt:99-117 | the queries are fetched in order as FetchAllSpec says |
| Blocks.Present | modbus-schema-device/src/main/kotlin/nl/basjes/modbus/schema/Field.kt:302-307 | the names kept are exactly those of the list that are fields of the block |
| Blocks.FoundIsCycle | modbus-schema-device/src/main/kotlin/nl/basjes/modbus/schema/Block.kt:113-132 | a non-empty answer of the search is a chain of fields each requiring the next, extending the chain it started from, whose last field requires one already on it |
| Blocks.NotFoundMeansNoReturn | modbus-schema-device/src/main/kotlin/nl/basjes/modbus/schema/Block.kt:113-132 | an empty answer means no chain of requirements from the field comes back to it or to the chain it started from |
| Blocks.SearchTotal | modbus-schema-device/src/main/kotlin/nl/basjes/modbus/schema/Block.kt:122-125 | with every required field present, the search never throws |
| Blocks.CheckPassedMeansAcyclic | modbus-schema-device/src/main/kotlin/nl/basjes/modbus/schema/Block.kt:104-111 | a block that passes the circular-reference check has no field requiring itself through any chain |
| Blocks.CheckFailedMeansCycle | modbus-schema-device/src/main/kotlin/nl/basjes/modbus/schema/Block.kt:104-111 | a block with no missing required field fails the check only when some chain closes a cycle |
| Blocks.ReachOfRequired | modbus-schema-device/src/main/kotlin/nl/basjes/modbus/schema/Block.kt:113-131 | a field reaches everything a field it requires reaches |
| Blocks.CheckPassedRanks | modbus-schema-device/src/main/kotlin/nl/basjes/modbus/schema/Block.kt:104-132 | a block that passes the circular reference check is ranked by the number of fields each field reaches, so the recursion of need(), unNeed() and isImmutable ends on it |
| Blocks.InitializedBlockRanked | modbus-schema-device/src/main/kotlin/nl/basjes/modbus/schema/Block.kt:88-101 | a block whose initialize() returned true is ranked |
| Blocks.Visits | modbus-schema-device/src/main/kotlin/nl/basjes/modbus/schema/Field.kt:333-335 | need() of a field reaches the field itself and only fields of the block |
| Blocks.VisitsIncludeDeps | modbus-schema-device/src/main/kotlin/nl/basjes/modbus/schema/Field.kt:333-335 | need() of a field reaches everything need() of each of its present required fields reaches |
| Blocks.ImmutableIffAllExpressions | modbus-schema-device/src/main/kotlin/nl/basjes/modbus/schema/Field.kt:213-231 | where no reached field is explicitly immutable, a field is immutable exactly when every field need() reaches has an immutable expression |
| Blocks.ExplicitImmutable | modbus-schema-device/src/main/kotlin/nl/basjes/modbus/schema/Field.kt:214-219 | an explicitly immutable field is immutable whatever it requires |
| Blocks.CountStep | modbus-schema-device/src/main/kotlin/nl/basjes/modbus/schema/Field.kt:335-350 | need() (or unNeed()) of the next required field moves every counter by the number of times that call reaches the field |
| Blocks.CountOwn | modbus-schema-device/src/main/kotlin/nl/basjes/modbus/schema/Field.kt:333-350 | the field's own counter step plus its required fields' calls move every counter by the number of times need() of the field reaches it |
| Blocks.NeedClearStep | modbus-schema-device/src/main/kotlin/nl/basjes/modbus/schema/Field.kt:335-342 | one required field's need() adds the registers it reaches to those cleared so far |
| Blocks.NeedClearOwn | modbus-schema-device/src/main/kotlin/nl/basjes/modbus/schema/Field.kt:340-342 | the field's own registers, cleared last, complete what need() of the field clears |
| Blocks.ClassRegisters | modbus-schema-device/src/main/kotlin/nl/basjes/modbus/schema/Field.kt:340-342 | need() of a field clears registers only among those it requires, and only when the field initialized |
| Blocks.ClearSoftMeaning | modbus-schema-device/src/main/kotlin/nl/basjes/modbus/schema/Field.kt:341-342 | afterwards no value at those addresses holds a soft read error, hard ones stay, every other value is untouched and no value is created |
| Blocks.ClearSoftTwice | modbus-schema-device/src/main/kotlin/nl/basjes/modbus/schema/Field.kt:335-342 | clearing soft read errors on two sets one after the other is clearing them on their union |
| Blocks.ClearEach | modbus-schema-device/src/main/kotlin/nl/basjes/modbus/schema/Field.kt:340-342 | the loop over the required registers clears the soft read errors of the values present at the registers of the field's class |
| Blocks.NeededOf | modbus-schema-device/src/main/kotlin/nl/basjes/modbus/schema/Block.kt:174 | filtering keeps exactly the fields with a positive counter, in order |
| Blocks.Block.constructor | modbus-schema-device/src/main/kotlin/nl/basjes/modbus/schema/Block.kt:47-58 | a new block has the trimmed id, no fields and no counters |
| Blocks.Block.AddField | modbus-schema-device/src/main/kotlin/nl/basjes/modbus/schema/Block.kt:60-69 | addField appends each field not yet present and indexes it under its id, and leaves the counters alone |
| Blocks.AddFieldsTwice | modbus-schema-device/src/main/kotlin/nl/basjes/modbus/schema/Block.kt:60-69 | adding the same fields again changes nothing |
| Blocks.AddedKeepsPresent | modbus-schema-device/src/main/kotlin/nl/basjes/modbus/schema/Block.kt:62 | adding fields that are all present already changes nothing |
| Blocks.Block.GetField | modbus-schema-device/src/main/kotlin/nl/basjes/modbus/schema/Block.kt:71 | getField finds a field exactly when the name is indexed, and then a field of the block with that id |
| Blocks.Block.NeededFields | modbus-schema-device/src/main/kotlin/nl/basjes/modbus/schema/Block.kt:174 | neededFields holds exactly the block's fields whose counter is positive |
| Blocks.Block.Need | modbus-schema-device/src/main/kotlin/nl/basjes/modbus/schema/Field.kt:330-343 | need() leaves the fields alone, raises every counter by the number of times need() reaches the field, and clears the soft read errors of the registers of every reached field that initialized with an address class |
| Blocks.Block.NeedRequired | modbus-schema-device/src/main/kotlin/nl/basjes/modbus/schema/Field.kt:335 | the forEach over the required fields moves the counters and clears the registers of everything their need() calls reach |
| Blocks.Block.UnNeed | modbus-schema-device/src/main/kotlin/nl/basjes/modbus/schema/Field.kt:345-351 | unNeed() lowers every counter by exactly what need() raised it by |
| Blocks.Block.UnNeedRequired | modbus-schema-device/src/main/kotlin/nl/basjes/modbus/schema/Field.kt:350 | the forEach over the required fields lowers the counters by what their unNeed() calls reach |
| Blocks.InitializeEach | modbus-schema-device/src/main/kotlin/nl/basjes/modbus/schema/Block.kt:94-98 | true means every field initializes successfully |
| Blocks.InitializeAll | modbus-schema-device/src/main/kotlin/nl/basjes/modbus/schema/Block.kt:88-102 | true means every field initialized and the circular-reference check passed |
| Blocks.Block.Initialize | modbus-schema-device/src/main/kotlin/nl/basjes/modbus/schema/Block.kt:88-102 | initialize() of the block returns true only when every field initialized and there is no circular reference |
| ModbusExpressions.WalkAsWrittenMeaning | modbus-schema-device/src/main/kotlin/nl/basjes/modbus/schema/expression/modbus/ModbusExpression.kt:132-141 | away from address 0xFFFF the walk over the sorted set answers whether it is a run from the expected address |
| ModbusExpressions.ProblemsAsWrittenAgrees | modbus-schema-device/src/main/kotlin/nl/basjes/modbus/schema/expression/modbus/ModbusExpression.kt:120-144 | with no address at 0xFFFF, problems as written gives the corrected problems |
| ModbusExpressions.ProblemsAsWrittenThrowsAtTop | modbus-schema-device/src/main/kotlin/nl/basjes/modbus/schema/expression/modbus/ModbusExpression.kt:140 | as written, the single register hr:65535 throws from the final increment() where the corrected check reports no problem |
| ModbusExpressions.Problems | modbus-schema-device/src/main/kotlin/nl/basjes/modbus/schema/expression/modbus/ModbusExpression.kt:120-144 | at most one problem; "No addresses" exactly for an empty list, "Duplicate addresses" exactly for a non-empty list with a repeat |
| ModbusExpressions.ProblemsMeaning | modbus-schema-device/src/main/kotlin/nl/basjes/modbus/schema/expression/modbus/ModbusExpression.kt:120-144 | no problem is reported exactly for distinct addresses of one class forming an unbroken run |
| ModbusExpressions.IsSortedListMeaning | modbus-schema-device/src/main/kotlin/nl/basjes/modbus/schema/expression/modbus/ModbusExpression.kt:146-152 | isSortedList holds exactly for an ascending run |
| ModbusExpressions.ToStringForms | modbus-schema-device/src/main/kotlin/nl/basjes/modbus/schema/expression/modbus/ModbusExpression.kt:157-165 | toString gives "first # n" exactly for ascending runs of more than one address, the one address for a single one, and otherwise all addresses joined by ", " |
| ModbusExpressions.RegisterBytes | modbus-schema-device/src/main/kotlin/nl/basjes/modbus/schema/expression/modbus/ModbusExpression.kt:77-86 | the bytes are twice as many as the addresses, or absent as soon as one value is missing |
| ModbusExpressions.RegisterBytesLayout | modbus-schema-device/src/main/kotlin/nl/basjes/modbus/schema/expression/modbus/ModbusExpression.kt:77-86 | the bytes exist exactly when every address has a value, and then bytes 2i and 2i+1 are the high and low byte of address i's value |
| ModbusExpressions.GetByteArray | modbus-schema-device/src/main/kotlin/nl/basjes/modbus/schema/expression/modbus/ModbusExpression.kt:72-87 | getByteArray fails on an empty list (no class), refuses a block that is not of registers with IllegalArgumentException, and otherwise returns the register bytes (also lines 154-155) |
| ModbusExpressions.FillRegisterBytes | modbus-schema-device/src/main/kotlin/nl/basjes/modbus/schema/expression/modbus/ModbusExpression.kt:77-86 | the array loop fills two bytes per address and returns null at the first address without a value |
| ModbusExpressions.PutRegister | modbus-schema-device/src/main/kotlin/nl/basjes/modbus/schema/expression/modbus/ModbusExpression.kt:81-84 | the high byte and then the low byte of the value are written at the next index |
| NotImplementedPatterns.ParsePatterns | modbus-schema-device/src/main/kotlin/nl/basjes/modbus/schema/utils/ByteConversions.kt:117-126 | hexStringToBytes of a list gives one byte array per string, or the first failure |
| NotImplementedPatterns.ParsePatternsMeaning | modbus-schema-device/src/main/kotlin/nl/basjes/modbus/schema/utils/ByteConversions.kt:117-126 | the list parses exactly when every string does, each to its own bytes in order |
| NotImplementedPatterns.NewNotImplemented | modbus-schema-device/src/main/kotlin/nl/basjes/modbus/schema/expression/NotImplemented.kt:37-48 | construction succeeds exactly when every pattern parses and has an even length; an odd one fails with IndexOutOfBounds in the two-byte display loop |
| NotImplementedPatterns.AllAreOfSize | modbus-schema-device/src/main/kotlin/nl/basjes/modbus/schema/utils/ByteConversions.kt:134-141 | allAreOfSize holds exactly when every pattern has the size |
| NotImplementedPatterns.HasProblem | modbus-schema-device/src/main/kotlin/nl/basjes/modbus/schema/expression/NotImplemented.kt:50-59 | there is a fatal problem exactly when some pattern is not two bytes per expected register |
| NotImplementedPatterns.Contains | modbus-schema-device/src/main/kotlin/nl/basjes/modbus/schema/utils/ByteConversions.kt:143-150 | arrayOfByteArraysContains holds exactly when the bytes equal some pattern |
| NotImplementedPatterns.NoPatternsImplemented | modbus-schema-device/src/main/kotlin/nl/basjes/modbus/schema/expression/NotImplemented.kt:50-63 | without patterns there is no problem and every value is implemented |
| NotImplementedPatterns.ToString | modbus-schema-device/src/main/kotlin/nl/basjes/modbus/schema/expression/NotImplemented.kt:30-35 | toString is empty exactly without patterns, and otherwise starts with " ; 0x" |
| NumericalOperations.ConstantGuarantee | modbus-schema-device/src/main/kotlin/nl/basjes/modbus/schema/expression/numbers/LongConstant.kt:38-43 | a constant always gets a guarantee, and its value keeps it (POSITIVE for 0 and up, NEGATIVE below 0) |
| NumericalOperations.MultiplyGuaranteeAsWrittenUnsound | modbus-schema-device/src/main/kotlin/nl/basjes/modbus/schema/expression/numbers/NumericalOperations.kt:143-153 | as written, POSITIVE times NEGATIVE is NEGATIVE, yet 0 (POSITIVE) times -3 (NEGATIVE) is 0, which is not negative |
| NumericalOperations.MultiplyGuarantee | modbus-schema-device/src/main/kotlin/nl/basjes/modbus/schema/expression/numbers/NumericalOperations.kt:143-153 | the corrected table: every product of values keeping the operands' guarantees keeps the result's guarantee |
| NumericalOperations.MultiplyGuaranteeSound | modbus-schema-device/src/main/kotlin/nl/basjes/modbus/schema/expression/numbers/NumericalOperations.kt:147-150 | the two same-sign rows are sound: such a product is never negative |
| NumericalOperations.GuaranteeIntendedAgrees | modbus-schema-device/src/main/kotlin/nl/basjes/modbus/schema/expression/numbers/NumericalOperations.kt:68-244 | wherever the corrected guarantees promise a sign, the guarantees as written promise the same one |
| NumericalOperations.ReturnTypeIntendedAgrees | modbus-schema-device/src/main/kotlin/nl/basjes/modbus/schema/expression/numbers/NumericalOperations.kt:90-96 | an expression the corrected guarantees type LONG is typed LONG as written too (also lines 246-252) |
| NumericalOperations.ReturnTypeAsWrittenDiffers | modbus-schema-device/src/main/kotlin/nl/basjes/modbus/schema/expression/numbers/NumericalOperations.kt:143-153 | with x POSITIVE, x * -1 is NEGATIVE as written though it is 0 for x = 0, so b ^ (0 - x * -1) is typed LONG as written and DOUBLE with the corrected table (also lines 246-252) |
| NumericalOperations.Wrap64 | modbus-schema-device/src/main/kotlin/nl/basjes/modbus/schema/expression/numbers/NumericalOperations.kt:81 | Long arithmetic stays in the 64-bit range and is exact when the true result fits (also lines 119, 158) |
| NumericalOperations.Saturate | modbus-schema-device/src/main/kotlin/nl/basjes/modbus/schema/expression/numbers/NumericalOperations.kt:227 | Double.toLong() lands in the Long range |
| NumericalOperations.PowerLong | modbus-schema-device/src/main/kotlin/nl/basjes/modbus/schema/expression/numbers/NumericalOperations.kt:222-228 | the long power lands in the Long range |
| NumericalOperations.Combine | modbus-schema-device/src/main/kotlin/nl/basjes/modbus/schema/expression/numbers/NumericalOperations.kt:78-82 | a result exists exactly when both operands have one, and then it is the operator's Long result (also lines 116-120, 155-159, 222-228) |
| NumericalOperations.NullOperand | modbus-schema-device/src/main/kotlin/nl/basjes/modbus/schema/expression/numbers/NumericalOperations.kt:79-80 | a null operand gives a null result for every operator (also lines 117-118, 156-157, 223-224) |
| NumericalOperations.GuaranteeSoundAsWritten | modbus-schema-device/src/main/kotlin/nl/basjes/modbus/schema/expression/numbers/NumericalOperations.kt:68-244 | as written, a long value without overflow keeps POSITIVE, and keeps NEGATIVE but for the value 0 |
| NumericalOperations.ProductSign | modbus-schema-device/src/main/kotlin/nl/basjes/modbus/schema/expression/numbers/NumericalOperations.kt:143-153 | the as-written multiply table holds when NEGATIVE is read as "at most 0" |
| NumericalOperations.GuaranteeSound | modbus-schema-device/src/main/kotlin/nl/basjes/modbus/schema/expression/numbers/NumericalOperations.kt:68-244 | with the corrected table, a long value without overflow keeps the expression's guarantee |
| NumericalOperations.AddOverflowBreaksGuarantee | modbus-schema-device/src/main/kotlin/nl/basjes/modbus/schema/expression/numbers/NumericalOperations.kt:72-81 | without the overflow premise the guarantee fails: the largest Long plus one is POSITIVE but wraps to the smallest Long |
| NumericalOperations.LongTypedHasValue | modbus-schema-device/src/main/kotlin/nl/basjes/modbus/schema/expression/numbers/NumericalOperations.kt:90-96 | an expression typed LONG has no division, so with every leaf valued it has a long value (also lines 206-207, 246-252) |
| NumericalOperations.PowerLongIsExact | modbus-schema-device/src/main/kotlin/nl/basjes/modbus/schema/expression/numbers/NumericalOperations.kt:222-252 | a Power typed LONG has a non-negative exponent, and its long value is the integer power whenever that power fits in a double's exact range |
| NumericalOperations.ToTextParenthesised | modbus-schema-device/src/main/kotlin/nl/basjes/modbus/schema/expression/numbers/NumericalOperations.kt:40-46 | an operator below the top is enclosed in parentheses, and at the top its symbol sits between its operands |
| NumericalOperations.ToTextExample | modbus-schema-device/src/main/kotlin/nl/basjes/modbus/schema/expression/numbers/NumericalOperations.kt:40-46 | (1+2)*3 prints as "(1+2)*3" |
| StringExpressions.KeyedProblems | modbus-schema-device/src/main/kotlin/nl/basjes/modbus/schema/expression/strings/BitsetStringList.kt:49-61 | "No registers" is raised exactly for fewer than 1 register, "Too many registers" exactly for more than 4, a pattern problem exactly for a pattern of the wrong size, and never a register-count problem |
| StringExpressions.CountProblems | modbus-schema-device/src/main/kotlin/nl/basjes/modbus/schema/expression/strings/Eui48String.kt:42-50 | a register-count problem is raised exactly when the count is not an allowed one (3 or 4 for eui48, 8 for ipv6addr), and there is no problem exactly when the count is allowed and the patterns are well-sized |
| StringExpressions.SetBits | modbus-schema-device/src/main/kotlin/nl/basjes/modbus/schema/expression/strings/BitsetStringList.kt:74-75 | every bit number listed lies between the start and the last bit of the bytes |
| StringExpressions.SetBitsMeaning | modbus-schema-device/src/main/kotlin/nl/basjes/modbus/schema/expression/strings/BitsetStringList.kt:74-75 | the set-bit list is strictly ascending and holds exactly the set bits from the start on |
| StringExpressions.ConsAscending | modbus-schema-device/src/main/kotlin/nl/basjes/modbus/schema/expression/strings/BitsetStringList.kt:74 | a bit number below every element of an ascending list keeps it ascending in front |
| StringExpressions.SetBitsAscending | modbus-schema-device/src/main/kotlin/nl/basjes/modbus/schema/expression/strings/BitsetStringList.kt:74 | the bits are walked in ascending order |
| StringExpressions.SetBitsMembers | modbus-schema-device/src/main/kotlin/nl/basjes/modbus/schema/expression/strings/BitsetStringList.kt:74-75 | a bit is listed exactly when it is set and not below the start |
| StringExpressions.SetBitsMember | modbus-schema-device/src/main/kotlin/nl/basjes/modbus/schema/expression/strings/BitsetStringList.kt:74-75 | one bit is listed exactly when it is set and not below the start |
| StringExpressions.BitsetMeaning | modbus-schema-device/src/main/kotlin/nl/basjes/modbus/schema/expression/strings/BitsetStringList.kt:65-84 | for implemented non-empty bytes there is a list; entry k is the mapped label (or "Bit i") of the k-th set bit, lowest bit first, and each set bit is named once |
| StringExpressions.GetValueAsStringList | modbus-schema-device/src/main/kotlin/nl/basjes/modbus/schema/expression/strings/BitsetStringList.kt:65-84 | the method that reverses the bytes in place and walks the BitSet returns exactly the specified bitset list, null for missing, empty or not-implemented bytes |
| StringExpressions.ReversedBit | modbus-schema-device/src/main/kotlin/nl/basjes/modbus/schema/expression/strings/BitsetStringList.kt:70-71 | bit i of the little-endian BitSet over the reversed bytes is bit i counted from the end of the original bytes |
| StringExpressions.WalkStep | modbus-schema-device/src/main/kotlin/nl/basjes/modbus/schema/expression/strings/BitsetStringList.kt:74-81 | the loop keeps the labels found so far followed by those of the set bits still to visit |
| StringExpressions.LabelsStep | modbus-schema-device/src/main/kotlin/nl/basjes/modbus/schema/expression/strings/BitsetStringList.kt:75-81 | one step adds the label of bit i exactly when it is set |
| StringExpressions.BitsetExample | modbus-schema-device/src/main/kotlin/nl/basjes/modbus/schema/expression/strings/BitsetStringList.kt:65-84 | the register 0x0005 with bit 2 mapped to "Two" gives ["Bit 0", "Two"] |
| StringExpressions.ExampleBits | modbus-schema-device/src/main/kotlin/nl/basjes/modbus/schema/expression/strings/BitsetStringList.kt:74-75 | the register 0x0005 has bits 0 and 2 set |
| StringExpressions.ExampleHighBits | modbus-schema-device/src/main/kotlin/nl/basjes/modbus/schema/expression/strings/BitsetStringList.kt:70-71 | the high byte 0x00 of the example contributes no set bit |
| StringExpressions.ExampleMiddleBits | modbus-schema-device/src/main/kotlin/nl/basjes/modbus/schema/expression/strings/BitsetStringList.kt:70-71 | bits 3 to 7 of 0x05 are clear |
| StringExpressions.ExampleLowBits | modbus-schema-device/src/main/kotlin/nl/basjes/modbus/schema/expression/strings/BitsetStringList.kt:70-71 | 0x05 has bits 0 and 2 set and bit 1 clear |
| StringExpressions.SetBitsZero | modbus-schema-device/src/main/kotlin/nl/basjes/modbus/schema/expression/strings/BitsetStringList.kt:74-75 | with no set bit from the start on, no more labels are produced |
| StringExpressions.EnumKey | modbus-schema-device/src/main/kotlin/nl/basjes/modbus/schema/expression/strings/EnumString.kt:70-76 | there is a key exactly for 2, 4 or 8 bytes |
| StringExpressions.EnumKeyRoundTrip | modbus-schema-device/src/main/kotlin/nl/basjes/modbus/schema/expression/strings/EnumString.kt:70-76 | the key lies in the signed range of its size and packs back to the bytes, so equal keys of one size mean equal bytes |
| StringExpressions.Enum | modbus-schema-device/src/main/kotlin/nl/basjes/modbus/schema/expression/strings/EnumString.kt:65-82 | null exactly for missing or not-implemented bytes; otherwise the mapped text of the key, or "No mapping for value " followed by the hex bytes |
| StringExpressions.EnumExample | modbus-schema-device/src/main/kotlin/nl/basjes/modbus/schema/expression/strings/EnumString.kt:70-81 | 0xFFFF is read as the short -1 and finds the mapping of -1 |
| StringExpressions.Eui48 | modbus-schema-device/src/main/kotlin/nl/basjes/modbus/schema/expression/strings/Eui48String.kt:56-68 | missing or not-implemented bytes give null |
| StringExpressions.Eui48Layout | modbus-schema-device/src/main/kotlin/nl/basjes/modbus/schema/expression/strings/Eui48String.kt:56-68 | six bytes or more that are implemented give six upper-case hex pairs joined by ':', pair i showing byte i of the last six |
| StringExpressions.IPv6 | modbus-schema-device/src/main/kotlin/nl/basjes/modbus/schema/expression/strings/IPv6AddrString.kt:57-63 | missing or not-implemented bytes give null; otherwise the two-byte hex groups joined by ':' |
| StringExpressions.IPv6Layout | modbus-schema-device/src/main/kotlin/nl/basjes/modbus/schema/expression/strings/IPv6AddrString.kt:57-63 | sixteen bytes give eight groups of four upper-case hex digits joined by ':' |
| StringExpressions.HexByteInjective | modbus-schema-device/src/main/kotlin/nl/basjes/modbus/schema/utils/ByteConversions.kt:34-43 | two byte runs of one length with the same hex rendering are equal |
| StringExpressions.HexDigitInjective | modbus-schema-device/src/main/kotlin/nl/basjes/modbus/schema/utils/ByteConversions.kt:34-43 | two nibbles with the same hex digit are equal |
| RegisterExpressions.SwapBytes | modbus-schema-device/src/main/kotlin/nl/basjes/modbus/schema/expression/registers/SwapBytes.kt:52-58 | null stays null, fewer than two bytes fail on the index, otherwise the first two bytes exchanged |
| RegisterExpressions.SwapBytesTwice | modbus-schema-device/src/main/kotlin/nl/basjes/modbus/schema/expression/registers/SwapBytes.kt:52-58 | swapping twice gives the register back, and 0xABCD becomes 0xCDAB |
| RegisterExpressions.ToShort | modbus-schema-device/src/main/kotlin/nl/basjes/modbus/schema/expression/registers/SwapEndian.kt:62-63 | toShort() leaves a value in the short range unchanged |
| RegisterExpressions.ToShortShift | modbus-schema-device/src/main/kotlin/nl/basjes/modbus/schema/expression/registers/SwapEndian.kt:62-63 | toShort() only sees its argument modulo 2^16 |
| RegisterExpressions.ToShortAdd | modbus-schema-device/src/main/kotlin/nl/basjes/modbus/schema/expression/registers/SwapEndian.kt:62 | narrowing the operands of the addition first does not change the narrowed sum |
| RegisterExpressions.Bits | modbus-schema-device/src/main/kotlin/nl/basjes/modbus/schema/expression/registers/SwapEndian.kt:61-64 | the loop visits exactly 16 bits |
| RegisterExpressions.BitsPeriodic | modbus-schema-device/src/main/kotlin/nl/basjes/modbus/schema/expression/registers/SwapEndian.kt:63 | adding a multiple of 2^n does not change the n low bits |
| RegisterExpressions.ValBitsSmall | modbus-schema-device/src/main/kotlin/nl/basjes/modbus/schema/expression/registers/SwapEndian.kt:62 | a number below 2^n is spelt by its n low bits |
| RegisterExpressions.BitsVal | modbus-schema-device/src/main/kotlin/nl/basjes/modbus/schema/expression/registers/SwapEndian.kt:62 | the bits of the number spelt by some bits are those bits |
| RegisterExpressions.ValAppend | modbus-schema-device/src/main/kotlin/nl/basjes/modbus/schema/expression/registers/SwapEndian.kt:62 | one more bit at the top adds its weight |
| RegisterExpressions.RevBitsVal | modbus-schema-device/src/main/kotlin/nl/basjes/modbus/schema/expression/registers/SwapEndian.kt:57-66 | the accumulated sum is the reversed bit sequence read as a number |
| RegisterExpressions.ShortBits | modbus-schema-device/src/main/kotlin/nl/basjes/modbus/schema/expression/registers/SwapEndian.kt:57-66 | the 16 bits of a short, read back unsigned and narrowed, give the short |
| RegisterExpressions.ValBitsNegative | modbus-schema-device/src/main/kotlin/nl/basjes/modbus/schema/expression/registers/SwapEndian.kt:63 | a negative short is spelt by its 16 low bits as itself plus 2^16 |
| RegisterExpressions.ReverseBitsTwice | modbus-schema-device/src/main/kotlin/nl/basjes/modbus/schema/expression/registers/SwapEndian.kt:57-66 | reversing the bits twice gives the short back |
| RegisterExpressions.ReverseBitsBits | modbus-schema-device/src/main/kotlin/nl/basjes/modbus/schema/expression/registers/SwapEndian.kt:57-66 | the 16 bits of the result are the input's bits in the opposite order |
| RegisterExpressions.ReverseBitsExample | modbus-schema-device/src/main/kotlin/nl/basjes/modbus/schema/expression/registers/SwapEndian.kt:57-66 | 0xABCD reversed bit by bit is 0xB3D5 |
| RegisterExpressions.ReverseBits | modbus-schema-device/src/main/kotlin/nl/basjes/modbus/schema/expression/registers/SwapEndian.kt:57-66 | the sixteen-step loop returns the short whose bits are the input's bits reversed |
| RegisterExpressions.SwapEndian | modbus-schema-device/src/main/kotlin/nl/basjes/modbus/schema/expression/registers/SwapEndian.kt:44-55 | null stays null, a byte run of another length than 2 fails, and a register gives a register |
| RegisterExpressions.SwapEndianBytes | modbus-schema-device/src/main/kotlin/nl/basjes/modbus/schema/expression/registers/SwapEndian.kt:50-55 | bytesToShort, reverseBits and shortToBytes together compute the specified swapendian value |
| RegisterExpressions.SwapEndianTwice | modbus-schema-device/src/main/kotlin/nl/basjes/modbus/schema/expression/registers/SwapEndian.kt:50-55 | swapendian applied twice gives the register back |
| RegisterExpressions.Unsigned16 | modbus-schema-device/src/main/kotlin/nl/basjes/modbus/schema/expression/numbers/IntegerUnsigned16.kt:29-46 | null for missing or not-implemented bytes, an index failure for fewer than 2 bytes, otherwise the long built from six zero bytes and the two bytes |
| RegisterExpressions.LongOfTwoBytes | modbus-schema-device/src/main/kotlin/nl/basjes/modbus/schema/expression/numbers/IntegerUnsigned16.kt:34-45 | six zero bytes in front make a long that is the unsigned 16-bit value |
| RegisterExpressions.ZerosValue | modbus-schema-device/src/main/kotlin/nl/basjes/modbus/schema/expression/numbers/IntegerUnsigned16.kt:35-41 | zero bytes spell zero |
| RegisterExpressions.Unsigned16Range | modbus-schema-device/src/main/kotlin/nl/basjes/modbus/schema/expression/numbers/IntegerUnsigned16.kt:29-46 | the uint16 value lies in 0..65535 and packs back to the two bytes |
| RegisterExpressions.Unsigned64 | modbus-schema-device/src/main/kotlin/nl/basjes/modbus/schema/expression/numbers/IntegerUnsigned64.kt:29-39 | null for missing or not-implemented bytes and for a set top bit, an index failure for no bytes |
| RegisterExpressions.Unsigned64Value | modbus-schema-device/src/main/kotlin/nl/basjes/modbus/schema/expression/numbers/IntegerUnsigned64.kt:29-39 | with the top bit clear the result is the unsigned big-endian value, never negative |
| RegisterExpressions.LeadByteBound | modbus-schema-device/src/main/kotlin/nl/basjes/modbus/schema/expression/numbers/IntegerUnsigned64.kt:34-37 | a lead byte below 0x80 keeps the value in the lower half of the range |
| TestScenarios.LoadedSnoc | modbus-schema-device/src/main/kotlin/nl/basjes/modbus/schema/test/TestScenario.kt:111-119 | loading one more test block merges it into what the earlier blocks loaded |
| TestScenarios.LoadedKeys | modbus-schema-device/src/main/kotlin/nl/basjes/modbus/schema/test/TestScenario.kt:108-119 | after loading there is an entry exactly for the addresses of the cache and of the test blocks |
| TestScenarios.LoadedFromBlocks | modbus-schema-device/src/main/kotlin/nl/basjes/modbus/schema/test/TestScenario.kt:108-119 | after loading, every value present came from a test block: nothing cached before survives the wipe |
| TestScenarios.LoadedLastBlock | modbus-schema-device/src/main/kotlin/nl/basjes/modbus/schema/test/TestScenario.kt:111-119 | after loading, every value of the last test block is present |
| TestScenarios.KnownFieldsSnoc | modbus-schema-device/src/main/kotlin/nl/basjes/modbus/schema/test/TestScenario.kt:88-92 | all field ids are known exactly when those before are and the last one is |
| TestScenarios.ExpectsFieldSnoc | modbus-schema-device/src/main/kotlin/nl/basjes/modbus/schema/test/TestScenario.kt:88 | a field is expected exactly when an earlier pair or the last one names it |
| TestScenarios.FieldResultsMeaning | modbus-schema-device/src/main/kotlin/nl/basjes/modbus/schema/test/TestScenario.kt:88-97 | a block's expectations fail exactly on an unknown field id; otherwise there is one result per expected field id, each comparing the expected value with what the field shows |
| TestScenarios.KnownIdsSnoc | modbus-schema-device/src/main/kotlin/nl/basjes/modbus/schema/test/TestScenario.kt:80-92 | all block and field ids are known exactly when those before are and the last block's are |
| TestScenarios.ExpectsBlockSnoc | modbus-schema-device/src/main/kotlin/nl/basjes/modbus/schema/test/TestScenario.kt:80-81 | a block is expected exactly when an earlier expectation or the last one names it |
| TestScenarios.ScenarioResultsMeaning | modbus-schema-device/src/main/kotlin/nl/basjes/modbus/schema/test/TestScenario.kt:73-102 | verify fails exactly on an unknown block or field id; otherwise there is one result map per expected block id and every result compares the expected value with what the field shows |
| TestScenarios.ScenarioPasses | modbus-schema-device/src/main/kotlin/nl/basjes/modbus/schema/test/TestScenario.kt:143-144 | a scenario with known ids passes exactly when it has an expected block and every field showed what was expected |
| TestScenarios.FailedTests | modbus-schema-device/src/main/kotlin/nl/basjes/modbus/schema/test/TestScenario.kt:192-193 | the failed names are exactly the names of the scenarios that did not pass, and there are no more of them than scenarios |
| TestScenarios.ListAllPassedIffNoneFailed | modbus-schema-device/src/main/kotlin/nl/basjes/modbus/schema/test/TestScenario.kt:189-193 | the list passes exactly when no test is named as failed |
| TestScenarios.LogResults | modbus-schema-device/src/main/kotlin/nl/basjes/modbus/schema/test/TestScenario.kt:174-187 | the loop's answer is true exactly when every scenario passed |
| TestScenarios.TestScenario.constructor | modbus-schema-device/src/main/kotlin/nl/basjes/modbus/schema/test/TestScenario.kt:32-46 | a new scenario has its name and no test blocks or expectations |
| TestScenarios.TestScenario.AddModbusBlock | modbus-schema-device/src/main/kotlin/nl/basjes/modbus/schema/test/TestScenario.kt:60-62 | the block is appended to the test blocks and nothing else changes |
| TestScenarios.TestScenario.AddExpectedBlock | modbus-schema-device/src/main/kotlin/nl/basjes/modbus/schema/test/TestScenario.kt:64-66 | the expectation is appended and nothing else changes |
| TestScenarios.TestScenario.LoadTestModbusValues | modbus-schema-device/src/main/kotlin/nl/basjes/modbus/schema/test/TestScenario.kt:108-120 | the device's values become the wiped cache with every test block merged in, in order |
| TestScenarios.TestScenario.Verify | modbus-schema-device/src/main/kotlin/nl/basjes/modbus/schema/test/TestScenario.kt:73-102 | the results are those of comparing every expectation against the loaded test values; on success the cache is cleared again, on failure the test values stay loaded |
| TestScenarios.CompareBlocks | modbus-schema-device/src/main/kotlin/nl/basjes/modbus/schema/test/TestScenario.kt:80-98 | the outer loop computes the specified scenario results |
| TestScenarios.CompareFields | modbus-schema-device/src/main/kotlin/nl/basjes/modbus/schema/test/TestScenario.kt:88-97 | the inner loop computes the specified field results of one block |
| TestScenarios.FieldsFail | modbus-schema-device/src/main/kotlin/nl/basjes/modbus/schema/test/TestScenario.kt:90-92 | once a field id is unknown, the later fields do not change the failure |
| TestScenarios.ScenarioNext | modbus-schema-device/src/main/kotlin/nl/basjes/modbus/schema/test/TestScenario.kt:80-98 | one more expected block: an earlier failure stays, an unknown block fails, otherwise its field results are added under its id |
| TestScenarios.ScenarioFails | modbus-schema-device/src/main/kotlin/nl/basjes/modbus/schema/test/TestScenario.kt:83-85 | once a block fails, the later blocks do not change the failure |

## Left out

- Floating point is not modelled. This covers `floatToBytes`, `bytesToFloat`, `doubleToBytes` and `bytesToDouble`, the double value of every expression (`getValueAsDouble`), and the value of Divide. Divide appears only through its sign guarantee and its DOUBLE return type.
- NumericalOperations.PowerLong: computes the exact integer power and saturates it to the long range. The source goes through `Math.pow(...).toLong()`, which rounds once the power passes 2^53 (3^39, for example). So PowerLongIsExact only claims the integer power up to the exact range of a double, and the value above that range is not the source's.
- ByteConversions.DecodeChar: a valid four-byte UTF-8 sequence becomes one character of the decoded string. Kotlin produces a surrogate pair of two UTF-16 chars there, so string lengths past such a character differ.
- Text: lowercase() and hex-digit parsing fold only ASCII letters and digits, and trimming treats only characters up to ' ' as whitespace. Kotlin's `lowercase()` and `toInt(16)` also accept other Unicode letters and digits. Every input the loaders and parsers are given in practice is ASCII.
- Addresses.OfTag: the source's tag regular expressions end in `$`, which in Java also matches just before a trailing line terminator. After the `trim { it <= ' ' }` only the line terminators above ' ' (U+0085, U+2028, U+2029) remain for that edge. The model rejects a tag ending in one of them, where the source accepts it.
- ModbusBlocks.ModbusBlock: the block holds value snapshots in a map, not shared `ModbusValue` objects. So a value obtained from `get` and changed later does not change the block (and the other way round) as it does in Kotlin, where the same object is shared.
- ModbusBlock: `put(key, value)`, `get(list of addresses)`, `getOrCreateIfAbsent`, `toHexList`/`toBitList`, `toHexString`/`toBitString`, `toMultiLineString`, `asString`, `toString`, `equals` and `hashCode` are not modelled. They are lookups, text layout or identity helpers over the same map.
- ModbusValue: `compareTo`, `equals`, `hashCode`, `toString` and `toSingleValueString` are not modelled (ordering and text layout only).
- MockedModbusDevice: the builder, `of`, `close` and the request logging are not modelled. The body of `createReadErrorRegisterBlock` is not part of this model; the model marks every address of the range as a soft read error, as its name and the device's callers say.
- Fetchers: the device is a function from a start address and a count to a block or an exception. The network, `synchronized` blocks, the wall clock (a `now` parameter instead) and fetch durations are not modelled.
- Fetchers: the register and discrete blocks of the schema device are one map of value states keyed by address. The schema device's per-class blocks are not kept apart, since addresses of different classes never collide.
- Fetchers: the per-request maxima (125 registers and 2000 discretes under section 6.3 of the MODBUS Application Protocol Specification V1.1b3) are parameters the device supplies, as in the source, not constants.
- QueryMerging: only ALGORITHM 2 of the retry (a group is full once it holds more than half of the parts) is modelled. ALGORITHM 1 is commented out in the source.
- QueryMerging: the read-error addresses are a set of addresses. The body of `overlaps` is not part of this model; it is modelled as "some read-error address lies in the range".
- QueryMerging.Distance: the body of `Address.distance` is not part of this model. It is modelled from its tests as the physical difference within one address class.
- ModbusQueries: `equals`, `hashCode` and `toString` of queries are not modelled. Queries are values, so an operation that changes a query in Kotlin returns the changed query here.
- FetchPlans: the `sorted()` of the fields to update is modelled as an order by the field comparator. Stability among equal fields is not stated.
- Fields: the parsed expression is reduced to the facts a field reads from it (does it initialize cleanly, is it immutable, which fields and registers it requires, its return type). The expression parser is not part of this model.
- Fields.Initialize: the retry loop that initializes required fields up to six times, and the `println("ERROR")` when they stay uninitialized, are not modelled. The check that every required field exists is modelled. Field initialization order across a block is modelled by Blocks.Initialize.
- Fields: a field whose expression uses no registers has no address class (`null` in Kotlin, `None` here). A field that never initialized is not given an address class.
- Fields: `update()` is not modelled. It only forwards to the schema device's single-field update, which FetchPlans and Fetchers model.
- Fetchers.UsesReadErrorRegisters: the optimizing fetcher's filter does not look at the field's address class. Kotlin's `isUsingReadErrorRegisters()` answers false when that class is null. The two agree on every field that initialized (Fetchers.UsedReadErrorsOfInitialized), and the fetcher only plans fields that initialized.
- Blocks.Block.Need: the register cache is passed in and returned rather than reached through the schema device. The address class of a field is what Fields.Initialize computes for it, so the model assumes initialize() has run on the block's fields. A Kotlin field on which initialize() never ran keeps a null class and clears nothing. A field whose initialize() set its class and then threw on mixed address classes is given no class here; its schema does not load.
- Blocks.Block.Need, Blocks.Block.UnNeed, Blocks.IsImmutable: these require a rank that goes down along every required-field edge. On a block with a cycle, Kotlin's `need()`, `unNeed()` and `isImmutable` recurse until the stack overflows. The schema device's initialize() only returns false for such a block and does not stop callers from calling need(). The model does not cover that non-termination. Blocks.CheckPassedRanks proves that every block passing the circular reference check has such a rank.
- Blocks.Block.AddField: compares fields by value. Kotlin's `fields.contains` compares by identity, because Field does not override `equals`. Two distinct Kotlin fields with equal data are both added, where the model adds only the first.
- Blocks: `sortFieldsByAddress`, `update`, `needAll`, `unNeedAll`, `toTable`, `toString` and the builder are not modelled. The loops of `needAll`/`unNeedAll` repeat Need and UnNeed field by field.
- ByteConversions: `bytesToSeparatedIntegerString` and `bytesToString(List<Byte>)` are not modelled; they are text layout and a wrapper of the modelled `bytesToString(ByteArray)`. The body of `bytesToTwoByteHexStringList` is not part of this model.
- ByteConversions.BytesToSeparatedTwoByteHexString: an odd number of bytes is excluded by the requires. The source reads past the end there and throws ArrayIndexOutOfBoundsException. Its caller NotImplementedPatterns.NewNotImplemented models that failure.
- ByteConversions.SplitStringBySize: a size of 0 is excluded by the requires. The source divides by zero there and throws ArithmeticException; its only caller in this core passes 2.
- TestScenarios: `modbusDevice()`, `recreateExpectedValues`, `toTable` and `toString` are not modelled. The value a field shows for comparison (`testCompareValue`) is a parameter, because the expressions that compute it are modelled elsewhere. That parameter always gives a value, where Kotlin throws `TODO(...)` for a field whose return type is UNKNOWN or BOOLEAN. The log lines of `logResults` are not modelled.
- The expression classes IPv4AddrString, HexString, StringConcat, IntegerSigned*, IntegerUnsigned32 and BooleanBitset, the expression parser, the YAML loader, the transport adapters and the code generator are not part of this model.

## Findings

| source | as written | input that shows it | evidently intended | confidence | as-written member | corrected member |
|---|---|---|---|---|---|---|
| modbus-schema-device/src/main/kotlin/nl/basjes/modbus/schema/fetcher/ModbusBlockFetcher.kt:276-277 | the query of a fetch group starts at the first address of the raw address list and counts its entries, duplicates included | fields requiring [hr:2, hr:3] and then [hr:0, hr:1] in one fetch group pass the check but get the query hr:2 # 4, which skips hr:0 and hr:1 and reads hr:4 and hr:5 | start at the lowest distinct address and count the distinct addresses | not executed | FetchPlans.GroupQueryAsWrittenMisses | FetchPlans.GroupQueryCovers |
| modbus-schema-device/src/main/kotlin/nl/basjes/modbus/schema/fetcher/OptimizingModbusBlockFetcher.kt:212-227 | a gapped merge sets the count to the end of the next query, even when that query lies inside the current range, and adds a hole of negative size | hr:0 # 10 followed by hr:2 # 3 is merged into hr:0 # 5 with a hole of -8, so hr:5 to hr:9 are no longer read | keep the larger end and add a hole only for a real gap | not executed | QueryMerging.MergeStepAsWrittenShrinks | QueryMerging.MergeSpecShape |
| modbus-schema-device/src/main/kotlin/nl/basjes/modbus/schema/expression/numbers/NumericalOperations.kt:143-153 | POSITIVE times NEGATIVE (either order) is guaranteed NEGATIVE, although POSITIVE includes 0 | 0 * -3 is 0, which is not negative; so x * -1 with x POSITIVE is called NEGATIVE, and b ^ (0 - x * -1) is typed LONG | mixed signs give no guarantee | not executed | NumericalOperations.MultiplyGuaranteeAsWrittenUnsound | NumericalOperations.GuaranteeSound |
| modbus-schema-device/src/main/kotlin/nl/basjes/modbus/schema/expression/modbus/ModbusExpression.kt:132-141 | the contiguity check calls increment() after every address, including the last | a single register hr:65535 makes increment() throw IllegalArgumentException instead of passing the check | stop after the last address | not executed | ModbusExpressions.ProblemsAsWrittenThrowsAtTop | ModbusExpressions.ProblemsMeaning |
