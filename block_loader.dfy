/**
 * The text loaders of ModbusBlock.kt: `toRegisterBlock` reads a list of
 * four-digit hex words, `toDiscreteBlock` a list of 0/1/-/x characters,
 * each into a fresh block starting at a given address.
 *
 * The text is cleaned first (`toCleanedArray`): comments are dropped, the
 * lines joined, the text lowercased and split on spaces. The functions
 * `CleanedWords`, `Tokens` and `LoadRun` state what the loaders compute;
 * the methods build the block through the block's own setters.
 */
module ModbusBlockLoaders {
  import opened Wrappers
  import opened Text
  import opened ByteConversions
  import opened AddressClasses
  import opened Addresses
  import opened ModbusValues
  import opened ModbusBlocks

  /** 2001-02-03T04:05:06.789Z, the fixed fetch timestamp of loaded values. */
  const LOADED_TIMESTAMP: int64 := 981173106789

  // ---------------------------------------------------------------------------
  // Cleaning the text

  /** The characters a regex `.` does not match (the JDK's line terminators). */
  predicate IsLineTerminator(ch: char)
  {
    ch == '\n' || ch == '\r' || ch == '\U{0085}' || ch == '\U{2028}' || ch == '\U{2029}'
  }

  /** The index of the first line terminator, or the length when there is none. */
  function LineEnd(s: string): (k: nat)
    ensures k <= |s|
    ensures forall i :: 0 <= i < k ==> !IsLineTerminator(s[i])
    ensures k < |s| ==> IsLineTerminator(s[k])
  {
    if s == [] || IsLineTerminator(s[0]) then 0 else 1 + LineEnd(s[1..])
  }

  /**
   * `replace(Regex(marker + ".*\n"), "\n")`: from each marker up to a line
   * feed becomes a single line feed. The match needs the line to end in
   * '\n': a comment ended by another line terminator, or by the end of the
   * text, is kept.
   */
  function DropComments(s: string, marker: string): string
    requires marker != []
    decreases |s|
  {
    if s == [] then []
    else if marker <= s && |marker| + LineEnd(s[|marker|..]) < |s| && s[|marker| + LineEnd(s[|marker|..])] == '\n' then
      "\n" + DropComments(s[|marker| + LineEnd(s[|marker|..]) + 1..], marker)
    else [s[0]] + DropComments(s[1..], marker)
  }

  function LineFeeds(s: string): nat
  {
    if s == [] then 0 else (if s[0] == '\n' then 1 else 0) + LineFeeds(s[1..])
  }

  /** Dropping comments keeps every line: the number of line feeds is unchanged. */
  lemma {:induction false} DropCommentsKeepsLines(s: string, marker: string)
    requires marker != [] && forall i :: 0 <= i < |marker| ==> marker[i] != '\n'
    ensures LineFeeds(DropComments(s, marker)) == LineFeeds(s)
    decreases |s|
  {
    if s == [] {
    } else if marker <= s && |marker| + LineEnd(s[|marker|..]) < |s| && s[|marker| + LineEnd(s[|marker|..])] == '\n' {
      var k := |marker| + LineEnd(s[|marker|..]);
      DropCommentsKeepsLines(s[k + 1..], marker);
      CommentHasNoLineFeed(s, marker);
      FirstLineFeed(s, k);
      assert ("\n" + DropComments(s[k + 1..], marker))[1..] == DropComments(s[k + 1..], marker);
    } else {
      DropCommentsKeepsLines(s[1..], marker);
      assert ([s[0]] + DropComments(s[1..], marker))[1..] == DropComments(s[1..], marker);
    }
  }

  /** A comment, from its marker to the end of its line, holds no line feed. */
  lemma CommentHasNoLineFeed(s: string, marker: string)
    requires marker <= s && forall i :: 0 <= i < |marker| ==> marker[i] != '\n'
    ensures forall i :: 0 <= i < |marker| + LineEnd(s[|marker|..]) ==> s[i] != '\n'
  {
    var k := |marker| + LineEnd(s[|marker|..]);
    forall i | 0 <= i < k
      ensures s[i] != '\n'
    {
      if i >= |marker| {
        assert s[i] == s[|marker|..][i - |marker|];
      } else {
        assert s[i] == marker[i];
      }
    }
  }

  /** Counting line feeds up to and including the first one, at k. */
  lemma {:induction false} FirstLineFeed(s: string, k: nat)
    requires k < |s| && s[k] == '\n'
    requires forall i :: 0 <= i < k ==> s[i] != '\n'
    ensures LineFeeds(s) == 1 + LineFeeds(s[k + 1..])
    decreases k
  {
    if k > 0 {
      assert s[1..][k..] == s[k + 1..];
      FirstLineFeed(s[1..], k - 1);
    }
  }

  /** A text without a line feed is never changed: a last-line comment stays in the text. */
  lemma {:induction false} DropCommentsNeedsLineFeed(s: string, marker: string)
    requires marker != []
    requires forall i :: 0 <= i < |s| ==> s[i] != '\n'
    ensures DropComments(s, marker) == s
    decreases |s|
  {
    if s != [] {
      DropCommentsNeedsLineFeed(s[1..], marker);
    }
  }

  /** A text in which the marker never starts is never changed. */
  lemma {:induction false} DropCommentsWithoutMarker(s: string, marker: string)
    requires marker != []
    requires forall i :: 0 <= i < |s| ==> !(marker <= s[i..])
    ensures DropComments(s, marker) == s
    decreases |s|
  {
    if s != [] {
      assert s[0..] == s;
      forall i | 0 <= i < |s[1..]|
        ensures !(marker <= s[1..][i..])
      {
        assert s[1..][i..] == s[i + 1..];
      }
      DropCommentsWithoutMarker(s[1..], marker);
    }
  }

  /** Kotlin `split(" ")`: the pieces between the separators, at least one. */
  function Split(s: string, sep: char): (r: seq<string>)
    ensures |r| >= 1
  {
    if s == [] then [[]]
    else if s[0] == sep then [[]] + Split(s[1..], sep)
    else var rest := Split(s[1..], sep); [[s[0]] + rest[0]] + rest[1..]
  }

  /** The inverse of Split: the pieces joined with the separator. */
  function Join(words: seq<string>, sep: char): string
    requires |words| >= 1
  {
    if |words| == 1 then words[0] else words[0] + [sep] + Join(words[1..], sep)
  }

  /** Joining the pieces gives back the text, and no piece holds the separator. */
  lemma {:induction false} SplitJoin(s: string, sep: char)
    ensures Join(Split(s, sep), sep) == s
    ensures forall w, i :: w in Split(s, sep) && 0 <= i < |w| ==> w[i] != sep
  {
    if s != [] {
      SplitJoin(s[1..], sep);
      var rest := Split(s[1..], sep);
      if s[0] == sep {
        assert Split(s, sep)[1..] == rest;
      } else {
        var r := Split(s, sep);
        if |rest| == 1 {
          assert r == [[s[0]] + rest[0]];
        } else {
          assert r[1..] == rest[1..];
          assert Join(r, sep) == [s[0]] + rest[0] + [sep] + Join(rest[1..], sep);
        }
        forall w, i | w in r && 0 <= i < |w|
          ensures w[i] != sep
        {
          if w == r[0] && i > 0 {
            assert w[i] == rest[0][i - 1];
          }
        }
      }
    }
  }

  /**
   * `toCleanedArray`: drop '#' and then '//' comments, join the lines,
   * lowercase and split on single spaces. The regex steps that remove
   * leading spaces and collapse runs of spaces, and `dropLastWhile`, only
   * remove empty words, which the loaders skip anyway.
   */
  function CleanedWords(text: string): seq<string>
  {
    Split(Lowercase(ReplaceChar(DropComments(DropComments(text, "#"), "//"), '\n', ' ')), ' ')
  }

  /** The words the loaders act on: each word trimmed, the empty ones skipped. */
  function Tokens(words: seq<string>): (r: seq<string>)
    ensures |r| <= |words|
    ensures forall t :: t in r ==> t != []
  {
    if words == [] then []
    else (if Trim(words[0]) == [] then [] else [Trim(words[0])]) + Tokens(words[1..])
  }

  /** The characters of all tokens, in order (what toDiscreteBlock walks). */
  function TokenChars(words: seq<string>): string
  {
    if words == [] then [] else Trim(words[0]) + TokenChars(words[1..])
  }

  // ---------------------------------------------------------------------------
  // Loading a run of items into consecutive addresses

  /** Whether address a is one of the n addresses of class c from p on. */
  predicate InRun(a: Address, c: AddressClass, p: int, n: int)
  {
    a.addressClass == c && p <= a.physicalAddress < p + n
  }

  /**
   * Item i goes to address p + i: `Address.of` first (failing past 65535),
   * then the step on that address's entry. The first failure ends the load.
   */
  function LoadRun<T>(m: Values, c: AddressClass, p: int, items: seq<T>, step: (ValueState, T) -> Result<ValueState>): Result<Values>
    requires p >= 0
    decreases |items|
  {
    if items == [] then Ok(m)
    else
      match Of(c, p)
      case Fail(e) => Fail(e)
      case Ok(a) =>
        match step(Entry(m, a), items[0])
        case Fail(e) => Fail(e)
        case Ok(v) => LoadRun(m[a := v], c, p + 1, items[1..], step)
  }

  /** The run of n addresses from p stays below 65536. */
  predicate Fits(p: int, n: int)
  {
    n == 0 || p + n - 1 <= MAX_PHYSICAL_ADDRESS
  }

  /** Every step of the run succeeds on the entry it is given. */
  predicate StepsOk<T>(m: Values, c: AddressClass, p: int, items: seq<T>, step: (ValueState, T) -> Result<ValueState>)
    requires p >= 0 && Fits(p, |items|)
  {
    forall i :: 0 <= i < |items| ==> step(Entry(m, Address(c, p + i)), items[i]).Ok?
  }

  /** One item loaded: the load goes on from the next address with the entry stepped. */
  lemma LoadRunUnfold<T>(m: Values, c: AddressClass, p: int, items: seq<T>, step: (ValueState, T) -> Result<ValueState>)
    requires 0 <= p <= MAX_PHYSICAL_ADDRESS && items != []
    ensures step(Entry(m, Address(c, p)), items[0]).Fail? ==>
      LoadRun(m, c, p, items, step) == Fail(step(Entry(m, Address(c, p)), items[0]).failure)
    ensures step(Entry(m, Address(c, p)), items[0]).Ok? ==>
      LoadRun(m, c, p, items, step) ==
        LoadRun(m[Address(c, p) := step(Entry(m, Address(c, p)), items[0]).value], c, p + 1, items[1..], step)
  {
    assert Of(c, p) == Ok(Address(c, p));
  }

  /** A load succeeds exactly when the run fits below address 65536 and every step succeeds. */
  lemma {:induction false} LoadRunOk<T>(m: Values, c: AddressClass, p: int, items: seq<T>, step: (ValueState, T) -> Result<ValueState>)
    requires p >= 0
    ensures LoadRun(m, c, p, items, step).Ok? <==> Fits(p, |items|) && StepsOk(m, c, p, items, step)
    decreases |items|
  {
    if items != [] && p <= MAX_PHYSICAL_ADDRESS {
      var a := Address(c, p);
      var s := step(Entry(m, a), items[0]);
      LoadRunUnfold(m, c, p, items, step);
      assert p + 0 == p;
      if s.Ok? {
        var m' := m[a := s.value];
        LoadRunOk(m', c, p + 1, items[1..], step);
        if Fits(p, |items|) {
          StepsOkCons(m, c, p, items, step);
        }
      }
    }
  }

  /** Every step succeeds exactly when the first does and every later one does on the updated entries. */
  lemma StepsOkCons<T>(m: Values, c: AddressClass, p: int, items: seq<T>, step: (ValueState, T) -> Result<ValueState>)
    requires p >= 0 && items != [] && Fits(p, |items|)
    requires step(Entry(m, Address(c, p)), items[0]).Ok?
    ensures StepsOk(m, c, p, items, step) <==>
      StepsOk(m[Address(c, p) := step(Entry(m, Address(c, p)), items[0]).value], c, p + 1, items[1..], step)
  {
    var m' := m[Address(c, p) := step(Entry(m, Address(c, p)), items[0]).value];
    forall i | 1 <= i < |items|
      ensures step(Entry(m, Address(c, p + i)), items[i]) == step(Entry(m', Address(c, p + 1 + (i - 1))), items[1..][i - 1])
    {
    }
    if StepsOk(m', c, p + 1, items[1..], step) {
      forall i | 0 <= i < |items|
        ensures step(Entry(m, Address(c, p + i)), items[i]).Ok?
      {
        if i > 0 {
          assert step(Entry(m', Address(c, p + 1 + (i - 1))), items[1..][i - 1]).Ok?;
        }
      }
    }
    if StepsOk(m, c, p, items, step) {
      forall i | 0 <= i < |items| - 1
        ensures step(Entry(m', Address(c, p + 1 + i)), items[1..][i]).Ok?
      {
        assert step(Entry(m, Address(c, p + (i + 1))), items[i + 1]).Ok?;
      }
    }
  }

  /**
   * A successful load holds the stepped entry at every address of the
   * run and leaves every other entry as it was.
   */
  lemma {:induction false} LoadRunContents<T>(m: Values, c: AddressClass, p: int, items: seq<T>,
                                              step: (ValueState, T) -> Result<ValueState>, r: Values)
    requires p >= 0 && LoadRun(m, c, p, items, step) == Ok(r)
    ensures forall a :: a in r <==> a in m || InRun(a, c, p, |items|)
    ensures forall a :: a in r ==>
      if InRun(a, c, p, |items|) then step(Entry(m, a), items[a.physicalAddress - p]) == Ok(r[a])
      else r[a] == m[a]
    decreases |items|
  {
    if items != [] {
      var a0 := Address(c, p);
      LoadRunUnfold(m, c, p, items, step);
      var m' := m[a0 := step(Entry(m, a0), items[0]).value];
      LoadRunContents(m', c, p + 1, items[1..], step, r);
      ContentsConsKeys(m, m', r, c, p, |items|);
      ContentsConsValues(m, m', r, c, p, items, step);
    }
  }

  /** The addresses of a load, from those of the load after its first item. */
  lemma ContentsConsKeys(m: Values, m': Values, r: Values, c: AddressClass, p: int, n: int)
    requires 0 <= p <= MAX_PHYSICAL_ADDRESS && n >= 1 && m'.Keys == m.Keys + {Address(c, p)}
    requires forall a :: a in r <==> a in m' || InRun(a, c, p + 1, n - 1)
    ensures forall a :: a in r <==> a in m || InRun(a, c, p, n)
  {
    forall a
      ensures a in r <==> a in m || InRun(a, c, p, n)
    {
      if InRun(a, c, p, n) && a.physicalAddress == p {
        assert a == Address(c, p);
      }
    }
  }

  /** The entries of a load, from those of the load after its first item. */
  lemma ContentsConsValues<T>(m: Values, m': Values, r: Values, c: AddressClass, p: int, items: seq<T>, step: (ValueState, T) -> Result<ValueState>)
    requires 0 <= p <= MAX_PHYSICAL_ADDRESS && items != [] && step(Entry(m, Address(c, p)), items[0]).Ok?
    requires m' == m[Address(c, p) := step(Entry(m, Address(c, p)), items[0]).value]
    requires forall a :: a in r <==> a in m' || InRun(a, c, p + 1, |items[1..]|)
    requires forall a :: a in r ==>
      if InRun(a, c, p + 1, |items[1..]|) then step(Entry(m', a), items[1..][a.physicalAddress - (p + 1)]) == Ok(r[a])
      else r[a] == m'[a]
    ensures forall a :: a in r ==>
      if InRun(a, c, p, |items|) then step(Entry(m, a), items[a.physicalAddress - p]) == Ok(r[a])
      else a in m && r[a] == m[a]
  {
    var a0 := Address(c, p);
    forall a | a in r
      ensures if InRun(a, c, p, |items|) then step(Entry(m, a), items[a.physicalAddress - p]) == Ok(r[a])
        else a in m && r[a] == m[a]
    {
      if a == a0 {
      } else if InRun(a, c, p, |items|) {
        assert a.physicalAddress != p;
        assert Entry(m', a) == Entry(m, a);
        assert items[1..][a.physicalAddress - (p + 1)] == items[a.physicalAddress - p];
      }
    }
  }

  /** A successful load into an empty block holds exactly the run, each entry stepped from empty. */
  lemma LoadRunFresh<T>(c: AddressClass, p: int, items: seq<T>, step: (ValueState, T) -> Result<ValueState>)
    requires p >= 0 && LoadRun(map[], c, p, items, step).Ok?
    ensures forall a :: a in LoadRun(map[], c, p, items, step).value <==> InRun(a, c, p, |items|)
    ensures forall a :: a in LoadRun(map[], c, p, items, step).value ==>
      InRun(a, c, p, |items|) && step(NewState(a), items[a.physicalAddress - p]) == Ok(LoadRun(map[], c, p, items, step).value[a])
  {
    var r := LoadRun(map[], c, p, items, step).value;
    LoadRunContents(map[], c, p, items, step, r);
    forall a | a in r
      ensures step(NewState(a), items[a.physicalAddress - p]) == Ok(r[a])
    {
      assert Entry(map[], a) == NewState(a);
    }
  }

  /** A failed load failed on an address past 65535 or on a failing step. */
  lemma {:induction false} LoadRunFailure<T>(m: Values, c: AddressClass, p: int, items: seq<T>, step: (ValueState, T) -> Result<ValueState>)
    requires p >= 0 && LoadRun(m, c, p, items, step).Fail?
    ensures LoadRun(m, c, p, items, step).failure == IllegalArgument ||
      exists v, i :: 0 <= i < |items| && step(v, items[i]) == Fail(LoadRun(m, c, p, items, step).failure)
    decreases |items|
  {
    var f := LoadRun(m, c, p, items, step).failure;
    if p <= MAX_PHYSICAL_ADDRESS {
      LoadRunUnfold(m, c, p, items, step);
      var s := step(Entry(m, Address(c, p)), items[0]);
      if s.Ok? {
        LoadRunFailure(m[Address(c, p) := s.value], c, p + 1, items[1..], step);
        if f != IllegalArgument {
          var v, i :| 0 <= i < |items[1..]| && step(v, items[1..][i]) == Fail(f);
          assert step(v, items[i + 1]) == Fail(f);
        }
      } else {
        assert step(Entry(m, Address(c, p)), items[0]) == Fail(f);
      }
    }
  }

  // ---------------------------------------------------------------------------
  // Registers

  /**
   * One register token: "null" or "----" leaves the entry empty, "xxxx"
   * makes it a soft read error, anything else is parsed as a signed hex
   * Int and stored masked to 16 bits (`and 0xFFFF`).
   */
  function RegisterStep(v: ValueState, t: string): Result<ValueState>
  {
    if t == "null" || t == "----" then Ok(v)
    else if t == "xxxx" then Ok(v.WithSoftReadError())
    else
      match ParseHexInt(t)
      case Fail(e) => Fail(e)
      case Ok(n) => Ok(v.WithValue(n % 0x1_0000, LOADED_TIMESTAMP))
  }

  /** The tokens toRegisterBlock accepts. */
  predicate IsRegisterToken(t: string)
  {
    t == "null" || t == "----" || t == "xxxx" || ParseHexInt(t).Ok?
  }

  /** `toRegisterBlock(firstAddress)` as a value: the block's map, or the exception. */
  function RegisterLoad(text: string, first: Address): Result<Values>
  {
    if BitsPerValue(first.addressClass) != 16 then Fail(IllegalAddressClass)
    else LoadRun(map[], first.addressClass, first.physicalAddress, Tokens(CleanedWords(text)), RegisterStep)
  }

  /** The token rules: what a register token stores, and that only a bad hex number fails. */
  lemma RegisterStepRules(v: ValueState, t: string)
    ensures RegisterStep(v, t).Fail? <==>
      t != "null" && t != "----" && t != "xxxx" && ParseHexInt(t).Fail?
    ensures RegisterStep(v, t).Fail? ==> RegisterStep(v, t).failure == NumberFormat
    ensures t == "null" || t == "----" ==> RegisterStep(v, t) == Ok(v)
    ensures t == "xxxx" ==> RegisterStep(v, t).Ok? && RegisterStep(v, t).value.IsReadError() && !RegisterStep(v, t).value.hardReadError
    ensures t != "null" && t != "----" && t != "xxxx" && ParseHexInt(t).Ok? ==>
      RegisterStep(v, t).Ok? &&
      RegisterStep(v, t).value.value == Some(ParseHexInt(t).value % 0x1_0000) &&
      0 <= RegisterStep(v, t).value.value.value < 0x1_0000 &&
      RegisterStep(v, t).value.fetchTimestamp == LOADED_TIMESTAMP
  {
  }

  /**
   * toRegisterBlock's run from address p: token i goes to address p + i,
   * by the token rules, and nothing else is in the block. It fails exactly
   * when a token is not a valid hex Int or the run passes address 65535.
   */
  lemma RegisterRunEffect(c: AddressClass, p: nat, toks: seq<string>)
    ensures LoadRun(map[], c, p, toks, RegisterStep).Ok? <==>
      Fits(p, |toks|) && forall i :: 0 <= i < |toks| ==> IsRegisterToken(toks[i])
    ensures LoadRun(map[], c, p, toks, RegisterStep).Ok? ==>
      forall a :: a in LoadRun(map[], c, p, toks, RegisterStep).value <==> InRun(a, c, p, |toks|)
    ensures LoadRun(map[], c, p, toks, RegisterStep).Ok? ==>
      forall a :: a in LoadRun(map[], c, p, toks, RegisterStep).value ==>
        InRun(a, c, p, |toks|) &&
        RegisterStep(NewState(a), toks[a.physicalAddress - p]) == Ok(LoadRun(map[], c, p, toks, RegisterStep).value[a])
    ensures LoadRun(map[], c, p, toks, RegisterStep).Fail? ==>
      LoadRun(map[], c, p, toks, RegisterStep).failure in {IllegalArgument, NumberFormat}
  {
    LoadRunOk(map[], c, p, toks, RegisterStep);
    var r := LoadRun(map[], c, p, toks, RegisterStep);
    if r.Ok? {
      LoadRunFresh(c, p, toks, RegisterStep);
    } else {
      LoadRunFailure(map[], c, p, toks, RegisterStep);
      if r.failure != IllegalArgument {
        var v, i :| 0 <= i < |toks| && RegisterStep(v, toks[i]) == Fail(r.failure);
        RegisterStepRules(v, toks[i]);
      }
    }
  }

  /** toRegisterBlock: the same load, through the block's setters. */
  method ToRegisterBlock(text: string, first: Address) returns (r: Result<ModbusBlock>)
    ensures r.Ok? ==> fresh(r.value) && r.value.addressClass == first.addressClass && r.value.Valid() && RegisterLoad(text, first) == Ok(r.value.values)
    ensures r.Fail? ==> RegisterLoad(text, first) == Fail(r.failure)
  {
    var c := first.addressClass;
    var created := NewBlock(c, 16);
    if created.Fail? {
      return Fail(created.failure);
    }
    var block := created.value;
    var words := CleanedWords(text);
    assert RegisterLoad(text, first) == LoadRun(map[], c, first.physicalAddress, Tokens(words), RegisterStep);
    var loaded := LoadRegisterWords(block, words, first.physicalAddress);
    if loaded.Fail? {
      return Fail(loaded.failure);
    }
    return Ok(block);
  }

  /** The loop of toRegisterBlock over the words, from register p0 on. */
  method LoadRegisterWords(block: ModbusBlock, words: seq<string>, p0: int) returns (r: Result<()>)
    requires block.Valid() && p0 >= 0
    modifies block
    ensures block.Valid()
    ensures r.Ok? ==> LoadRun(old(block.values), block.addressClass, p0, Tokens(words), RegisterStep) == Ok(block.values)
    ensures r.Fail? ==> LoadRun(old(block.values), block.addressClass, p0, Tokens(words), RegisterStep) == Fail(r.failure)
  {
    var c := block.addressClass;
    var p := p0;
    ghost var goal := LoadRun(block.values, c, p, Tokens(words), RegisterStep);
    assert words[0..] == words;
    var i := 0;
    while i < |words|
      invariant 0 <= i <= |words| && p >= 0
      invariant block.Valid()
      invariant goal == LoadRun(block.values, c, p, Tokens(words[i..]), RegisterStep)
    {
      var t := Trim(words[i]);
      ghost var rest := Tokens(words[i + 1..]);
      TokensAt(words, i);
      if t != [] {
        var next := LoadRegisterAt(block, t, p, rest);
        if next.Fail? {
          return Fail(next.failure);
        }
        p := next.value;
      }
      i := i + 1;
    }
    assert words[i..] == [];
    return Ok(());
  }

  /** The tokens from word i on: the trimmed word when it is not empty, then the tokens after it. */
  lemma TokensAt(words: seq<string>, i: int)
    requires 0 <= i < |words|
    ensures Trim(words[i]) == [] ==> Tokens(words[i..]) == Tokens(words[i + 1..])
    ensures Trim(words[i]) != [] ==> Tokens(words[i..]) == [Trim(words[i])] + Tokens(words[i + 1..])
  {
    assert words[i..][1..] == words[i + 1..];
    if Trim(words[i]) == [] {
      assert [] + Tokens(words[i + 1..]) == Tokens(words[i + 1..]);
    }
  }

  /** One token at register p: its address, then the token loaded into it. */
  method LoadRegisterAt(block: ModbusBlock, t: string, p: int, ghost rest: seq<string>) returns (r: Result<int>)
    requires block.Valid() && p >= 0
    modifies block
    ensures block.Valid()
    ensures r.Ok? ==> r.value == p + 1
    ensures r.Ok? ==>
      LoadRun(old(block.values), block.addressClass, p, [t] + rest, RegisterStep) == LoadRun(block.values, block.addressClass, r.value, rest, RegisterStep)
    ensures r.Fail? ==> LoadRun(old(block.values), block.addressClass, p, [t] + rest, RegisterStep) == Fail(r.failure)
  {
    var c := block.addressClass;
    var a := Of(c, p);
    if a.Fail? {
      assert ([t] + rest)[0] == t;
      return Fail(a.failure);
    }
    TokenStep(block.values, c, p, t, rest);
    var loaded := LoadRegisterToken(block, a.value, t);
    if loaded.Fail? {
      return Fail(loaded.failure);
    }
    return Ok(p + 1);
  }

  /** One token of toRegisterBlock: the register is set absent, marked as a read error or given the parsed value. */
  method LoadRegisterToken(block: ModbusBlock, a: Address, t: string) returns (r: Result<()>)
    requires block.Valid() && a.addressClass == block.addressClass
    modifies block
    ensures block.Valid()
    ensures r.Ok? <==> RegisterStep(Entry(old(block.values), a), t).Ok?
    ensures r.Ok? ==> block.values == old(block.values)[a := RegisterStep(Entry(old(block.values), a), t).value]
    ensures r.Fail? ==> r.failure == RegisterStep(Entry(old(block.values), a), t).failure
  {
    ghost var before := block.values;
    if t == "null" || t == "----" {
      var _ := block.SetAbsent(a);
    } else if t == "xxxx" {
      var _ := block.SetReadError(a);
    } else {
      var n := ParseHexInt(t);
      if n.Fail? {
        return Fail(n.failure);
      }
      var _ := block.SetValue(a, n.value % 0x1_0000, LOADED_TIMESTAMP);
    }
    assert RegisterStep(Entry(before, a), t) == Ok(block.values[a]);
    assert block.values == before[a := block.values[a]];
    return Ok(());
  }

  /** The register load at one token: one step, then the remaining tokens. */
  lemma TokenStep(m: Values, c: AddressClass, p: int, t: string, rest: seq<string>)
    requires 0 <= p <= MAX_PHYSICAL_ADDRESS
    ensures RegisterStep(Entry(m, Address(c, p)), t).Fail? ==>
      LoadRun(m, c, p, [t] + rest, RegisterStep) == Fail(RegisterStep(Entry(m, Address(c, p)), t).failure)
    ensures RegisterStep(Entry(m, Address(c, p)), t).Ok? ==>
      LoadRun(m, c, p, [t] + rest, RegisterStep) ==
        LoadRun(m[Address(c, p) := RegisterStep(Entry(m, Address(c, p)), t).value], c, p + 1, rest, RegisterStep)
  {
    assert ([t] + rest)[1..] == rest;
    LoadRunUnfold(m, c, p, [t] + rest, RegisterStep);
  }

  // ---------------------------------------------------------------------------
  // Discretes

  /** One discrete character: '-' empty, 'x' soft read error, '0' and '1' a value; anything else fails. */
  function DiscreteStep(v: ValueState, ch: char): Result<ValueState>
  {
    match ch
    case '-' => Ok(v)
    case 'x' => Ok(v.WithSoftReadError())
    case '0' => Ok(v.WithValue(0, LOADED_TIMESTAMP))
    case '1' => Ok(v.WithValue(1, LOADED_TIMESTAMP))
    case _ => Fail(ModbusApi)
  }

  /** The characters toDiscreteBlock accepts. */
  predicate IsDiscreteChar(ch: char)
  {
    ch == '0' || ch == '1' || ch == '-' || ch == 'x'
  }

  /** `toDiscreteBlock(firstAddress)` as a value: one address per character of every token. */
  function DiscreteLoad(text: string, first: Address): Result<Values>
  {
    if BitsPerValue(first.addressClass) != 1 then Fail(IllegalAddressClass)
    else LoadRun(map[], first.addressClass, first.physicalAddress, TokenChars(CleanedWords(text)), DiscreteStep)
  }

  /**
   * toDiscreteBlock's run from address p: character i goes to address
   * p + i and nothing else is in the block. It fails exactly when a
   * character is not one of 0/1/-/x or the run passes address 65535.
   */
  lemma DiscreteRunEffect(c: AddressClass, p: nat, chars: string)
    ensures LoadRun(map[], c, p, chars, DiscreteStep).Ok? <==>
      Fits(p, |chars|) && forall i :: 0 <= i < |chars| ==> IsDiscreteChar(chars[i])
    ensures LoadRun(map[], c, p, chars, DiscreteStep).Ok? ==>
      forall a :: a in LoadRun(map[], c, p, chars, DiscreteStep).value <==> InRun(a, c, p, |chars|)
    ensures LoadRun(map[], c, p, chars, DiscreteStep).Ok? ==>
      forall a :: a in LoadRun(map[], c, p, chars, DiscreteStep).value ==>
        InRun(a, c, p, |chars|) &&
        var ch := chars[a.physicalAddress - p];
        var s := LoadRun(map[], c, p, chars, DiscreteStep).value[a];
        (ch == '-' ==> s == NewState(a)) &&
        (ch == 'x' ==> s == NewState(a).WithSoftReadError()) &&
        (ch == '0' ==> s == NewState(a).WithValue(0, LOADED_TIMESTAMP)) &&
        (ch == '1' ==> s == NewState(a).WithValue(1, LOADED_TIMESTAMP))
    ensures LoadRun(map[], c, p, chars, DiscreteStep).Fail? ==>
      LoadRun(map[], c, p, chars, DiscreteStep).failure in {IllegalArgument, ModbusApi}
  {
    LoadRunOk(map[], c, p, chars, DiscreteStep);
    var r := LoadRun(map[], c, p, chars, DiscreteStep);
    if r.Ok? {
      LoadRunFresh(c, p, chars, DiscreteStep);
    } else {
      LoadRunFailure(map[], c, p, chars, DiscreteStep);
    }
  }

  /** toDiscreteBlock: the same load, character by character through the block's setters. */
  method ToDiscreteBlock(text: string, first: Address) returns (r: Result<ModbusBlock>)
    ensures r.Ok? ==> fresh(r.value) && r.value.addressClass == first.addressClass && r.value.Valid() && DiscreteLoad(text, first) == Ok(r.value.values)
    ensures r.Fail? ==> DiscreteLoad(text, first) == Fail(r.failure)
  {
    var c := first.addressClass;
    var created := NewBlock(c, 1);
    if created.Fail? {
      return Fail(created.failure);
    }
    var block := created.value;
    var words := CleanedWords(text);
    var p: int := first.physicalAddress;
    ghost var goal := LoadRun(map[], c, p, TokenChars(words), DiscreteStep);
    assert DiscreteLoad(text, first) == goal;
    assert words[0..] == words;
    var i := 0;
    while i < |words|
      invariant 0 <= i <= |words| && p >= 0
      invariant fresh(block) && block.addressClass == c && block.Valid()
      invariant goal == LoadRun(block.values, c, p, TokenChars(words[i..]), DiscreteStep)
    {
      var t := Trim(words[i]);
      assert words[i..][1..] == words[i + 1..];
      ghost var rest := TokenChars(words[i + 1..]);
      assert TokenChars(words[i..]) == t + rest;
      var next := LoadDiscreteToken(block, t, p, rest);
      if next.Fail? {
        return Fail(next.failure);
      }
      p := next.value;
      i := i + 1;
    }
    assert words[i..] == [];
    return Ok(block);
  }

  /** The characters of one token, loaded into consecutive addresses from p; the next free address. */
  method LoadDiscreteToken(block: ModbusBlock, t: string, p: int, ghost rest: string) returns (r: Result<int>)
    requires block.Valid() && p >= 0
    modifies block
    ensures block.Valid()
    ensures r.Ok? ==> r.value == p + |t|
    ensures r.Ok? ==>
      LoadRun(old(block.values), block.addressClass, p, t + rest, DiscreteStep) == LoadRun(block.values, block.addressClass, r.value, rest, DiscreteStep)
    ensures r.Fail? ==> LoadRun(old(block.values), block.addressClass, p, t + rest, DiscreteStep) == Fail(r.failure)
  {
    var c := block.addressClass;
    ghost var goal := LoadRun(block.values, c, p, t + rest, DiscreteStep);
    assert t[0..] == t;
    var q := p;
    var j := 0;
    while j < |t|
      invariant 0 <= j <= |t| && q == p + j
      invariant block.Valid()
      invariant goal == LoadRun(block.values, c, q, t[j..] + rest, DiscreteStep)
    {
      var a := Of(c, q);
      if a.Fail? {
        return Fail(a.failure);
      }
      CharStep(block.values, c, q, t, j, rest);
      var loaded := LoadDiscreteChar(block, a.value, t[j]);
      if loaded.Fail? {
        return Fail(loaded.failure);
      }
      q := q + 1;
      j := j + 1;
    }
    assert t[j..] + rest == rest;
    return Ok(q);
  }

  /** One character of a discrete token, loaded into the block at address a. */
  method LoadDiscreteChar(block: ModbusBlock, a: Address, ch: char) returns (r: Result<()>)
    requires block.Valid() && a.addressClass == block.addressClass
    modifies block
    ensures block.Valid()
    ensures r.Ok? <==> DiscreteStep(Entry(old(block.values), a), ch).Ok?
    ensures r.Ok? ==> block.values == old(block.values)[a := DiscreteStep(Entry(old(block.values), a), ch).value]
    ensures r.Fail? ==> r.failure == ModbusApi
  {
    ghost var before := block.values;
    if ch == '-' {
      var _ := block.SetAbsent(a);
    } else if ch == 'x' {
      var _ := block.SetReadError(a);
    } else if ch == '0' {
      var _ := block.SetValue(a, 0, LOADED_TIMESTAMP);
    } else if ch == '1' {
      var _ := block.SetValue(a, 1, LOADED_TIMESTAMP);
    } else {
      return Fail(ModbusApi);
    }
    assert DiscreteStep(Entry(before, a), ch) == Ok(block.values[a]);
    assert block.values == before[a := block.values[a]];
    return Ok(());
  }

  /** The discrete load at character j of a token: one step, then the rest of the token. */
  lemma CharStep(m: Values, c: AddressClass, p: int, t: string, j: int, rest: string)
    requires 0 <= p <= MAX_PHYSICAL_ADDRESS && 0 <= j < |t|
    ensures DiscreteStep(Entry(m, Address(c, p)), t[j]).Fail? ==>
      LoadRun(m, c, p, t[j..] + rest, DiscreteStep) == Fail(ModbusApi)
    ensures DiscreteStep(Entry(m, Address(c, p)), t[j]).Ok? ==>
      LoadRun(m, c, p, t[j..] + rest, DiscreteStep) ==
        LoadRun(m[Address(c, p) := DiscreteStep(Entry(m, Address(c, p)), t[j]).value], c, p + 1, t[j + 1..] + rest, DiscreteStep)
  {
    assert (t[j..] + rest)[0] == t[j];
    assert (t[j..] + rest)[1..] == t[j + 1..] + rest;
    LoadRunUnfold(m, c, p, t[j..] + rest, DiscreteStep);
  }
}
