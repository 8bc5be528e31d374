/**
 * Identifier validation (ParameterValidations.kt): block, field and test
 * names must match `^[a-zA-Z]([a-zA-Z0-9_ ]*[a-zA-Z0-9_]+)?$`.
 *
 * `MatchesIdPattern` is the pattern read literally, as a choice of where
 * the starred part ends and the plus part begins; `IsValidIdentifier` is the
 * character-by-character rule the check amounts to. The two are proved equal.
 */
module ParameterValidations {
  import opened Wrappers

  predicate IsAsciiLetter(c: char)
  {
    'a' <= c <= 'z' || 'A' <= c <= 'Z'
  }

  /** `[a-zA-Z0-9_]` */
  predicate IsWordChar(c: char)
  {
    IsAsciiLetter(c) || '0' <= c <= '9' || c == '_'
  }

  /** `[a-zA-Z0-9_ ]` */
  predicate IsWordOrSpace(c: char)
  {
    IsWordChar(c) || c == ' '
  }

  predicate AllWordOrSpace(s: string)
  {
    forall i :: 0 <= i < |s| ==> IsWordOrSpace(s[i])
  }

  predicate AllWord(s: string)
  {
    forall i :: 0 <= i < |s| ==> IsWordChar(s[i])
  }

  /**
   * The pattern as written: one letter, then optionally a run of
   * `[a-zA-Z0-9_ ]` followed by a non-empty run of `[a-zA-Z0-9_]`, which
   * together are the rest of the string.
   */
  predicate MatchesIdPattern(s: string)
  {
    |s| >= 1 && IsAsciiLetter(s[0]) &&
    (|s| == 1 ||
     exists k :: 1 <= k < |s| && AllWordOrSpace(s[1..k]) && AllWord(s[k..]))
  }

  /** isValidIdentifier: a letter first, then letters, digits, '_' or spaces, and no space at the end. */
  predicate IsValidIdentifier(id: string)
  {
    |id| >= 1 && IsAsciiLetter(id[0]) &&
    (forall i :: 1 <= i < |id| ==> IsWordOrSpace(id[i])) &&
    id[|id| - 1] != ' '
  }

  /** The character rule accepts exactly the strings the pattern matches. */
  lemma ValidIdentifierIsPattern(s: string)
    ensures IsValidIdentifier(s) <==> MatchesIdPattern(s)
  {
    if IsValidIdentifier(s) && |s| > 1 {
      var k := |s| - 1;
      assert s[1..k][..] == s[1..k];
      assert forall i :: 0 <= i < |s[1..k]| ==> s[1..k][i] == s[i + 1];
      assert AllWordOrSpace(s[1..k]);
      assert s[k..] == [s[k]];
      assert AllWord(s[k..]);
    }
    if MatchesIdPattern(s) && |s| > 1 {
      var k :| 1 <= k < |s| && AllWordOrSpace(s[1..k]) && AllWord(s[k..]);
      forall i | 1 <= i < |s|
        ensures IsWordOrSpace(s[i])
      {
        if i < k {
          assert s[i] == s[1..k][i - 1];
        } else {
          assert s[i] == s[k..][i - k];
        }
      }
      assert s[|s| - 1] == s[k..][|s| - 1 - k];
    }
  }

  /** The empty string is not an identifier. */
  lemma EmptyIsInvalid()
    ensures !IsValidIdentifier("") && !MatchesIdPattern("")
  {
  }

  /** An identifier never holds a character outside `[a-zA-Z0-9_ ]`, so no '|', '<' or '>'. */
  lemma ValidIdentifierChars(id: string, c: char)
    requires IsValidIdentifier(id) && c in id
    ensures IsWordOrSpace(c)
  {
    var i :| 0 <= i < |id| && id[i] == c;
  }

  /** An identifier has nothing for trim() to remove at either end. */
  lemma ValidIdentifierIsTrimmed(id: string)
    requires IsValidIdentifier(id)
    ensures id[0] > ' ' && id[|id| - 1] > ' '
  {
  }

  /** requireValidIdentifier: ModbusSchemaParseException for an invalid id. */
  function RequireValidIdentifier(id: string): (r: Result<()>)
    ensures r.Ok? <==> MatchesIdPattern(id)
    ensures r.Fail? ==> r.failure == SchemaParse
  {
    ValidIdentifierIsPattern(id);
    if IsValidIdentifier(id) then Ok(()) else Fail(SchemaParse)
  }

  /** The NameUsableAsClassName value class: `require` on the same pattern. */
  datatype NameUsableAsClassName = NameUsableAsClassName(value: string)

  function NewNameUsableAsClassName(value: string): (r: Result<NameUsableAsClassName>)
    ensures r.Ok? <==> MatchesIdPattern(value)
    ensures r.Ok? ==> r.value.value == value
    ensures r.Fail? ==> r.failure == IllegalArgument
  {
    ValidIdentifierIsPattern(value);
    if IsValidIdentifier(value) then Ok(NameUsableAsClassName(value)) else Fail(IllegalArgument)
  }
}
