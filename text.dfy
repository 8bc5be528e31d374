/**
 * Character and string helpers shared by the codecs: Kotlin's
 * `trim { it <= ' ' }`, `lowercase()`, `"%d"` / `"%0Nd"` formatting and
 * `toInt()` on a run of decimal digits.
 *
 * Only ASCII letters are case-folded (see README, "Left out").
 */
module Text {
  import opened Wrappers

  const INT_MAX: int := 0x7FFF_FFFF

  // ---------------------------------------------------------------------------
  // Trimming and case

  /** Kotlin `trim { it <= ' ' }`: drop control characters and spaces at both ends. */
  function Trim(s: string): string
  {
    TrimTrailing(TrimLeading(s))
  }

  function TrimLeading(s: string): string
  {
    if s != [] && s[0] <= ' ' then TrimLeading(s[1..]) else s
  }

  function TrimTrailing(s: string): string
  {
    if s != [] && s[|s| - 1] <= ' ' then TrimTrailing(s[..|s| - 1]) else s
  }

  /** Trimming leaves a string without leading or trailing blanks unchanged. */
  lemma TrimOfTrimmed(s: string)
    requires s == [] || (s[0] > ' ' && s[|s| - 1] > ' ')
    ensures Trim(s) == s
  {
  }

  /** The result of trimming has no blank at either end. */
  lemma {:induction false} TrimEnds(s: string)
    ensures Trim(s) == [] || (Trim(s)[0] > ' ' && Trim(s)[|Trim(s)| - 1] > ' ')
  {
    TrimLeadingEnds(s);
    TrimTrailingEnds(TrimLeading(s));
  }

  lemma {:induction false} TrimLeadingEnds(s: string)
    ensures TrimLeading(s) == [] || TrimLeading(s)[0] > ' '
  {
    if s != [] && s[0] <= ' ' {
      TrimLeadingEnds(s[1..]);
    }
  }

  lemma {:induction false} TrimTrailingEnds(s: string)
    requires s == [] || s[0] > ' '
    ensures TrimTrailing(s) == [] || (TrimTrailing(s)[0] > ' ' && TrimTrailing(s)[|TrimTrailing(s)| - 1] > ' ')
  {
    if s != [] && s[|s| - 1] <= ' ' {
      TrimTrailingEnds(s[..|s| - 1]);
    }
  }

  lemma TrimShorter(s: string)
    ensures |Trim(s)| <= |s|
  {
    TrimLeadingShorter(s);
    TrimTrailingShorter(TrimLeading(s));
  }

  lemma {:induction false} TrimLeadingShorter(s: string)
    ensures |TrimLeading(s)| <= |s|
  {
    if s != [] && s[0] <= ' ' {
      TrimLeadingShorter(s[1..]);
    }
  }

  lemma {:induction false} TrimTrailingShorter(s: string)
    ensures |TrimTrailing(s)| <= |s|
  {
    if s != [] && s[|s| - 1] <= ' ' {
      TrimTrailingShorter(s[..|s| - 1]);
    }
  }

  function LowerChar(c: char): char
  {
    if 'A' <= c <= 'Z' then (c as int + 32) as char else c
  }

  /** Kotlin `lowercase()`, restricted to ASCII letters. */
  function Lowercase(s: string): string
  {
    seq(|s|, i requires 0 <= i < |s| => LowerChar(s[i]))
  }

  /** Replaces every occurrence of one character by another (Kotlin `replace(Char, Char)`). */
  function ReplaceChar(s: string, from: char, to: char): (r: string)
    ensures |r| == |s|
    ensures forall i :: 0 <= i < |s| ==> r[i] == if s[i] == from then to else s[i]
  {
    if s == [] then [] else [if s[0] == from then to else s[0]] + ReplaceChar(s[1..], from, to)
  }

  // ---------------------------------------------------------------------------
  // Decimal numbers

  predicate IsDigit(c: char)
  {
    '0' <= c <= '9'
  }

  predicate AllDigits(s: string)
  {
    forall i :: 0 <= i < |s| ==> IsDigit(s[i])
  }

  function DigitChar(d: int): char
    requires 0 <= d < 10
  {
    (48 + d) as char
  }

  function Pow10(n: nat): (r: nat)
    ensures r >= 1
  {
    if n == 0 then 1 else 10 * Pow10(n - 1)
  }

  /** `"%d"` of a non-negative number: its decimal digits without leading zeros. */
  function Decimal(n: nat): string
  {
    if n < 10 then [DigitChar(n)] else Decimal(n / 10) + [DigitChar(n % 10)]
  }

  /** `"%0wd"` of a non-negative number: its decimal digits, left-padded with '0' to at least w characters. */
  function ZeroPadded(n: nat, w: nat): string
  {
    var d := Decimal(n);
    if |d| >= w then d else seq(w - |d|, _ => '0') + d
  }

  /** The value of a string of decimal digits (leading zeros allowed). */
  function DigitsValue(s: string): nat
    requires AllDigits(s)
  {
    if s == [] then 0 else DigitsValue(s[..|s| - 1]) * 10 + (s[|s| - 1] as int - 48)
  }

  /** Kotlin `toInt()` on a non-empty run of ASCII digits: fails when the value exceeds Int.MAX_VALUE. */
  function ParseDigits(s: string): (r: Result<int>)
    requires AllDigits(s)
    ensures r.Ok? <==> DigitsValue(s) <= INT_MAX
    ensures r.Ok? ==> r.value == DigitsValue(s)
  {
    var v := DigitsValue(s);
    if v > INT_MAX then Fail(NumberFormat) else Ok(v)
  }

  lemma {:induction false} DecimalDigits(n: nat)
    ensures |Decimal(n)| >= 1 && AllDigits(Decimal(n))
    ensures DigitsValue(Decimal(n)) == n
  {
    if n >= 10 {
      DecimalDigits(n / 10);
      var d := Decimal(n);
      assert d[..|d| - 1] == Decimal(n / 10);
    }
  }

  /** Leading zeros do not change the value of a digit string. */
  lemma {:induction false} DigitsValueLeadingZeros(k: nat, s: string)
    requires AllDigits(s)
    ensures AllDigits(seq(k, _ => '0') + s)
    ensures DigitsValue(seq(k, _ => '0') + s) == DigitsValue(s)
  {
    var z: string := seq(k, _ => '0');
    if s == [] {
      assert z + s == z;
      ZerosValue(k);
    } else {
      var t := z + s;
      assert t[..|t| - 1] == z + s[..|s| - 1];
      DigitsValueLeadingZeros(k, s[..|s| - 1]);
    }
  }

  lemma {:induction false} ZerosValue(k: nat)
    ensures AllDigits(seq(k, _ => '0'))
    ensures DigitsValue(seq(k, _ => '0')) == 0
  {
    if k > 0 {
      var z: string := seq(k, _ => '0');
      assert z[..k - 1] == seq(k - 1, _ => '0');
      ZerosValue(k - 1);
    }
  }

  /** `"%0wd"` is read back by `toInt()` as the number itself. */
  lemma ZeroPaddedValue(n: nat, w: nat)
    ensures |ZeroPadded(n, w)| >= 1 && AllDigits(ZeroPadded(n, w))
    ensures DigitsValue(ZeroPadded(n, w)) == n
  {
    DecimalDigits(n);
    var d := Decimal(n);
    if |d| < w {
      DigitsValueLeadingZeros(w - |d|, d);
    }
  }

  /** A number below 10^w has at most w decimal digits. */
  lemma {:induction false} DecimalLength(n: nat, w: nat)
    requires w >= 1 && n < Pow10(w)
    ensures |Decimal(n)| <= w
  {
    if n >= 10 {
      assert w >= 2;
      DecimalLength(n / 10, w - 1);
    }
  }

  /** So `"%0wd"` of a number below 10^w is exactly w characters long. */
  lemma ZeroPaddedLength(n: nat, w: nat)
    requires w >= 1 && n < Pow10(w)
    ensures |ZeroPadded(n, w)| == w
  {
    DecimalLength(n, w);
  }

  /** Lower-casing keeps the blanks where they are, so it commutes with trimming. */
  lemma TrimLowercase(s: string)
    ensures Lowercase(Trim(s)) == Trim(Lowercase(s))
  {
    TrimLeadingLowercase(s);
    TrimTrailingLowercase(TrimLeading(s));
  }

  lemma {:induction false} TrimLeadingLowercase(s: string)
    ensures Lowercase(TrimLeading(s)) == TrimLeading(Lowercase(s))
  {
    if s != [] {
      assert Lowercase(s)[1..] == Lowercase(s[1..]);
      if s[0] <= ' ' {
        TrimLeadingLowercase(s[1..]);
      }
    }
  }

  lemma {:induction false} TrimTrailingLowercase(s: string)
    ensures Lowercase(TrimTrailing(s)) == TrimTrailing(Lowercase(s))
  {
    if s != [] {
      var n := |s| - 1;
      assert Lowercase(s)[..n] == Lowercase(s[..n]);
      if s[n] <= ' ' {
        TrimTrailingLowercase(s[..n]);
      }
    }
  }

  /** Digits are not letters: lower-casing leaves a digit string alone. */
  lemma LowercaseDigits(s: string)
    requires AllDigits(s)
    ensures Lowercase(s) == s
  {
  }

  /** A string without upper-case ASCII letters is its own lower-case form. */
  lemma LowercaseOfLower(s: string)
    requires forall i :: 0 <= i < |s| ==> !('A' <= s[i] <= 'Z')
    ensures Lowercase(s) == s
  {
  }

  /** Five-digit zero padding of a number below 100000: five digits that read back as the number. */
  lemma ZeroPaddedFive(n: nat)
    requires n < 100000
    ensures |ZeroPadded(n, 5)| == 5 && AllDigits(ZeroPadded(n, 5)) && DigitsValue(ZeroPadded(n, 5)) == n
  {
    assert Pow10(5) == 100000;
    ZeroPaddedLength(n, 5);
    ZeroPaddedValue(n, 5);
  }

  /** Four-digit zero padding of a number below 10000. */
  lemma ZeroPaddedFour(n: nat)
    requires n < 10000
    ensures |ZeroPadded(n, 4)| == 4 && AllDigits(ZeroPadded(n, 4)) && DigitsValue(ZeroPadded(n, 4)) == n
  {
    assert Pow10(4) == 10000;
    ZeroPaddedLength(n, 4);
    ZeroPaddedValue(n, 4);
  }

  // ---------------------------------------------------------------------------
  // String order

  /** String.compareTo(...) < 0: the first differing character is smaller, or a is a proper prefix of b. */
  predicate StringLess(a: string, b: string)
  {
    if a == [] then b != []
    else if b == [] then false
    else a[0] < b[0] || (a[0] == b[0] && StringLess(a[1..], b[1..]))
  }

  /** The order is strict and total: of two different strings exactly one comes first. */
  lemma {:induction false} StringLessTotal(a: string, b: string)
    ensures !(StringLess(a, b) && StringLess(b, a))
    ensures a != b ==> StringLess(a, b) || StringLess(b, a)
    ensures !StringLess(a, a)
  {
    if a != [] {
      StringLessTotal(a[1..], a[1..]);
    }
    if a != [] && b != [] {
      StringLessTotal(a[1..], b[1..]);
      if a[0] == b[0] && a != b {
        assert a == [a[0]] + a[1..] && b == [b[0]] + b[1..];
      }
    }
  }

  lemma {:induction false} StringLessTransitive(a: string, b: string, c: string)
    requires StringLess(a, b) && StringLess(b, c)
    ensures StringLess(a, c)
  {
    if a == [] {
      assert c != [];
    } else {
      assert b != [] && c != [];
      if a[0] == b[0] && b[0] == c[0] {
        StringLessTransitive(a[1..], b[1..], c[1..]);
      }
    }
  }

  /** g is in the set and no string of the set comes before it. */
  predicate IsFirstString(g: string, keys: set<string>)
  {
    g in keys && forall h :: h in keys ==> !StringLess(h, g)
  }

  /** A finite set of strings has a first one. */
  lemma FirstStringExists(keys: set<string>)
    requires keys != {}
    ensures exists g :: g in keys && forall h :: h in keys ==> !StringLess(h, g)
  {
    var g := FirstString(keys);
    assert IsFirstString(g, keys);
  }

  /** The first string of a finite set, found by taking one out and comparing it with the first of the rest. */
  lemma {:induction false} FirstString(keys: set<string>) returns (g: string)
    requires keys != {}
    ensures IsFirstString(g, keys)
  {
    var x :| x in keys;
    var rest := keys - {x};
    if rest == {} {
      assert keys == {x};
      StringLessTotal(x, x);
      g := x;
    } else {
      var m := FirstString(rest);
      StringLessTotal(x, m);
      if StringLess(x, m) {
        BeforeFirst(x, m, rest);
        assert keys == rest + {x};
        g := x;
      } else {
        assert keys == rest + {x};
        g := m;
      }
    }
  }

  /** A string before the first of a set is first in the set with it added. */
  lemma BeforeFirst(x: string, m: string, rest: set<string>)
    requires IsFirstString(m, rest) && StringLess(x, m)
    ensures IsFirstString(x, rest + {x})
  {
    forall h | h in rest + {x}
      ensures !StringLess(h, x)
    {
      StringLessTotal(h, x);
      if h != x && StringLess(h, x) {
        StringLessTransitive(h, x, m);
      }
    }
  }
}
