/** The string operations the crawler and the store rely on: PHP's `trim`, substring
    search (the `:contains` selector, and the matches of a literal pattern), and the decimal
    rendering of an integer in PHP string interpolation. */
module Strings {

  /** The characters PHP's `trim` strips by default: space, tab, newline, carriage return,
      NUL and vertical tab. */
  predicate IsBlank(c: char) {
    c == ' ' || c == '\t' || c == '\n' || c == '\r' || c == '\0' || c == '\U{B}'
  }

  /** Every character of `s` is one `trim` removes. */
  predicate AllBlank(s: string) {
    forall i :: 0 <= i < |s| ==> IsBlank(s[i])
  }

  /** `ltrim`: drops the leading blank characters. */
  function TrimStart(s: string): string {
    if |s| > 0 && IsBlank(s[0]) then TrimStart(s[1..]) else s
  }

  /** `ltrim` returns a suffix of its input; what it drops is blank, and what it keeps does
      not start with a blank. */
  lemma {:induction false} TrimStartSpec(s: string)
    ensures |TrimStart(s)| <= |s| && TrimStart(s) == s[|s| - |TrimStart(s)|..]
    ensures AllBlank(s[..|s| - |TrimStart(s)|])
    ensures |TrimStart(s)| > 0 ==> !IsBlank(TrimStart(s)[0])
  {
    if |s| > 0 && IsBlank(s[0]) {
      var t := s[1..];
      TrimStartSpec(t);
      var r := TrimStart(t);
      var k := |t| - |r|;
      DropDrop(s, 1, k);
      var dropped, rest := s[..k + 1], t[..k];
      forall i | 0 <= i < |dropped| ensures IsBlank(dropped[i]) {
        if i > 0 {
          assert dropped[i] == s[i] == t[i - 1] == rest[i - 1];
        }
      }
    }
  }

  lemma DropDrop(s: string, a: nat, b: nat)
    requires a + b <= |s|
    ensures s[a..][b..] == s[a + b..]
  {
  }

  /** `rtrim`: drops the trailing blank characters. */
  function TrimEnd(s: string): string {
    if |s| > 0 && IsBlank(s[|s| - 1]) then TrimEnd(s[..|s| - 1]) else s
  }

  /** `rtrim` returns a prefix of its input; what it drops is blank, and what it keeps does
      not end with a blank. */
  lemma {:induction false} TrimEndSpec(s: string)
    ensures |TrimEnd(s)| <= |s| && TrimEnd(s) == s[..|TrimEnd(s)|]
    ensures AllBlank(s[|TrimEnd(s)|..])
    ensures |TrimEnd(s)| > 0 ==> !IsBlank(TrimEnd(s)[|TrimEnd(s)| - 1])
  {
    if |s| > 0 && IsBlank(s[|s| - 1]) {
      var t := s[..|s| - 1];
      TrimEndSpec(t);
      var r := TrimEnd(t);
      assert TrimEnd(s) == r;
      assert t[..|r|] == s[..|r|];
      var dropped, rest := s[|r|..], t[|r|..];
      forall i | 0 <= i < |dropped| ensures IsBlank(dropped[i]) {
        if i < |rest| {
          assert dropped[i] == rest[i];
        }
      }
    }
  }

  /** A prefix `r` of the suffix `t == s[k..]` is the slice `s[k..k + |r|]`, and what follows
      it in `t` is what follows it in `s`. */
  lemma PrefixOfSuffix(s: string, t: string, r: string, k: nat)
    requires k <= |s| && t == s[k..] && |r| <= |t| && r == t[..|r|]
    ensures k + |r| <= |s| && r == s[k..k + |r|] && s[k + |r|..] == t[|r|..]
  {
    forall i | 0 <= i < |r| ensures r[i] == s[k..k + |r|][i] {
      assert r[i] == t[i] == s[k + i];
    }
    forall i | 0 <= i < |s| - k - |r| ensures s[k + |r|..][i] == t[|r|..][i] {
      assert t[|r| + i] == s[k + |r| + i];
    }
  }

  /** The number of blank characters `ltrim` removes from the front of `s`. */
  function LeadingBlanks(s: string): nat {
    TrimStartSpec(s);
    |s| - |TrimStart(s)|
  }

  /** `trim`: drops blank characters at both ends. */
  function Trim(s: string): string {
    TrimEnd(TrimStart(s))
  }

  /** `trim` returns the slice of `s` after its leading blanks, followed in `s` by blanks
      only, and neither end of the result is blank. */
  lemma TrimSpec(s: string)
    ensures LeadingBlanks(s) + |Trim(s)| <= |s|
    ensures Trim(s) == s[LeadingBlanks(s)..LeadingBlanks(s) + |Trim(s)|]
    ensures AllBlank(s[..LeadingBlanks(s)]) && AllBlank(s[LeadingBlanks(s) + |Trim(s)|..])
    ensures |Trim(s)| > 0 ==> !IsBlank(Trim(s)[0]) && !IsBlank(Trim(s)[|Trim(s)| - 1])
  {
    var t := TrimStart(s);
    TrimStartSpec(s);
    TrimEndSpec(t);
    var r := TrimEnd(t);
    var k := |s| - |t|;
    PrefixOfSuffix(s, t, r, k);
    if |r| > 0 {
      assert r[0] == t[0];
    }
  }

  /** A string of blanks trims to nothing. */
  lemma BlankTrimsToEmpty(s: string)
    requires AllBlank(s)
    ensures Trim(s) == []
  {
    TrimSpec(s);
  }

  /** A string that trims to nothing holds only blanks. */
  lemma EmptyTrimIsBlank(s: string)
    requires Trim(s) == []
    ensures AllBlank(s)
  {
    var t := TrimStart(s);
    TrimStartSpec(s);
    TrimEndSpec(t);
    assert t[0..] == t;
    assert t == [];
    assert s[..|s|] == s;
  }

  /** The trimmed string is empty exactly when the string held nothing but blanks. */
  lemma TrimEmptyIffBlank(s: string)
    ensures Trim(s) == [] <==> AllBlank(s)
  {
    if AllBlank(s) {
      BlankTrimsToEmpty(s);
    }
    if Trim(s) == [] {
      EmptyTrimIsBlank(s);
    }
  }

  /** `sub` occurs in `s` starting at index `i`. */
  predicate OccursAt(s: string, sub: string, i: int) {
    0 <= i && i + |sub| <= |s| && s[i..i + |sub|] == sub
  }

  /** The `:contains("…")` test: `sub` occurs somewhere in `s`. */
  predicate Contains(s: string, sub: string) {
    exists i :: 0 <= i <= |s| && OccursAt(s, sub, i)
  }

  /** A string is never found inside one that lacks its first character. */
  lemma NotContainedWithoutFirstChar(s: string, sub: string)
    requires |sub| > 0 && sub[0] !in s
    ensures !Contains(s, sub)
  {
  }

  function DigitChar(d: nat): (c: char)
    requires d < 10
  {
    "0123456789"[d]
  }

  function DigitValue(c: char): nat {
    if '0' <= c <= '9' then (c as int - '0' as int) as nat else 0
  }

  /** The decimal text PHP interpolates for a non-negative integer (no leading zeros). */
  function Decimal(n: nat): (r: string)
    ensures |r| > 0
  {
    if n < 10 then [DigitChar(n)] else Decimal(n / 10) + [DigitChar(n % 10)]
  }

  predicate IsDigits(s: string) {
    forall i :: 0 <= i < |s| ==> '0' <= s[i] <= '9'
  }

  /** The rendering holds only decimal digits and has no leading zero: it starts with '0'
      only for the number 0. */
  lemma {:induction false} DecimalDigits(n: nat)
    ensures IsDigits(Decimal(n))
    ensures Decimal(n)[0] == '0' ==> n == 0
  {
    if n >= 10 {
      DecimalDigits(n / 10);
      assert Decimal(n)[0] == Decimal(n / 10)[0];
    }
  }

  /** Reads a string of decimal digits back as a number. */
  function ParseDecimal(s: string): nat {
    if s == [] then 0 else 10 * ParseDecimal(s[..|s| - 1]) + DigitValue(s[|s| - 1])
  }

  lemma DigitRoundTrip(d: nat)
    requires d < 10
    ensures DigitValue(DigitChar(d)) == d
  {
  }

  /** Reading the decimal text of `n` gives back `n`: the rendering loses nothing. */
  lemma {:induction false} DecimalRoundTrip(n: nat)
    ensures ParseDecimal(Decimal(n)) == n
  {
    DigitRoundTrip(n % 10);
    if n >= 10 {
      var s := Decimal(n);
      assert s[..|s| - 1] == Decimal(n / 10);
      DecimalRoundTrip(n / 10);
    } else {
      assert Decimal(n)[..0] == [];
    }
  }

  /** Different numbers are rendered as different strings. */
  lemma DecimalInjective(m: nat, n: nat)
    requires Decimal(m) == Decimal(n)
    ensures m == n
  {
    DecimalRoundTrip(m);
    DecimalRoundTrip(n);
  }
}
