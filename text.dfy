/**
 * The .NET string and number primitives the controllers rely on:
 * `char.IsWhiteSpace`, `string.Trim`, `string.IsNullOrWhiteSpace`,
 * `long.TryParse` / `int.Parse` with the default `NumberStyles.Integer`,
 * and `long.ToString()` (invariant-culture signs).
 */
module Text {
  import opened Wrappers

  /** `char.IsWhiteSpace`: the characters of Unicode's White_Space property. */
  predicate IsWhiteSpace(c: char) {
    ('\U{0009}' <= c <= '\U{000D}') || c == ' ' || c == '\U{0085}' || c == '\U{00A0}'
    || c == '\U{1680}' || ('\U{2000}' <= c <= '\U{200A}') || c == '\U{2028}' || c == '\U{2029}'
    || c == '\U{202F}' || c == '\U{205F}' || c == '\U{3000}'
  }

  /** Every character of `s` is white space (true of the empty string). */
  predicate AllWhiteSpace(s: string) {
    forall i :: 0 <= i < |s| ==> IsWhiteSpace(s[i])
  }

  /** `string.IsNullOrWhiteSpace`. */
  predicate IsNullOrWhiteSpace(s: Option<string>) {
    s.None? || AllWhiteSpace(s.value)
  }

  /** `char.ToUpperInvariant` on the ASCII letters: `a`–`z` become `A`–`Z`. */
  function UpperAscii(c: char): char {
    if 'a' <= c <= 'z' then (c as int - 32) as char else c
  }

  /**
   * `string.Equals(a, b, StringComparison.OrdinalIgnoreCase)`: equal lengths
   * and equal characters after upper-casing, here of the ASCII letters.
   */
  predicate EqualsOrdinalIgnoreCase(a: string, b: string) {
    |a| == |b| && forall i :: 0 <= i < |a| ==> UpperAscii(a[i]) == UpperAscii(b[i])
  }

  /** Drops the leading characters of `s` that satisfy `white`. */
  function TrimStartWhere(s: string, white: char -> bool): (r: string)
    ensures |r| <= |s| && r == s[|s| - |r|..]
    ensures r == [] || !white(r[0])
    ensures forall i :: 0 <= i < |s| - |r| ==> white(s[i])
  {
    if s != [] && white(s[0]) then TrimStartWhere(s[1..], white) else s
  }

  /** Drops the trailing characters of `s` that satisfy `white`. */
  function TrimEndWhere(s: string, white: char -> bool): (r: string)
    ensures |r| <= |s| && r == s[..|r|]
    ensures r == [] || !white(r[|r| - 1])
    ensures forall i :: |r| <= i < |s| ==> white(s[i])
  {
    if s != [] && white(s[|s| - 1]) then TrimEndWhere(s[..|s| - 1], white) else s
  }

  /** How many leading characters of `s` satisfy `white`. */
  function LeadingCount(s: string, white: char -> bool): (k: nat)
    ensures k <= |s|
  {
    |s| - |TrimStartWhere(s, white)|
  }

  /**
   * Drops leading and trailing characters satisfying `white`: the result is
   * the infix of `s` that starts after the leading white run and stops
   * before the trailing one, and it neither starts nor ends with such a
   * character.
   */
  function TrimWhere(s: string, white: char -> bool): (r: string)
    ensures r == [] || (!white(r[0]) && !white(r[|r| - 1]))
    ensures LeadingCount(s, white) + |r| <= |s|
    ensures r == s[LeadingCount(s, white)..LeadingCount(s, white) + |r|]
    ensures forall i :: 0 <= i < LeadingCount(s, white) ==> white(s[i])
    ensures forall i :: LeadingCount(s, white) + |r| <= i < |s| ==> white(s[i])
  {
    var t := TrimStartWhere(s, white);
    var r := TrimEndWhere(t, white);
    var k := |s| - |t|;
    assert t == s[k..];
    r
  }

  /** `string.Trim()`: `TrimWhere` with `char.IsWhiteSpace`. */
  function Trim(s: string): string {
    TrimWhere(s, IsWhiteSpace)
  }

  /** Trimming leaves nothing exactly when the string is all white space. */
  lemma TrimEmptyIffAllWhiteSpace(s: string)
    ensures Trim(s) == [] <==> AllWhiteSpace(s)
  {
    var r := Trim(s);
    var k := LeadingCount(s, IsWhiteSpace);
    if r == [] {
      forall i | 0 <= i < |s| ensures IsWhiteSpace(s[i]) {
        if i >= k { assert k + |r| <= i; }
      }
    } else {
      assert s[k] == r[0];
    }
  }

  /** A string that neither starts nor ends with a `white` character is its own trim. */
  lemma TrimWhereNoop(s: string, white: char -> bool)
    requires s == [] || (!white(s[0]) && !white(s[|s| - 1]))
    ensures TrimWhere(s, white) == s
  {
  }

  /** `IsNullOrWhiteSpace` of a trimmed non-null string holds exactly when the trim is empty. */
  lemma TrimmedBlankIffEmpty(s: string)
    ensures IsNullOrWhiteSpace(Some(Trim(s))) <==> Trim(s) == []
  {
    var r := Trim(s);
    if r != [] {
      assert !IsWhiteSpace(r[0]);
    }
  }

  // ---- 64- and 32-bit integers ----

  const LongMin: int := -0x8000_0000_0000_0000
  const LongMax: int := 0x7FFF_FFFF_FFFF_FFFF
  const IntMin: int := -0x8000_0000
  const IntMax: int := 0x7FFF_FFFF

  predicate IsLong(n: int) { LongMin <= n <= LongMax }
  predicate IsInt(n: int) { IntMin <= n <= IntMax }

  /** The white space `NumberStyles.AllowLeadingWhite`/`AllowTrailingWhite` accept. */
  predicate IsNumberWhite(c: char) {
    ('\U{0009}' <= c <= '\U{000D}') || c == ' '
  }

  predicate IsDigit(c: char) { '0' <= c <= '9' }

  predicate AllDigits(s: string) {
    forall i :: 0 <= i < |s| ==> IsDigit(s[i])
  }

  /** The value of a string of decimal digits, most significant first. */
  function DigitsValue(ds: string): nat
    requires AllDigits(ds)
  {
    if ds == [] then 0
    else 10 * DigitsValue(ds[..|ds| - 1]) + (ds[|ds| - 1] as int - '0' as int)
  }

  /** The shortest decimal spelling of `n`. */
  function DecimalDigits(n: nat): (ds: string)
    ensures |ds| >= 1 && AllDigits(ds)
    ensures ds[0] != '0' || n == 0
  {
    if n < 10 then [('0' as int + n) as char]
    else DecimalDigits(n / 10) + [('0' as int + n % 10) as char]
  }

  /** `long.ToString()` / `int.ToString()`: a minus sign for negatives, then the digits. */
  function FormatInteger(n: int): string {
    if n < 0 then "-" + DecimalDigits(-n) else DecimalDigits(n)
  }

  /**
   * `TryParse` with `NumberStyles.Integer` into the range [lo, hi]: optional
   * white space, an optional `+` or `-`, one or more decimal digits, optional
   * white space. Anything else, null, or a value out of range gives `None`.
   */
  function TryParseInteger(s: Option<string>, lo: int, hi: int): (r: Option<int>)
    ensures r.Some? ==> lo <= r.value <= hi
  {
    if s.None? then None
    else
      var core := TrimWhere(s.value, IsNumberWhite);
      var negative := |core| > 0 && core[0] == '-';
      var digits := if |core| > 0 && (core[0] == '-' || core[0] == '+') then core[1..] else core;
      if digits == [] || !AllDigits(digits) then None
      else
        var magnitude: int := DigitsValue(digits);
        var v := if negative then -magnitude else magnitude;
        if lo <= v <= hi then Some(v) else None
  }

  /** `long.TryParse(s, out id)`. */
  function TryParseLong(s: Option<string>): (r: Option<int>)
    ensures r.Some? ==> IsLong(r.value)
  {
    TryParseInteger(s, LongMin, LongMax)
  }

  /** `int.Parse(s)`, with `None` where it throws. */
  function ParseInt(s: string): (r: Option<int>)
    ensures r.Some? ==> IsInt(r.value)
  {
    TryParseInteger(Some(s), IntMin, IntMax)
  }

  /** Reading back the digits written for `n` gives `n`. */
  lemma {:induction false} DigitsRoundTrip(n: nat)
    ensures DigitsValue(DecimalDigits(n)) == n
  {
    if n >= 10 {
      var ds := DecimalDigits(n);
      assert ds[..|ds| - 1] == DecimalDigits(n / 10);
      DigitsRoundTrip(n / 10);
    }
  }

  /**
   * `FormatInteger` writes a minus sign exactly for negatives, then the
   * shortest decimal digits of the magnitude.
   */
  lemma FormatIntegerSpelling(n: int)
    ensures var s := FormatInteger(n);
      && |s| >= 1 && (s[0] == '-' <==> n < 0)
      && var ds := if n < 0 then s[1..] else s;
      && |ds| >= 1 && AllDigits(ds) && (ds[0] != '0' || n == 0)
      && DigitsValue(ds) == if n < 0 then -n else n
  {
    DigitsRoundTrip(if n < 0 then -n else n);
    if n < 0 {
      assert FormatInteger(n)[1..] == DecimalDigits(-n);
    }
  }

  /** Parsing what `FormatInteger` writes gives the number back, whenever it is in range. */
  lemma FormatParseRoundTrip(n: int, lo: int, hi: int)
    requires lo <= n <= hi
    ensures TryParseInteger(Some(FormatInteger(n)), lo, hi) == Some(n)
  {
    var s := FormatInteger(n);
    var ds := DecimalDigits(if n < 0 then -n else n);
    assert !IsNumberWhite(ds[|ds| - 1]);
    assert s[|s| - 1] == ds[|ds| - 1];
    TrimWhereNoop(s, IsNumberWhite);
    DigitsRoundTrip(if n < 0 then -n else n);
    if n < 0 {
      assert s[1..] == ds;
    } else {
      assert s[0] == ds[0];
    }
  }

  /** A string without a single decimal digit never parses as an integer. */
  lemma NoDigitNoNumber(s: string, lo: int, hi: int)
    requires forall i :: 0 <= i < |s| ==> !IsDigit(s[i])
    ensures TryParseInteger(Some(s), lo, hi) == None
  {
    var core := TrimWhere(s, IsNumberWhite);
    var k := LeadingCount(s, IsNumberWhite);
    var j := if |core| > 0 && (core[0] == '-' || core[0] == '+') then 1 else 0;
    var digits := core[j..];
    if digits != [] {
      assert digits[0] == s[k + j];
    }
  }
}
