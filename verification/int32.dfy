/**
 * int.Parse(string) with the default NumberStyles.Integer, as the string constructors of
 * Sieve and SieveDefinition use it: optional white space around an optionally signed run of
 * decimal digits whose value fits in 32 bits; anything else throws.
 */
module Int32Parsing {
  import opened Errors

  const MinInt32: int := -0x8000_0000
  const MaxInt32: int := 0x7FFF_FFFF

  /** The white space int.Parse skips around the number: U+0009 to U+000D and the space. */
  predicate IsNumberWhite(c: char) {
    c == ' ' || ('\t' <= c <= '\r')
  }

  predicate IsDigit(c: char) {
    '0' <= c <= '9'
  }

  predicate AllDigits(s: string) {
    forall i | 0 <= i < |s| :: IsDigit(s[i])
  }

  function DigitValue(c: char): (d: nat)
    requires IsDigit(c)
    ensures d < 10
  {
    c as int - '0' as int
  }

  function DigitChar(d: nat): (c: char)
    requires d < 10
    ensures IsDigit(c) && DigitValue(c) == d
  {
    ('0' as int + d) as char
  }

  /** The value of a run of decimal digits, most significant first. */
  function DigitsValue(s: string): nat
    requires AllDigits(s)
  {
    if s == [] then 0 else 10 * DigitsValue(s[..|s| - 1]) + DigitValue(s[|s| - 1])
  }

  function StripLeadingNumberWhite(s: string): (r: string)
    ensures |r| <= |s| && r == s[|s| - |r|..]
    ensures r == [] || !IsNumberWhite(r[0])
  {
    if s != [] && IsNumberWhite(s[0]) then StripLeadingNumberWhite(s[1..]) else s
  }

  function StripTrailingNumberWhite(s: string): (r: string)
    ensures |r| <= |s| && r == s[..|r|]
    ensures r == [] || !IsNumberWhite(r[|r| - 1])
  {
    if s != [] && IsNumberWhite(s[|s| - 1]) then StripTrailingNumberWhite(s[..|s| - 1]) else s
  }

  /**
   * int.Parse: Some(value) for text that is white space, an optional '-' or '+', one or more
   * decimal digits and white space, with a value in the 32-bit range; None where int.Parse
   * throws FormatException or OverflowException.
   */
  function ParseInt32(s: string): (r: Option<int>)
    ensures r.Some? ==> MinInt32 <= r.value <= MaxInt32
  {
    ParseSignedDigits(StripTrailingNumberWhite(StripLeadingNumberWhite(s)))
  }

  /** The part of int.Parse after the white space is skipped: a sign, then the digits. */
  function ParseSignedDigits(t: string): (r: Option<int>)
    ensures r.Some? ==> MinInt32 <= r.value <= MaxInt32
  {
    var negative := t != [] && t[0] == '-';
    var digits := if t != [] && (t[0] == '-' || t[0] == '+') then t[1..] else t;
    if digits == [] || !AllDigits(digits) then None
    else
      var magnitude: int := DigitsValue(digits);
      var value: int := if negative then -magnitude else magnitude;
      if MinInt32 <= value <= MaxInt32 then Some(value) else None
  }

  /** The decimal digits of `n`, without leading zeros. */
  function DigitsOf(n: nat): (s: string)
    ensures s != [] && AllDigits(s) && DigitsValue(s) == n
    ensures s[0] != '0' || n == 0
  {
    if n < 10 then [DigitChar(n)]
    else
      var init := DigitsOf(n / 10);
      var s := init + [DigitChar(n % 10)];
      assert s[..|s| - 1] == init;
      s
  }

  /** Int32.ToString(): a '-' before the digits of a negative value. */
  function FormatInt32(n: int): string {
    if n < 0 then "-" + DigitsOf(-n) else DigitsOf(n)
  }

  /** For text that neither starts nor ends with white space, int.Parse is the sign-and-digits step alone. */
  lemma ParseWithoutSurroundingWhite(s: string)
    requires s != [] && !IsNumberWhite(s[0]) && !IsNumberWhite(s[|s| - 1])
    ensures ParseInt32(s) == ParseSignedDigits(s)
  {
    assert StripLeadingNumberWhite(s) == s;
  }

  lemma DigitsAtEnds(d: string)
    requires d != [] && AllDigits(d)
    ensures !IsNumberWhite(d[0]) && !IsNumberWhite(d[|d| - 1]) && d[0] != '-' && d[0] != '+'
  {
    assert IsDigit(d[0]) && IsDigit(d[|d| - 1]);
  }

  /** A bare run of digits parses to its value when that fits in 32 bits. */
  lemma ParseOfDigits(d: string)
    requires d != [] && AllDigits(d) && DigitsValue(d) <= MaxInt32
    ensures ParseInt32(d) == Some(DigitsValue(d))
  {
    DigitsAtEnds(d);
    ParseWithoutSurroundingWhite(d);
  }

  /** A '-' before a run of digits parses to the negated value when that fits in 32 bits. */
  lemma ParseOfNegatedDigits(d: string)
    requires d != [] && AllDigits(d) && MinInt32 <= -(DigitsValue(d) as int)
    ensures ParseInt32("-" + d) == Some(-(DigitsValue(d) as int))
  {
    var s := "-" + d;
    DigitsAtEnds(d);
    assert s[|s| - 1] == d[|d| - 1];
    ParseWithoutSurroundingWhite(s);
    assert s[1..] == d;
  }

  /** int.Parse reads back every 32-bit value that Int32.ToString writes. */
  lemma ParseFormatRoundTrip(n: int)
    requires MinInt32 <= n <= MaxInt32
    ensures ParseInt32(FormatInt32(n)) == Some(n)
  {
    if n < 0 {
      ParseOfNegatedDigits(DigitsOf(-n));
    } else {
      ParseOfDigits(DigitsOf(n));
    }
  }

  /** Stripping only removes characters, so text without digits keeps none. */
  lemma {:induction false} StripLeadingKeepsNoDigits(s: string)
    requires forall i | 0 <= i < |s| :: !IsDigit(s[i])
    ensures var u := StripLeadingNumberWhite(s); forall i | 0 <= i < |u| :: !IsDigit(u[i])
  {
    if s != [] && IsNumberWhite(s[0]) {
      assert forall i | 0 <= i < |s[1..]| :: s[1..][i] == s[i + 1];
      StripLeadingKeepsNoDigits(s[1..]);
    }
  }

  lemma {:induction false} StripTrailingKeepsNoDigits(s: string)
    requires forall i | 0 <= i < |s| :: !IsDigit(s[i])
    ensures var u := StripTrailingNumberWhite(s); forall i | 0 <= i < |u| :: !IsDigit(u[i])
  {
    if s != [] && IsNumberWhite(s[|s| - 1]) {
      assert forall i | 0 <= i < |s| - 1 :: s[..|s| - 1][i] == s[i];
      StripTrailingKeepsNoDigits(s[..|s| - 1]);
    }
  }

  /** Text without any digit never parses. */
  lemma NoDigitsNoValue(s: string)
    requires forall i | 0 <= i < |s| :: !IsDigit(s[i])
    ensures ParseInt32(s).None?
  {
    StripLeadingKeepsNoDigits(s);
    StripTrailingKeepsNoDigits(StripLeadingNumberWhite(s));
    var t := StripTrailingNumberWhite(StripLeadingNumberWhite(s));
    if t != [] && (t[0] == '-' || t[0] == '+') && |t| > 1 {
      assert !IsDigit(t[1..][0]);
    } else if t != [] {
      assert !IsDigit(t[0]);
    }
  }
}
