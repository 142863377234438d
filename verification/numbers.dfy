/**
 * Decimal integers as text (kabomu/misc_utils_internal.py, pinned by
 * tests/test_misc_utils_internal.py): Python's `str` on integers, and
 * parse_int_48 / parse_int_32, which accept optional surrounding whitespace and a
 * leading '-' and check the result against a signed 48- or 32-bit range.
 */
module Numbers {
  import opened Wrappers
  import opened Errors

  const INT48_MIN: int := -0x8000_0000_0000
  const INT48_MAX: int := 0x7FFF_FFFF_FFFF

  predicate IsDigit(c: char) {
    '0' <= c <= '9'
  }

  predicate IsSpace(c: char) {
    c == ' ' || c == '\t' || c == '\n' || c == '\r' || c == '\U{000B}' || c == '\U{000C}'
  }

  predicate AllDigits(s: string) {
    forall i :: 0 <= i < |s| ==> IsDigit(s[i])
  }

  function DigitChar(d: int): (c: char)
    requires 0 <= d < 10
    ensures IsDigit(c) && c as int - '0' as int == d
  {
    (d + '0' as int) as char
  }

  /** The decimal digits of a natural number, without leading zeros. */
  function NatToString(n: nat): (s: string)
    decreases n
  {
    if n < 10 then [DigitChar(n)] else NatToString(n / 10) + [DigitChar(n % 10)]
  }

  /** Python's str() on an int. */
  function IntToString(v: int): string {
    if v < 0 then "-" + NatToString(-v) else NatToString(v)
  }

  /** The value of a string of decimal digits, read most significant first. */
  function DigitsValue(s: string): nat
    requires AllDigits(s)
    decreases |s|
  {
    if |s| == 0 then 0 else DigitsValue(s[..|s| - 1]) * 10 + (s[|s| - 1] as int - '0' as int)
  }

  /** The number of whitespace characters at the start of s. */
  function LeadingSpaces(s: string): (k: nat)
    ensures k <= |s|
    ensures forall j :: 0 <= j < k ==> IsSpace(s[j])
    ensures k == |s| || !IsSpace(s[k])
    decreases |s|
  {
    if |s| > 0 && IsSpace(s[0]) then 1 + LeadingSpaces(s[1..]) else 0
  }

  /** The length of s once its trailing whitespace is removed. */
  function TrailingStart(s: string): (k: nat)
    ensures k <= |s|
    ensures forall j :: k <= j < |s| ==> IsSpace(s[j])
    ensures k == 0 || !IsSpace(s[k - 1])
    decreases |s|
  {
    if |s| > 0 && IsSpace(s[|s| - 1]) then TrailingStart(s[..|s| - 1]) else |s|
  }

  /** Python's str.strip(): s without surrounding whitespace. */
  function Strip(s: string): (t: string)
    ensures LeadingSpaces(s) + |t| <= |s|
    ensures forall j :: 0 <= j < |t| ==> t[j] == s[LeadingSpaces(s) + j]
  {
    var rest := s[LeadingSpaces(s)..];
    rest[..TrailingStart(rest)]
  }

  /** Python's int() on text: surrounding whitespace, an optional '-', then one or more digits. */
  function ParseInteger(s: string): Option<int> {
    var t := Strip(s);
    if |t| > 0 && t[0] == '-' then
      if 1 < |t| && AllDigits(t[1..]) then Some(-(DigitsValue(t[1..]) as int)) else None
    else
      if 0 < |t| && AllDigits(t) then Some(DigitsValue(t)) else None
  }

  /** parse_int_48: a decimal integer in [-2^47, 2^47 - 1]. */
  function ParseInt48(s: string): (r: ErrorOr<int>)
    ensures r.Ok? ==> INT48_MIN <= r.value <= INT48_MAX
    ensures r.Ok? <==> ParseInteger(s).Some? && INT48_MIN <= ParseInteger(s).value <= INT48_MAX
  {
    match ParseInteger(s)
    case None => Err(ValueError("invalid integer: " + s))
    case Some(v) =>
      if INT48_MIN <= v <= INT48_MAX then Ok(v) else Err(ValueError("integer out of 48-bit range: " + s))
  }

  /** parse_int_32: a decimal integer in [-2^31, 2^31 - 1]. */
  function ParseInt32(s: string): (r: ErrorOr<int>)
    ensures r.Ok? ==> -0x8000_0000 <= r.value <= 0x7FFF_FFFF
    ensures r.Ok? <==> ParseInteger(s).Some? && -0x8000_0000 <= ParseInteger(s).value <= 0x7FFF_FFFF
  {
    match ParseInteger(s)
    case None => Err(ValueError("invalid integer: " + s))
    case Some(v) =>
      if -0x8000_0000 <= v <= 0x7FFF_FFFF then Ok(v) else Err(ValueError("integer out of 32-bit range: " + s))
  }

  lemma {:induction false} NatToStringDigits(n: nat)
    ensures |NatToString(n)| > 0 && AllDigits(NatToString(n))
    ensures DigitsValue(NatToString(n)) == n
    decreases n
  {
    if n >= 10 {
      NatToStringDigits(n / 10);
      var s := NatToString(n);
      assert s[..|s| - 1] == NatToString(n / 10);
    }
  }

  /** Text that neither starts nor ends with whitespace is left alone by strip(). */
  lemma StripKeepsTrimmed(t: string)
    requires 0 < |t| && !IsSpace(t[0]) && !IsSpace(t[|t| - 1])
    ensures Strip(t) == t
  {
    assert LeadingSpaces(t) == 0;
    assert t[0..] == t;
  }

  lemma DigitsAreNotSpaces(s: string)
    requires AllDigits(s)
    ensures forall i :: 0 <= i < |s| ==> !IsSpace(s[i]) && s[i] != '-'
  {
  }

  lemma ParseDigits(digits: string)
    requires 0 < |digits| && AllDigits(digits)
    ensures ParseInteger(digits) == Some(DigitsValue(digits) as int)
  {
    DigitsAreNotSpaces(digits);
    StripKeepsTrimmed(digits);
  }

  lemma SignTail(digits: string)
    ensures ("-" + digits)[1..] == digits
  {
  }

  lemma ParseNegativeDigits(t: string, digits: string)
    requires t == "-" + digits && 0 < |digits| && AllDigits(digits)
    ensures ParseInteger(t) == Some(-(DigitsValue(digits) as int))
  {
    SignTail(digits);
    StripSignedDigits(digits);
    ParseNegative(t);
  }

  lemma StripSignedDigits(digits: string)
    requires 0 < |digits| && AllDigits(digits)
    ensures Strip("-" + digits) == "-" + digits
  {
    var t := "-" + digits;
    assert t[0] == '-';
    DigitsAreNotSpaces(digits);
    assert t[|t| - 1] == digits[|digits| - 1];
    StripKeepsTrimmed(t);
  }

  lemma ParseNegative(t: string)
    requires Strip(t) == t && 1 < |t| && t[0] == '-' && AllDigits(t[1..])
    ensures ParseInteger(t) == Some(-(DigitsValue(t[1..]) as int))
  {
  }

  /** Parsing the decimal text of any integer gives the integer back. */
  lemma ParseIntegerOfString(v: int)
    ensures ParseInteger(IntToString(v)) == Some(v)
  {
    var n: nat := if v < 0 then -v else v;
    NatToStringDigits(n);
    if v < 0 {
      ParseNegativeDigits(IntToString(v), NatToString(n));
    } else {
      ParseDigits(NatToString(n));
    }
  }

  /** parse_int_48 inverts str() on exactly the 48-bit range. */
  lemma ParseInt48RoundTrip(v: int)
    ensures INT48_MIN <= v <= INT48_MAX ==> ParseInt48(IntToString(v)) == Ok(v)
    ensures ParseInt48(IntToString(v)).Ok? <==> INT48_MIN <= v <= INT48_MAX
  {
    ParseIntegerOfString(v);
  }

  /** parse_int_32 inverts str() on exactly the 32-bit range. */
  lemma ParseInt32RoundTrip(v: int)
    ensures -0x8000_0000 <= v <= 0x7FFF_FFFF ==> ParseInt32(IntToString(v)) == Ok(v)
    ensures ParseInt32(IntToString(v)).Ok? <==> -0x8000_0000 <= v <= 0x7FFF_FFFF
  {
    ParseIntegerOfString(v);
  }

  /**
   * Text holding a character that is neither a digit, '-' nor whitespace is
   * refused ("false", "xyz", "1.23" and "2.0" in the tests), as is text with no
   * digit at all ("", " ").
   */
  lemma ParseRejectsNonNumeric(s: string)
    requires (exists i :: 0 <= i < |s| && !IsDigit(s[i]) && s[i] != '-' && !IsSpace(s[i]))
          || (forall i :: 0 <= i < |s| ==> !IsDigit(s[i]))
    ensures ParseInteger(s).None?
    ensures ParseInt48(s).Err? && ParseInt32(s).Err?
  {
    var t := Strip(s);
    var a := LeadingSpaces(s);
    if |t| > 0 {
      var digits := if t[0] == '-' then t[1..] else t;
      if exists i :: 0 <= i < |s| && !IsDigit(s[i]) && s[i] != '-' && !IsSpace(s[i]) {
        var i :| 0 <= i < |s| && !IsDigit(s[i]) && s[i] != '-' && !IsSpace(s[i]);
        if a <= i < a + |t| {
          assert t[i - a] == s[i];
          if t[0] == '-' && i - a > 0 {
            assert digits[i - a - 1] == s[i];
          } else if t[0] != '-' {
            assert digits[i - a] == s[i];
          }
        }
      } else if 0 < |digits| {
        assert digits[0] == t[|t| - |digits|] == s[a + |t| - |digits|];
      }
    }
  }
}
