/**
 * The decimal text of unsigned integers, as the server uses it: the `{}`
 * rendering of an unsigned integer in `format!` (uptime components, the bind
 * address) and `str::parse::<u16>()` for the PORT variable.
 */
module Decimal {
  import opened Wrappers

  /** Largest value of Rust's `u16`. */
  const U16_MAX: nat := 65535

  /** Why `str::parse::<u16>()` fails (Rust's `IntErrorKind`, the kinds a `u16` can report). */
  datatype IntErrorKind = Empty | InvalidDigit | PosOverflow

  predicate IsDigit(c: char) {
    '0' <= c <= '9'
  }

  predicate AllDigits(s: string) {
    forall i :: 0 <= i < |s| ==> IsDigit(s[i])
  }

  function DigitValue(c: char): (d: nat)
    requires IsDigit(c)
    ensures d < 10
  {
    c as int - '0' as int
  }

  function DigitChar(d: nat): (c: char)
    requires d < 10
    ensures IsDigit(c) && DigitValue(c) == d
  {
    ('0' as int + d) as char
  }

  /** Horner evaluation of the digit string `s`, continuing from the value `acc`. */
  function ValueFrom(acc: nat, s: string): nat
    requires AllDigits(s)
    decreases |s|
  {
    if |s| == 0 then acc else ValueFrom(acc * 10 + DigitValue(s[0]), s[1..])
  }

  /** The number a string of decimal digits denotes (leading zeros allowed). */
  function DigitsValue(s: string): nat
    requires AllDigits(s)
  {
    ValueFrom(0, s)
  }

  /** Reading more digits never makes the value smaller. */
  lemma {:induction false} ValueFromAtLeast(acc: nat, s: string)
    ensures AllDigits(s) ==> ValueFrom(acc, s) >= acc
    decreases |s|
  {
    if |s| > 0 && AllDigits(s) {
      ValueFromAtLeast(acc * 10 + DigitValue(s[0]), s[1..]);
    }
  }

  /** Appending a digit multiplies the value so far by ten and adds the digit. */
  lemma {:induction false} ValueFromSnoc(acc: nat, s: string, c: char)
    requires AllDigits(s) && IsDigit(c)
    ensures AllDigits(s + [c])
    ensures ValueFrom(acc, s + [c]) == ValueFrom(acc, s) * 10 + DigitValue(c)
    decreases |s|
  {
    if |s| == 0 {
      assert s + [c] == [c];
      assert [c][1..] == [];
    } else {
      assert (s + [c])[1..] == s[1..] + [c];
      ValueFromSnoc(acc * 10 + DigitValue(s[0]), s[1..], c);
    }
  }

  /**
   * The digit loop of `u16::from_str` in radix 10: per character, a non-digit
   * is reported before an overflow of `acc * 10 + digit`, and the first
   * failure ends the scan. Any overflow along the way means the whole
   * string's value overflows, and conversely.
   */
  function Accumulate(digits: string, acc: nat): (r: Result<nat, IntErrorKind>)
    requires acc <= U16_MAX
    ensures r.Ok? <==> AllDigits(digits) && ValueFrom(acc, digits) <= U16_MAX
    ensures r.Ok? ==> r.value == ValueFrom(acc, digits)
    ensures r.Err? ==> r.error != Empty
    decreases |digits|
  {
    if |digits| == 0 then
      Ok(acc)
    else if !IsDigit(digits[0]) then
      Err(InvalidDigit)
    else if acc * 10 + DigitValue(digits[0]) > U16_MAX then
      ValueFromAtLeast(acc * 10 + DigitValue(digits[0]), digits[1..]);
      Err(PosOverflow)
    else
      Accumulate(digits[1..], acc * 10 + DigitValue(digits[0]))
  }

  /** The digits `u16::from_str` reads: the text after an optional leading `+`. */
  function Unsigned(s: string): string {
    if |s| > 0 && s[0] == '+' then s[1..] else s
  }

  /** The decimal grammar of `u16`: an optional `+`, one or more ASCII digits, value at most 65535. */
  predicate IsU16Literal(s: string) {
    var body := Unsigned(s);
    |body| > 0 && AllDigits(body) && DigitsValue(body) <= U16_MAX
  }

  /**
   * `str::parse::<u16>()`: succeeds exactly on the `u16` grammar, with the
   * value the digits denote; the empty string is the one `Empty` failure.
   */
  function ParseU16(s: string): (r: Result<nat, IntErrorKind>)
    ensures r.Ok? <==> IsU16Literal(s)
    ensures r.Ok? ==> r.value <= U16_MAX && r.value == DigitsValue(Unsigned(s))
    ensures r == Err(Empty) <==> s == []
  {
    if |s| == 0 then
      Err(Empty)
    else if s == "+" then
      Err(InvalidDigit)
    else
      Accumulate(Unsigned(s), 0)
  }

  /**
   * The `{}` rendering of an unsigned integer: the shortest decimal digit
   * string of `n`, with no leading zero.
   */
  function NatToString(n: nat): (s: string)
    ensures |s| > 0 && AllDigits(s)
    ensures DigitsValue(s) == n
    ensures s[0] == '0' ==> s == "0"
    decreases n
  {
    if n < 10 then
      assert ValueFrom(0, [DigitChar(n)]) == ValueFrom(n, []);
      [DigitChar(n)]
    else
      var prefix, last := NatToString(n / 10), DigitChar(n % 10);
      ValueFromSnoc(0, prefix, last);
      prefix + [last]
  }

  /** A canonical digit string (no leading zero unless it is "0") is the rendering of its value. */
  lemma {:induction false} NatToStringOfDigits(s: string)
    requires |s| > 0 && AllDigits(s)
    requires s[0] == '0' ==> s == "0"
    ensures NatToString(DigitsValue(s)) == s
    decreases |s|
  {
    var p, c := s[..|s| - 1], s[|s| - 1];
    assert s == p + [c];
    ValueFromSnoc(0, p, c);
    if |p| == 0 {
      assert DigitChar(DigitValue(c)) == c;
    } else {
      ValueFromAtLeast(DigitValue(p[0]), p[1..]);
      assert p[0] != '0';
      NatToStringOfDigits(p);
    }
  }

  /** Parsing the rendering of any `u16` value gives that value back. */
  lemma ParseNatToString(n: nat)
    requires n <= U16_MAX
    ensures ParseU16(NatToString(n)) == Ok(n)
  {
  }
}
