/** The two number conversions the source relies on: `parseInt` (query
    parameters on the server) and the `isNaN` coercion (marks on the client),
    restricted to decimal notation, plus the decimal rendering
    `URLSearchParams` gives a page number. */
module Numbers {
  import opened Basics

  predicate IsDigit(c: char) { '0' <= c <= '9' }

  function DigitValue(c: char): nat
    requires IsDigit(c)
  {
    c as int - '0' as int
  }

  function DigitChar(d: nat): (c: char)
    requires d < 10
    ensures IsDigit(c) && DigitValue(c) == d
  {
    ('0' as int + d) as char
  }

  predicate AllDigits(s: string) {
    forall i :: 0 <= i < |s| ==> IsDigit(s[i])
  }

  /** Length of the longest prefix of `s` made of decimal digits. */
  function DigitRun(s: string): (n: nat)
    ensures n <= |s|
    ensures AllDigits(s[..n])
    ensures n < |s| ==> !IsDigit(s[n])
  {
    if s == [] || !IsDigit(s[0]) then 0 else 1 + DigitRun(s[1..])
  }

  /** The value of a string of decimal digits, most significant first. */
  function DigitsValue(s: string): nat
    requires AllDigits(s)
  {
    if s == [] then 0 else 10 * DigitsValue(s[..|s| - 1]) + DigitValue(s[|s| - 1])
  }

  /** `parseInt(s)` in base 10: an optional sign, then the leading run of
      digits; whatever follows the run is ignored, and with no digit at all
      the result is `NaN` (here `None`). */
  function ParseInt(s: string): (r: Option<int>)
    ensures r.None? <==>
      var body := if |s| > 0 && (s[0] == '-' || s[0] == '+') then s[1..] else s;
      body == [] || !IsDigit(body[0])
  {
    var negative := |s| > 0 && s[0] == '-';
    var body := if |s| > 0 && (s[0] == '-' || s[0] == '+') then s[1..] else s;
    var n := DigitRun(body);
    var magnitude: int := if n == 0 then 0 else DigitsValue(body[..n]);
    if n == 0 then None
    else if negative then Some(-magnitude)
    else Some(magnitude)
  }

  /** Decimal rendering of a natural number, without leading zeros. */
  function NatToString(n: nat): (s: string)
    ensures |s| > 0 && AllDigits(s)
    ensures |s| > 1 ==> s[0] != '0'
  {
    if n < 10 then [DigitChar(n)] else NatToString(n / 10) + [DigitChar(n % 10)]
  }

  /** `String(i)` for an integer. */
  function IntToString(i: int): string {
    if i < 0 then "-" + NatToString(-i) else NatToString(i)
  }

  lemma {:induction false} DigitsValueOfNatToString(n: nat)
    ensures DigitsValue(NatToString(n)) == n
  {
    if n >= 10 {
      var s := NatToString(n);
      assert s[..|s| - 1] == NatToString(n / 10);
      DigitsValueOfNatToString(n / 10);
    }
  }

  lemma DigitRunOfDigits(s: string)
    requires AllDigits(s)
    ensures DigitRun(s) == |s|
  {
  }

  /** Reading back what `IntToString` rendered gives the same integer: the
      page a client writes into a query string is the page the server reads. */
  lemma ParseIntOfIntToString(i: int)
    ensures ParseInt(IntToString(i)) == Some(i)
  {
    var digits := NatToString(if i < 0 then -i else i);
    DigitRunOfDigits(digits);
    DigitsValueOfNatToString(if i < 0 then -i else i);
    assert digits[..|digits|] == digits;
    if i < 0 {
      assert IntToString(i)[1..] == digits;
    }
  }

  /** A string `Number(s)` turns into a finite number, in decimal notation:
      an optional sign, digits, and an optional fraction, with at least one
      digit in all. */
  predicate IsNumeral(s: string) {
    var body := if |s| > 0 && (s[0] == '-' || s[0] == '+') then s[1..] else s;
    var n := DigitRun(body);
    var rest := body[n..];
    if rest == [] then n > 0
    else rest[0] == '.' && AllDigits(rest[1..]) && (n > 0 || |rest| > 1)
  }

  /** Every rendered integer is a numeral. */
  lemma IntToStringIsNumeral(i: int)
    ensures IsNumeral(IntToString(i))
  {
    var digits := NatToString(if i < 0 then -i else i);
    DigitRunOfDigits(digits);
    if i < 0 {
      assert IntToString(i)[1..] == digits;
    }
  }

  /** `parseInt(x) || d`: `NaN` and `0` are falsy, so both fall back to `d`. */
  function OrDefault(parsed: Option<int>, d: int): (r: int)
    ensures parsed.Some? && parsed.value != 0 ==> r == parsed.value
    ensures parsed.None? || parsed.value == 0 ==> r == d
    ensures d != 0 ==> r != 0
  {
    if parsed.Some? && parsed.value != 0 then parsed.value else d
  }
}
