/**
 * Character classes and decimal conversions used on both sides of the wire:
 * `std::isspace` and `std::isdigit` in the "C" locale, the digit accumulation of
 * `evaluate`, `std::to_string(long)` on the server and `std::stol` on the client.
 */
module Text {
  import opened Optional

  /** `std::isspace` in the "C" locale: space, \t, \n, \v, \f and \r. */
  predicate IsSpace(c: char) {
    c == ' ' || c == '\t' || c == '\n' || c == '\U{000B}' || c == '\U{000C}' || c == '\r'
  }

  /** `std::isdigit`: '0' to '9'. */
  predicate IsDigit(c: char) {
    '0' <= c <= '9'
  }

  predicate AllDigits(s: string) {
    forall i :: 0 <= i < |s| ==> IsDigit(s[i])
  }

  predicate NoSpace(s: string) {
    ' ' !in s
  }

  /** `c - '0'`. */
  function DigitValue(c: char): int {
    c as int - '0' as int
  }

  function DigitChar(d: nat): (c: char)
    requires d < 10
    ensures IsDigit(c) && DigitValue(c) == d
  {
    ('0' as int + d) as char
  }

  /** Length of the run of digits at the front of `s`. */
  function DigitRunLength(s: string): (n: nat)
    ensures n <= |s|
    ensures AllDigits(s[..n])
    ensures n < |s| ==> !IsDigit(s[n])
  {
    if s != [] && IsDigit(s[0]) then
      assert s[..1 + DigitRunLength(s[1..])] == [s[0]] + s[1..][..DigitRunLength(s[1..])];
      1 + DigitRunLength(s[1..])
    else 0
  }

  /** The value accumulated by `val = val * 10 + (c - '0')` over `d`, left to right. */
  function DecimalValue(d: string): int {
    if d == [] then 0 else DecimalValue(d[..|d| - 1]) * 10 + DigitValue(d[|d| - 1])
  }

  /** Decimal digits of `n`, most significant first, without leading zeros. */
  function DecimalString(n: nat): (s: string)
    ensures s != [] && AllDigits(s)
  {
    if n < 10 then [DigitChar(n)] else DecimalString(n / 10) + [DigitChar(n % 10)]
  }

  /** `std::to_string(long)`: a minus sign for negative values, then the decimal digits. */
  function IntToString(v: int): string {
    if v < 0 then "-" + DecimalString(-v) else DecimalString(v)
  }

  function SkipSpaces(s: string): (t: string)
    ensures |t| <= |s| && t == s[|s| - |t|..]
    ensures t == [] || !IsSpace(t[0])
  {
    if s != [] && IsSpace(s[0]) then SkipSpaces(s[1..]) else s
  }

  /**
   * `std::stol(s)` in base 10: leading white space is skipped, one optional sign
   * is read, then the longest run of digits; anything after it is ignored. With no
   * digit at all `std::stol` throws `std::invalid_argument`, modelled as `None`.
   */
  function Stol(s: string): Option<int> {
    var t := SkipSpaces(s);
    if t == [] then None
    else if t[0] == '-' then
      match LeadingNumber(t[1..])
      case None => None
      case Some(v) => Some(-v)
    else if t[0] == '+' then LeadingNumber(t[1..])
    else LeadingNumber(t)
  }

  /** The run of digits at the front of `u`, as a number; `None` when `u` does not start with a digit. */
  function LeadingNumber(u: string): Option<int> {
    var n := DigitRunLength(u);
    if n == 0 then None else Some(DecimalValue(u[..n]))
  }

  lemma DigitRunOfDigits(s: string)
    requires AllDigits(s)
    ensures DigitRunLength(s) == |s|
  {
    if s != [] {
      DigitRunOfDigits(s[1..]);
    }
  }

  /** A digit run stops where the following text starts with a non-digit. */
  lemma {:induction false} DigitRunConcat(d: string, rest: string)
    requires AllDigits(d)
    requires rest == [] || !IsDigit(rest[0])
    ensures DigitRunLength(d + rest) == |d|
  {
    if d == [] {
      assert d + rest == rest;
    } else {
      assert (d + rest)[1..] == d[1..] + rest;
      DigitRunConcat(d[1..], rest);
    }
  }

  /** Digit accumulation reads back the number that `DecimalString` printed. */
  lemma {:induction false} DecimalRoundTrip(n: nat)
    ensures DecimalValue(DecimalString(n)) == n
  {
    if n >= 10 {
      var s := DecimalString(n / 10) + [DigitChar(n % 10)];
      assert s[..|s| - 1] == DecimalString(n / 10);
      DecimalRoundTrip(n / 10);
    }
  }

  lemma IntToStringNoSpace(v: int)
    ensures NoSpace(IntToString(v)) && IntToString(v) != []
  {
    var d := DecimalString(if v < 0 then -v else v);
    assert forall i :: 0 <= i < |d| ==> IsDigit(d[i]);
  }

  /** A string of digits reads as its own value. */
  lemma LeadingNumberOfDigits(d: string)
    requires d != [] && AllDigits(d)
    ensures LeadingNumber(d) == Some(DecimalValue(d))
  {
    DigitRunOfDigits(d);
    assert d[..|d|] == d;
  }

  /** Text that starts with neither white space nor a sign is read from its first character. */
  lemma StolUnsigned(u: string)
    requires u != [] && !IsSpace(u[0]) && u[0] != '-' && u[0] != '+'
    ensures Stol(u) == LeadingNumber(u)
  {
    assert SkipSpaces(u) == u;
  }

  /** A leading minus sign negates the number that follows it. */
  lemma StolNegative(u: string)
    ensures Stol("-" + u) == if LeadingNumber(u).Some? then Some(-LeadingNumber(u).value) else None
  {
    var s := "-" + u;
    assert SkipSpaces(s) == s;
    assert s[0] == '-' && s[1..] == u;
  }

  /** What the server prints with `std::to_string`, the client reads back with `std::stol`. */
  lemma StolOfIntToString(v: int)
    ensures Stol(IntToString(v)) == Some(v)
  {
    var d := DecimalString(if v < 0 then -v else v);
    DecimalRoundTrip(if v < 0 then -v else v);
    LeadingNumberOfDigits(d);
    if v < 0 {
      StolNegative(d);
    } else {
      StolUnsigned(d);
    }
  }

  /** `std::stol("ERR")` throws: the text starts with no sign and no digit. */
  lemma StolRejectsErr()
    ensures Stol("ERR") == None
  {
    assert SkipSpaces("ERR") == "ERR";
    assert DigitRunLength("ERR") == 0;
    assert LeadingNumber("ERR") == None;
  }
}
