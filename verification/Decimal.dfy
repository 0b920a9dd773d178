/** Decimal text as std::to_string writes it and std::stoull and std::stoll read it. */
module Decimal {
  import opened Common

  predicate IsDigit(c: char) {
    '0' <= c <= '9'
  }

  predicate AllDigits(s: string) {
    forall i :: 0 <= i < |s| ==> IsDigit(s[i])
  }

  function DigitChar(d: nat): (c: char)
    requires d < 10
    ensures IsDigit(c) && DigitOf(c) == d
  {
    '0' + d as char
  }

  function DigitOf(c: char): (d: nat)
    requires IsDigit(c)
    ensures d < 10
  {
    c as int - '0' as int
  }

  function ToString(n: nat): (s: string)
    ensures |s| > 0 && AllDigits(s)
  {
    if n < 10 then [DigitChar(n)] else ToString(n / 10) + [DigitChar(n % 10)]
  }

  function SignedToString(i: int): string {
    if i < 0 then "-" + ToString(-i) else ToString(i)
  }

  /** The number a string of digits stands for. */
  function Value(s: string): nat
    requires AllDigits(s)
  {
    if |s| == 0 then 0 else 10 * Value(s[..|s| - 1]) + DigitOf(s[|s| - 1])
  }

  lemma {:induction false} ValueOfToString(n: nat)
    ensures Value(ToString(n)) == n
  {
    if n >= 10 {
      ValueOfToString(n / 10);
      var s := ToString(n);
      assert s[..|s| - 1] == ToString(n / 10);
    } else {
      assert ToString(n)[..0] == "";
    }
  }

  lemma ToStringInjective(m: nat, n: nat)
    requires ToString(m) == ToString(n)
    ensures m == n
  {
    ValueOfToString(m);
    ValueOfToString(n);
  }

  // ---- Reading ----

  predicate IsSpace(c: char) {
    c == ' ' || '\t' <= c <= '\r'
  }

  function SkipSpace(s: string): string {
    if |s| > 0 && IsSpace(s[0]) then SkipSpace(s[1..]) else s
  }

  /** The longest prefix of digits. */
  function LeadingDigits(s: string): (d: string)
    ensures AllDigits(d) && d <= s
    ensures |d| < |s| ==> !IsDigit(s[|d|])
  {
    if |s| == 0 || !IsDigit(s[0]) then "" else [s[0]] + LeadingDigits(s[1..])
  }

  datatype Number = Number(negative: bool, digits: string)

  /** White space, a sign, digits; whatever follows is ignored. */
  function ReadNumber(s: string): (r: Number)
    ensures AllDigits(r.digits)
  {
    var t := SkipSpace(s);
    var signed := |t| > 0 && (t[0] == '-' || t[0] == '+');
    Number(signed && t[0] == '-', LeadingDigits(if signed then t[1..] else t))
  }

  /** std::stoull: a minus sign wraps, no digits and values of 2^64 or more throw. */
  function Stoull(s: string): (r: Option<nat>)
    ensures r.Some? ==> r.value < TWO_64
  {
    var r := ReadNumber(s);
    if r.digits == "" || Value(r.digits) >= TWO_64 then None
    else Some(if r.negative && Value(r.digits) > 0 then TWO_64 - Value(r.digits) else Value(r.digits))
  }

  predicate FitsInt64(i: int) {
    -0x8000_0000_0000_0000 <= i < 0x8000_0000_0000_0000
  }

  /** std::stoll */
  function Stoll(s: string): Option<int> {
    var r := ReadNumber(s);
    if r.digits == "" then None
    else
      var i: int := if r.negative then 0 - Value(r.digits) else Value(r.digits);
      if FitsInt64(i) then Some(i) else None
  }

  lemma {:induction false} LeadingDigitsOfDigits(s: string)
    requires AllDigits(s)
    ensures LeadingDigits(s) == s
  {
    if |s| > 0 {
      LeadingDigitsOfDigits(s[1..]);
      assert [s[0]] + s[1..] == s;
    }
  }

  lemma ReadNumberOfToString(n: nat)
    ensures ReadNumber(ToString(n)) == Number(false, ToString(n))
    ensures ReadNumber("-" + ToString(n)) == Number(true, ToString(n))
  {
    var s := ToString(n);
    assert IsDigit(s[0]) && !IsSpace(s[0]) && SkipSpace(s) == s;
    LeadingDigitsOfDigits(s);
    assert SkipSpace("-" + s) == "-" + s && ("-" + s)[1..] == s;
  }

  lemma StoullRoundTrip(n: u64)
    ensures Stoull(ToString(n)) == Some(n)
  {
    ReadNumberOfToString(n);
    ValueOfToString(n);
  }

  lemma StollRoundTrip(i: int)
    requires FitsInt64(i)
    ensures Stoll(SignedToString(i)) == Some(i)
  {
    var n: nat := if i < 0 then -i else i;
    ReadNumberOfToString(n);
    ValueOfToString(n);
  }

  // ---- Everything else that is read ----

  /** The one text without a leading zero. */
  lemma {:induction false} ToStringIsCanonical(n: nat)
    ensures n > 0 ==> ToString(n)[0] != '0'
    ensures n == 0 ==> ToString(n) == "0"
  {
    if n >= 10 { ToStringIsCanonical(n / 10); }
  }

  predicate AllSpace(s: string) {
    forall i :: 0 <= i < |s| ==> s[i] in {' ', '\t', '\n', '\U{000B}', '\U{000C}', '\r'}
  }

  lemma {:induction false} SkipsSpace(space: string, rest: string)
    requires AllSpace(space) && |rest| > 0 && !IsSpace(rest[0])
    ensures SkipSpace(space + rest) == rest
  {
    if |space| > 0 {
      assert (space + rest)[1..] == space[1..] + rest;
      SkipsSpace(space[1..], rest);
    } else {
      assert space + rest == rest;
    }
  }

  lemma {:induction false} LeadingDigitsOf(digits: string, rest: string)
    requires AllDigits(digits) && (|rest| > 0 ==> !IsDigit(rest[0]))
    ensures LeadingDigits(digits + rest) == digits
  {
    if |digits| > 0 {
      assert (digits + rest)[1..] == digits[1..] + rest;
      LeadingDigitsOf(digits[1..], rest);
      assert [digits[0]] + digits[1..] == digits;
    } else {
      assert digits + rest == rest;
    }
  }

  /** White space, an optional sign and digits are read, and whatever follows is not looked at. */
  lemma ReadsAnyNumber(space: string, sign: string, digits: string, rest: string)
    requires AllSpace(space) && sign in {"", "+", "-"} && digits != "" && AllDigits(digits)
    requires |rest| > 0 ==> !IsDigit(rest[0])
    ensures ReadNumber(space + sign + digits + rest) == Number(sign == "-", digits)
  {
    var t := sign + digits + rest;
    assert space + sign + digits + rest == space + t;
    assert t[0] == if sign == "" then digits[0] else sign[0];
    SkipsSpace(space, t);
    LeadingDigitsOf(digits, rest);
    assert sign != "" ==> t[1..] == digits + rest;
    assert sign == "" ==> t == digits + rest;
  }

  /** So std::stoull reads any such text whose value fits 64 bits, a negative one modulo 2^64, and refuses a larger one;
      std::stoll reads it exactly when it fits the signed range. */
  lemma AnyNumberIsRead(space: string, sign: string, n: nat, rest: string)
    requires AllSpace(space) && sign in {"", "+", "-"} && (|rest| > 0 ==> !IsDigit(rest[0]))
    ensures var text := space + sign + ToString(n) + rest;
            var i: int := if sign == "-" then 0 - n else n;
            && Stoull(text) == (if n < TWO_64 then Some(i % TWO_64) else None)
            && Stoll(text) == if -0x8000_0000_0000_0000 <= i < 0x8000_0000_0000_0000 then Some(i) else None
  {
    var digits := ToString(n);
    ReadsAnyNumber(space, sign, digits, rest);
    ValueOfToString(n);
    hide ToString, Value, ReadNumber, AllSpace, Stoull, Stoll, AllDigits, IsDigit, FitsInt64;
    NumberIsRead(space + sign + digits + rest, sign == "-", digits, n);
  }

  lemma NumberIsRead(text: string, negative: bool, digits: string, n: nat)
    requires AllDigits(digits) && digits != "" && ReadNumber(text) == Number(negative, digits) && Value(digits) == n
    ensures var i: int := if negative then 0 - n else n;
            && Stoull(text) == (if n < TWO_64 then Some(i % TWO_64) else None)
            && Stoll(text) == if -0x8000_0000_0000_0000 <= i < 0x8000_0000_0000_0000 then Some(i) else None
  {
    hide ReadNumber, Value;
  }
}
