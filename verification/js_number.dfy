/**
 * The two number/string conversions the polyfill relies on: the global
 * `parseInt` called with one argument, and the decimal rendering of an
 * integer that `"width=".concat(n)` produces.  Numbers are mathematical
 * integers; see README for what that leaves out.
 */
module JsNumber {
  import opened Wrappers
  import opened JsString

  /** The radices `parseInt` uses when no radix argument is given. */
  type Radix = r: nat | r == 10 || r == 16 witness 10

  predicate IsDecimalDigit(c: char) {
    '0' <= c <= '9'
  }

  predicate IsRadixDigit(c: char, radix: Radix) {
    || IsDecimalDigit(c)
    || (radix == 16 && ('a' <= c <= 'f' || 'A' <= c <= 'F'))
  }

  /** The value of a digit character; only meaningful when `IsRadixDigit(c, radix)`. */
  function DigitValue(c: char): (d: nat)
    ensures d < 16
  {
    if IsDecimalDigit(c) then c as int - '0' as int
    else if 'a' <= c <= 'f' then c as int - 'a' as int + 10
    else if 'A' <= c <= 'F' then c as int - 'A' as int + 10
    else 0
  }

  ghost predicate AllDigits(s: string, radix: Radix) {
    forall k :: 0 <= k < |s| ==> IsRadixDigit(s[k], radix)
  }

  /** The length of the longest prefix of `s` made of digits of `radix`. */
  function DigitRun(s: string, radix: Radix): (n: nat)
    ensures n <= |s|
    ensures forall k :: 0 <= k < n ==> IsRadixDigit(s[k], radix)
    ensures n < |s| ==> !IsRadixDigit(s[n], radix)
    decreases |s|
  {
    if |s| > 0 && IsRadixDigit(s[0], radix) then 1 + DigitRun(s[1..], radix) else 0
  }

  /** The value of a digit string, most significant digit first. */
  function DigitsValue(digits: string, radix: Radix): nat
    decreases |digits|
  {
    if |digits| == 0 then 0
    else
      var high := DigitsValue(digits[..|digits| - 1], radix);
      (if radix == 10 then high * 10 else high * 16) + DigitValue(digits[|digits| - 1])
  }

  /**
   * The unsigned part of `parseInt`: radix 16 after a `0x`/`0X` prefix, then
   * the longest run of digits; `None` when that run is empty.
   */
  function ParseMagnitude(u: string): Option<nat>
  {
    var hex := |u| >= 2 && u[0] == '0' && (u[1] == 'x' || u[1] == 'X');
    var radix: Radix := if hex then 16 else 10;
    var v := if hex then u[2..] else u;
    var n := DigitRun(v, radix);
    if n == 0 then None else Some(DigitsValue(v[..n], radix))
  }

  /**
   * `parseInt(s)` with no radix: skip leading white space, take an optional
   * sign, then read the magnitude.  `None` is NaN.  A negative zero is 0.
   */
  function ParseInt(s: string): Option<int>
  {
    ParseSigned(TrimStart(s))
  }

  /** `parseInt` after the leading white space: an optional sign, then the magnitude. */
  function ParseSigned(t: string): Option<int>
  {
    var negative := |t| > 0 && t[0] == '-';
    var u := if |t| > 0 && (t[0] == '-' || t[0] == '+') then t[1..] else t;
    match ParseMagnitude(u)
    case None => None
    case Some(m) => Some(if negative then -(m as int) else m)
  }

  /** The decimal rendering of a natural number, as `Number.prototype.toString` gives it. */
  function NatToString(n: nat): (r: string)
    ensures |r| >= 1 && AllDigits(r, 10)
    ensures DigitsValue(r, 10) == n
    ensures r[0] == '0' ==> r == "0"
    decreases n
  {
    var last := ['0' + (n % 10) as char];
    if n < 10 then last
    else
      var r := NatToString(n / 10) + last;
      assert r[..|r| - 1] == NatToString(n / 10);
      r
  }

  /** The decimal rendering of an integer: a minus sign before the digits of a negative one. */
  function IntToString(n: int): (r: string)
    ensures |r| >= 1
    ensures forall k :: 0 <= k < |r| ==> IsDecimalDigit(r[k]) || (k == 0 && r[k] == '-')
    ensures r[0] == '-' <==> n < 0
  {
    if n < 0 then "-" + NatToString(-n) else NatToString(n)
  }

  /**
   * `parseInt` of white space, an optional sign, a run of decimal digits and
   * then anything that is not a digit reads exactly that run.  The digits must
   * not look like a `0x` prefix.
   */
  lemma {:induction false} ParseIntDecimal(pre: string, sign: string, digits: string, rest: string)
    requires AllWhiteSpace(pre)
    requires sign == "" || sign == "-" || sign == "+"
    requires |digits| >= 1 && AllDigits(digits, 10)
    requires |rest| == 0 || !IsDecimalDigit(rest[0])
    requires digits == "0" ==> |rest| == 0 || (rest[0] != 'x' && rest[0] != 'X')
    ensures ParseInt(pre + (sign + (digits + rest)))
         == Some(if sign == "-" then -(DigitsValue(digits, 10) as int) else DigitsValue(digits, 10))
  {
    ParseIntAfterSign(pre, sign, digits + rest);
    ParseSignedDecimal(sign, digits, rest);
  }

  /** White space before a sign or a digit does not change what `parseInt` reads. */
  lemma {:induction false} ParseIntAfterSign(pre: string, sign: string, u: string)
    requires AllWhiteSpace(pre)
    requires sign == "" || sign == "-" || sign == "+"
    requires |u| >= 1 && IsDecimalDigit(u[0])
    ensures ParseInt(pre + (sign + u)) == ParseSigned(sign + u)
  {
    var t := sign + u;
    assert t[0] == if sign == "" then u[0] else sign[0];
    ParseIntAfterWhiteSpace(pre, t);
  }

  /** `ParseSigned` of a sign and a decimal digit run followed by a non-digit. */
  lemma {:induction false} ParseSignedDecimal(sign: string, digits: string, rest: string)
    requires sign == "" || sign == "-" || sign == "+"
    requires |digits| >= 1 && AllDigits(digits, 10)
    requires |rest| == 0 || !IsDecimalDigit(rest[0])
    requires digits == "0" ==> |rest| == 0 || (rest[0] != 'x' && rest[0] != 'X')
    ensures ParseSigned(sign + (digits + rest))
         == Some(if sign == "-" then -(DigitsValue(digits, 10) as int) else DigitsValue(digits, 10))
  {
    ParseMagnitudeDecimal(digits, rest);
    assert (digits + rest)[0] == digits[0];
    ParseSignedSign(sign, digits + rest, DigitsValue(digits, 10));
  }

  /** Leading white space does not change what `parseInt` reads. */
  lemma {:induction false} ParseIntAfterWhiteSpace(pre: string, t: string)
    requires AllWhiteSpace(pre)
    requires |t| == 0 || !IsStrWhiteSpaceChar(t[0])
    ensures ParseInt(pre + t) == ParseSigned(t)
  {
    TrimStartPrefix(pre, t);
  }

  /** `ParseSigned` strips one sign character and negates the magnitude after a minus. */
  lemma {:induction false} ParseSignedSign(sign: string, u: string, m: nat)
    requires sign == "" || sign == "-" || sign == "+"
    requires sign == "" ==> |u| == 0 || (u[0] != '-' && u[0] != '+')
    requires ParseMagnitude(u) == Some(m)
    ensures ParseSigned(sign + u) == Some(if sign == "-" then -(m as int) else m)
  {
    var t := sign + u;
    if sign == "" {
      assert t == u;
    } else {
      assert t[1..] == u;
    }
  }

  /** The magnitude of a decimal digit run followed by a non-digit is the run's value. */
  lemma {:induction false} ParseMagnitudeDecimal(digits: string, rest: string)
    requires |digits| >= 1 && AllDigits(digits, 10)
    requires |rest| == 0 || !IsDecimalDigit(rest[0])
    requires digits == "0" ==> |rest| == 0 || (rest[0] != 'x' && rest[0] != 'X')
    ensures ParseMagnitude(digits + rest) == Some(DigitsValue(digits, 10))
  {
    var u := digits + rest;
    assert u[0] == digits[0];
    assert |digits| >= 2 ==> u[1] == digits[1];
    assert |digits| == 1 && |rest| > 0 ==> u[1] == rest[0];
    assert !(|u| >= 2 && u[0] == '0' && (u[1] == 'x' || u[1] == 'X'));
    DigitRunExact(digits, rest, 10);
    assert u[..|digits|] == digits;
  }

  /** A digit run followed by a non-digit is read in full. */
  lemma {:induction false} DigitRunExact(digits: string, rest: string, radix: Radix)
    requires AllDigits(digits, radix)
    requires |rest| == 0 || !IsRadixDigit(rest[0], radix)
    ensures DigitRun(digits + rest, radix) == |digits|
    decreases |digits|
  {
    if |digits| > 0 {
      assert (digits + rest)[1..] == digits[1..] + rest;
      DigitRunExact(digits[1..], rest, radix);
    } else {
      assert digits + rest == rest;
    }
  }

  /**
   * `parseInt` reads back the rendering of any integer, whatever non-digit text
   * follows; after a lone `0` that text must not turn it into a `0x` prefix.
   */
  lemma {:induction false} ParseIntToString(n: int, rest: string)
    requires |rest| == 0 || (!IsDecimalDigit(rest[0]) && (n == 0 ==> rest[0] != 'x' && rest[0] != 'X'))
    ensures ParseInt(IntToString(n) + rest) == Some(n)
  {
    var sign := if n < 0 then "-" else "";
    var digits := NatToString(if n < 0 then -n else n);
    assert DigitsValue("0", 10) == 0;
    assert digits == "0" ==> n == 0;
    assert IntToString(n) + rest == "" + (sign + (digits + rest));
    ParseIntDecimal("", sign, digits, rest);
  }

  /**
   * `parseInt` is NaN on the empty string and on text whose first character can
   * start neither white space, a sign nor a number, such as `"undefined"`.
   */
  lemma {:induction false} ParseIntNaN(s: string)
    requires |s| == 0 || (!IsStrWhiteSpaceChar(s[0]) && !IsDecimalDigit(s[0]) && s[0] != '-' && s[0] != '+')
    ensures ParseInt(s) == None
  {
    assert s == "" + s;
    TrimStartPrefix("", s);
    assert DigitRun(s, 10) == 0;
  }
}
