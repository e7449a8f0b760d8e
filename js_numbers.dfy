/** The two number conversions the notes controller and service rely on:
    `parseInt(s, 10)` (section 19.2.5 of ECMA-262) and the decimal text of an
    integer that a template literal such as `${id}` produces. */
module JsNumbers {

  /** A JavaScript number as `parseInt` can produce it: an integer, or NaN. */
  datatype Num = NaN | Int(value: int)

  /** The WhiteSpace and LineTerminator code points that `parseInt` skips
      before the number (sections 12.2 and 12.3 of ECMA-262; the space
      separators are those of Unicode category Zs). */
  predicate IsWhiteSpace(c: char) {
    || c == '\t' || c == '\U{000B}' || c == '\U{000C}' || c == '\U{FEFF}'
    || c == ' ' || c == '\U{00A0}' || c == '\U{1680}' || ('\U{2000}' <= c <= '\U{200A}')
    || c == '\U{202F}' || c == '\U{205F}' || c == '\U{3000}'
    || c == '\n' || c == '\r' || c == '\U{2028}' || c == '\U{2029}'
  }

  predicate IsDigit(c: char) {
    '0' <= c <= '9'
  }

  predicate AllWhiteSpace(w: string) {
    forall i :: 0 <= i < |w| ==> IsWhiteSpace(w[i])
  }

  predicate AllDigits(d: string) {
    forall i :: 0 <= i < |d| ==> IsDigit(d[i])
  }

  /** The input without its leading white space: the longest suffix that
      does not start with white space and follows only white space. */
  function TrimStart(s: string): (t: string)
    ensures |t| <= |s| && t == s[|s| - |t|..]
    ensures forall i :: 0 <= i < |s| - |t| ==> IsWhiteSpace(s[i])
    ensures t == [] || !IsWhiteSpace(t[0])
  {
    if s != [] && IsWhiteSpace(s[0]) then TrimStart(s[1..]) else s
  }

  /** The longest prefix of decimal digits. */
  function DigitPrefix(s: string): (z: string)
    ensures z <= s && AllDigits(z)
    ensures |z| < |s| ==> !IsDigit(s[|z|])
  {
    if s != [] && IsDigit(s[0]) then [s[0]] + DigitPrefix(s[1..]) else []
  }

  function DigitValue(c: char): (v: nat)
    requires IsDigit(c)
    ensures v < 10
  {
    (c as int) - ('0' as int)
  }

  function Digit(v: nat): (c: char)
    requires v < 10
    ensures IsDigit(c) && DigitValue(c) == v
  {
    (('0' as int) + v) as char
  }

  /** The value of a string of decimal digits, most significant first. */
  function DigitsValue(d: string): nat
    requires AllDigits(d)
  {
    if d == [] then 0 else 10 * DigitsValue(d[..|d| - 1]) + DigitValue(d[|d| - 1])
  }

  /** `parseInt(s, 10)`: skip leading white space, take an optional sign,
      then the longest run of decimal digits; NaN when that run is empty.
      The value is exact (see README for the rounding of very long numerals). */
  function ParseInt(s: string): (r: Num)
    ensures s != [] && IsDigit(s[0]) ==> r == Int(DigitsValue(DigitPrefix(s)))
  {
    var t := TrimStart(s);
    assert s != [] && IsDigit(s[0]) ==> t == s;
    ParseSigned(t)
  }

  /** `parseInt` after its leading white space is gone. */
  function ParseSigned(t: string): Num {
    var negative := t != [] && t[0] == '-';
    var u := if t != [] && (t[0] == '+' || t[0] == '-') then t[1..] else t;
    var z := DigitPrefix(u);
    if z == [] then NaN
    else
      var magnitude: int := DigitsValue(z);
      Int(if negative then -magnitude else magnitude)
  }

  /** The shortest decimal numeral of n: digits only, no leading zero. */
  function NatToString(n: nat): (d: string)
    ensures d != [] && AllDigits(d) && DigitsValue(d) == n
    ensures d[0] == '0' ==> d == "0"
  {
    if n < 10 then [Digit(n)]
    else
      var front := NatToString(n / 10);
      var d := front + [Digit(n % 10)];
      assert d[..|d| - 1] == front;
      d
  }

  /** The text of an integer-valued number, as `${n}` renders it. */
  function IntToString(n: int): (s: string)
    ensures s != [] && (s[0] == '-' <==> n < 0)
    ensures n < 0 ==> AllDigits(s[1..]) && DigitsValue(s[1..]) == -n
    ensures n >= 0 ==> AllDigits(s) && DigitsValue(s) == n
  {
    if n < 0 then "-" + NatToString(-n) else NatToString(n)
  }

  lemma {:induction false} TrimStartSkips(w: string, t: string)
    requires AllWhiteSpace(w)
    requires t == [] || !IsWhiteSpace(t[0])
    ensures TrimStart(w + t) == t
  {
    if w == [] {
      assert w + t == t;
    } else {
      assert (w + t)[0] == w[0];
      assert (w + t)[1..] == w[1..] + t;
      TrimStartSkips(w[1..], t);
    }
  }

  lemma {:induction false} DigitPrefixStops(d: string, rest: string)
    requires AllDigits(d)
    requires rest == [] || !IsDigit(rest[0])
    ensures DigitPrefix(d + rest) == d
  {
    if d == [] {
      assert d + rest == rest;
    } else {
      assert (d + rest)[0] == d[0];
      assert (d + rest)[1..] == d[1..] + rest;
      DigitPrefixStops(d[1..], rest);
      assert [d[0]] + d[1..] == d;
    }
  }

  /** A numeral after white space and an optional sign parses to its value;
      whatever follows the digits is ignored, so "12abc" gives 12. */
  lemma ParseIntOfNumeral(w: string, sign: string, d: string, rest: string)
    requires AllWhiteSpace(w)
    requires sign == "" || sign == "+" || sign == "-"
    requires d != [] && AllDigits(d)
    requires rest == [] || !IsDigit(rest[0])
    ensures ParseInt(w + sign + d + rest) == Int(if sign == "-" then -(DigitsValue(d) as int) else DigitsValue(d))
  {
    var t := sign + (d + rest);
    assert w + sign + d + rest == w + t;
    assert t[0] == if sign == "" then d[0] else sign[0];
    TrimStartSkips(w, t);
    ParseSignedOfNumeral(sign, d, rest);
  }

  lemma ParseSignedOfNumeral(sign: string, d: string, rest: string)
    requires sign == "" || sign == "+" || sign == "-"
    requires d != [] && AllDigits(d)
    requires rest == [] || !IsDigit(rest[0])
    ensures ParseSigned(sign + (d + rest)) == Int(if sign == "-" then -(DigitsValue(d) as int) else DigitsValue(d))
  {
    var u := d + rest;
    DigitPrefixStops(d, rest);
    if sign == "" {
      assert sign + u == u;
      ParseSignedOfDigits(u, d);
    } else {
      ParseSignedAfterSign(sign[0], u);
      assert sign + u == [sign[0]] + u;
      assert sign[0] == '-' <==> sign == "-";
    }
  }

  lemma ParseSignedOfDigits(u: string, d: string)
    requires d != [] && AllDigits(d) && DigitPrefix(u) == d
    ensures ParseSigned(u) == Int(DigitsValue(d))
  {
    assert u[0] == d[0] && IsDigit(u[0]);
  }

  lemma ParseSignedAfterSign(c: char, u: string)
    requires c == '+' || c == '-'
    requires DigitPrefix(u) != []
    ensures ParseSigned([c] + u) == Int(if c == '-' then -(DigitsValue(DigitPrefix(u)) as int) else DigitsValue(DigitPrefix(u)))
  {
    assert ([c] + u)[1..] == u;
  }

  /** Without a digit after the white space and the optional sign, the result is NaN. */
  lemma ParseIntOfNonNumeral(w: string, sign: string, rest: string)
    requires AllWhiteSpace(w)
    requires sign == "" || sign == "+" || sign == "-"
    requires rest == [] || !IsDigit(rest[0])
    requires sign == "" && rest != [] ==> !IsWhiteSpace(rest[0]) && rest[0] != '+' && rest[0] != '-'
    ensures ParseInt(w + sign + rest) == NaN
  {
    var t := sign + rest;
    assert w + sign + rest == w + t;
    TrimStartSkips(w, t);
    if sign != "" {
      assert t[1..] == rest;
    }
  }

  /** A string without a decimal digit is NaN. */
  lemma ParseIntWithoutDigit(s: string)
    requires forall i :: 0 <= i < |s| ==> !IsDigit(s[i])
    ensures ParseInt(s) == NaN
  {
    var t := TrimStart(s);
    var k := |s| - |t|;
    var u := if t != [] && (t[0] == '+' || t[0] == '-') then t[1..] else t;
    var j := if t != [] && (t[0] == '+' || t[0] == '-') then k + 1 else k;
    assert u == s[j..];
    if u != [] {
      assert u[0] == s[j];
    }
  }

  /** Reading back the text of an integer gives the integer. */
  lemma ParseIntOfIntToString(n: int)
    ensures ParseInt(IntToString(n)) == Int(n)
  {
    var s := IntToString(n);
    if n < 0 {
      var d := NatToString(-n);
      assert s == "" + "-" + d + "";
      ParseIntOfNumeral("", "-", d, "");
    } else {
      DigitPrefixStops(s, []);
      assert s + [] == s;
    }
  }
}
