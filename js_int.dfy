/**
  The two pieces of JavaScript number semantics the custom-select handler relies on:
  the global `parseInt(string)` with no radix (section 19.2.5 of ECMA-262), and the
  end index `Array.prototype.slice(0, end)` derives from its `end` argument.
  A parsed value is an `Option<int>`: `None` is NaN.
 */
module JsInt {
  import opened Wrappers

  /** StrWhiteSpaceChar of ECMA-262: WhiteSpace and LineTerminator code points. */
  predicate IsStrWhiteSpace(c: char) {
    c == ' ' || c == '\t' || c == '\n' || c == '\r' ||
    c == '\U{000B}' || c == '\U{000C}' || c == '\U{00A0}' || c == '\U{FEFF}' ||
    c == '\U{1680}' || ('\U{2000}' <= c <= '\U{200A}') ||
    c == '\U{2028}' || c == '\U{2029}' || c == '\U{202F}' || c == '\U{205F}' || c == '\U{3000}'
  }

  /** Removes leading white space (TrimString with `start`). */
  function TrimStart(s: string): (r: string)
    ensures |r| <= |s|
    ensures r == [] || !IsStrWhiteSpace(r[0])
  {
    if s != [] && IsStrWhiteSpace(s[0]) then TrimStart(s[1..]) else s
  }

  /** TrimStart removes exactly a leading run of white space: the result is a suffix of `s` and what precedes it is all white space. */
  lemma {:induction false} TrimStartRemovesWhiteSpace(s: string)
    ensures TrimStart(s) == s[|s| - |TrimStart(s)|..]
    ensures forall i | 0 <= i < |s| - |TrimStart(s)| :: IsStrWhiteSpace(s[i])
  {
    if s != [] && IsStrWhiteSpace(s[0]) {
      TrimStartRemovesWhiteSpace(s[1..]);
      assert s[1..][|s| - 1 - |TrimStart(s)|..] == s[|s| - |TrimStart(s)|..];
    }
  }

  /** The value of a digit character in radix 36 (`0`-`9`, then `a`-`z` or `A`-`Z`); 36 for any other character. */
  function DigitValue(c: char): (d: nat)
    ensures d <= 36
    ensures d < 10 <==> '0' <= c <= '9'
  {
    if '0' <= c <= '9' then c as int - '0' as int
    else if 'a' <= c <= 'z' then c as int - 'a' as int + 10
    else if 'A' <= c <= 'Z' then c as int - 'A' as int + 10
    else 36
  }

  predicate IsDigit(c: char, radix: nat) {
    DigitValue(c) < radix
  }

  /** Length of the longest prefix of `s` made of radix-`radix` digits. */
  function DigitPrefixLength(s: string, radix: nat): (n: nat)
    ensures n <= |s|
    ensures forall i | 0 <= i < n :: IsDigit(s[i], radix)
    ensures n < |s| ==> !IsDigit(s[n], radix)
  {
    if s != [] && IsDigit(s[0], radix) then 1 + DigitPrefixLength(s[1..], radix) else 0
  }

  /** The mathematical value of a digit string, most significant digit first. */
  function DigitsValue(ds: string, radix: nat): nat
  {
    if ds == [] then 0
    else DigitsValue(ds[..|ds| - 1], radix) * radix + DigitValue(ds[|ds| - 1])
  }

  /**
    The digits after the sign: with the prefix `0x` or `0X` read in radix 16,
    else in radix 10, the longest run of digits; no digit at all gives NaN.
   */
  function ParseUnsigned(u: string): Option<nat>
  {
    var hex := |u| >= 2 && u[0] == '0' && (u[1] == 'x' || u[1] == 'X');
    var radix := if hex then 16 else 10;
    var body := if hex then u[2..] else u;
    var n := DigitPrefixLength(body, radix);
    if n == 0 then None else Some(DigitsValue(body[..n], radix))
  }

  /** What `parseInt` reads once leading white space is gone: one optional sign, then the unsigned part. */
  function ParseSigned(t: string): Option<int>
  {
    if t != [] && t[0] == '-' then
      var magnitude: Option<int> := ParseUnsigned(t[1..]);
      match magnitude
      case None => None
      case Some(v) => Some(-v)
    else if t != [] && t[0] == '+' then ParseUnsigned(t[1..])
    else ParseUnsigned(t)
  }

  /**
    `parseInt(s)`: skip leading white space, then read a signed numeral.
    A negative zero is the integer 0 here.
   */
  function ParseInt(s: string): Option<int>
  {
    ParseSigned(TrimStart(s))
  }

  /** The shortest decimal numeral of `n`: digits only, no leading zero. */
  function DecimalString(n: nat): (r: string)
    ensures |r| >= 1
    ensures forall i | 0 <= i < |r| :: IsDigit(r[i], 10)
    ensures r[0] == '0' ==> n == 0
  {
    var last := ['0' + ((n % 10) as char)];
    if n < 10 then last else DecimalString(n / 10) + last
  }

  /** The numeral of any integer: a minus sign before the numeral of a negative one. */
  function IntString(n: int): string {
    if n < 0 then "-" + DecimalString(-n) else DecimalString(n)
  }

  lemma {:induction false} DecimalStringValue(n: nat)
    ensures DigitsValue(DecimalString(n), 10) == n
  {
    var s := DecimalString(n);
    if n >= 10 {
      DecimalStringValue(n / 10);
      assert s[..|s| - 1] == DecimalString(n / 10);
    }
  }

  lemma {:induction false} DigitPrefixOfDigits(ds: string, rest: string, radix: nat)
    requires forall i | 0 <= i < |ds| :: IsDigit(ds[i], radix)
    requires rest == [] || !IsDigit(rest[0], radix)
    ensures DigitPrefixLength(ds + rest, radix) == |ds|
  {
    if ds != [] {
      assert (ds + rest)[1..] == ds[1..] + rest;
      DigitPrefixOfDigits(ds[1..], rest, radix);
    }
  }

  lemma UnsignedNumeral(m: nat, rest: string)
    requires rest == [] || (!IsDigit(rest[0], 10) && rest[0] != 'x' && rest[0] != 'X')
    ensures ParseUnsigned(DecimalString(m) + rest) == Some(m)
  {
    var d := DecimalString(m);
    var u := d + rest;
    assert !(|u| >= 2 && u[0] == '0' && (u[1] == 'x' || u[1] == 'X')) by {
      if |u| >= 2 && u[0] == '0' {
        assert m == 0 && |d| == 1;
        assert u[1] == rest[0];
      }
    }
    DecimalStringValue(m);
    DigitPrefixOfDigits(d, rest, 10);
    assert u[..|d|] == d;
  }

  /**
    A numeral followed by a character that cannot continue it (a dot, an exponent
    mark, a letter) parses to the numeral's value and the rest is ignored.
   */
  lemma ParseIntIgnoresTail(n: int, rest: string)
    requires rest == [] || (!IsDigit(rest[0], 10) && rest[0] != 'x' && rest[0] != 'X')
    ensures ParseInt(IntString(n) + rest) == Some(n)
  {
    if n < 0 {
      assert IntString(n) + rest == "-" + (DecimalString(-n) + rest);
      NegativeNumeral(-n, rest);
    } else {
      NonNegativeNumeral(n, rest);
    }
  }

  lemma NonNegativeNumeral(m: nat, rest: string)
    requires rest == [] || (!IsDigit(rest[0], 10) && rest[0] != 'x' && rest[0] != 'X')
    ensures ParseInt(DecimalString(m) + rest) == Some(m)
  {
    var d := DecimalString(m);
    var s := d + rest;
    UnsignedNumeral(m, rest);
    assert s[0] == d[0] && IsDigit(d[0], 10);
    NumeralStartIsNotWhiteSpace(s[0]);
    TrimStartKeeps(s);
  }

  lemma NegativeNumeral(m: nat, rest: string)
    requires rest == [] || (!IsDigit(rest[0], 10) && rest[0] != 'x' && rest[0] != 'X')
    ensures ParseInt("-" + (DecimalString(m) + rest)) == Some(0 - m as int)
  {
    var u := DecimalString(m) + rest;
    var s := "-" + u;
    UnsignedNumeral(m, rest);
    NumeralStartIsNotWhiteSpace('-');
    TrimStartKeeps(s);
    assert s[0] == '-' && s[1..] == u;
  }

  lemma NumeralStartIsNotWhiteSpace(c: char)
    requires c == '-' || '0' <= c <= '9'
    ensures !IsStrWhiteSpace(c)
  {
  }

  /** A string whose first character is not white space is its own TrimStart. */
  lemma TrimStartKeeps(s: string)
    requires s != [] && !IsStrWhiteSpace(s[0])
    ensures TrimStart(s) == s
  {
  }

  /** `parseInt` of an integer's decimal numeral gives back the integer. */
  lemma ParseIntRoundTrip(n: int)
    ensures ParseInt(IntString(n)) == Some(n)
  {
    ParseIntIgnoresTail(n, []);
    assert IntString(n) + [] == IntString(n);
  }

  /** Text whose first non-space character is neither a sign nor a decimal digit is NaN. */
  lemma ParseIntNonNumeric(s: string)
    requires var t := TrimStart(s); t == [] || (t[0] != '-' && t[0] != '+' && !IsDigit(t[0], 10))
    ensures ParseInt(s) == None
  {
  }

  lemma ParseIntExamples()
    ensures ParseInt("abc") == None
    ensures ParseInt("") == None
    ensures ParseInt("3") == Some(3)
    ensures ParseInt("1.5") == Some(1)
    ensures ParseInt("-7") == Some(-7)
  {
    ParseIntNonNumeric("abc");
    assert IntString(3) == "3";
    ParseIntRoundTrip(3);
    assert IntString(1) + ".5" == "1.5";
    ParseIntIgnoresTail(1, ".5");
    assert IntString(-7) == "-7";
    ParseIntRoundTrip(-7);
  }

  lemma ParseIntHexExample()
    ensures ParseInt("0x1A") == Some(26)
    ensures ParseInt("0x") == None
  {
    assert TrimStart("0x1A") == "0x1A";
    assert "0x1A"[2..] == "1A";
    assert DigitPrefixLength("1A", 16) == 2;
    assert "1A"[..2] == "1A";
    assert DigitsValue("1A", 16) == 26 by { assert "1A"[..1] == "1"; }
    assert TrimStart("0x") == "0x";
    assert "0x"[2..] == "";
  }

  lemma {:induction false} TrimStartSkips(ws: string, s: string)
    requires forall i | 0 <= i < |ws| :: IsStrWhiteSpace(ws[i])
    ensures TrimStart(ws + s) == TrimStart(s)
  {
    if ws != [] {
      var w := ws + s;
      assert w[0] == ws[0] && IsStrWhiteSpace(w[0]);
      assert w[1..] == ws[1..] + s;
      assert TrimStart(w) == TrimStart(w[1..]);
      TrimStartSkips(ws[1..], s);
    } else {
      assert ws + s == s;
    }
  }

  /** Leading white space never changes what `parseInt` reads. */
  lemma ParseIntSkipsWhiteSpace(ws: string, s: string)
    requires forall i | 0 <= i < |ws| :: IsStrWhiteSpace(ws[i])
    ensures ParseInt(ws + s) == ParseInt(s)
  {
    TrimStartSkips(ws, s);
  }

  lemma ParseIntWhiteSpaceExample()
    ensures ParseInt("  -12px") == Some(-12)
  {
    assert IntString(-12) + "px" == "-12px";
    ParseIntIgnoresTail(-12, "px");
    assert "  " + "-12px" == "  -12px";
    ParseIntSkipsWhiteSpace("  ", "-12px");
  }

  /**
    The end index `slice(0, end)` stops at on an array of length `len`:
    ToIntegerOrInfinity turns NaN into 0; a negative end counts back from
    the length and is clamped at 0; a positive end is clamped at the length.
   */
  function SliceEnd(len: nat, end: Option<int>): (k: nat)
    ensures k <= len
    ensures end == None ==> k == 0
    ensures end.Some? && 0 <= end.value <= len ==> k == end.value
    ensures end.Some? && end.value >= len ==> k == len
    ensures end.Some? && end.value < 0 ==> k == if len + end.value < 0 then 0 else len + end.value
  {
    match end
    case None => 0
    case Some(e) =>
      if e < 0 then (if len + e < 0 then 0 else len + e)
      else if e < len then e
      else len
  }
}
