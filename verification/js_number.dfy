/**
 * The parts of JavaScript's number and string semantics the questionnaire relies on:
 * parseInt (section 21.1.2.13 of ECMA-262), String.prototype.trim and the UTF-16 `length`.
 */
module JsNumber {
  import opened Wrappers
  import opened Text

  /** The WhiteSpace and LineTerminator code points of ECMA-262 (sections 12.2 and 12.3). */
  predicate IsJsWhitespace(c: char) {
    || c == '\t' || c == '\U{000B}' || c == '\U{000C}' || c == ' ' || c == '\U{00A0}' || c == '\U{FEFF}'
    || c == '\U{1680}' || ('\U{2000}' <= c <= '\U{200A}') || c == '\U{202F}' || c == '\U{205F}' || c == '\U{3000}'
    || c == '\n' || c == '\r' || c == '\U{2028}' || c == '\U{2029}'
  }

  /** String.prototype.trim. */
  function JsTrim(s: string): string {
    Trim(s, IsJsWhitespace)
  }

  /** The `length` of a string: UTF-16 code units, so a code point above U+FFFF counts twice. */
  function Utf16Length(s: string): (n: nat)
    ensures |s| <= n <= 2 * |s|
    ensures (forall i :: 0 <= i < |s| ==> s[i] as int < 0x1_0000) ==> n == |s|
  {
    if s == [] then 0
    else (if s[0] as int < 0x1_0000 then 1 else 2) + Utf16Length(s[1..])
  }

  /**
   * parseInt(s) with no radix argument: skip leading white space, read an optional sign,
   * then the magnitude. None stands for NaN. Negative zero is read as 0.
   */
  function ParseInt(s: string): Option<int> {
    ParseSigned(TrimStart(s, IsJsWhitespace))
  }

  /** Whatever parseInt reads holds at least one decimal digit (a hexadecimal one starts with "0x"). */
  lemma ParseIntReadsADigit(s: string)
    requires ParseInt(s).Some?
    ensures HasDecimalDigit(s)
  {
    var t := TrimStart(s, IsJsWhitespace);
    var u := if |t| > 0 && (t[0] == '-' || t[0] == '+') then t[1..] else t;
    MagnitudeStartsWithDigit(u);
    var k := if |t| > 0 && (t[0] == '-' || t[0] == '+') then 1 else 0;
    assert u[0] == t[k] == s[|s| - |t| + k];
  }

  lemma MagnitudeStartsWithDigit(u: string)
    requires ParseMagnitude(u).Some?
    ensures u != [] && IsDecimalDigit(u[0])
  {
  }

  /** The rest of parseInt once the leading white space is gone. */
  function ParseSigned(t: string): Option<int> {
    if |t| > 0 && t[0] == '-' then
      match ParseMagnitude(t[1..])
      case Some(m) => Some(-m)
      case None => None
    else if |t| > 0 && t[0] == '+' then ParseMagnitude(t[1..])
    else ParseMagnitude(t)
  }

  /** After the sign: radix 16 behind a "0x"/"0X" prefix, radix 10 otherwise. */
  function ParseMagnitude(u: string): Option<int> {
    if |u| >= 2 && u[0] == '0' && (u[1] == 'x' || u[1] == 'X') then DigitRun(u[2..], 16)
    else DigitRun(u, 10)
  }

  /** The value of the longest run of radix digits at the start of `body`; None when there is none. */
  function DigitRun(body: string, radix: nat): Option<int> {
    var n := DigitPrefixLength(body, radix);
    if n == 0 then None else Some(ValueOf(body[..n], radix))
  }

  lemma {:induction false} TrimStartSkipsBlanks(w: string, u: string)
    requires forall i :: 0 <= i < |w| ==> IsJsWhitespace(w[i])
    requires u == [] || !IsJsWhitespace(u[0])
    ensures TrimStart(w + u, IsJsWhitespace) == u
    decreases |w|
  {
    if w != [] {
      assert (w + u)[1..] == w[1..] + u;
      TrimStartSkipsBlanks(w[1..], u);
    }
  }

  lemma {:induction false} DigitPrefixOfDigits(d: string, t: string, radix: nat)
    requires AllRadixDigits(d, radix)
    requires t == [] || !IsRadixDigit(t[0], radix)
    ensures DigitPrefixLength(d + t, radix) == |d|
    decreases |d|
  {
    if d != [] {
      assert (d + t)[0] == d[0];
      assert (d + t)[1..] == d[1..] + t;
      DigitPrefixOfDigits(d[1..], t, radix);
    }
  }

  /**
   * parseInt reads back the decimal spelling of any integer, past leading white space and up to
   * the first character that cannot continue the number ("3.7" reads as 3, " 42px" as 42).
   */
  lemma ParseIntReadsLeadingInteger(w: string, n: int, t: string)
    requires forall i :: 0 <= i < |w| ==> IsJsWhitespace(w[i])
    requires t == [] || !IsDecimalDigit(t[0])
    requires n != 0 || t == [] || (t[0] != 'x' && t[0] != 'X')
    ensures ParseInt(w + IntToString(n) + t) == Some(n)
  {
    var x := IntToString(n);
    assert w + x + t == w + (x + t);
    ParseSignedDecimal(n, t);
    SpellingStartsUnblank(n, t);
    ParseIntSkipsBlanks(w, x + t);
  }

  lemma ParseIntSkipsBlanks(w: string, u: string)
    requires forall i :: 0 <= i < |w| ==> IsJsWhitespace(w[i])
    requires u == [] || !IsJsWhitespace(u[0])
    ensures ParseInt(w + u) == ParseSigned(u)
  {
    TrimStartSkipsBlanks(w, u);
  }

  /** A spelled integer starts with a digit or a minus sign, neither of which is white space. */
  lemma SpellingStartsUnblank(n: int, t: string)
    ensures IntToString(n) + t != [] && !IsJsWhitespace((IntToString(n) + t)[0])
  {
    var m: nat := if n < 0 then -n else n;
    var d := DecimalString(m);
    assert IsDecimalDigit(d[0]);
    var c := (IntToString(n) + t)[0];
    assert c == (if n < 0 then '-' else d[0]);
  }

  lemma ParseSignedDecimal(n: int, t: string)
    requires t == [] || !IsDecimalDigit(t[0])
    requires n != 0 || t == [] || (t[0] != 'x' && t[0] != 'X')
    ensures ParseSigned(IntToString(n) + t) == Some(n)
  {
    if n < 0 {
      NegativeSpelling(-n, t);
    } else {
      UnsignedSpelling(n, t);
    }
  }

  lemma NegativeSpelling(m: nat, t: string)
    requires m > 0
    requires t == [] || !IsDecimalDigit(t[0])
    ensures ParseSigned("-" + DecimalString(m) + t) == Some(-(m as int))
  {
    var d := DecimalString(m);
    var s := "-" + d + t;
    MagnitudeOfDecimal(m, t);
    assert s[0] == '-';
    assert s[1..] == d + t;
  }

  lemma UnsignedSpelling(m: nat, t: string)
    requires t == [] || !IsDecimalDigit(t[0])
    requires m != 0 || t == [] || (t[0] != 'x' && t[0] != 'X')
    ensures ParseSigned(DecimalString(m) + t) == Some(m)
  {
    var d := DecimalString(m);
    assert IsDecimalDigit(d[0]);
    MagnitudeOfDecimal(m, t);
    assert (d + t)[0] == d[0];
  }

  lemma MagnitudeOfDecimal(m: nat, t: string)
    requires t == [] || !IsDecimalDigit(t[0])
    requires m != 0 || t == [] || (t[0] != 'x' && t[0] != 'X')
    ensures ParseMagnitude(DecimalString(m) + t) == Some(m)
  {
    var d := DecimalString(m);
    var u := d + t;
    assert u[0] == d[0];
    if |u| >= 2 && u[0] == '0' {
      assert |d| == 1;
      assert u[1] == t[0];
    }
    DecimalStringValue(m);
    DigitPrefixOfDigits(d, t, 10);
    assert u[..|d|] == d;
  }

  /** parseInt of a canonical decimal spelling gives the integer back. */
  lemma ParseIntRoundTrip(n: int)
    ensures ParseInt(IntToString(n)) == Some(n)
  {
    ParseIntReadsLeadingInteger("", n, "");
    assert "" + IntToString(n) + "" == IntToString(n);
  }
}
