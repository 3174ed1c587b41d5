/** Python's int(s) on a string, in base 10: the conversion app.py applies to each submitted answer. */
module PyNumber {
  import opened Wrappers
  import opened Text

  /**
   * The white space int() skips around the number: the ASCII characters '\t'..'\r' and ' ', and
   * every code point above U+007F that str.isspace() accepts (those are turned into ' ' before the
   * number is read). The ASCII separators U+001C..U+001F are not skipped, although
   * str.isspace() accepts them.
   */
  predicate IsIntSpace(c: char) {
    || ('\t' <= c <= '\r') || c == ' ' || c == '\U{0085}' || c == '\U{00A0}'
    || c == '\U{1680}' || ('\U{2000}' <= c <= '\U{200A}') || c == '\U{2028}' || c == '\U{2029}'
    || c == '\U{202F}' || c == '\U{205F}' || c == '\U{3000}'
  }

  /** Decimal digits in which a single underscore may separate two digits ("1_000"). */
  predicate IsUnderscoredDecimal(u: string) {
    && |u| > 0
    && IsDecimalDigit(u[0])
    && (forall i :: 0 <= i < |u| ==> IsDecimalDigit(u[i]) || u[i] == '_')
    && (forall i :: 0 <= i < |u| ==> JoinsDigits(u, i))
  }

  /** Position i holds a digit, or an underscore followed by a digit. */
  predicate JoinsDigits(u: string, i: nat)
    requires i < |u|
  {
    IsDecimalDigit(u[i]) || (u[i] == '_' && i + 1 < |u| && IsDecimalDigit(u[i + 1]))
  }

  /** The digits of `u` with the underscores dropped. */
  function Digits(u: string): (d: string)
    requires forall i :: 0 <= i < |u| ==> IsDecimalDigit(u[i]) || u[i] == '_'
    ensures |d| <= |u|
    ensures AllRadixDigits(d, 10)
    ensures (forall i :: 0 <= i < |u| ==> IsDecimalDigit(u[i])) ==> d == u
  {
    if u == [] then []
    else (if u[0] == '_' then [] else [u[0]]) + Digits(u[1..])
  }

  /** Dropping the underscores keeps the digits in their order: it distributes over concatenation. */
  lemma {:induction false} DigitsConcat(a: string, b: string)
    requires forall i :: 0 <= i < |a| ==> IsDecimalDigit(a[i]) || a[i] == '_'
    requires forall i :: 0 <= i < |b| ==> IsDecimalDigit(b[i]) || b[i] == '_'
    ensures Digits(a + b) == Digits(a) + Digits(b)
  {
    if a == [] {
      assert a + b == b;
    } else {
      assert (a + b)[1..] == a[1..] + b;
      DigitsConcat(a[1..], b);
    }
  }

  /** An underscore between two groups of digits is dropped and the groups are joined. */
  lemma UnderscoreJoinsGroups(a: string, b: string)
    requires forall i :: 0 <= i < |a| ==> IsDecimalDigit(a[i]) || a[i] == '_'
    requires forall i :: 0 <= i < |b| ==> IsDecimalDigit(b[i]) || b[i] == '_'
    ensures Digits(a + "_" + b) == Digits(a) + Digits(b)
  {
    var t := "_" + b;
    assert t[0] == '_' && t[1..] == b;
    assert a + "_" + b == a + t;
    DigitsConcat(a, t);
  }

  /** The literal "1_000" reads as 1000. */
  lemma LiteralReadsUnderscores()
    ensures IntLiteral("1_000") == Some(1000)
  {
    var t := "1_000";
    assert t[0] == '1';
    UnderscoredThousand();
    ThousandValue();
  }

  lemma UnderscoredThousand()
    ensures IsUnderscoredDecimal("1_000") && Digits("1_000") == "1000"
  {
    var t := "1_000";
    assert IsUnderscoredDecimal(t);
    UnderscoreJoinsGroups("1", "000");
  }

  lemma ThousandValue()
    ensures ValueOf("1000", 10) == 1000
  {
    assert "1000"[..3] == "100" && "100"[..2] == "10" && "10"[..1] == "1" && "1"[..0] == "";
    assert ValueOf("1", 10) == 1;
    assert ValueOf("10", 10) == 10;
    assert ValueOf("100", 10) == 100;
  }

  /** "1_000" is an integer to Python: int() reads it as 1000. */
  lemma IntReadsUnderscores()
    ensures Int("1_000") == Some(1000)
  {
    TrimNonBlankEnds("1_000", IsIntSpace);
    LiteralReadsUnderscores();
  }

  /** A text that starts with an ASCII separator U+001C..U+001F makes int() raise. */
  lemma IntRejectsLeadingSeparator(s: string)
    requires s != [] && '\U{001C}' <= s[0] <= '\U{001F}'
    ensures Int(s) == None
  {
    TrimKeepsUnblankStart(s, IsIntSpace);
  }

  /** int(s): Success with the integer, or None where Python raises ValueError. */
  function Int(s: string): Option<int> {
    IntLiteral(Trim(s, IsIntSpace))
  }

  /** Whatever int() reads holds at least one decimal digit. */
  lemma IntReadsADigit(s: string)
    requires Int(s).Some?
    ensures HasDecimalDigit(s)
  {
    var t := Trim(s, IsIntSpace);
    IntLiteralReadsADigit(t);
    var i :| 0 <= i < |t| && IsDecimalDigit(t[i]);
    TrimKeepsCharacters(s, IsIntSpace);
    assert t[i] in s;
  }

  lemma IntLiteralReadsADigit(t: string)
    requires IntLiteral(t).Some?
    ensures HasDecimalDigit(t)
  {
    if |t| > 0 && (t[0] == '+' || t[0] == '-') {
      assert IsDecimalDigit(t[1..][0]) && t[1] == t[1..][0];
    } else {
      assert IsDecimalDigit(t[0]);
    }
  }

  /** int() once the surrounding white space is gone: an optional sign, then underscored digits. */
  function IntLiteral(t: string): Option<int> {
    var negative := |t| > 0 && t[0] == '-';
    var u := if |t| > 0 && (t[0] == '+' || t[0] == '-') then t[1..] else t;
    if IsUnderscoredDecimal(u) then
      var v := ValueOf(Digits(u), 10);
      Some(if negative then -v else v)
    else None
  }

  /** int() reads back the decimal spelling of every integer. */
  lemma IntRoundTrip(n: int)
    ensures Int(IntToString(n)) == Some(n)
  {
    var s := IntToString(n);
    var d := DecimalString(if n < 0 then -n else n);
    assert s[|s| - 1] == d[|d| - 1];
    TrimNonBlankEnds(s, IsIntSpace);
    IntLiteralOfDecimal(n);
  }

  lemma IntLiteralOfDecimal(n: int)
    ensures IntLiteral(IntToString(n)) == Some(n)
  {
    var m: nat := if n < 0 then -n else n;
    var d := DecimalString(m);
    var s := IntToString(n);
    DecimalStringValue(m);
    assert IsUnderscoredDecimal(d);
    assert Digits(d) == d;
    if n < 0 {
      assert s[0] == '-';
      assert s[1..] == d;
    } else {
      assert s == d;
    }
  }

  /** A string made only of white space (the empty string included) makes int() raise. */
  lemma IntRejectsBlank(s: string)
    requires forall i :: 0 <= i < |s| ==> IsIntSpace(s[i])
    ensures Int(s) == None
  {
  }

  /** A decimal point makes int() raise: "3.0" and "3." are not integers to Python. */
  lemma IntRejectsFraction(n: int, f: string)
    requires forall i :: 0 <= i < |f| ==> IsDecimalDigit(f[i])
    ensures Int(IntToString(n) + "." + f) == None
  {
    var s := IntToString(n) + "." + f;
    assert s[0] == IntToString(n)[0];
    assert !IsIntSpace(s[|s| - 1]) by {
      if f == [] { assert s[|s| - 1] == '.'; } else { assert s[|s| - 1] == f[|f| - 1]; }
    }
    TrimNonBlankEnds(s, IsIntSpace);
    IntLiteralRejectsFraction(n, f);
  }

  lemma IntLiteralRejectsFraction(n: int, f: string)
    ensures IntLiteral(IntToString(n) + "." + f) == None
  {
    var d := DecimalString(if n < 0 then -n else n);
    var s := IntToString(n) + "." + f;
    var u := d + "." + f;
    if n < 0 {
      assert s[0] == '-';
      assert s[1..] == u;
    } else {
      assert s == u;
      assert s[0] == d[0];
    }
    assert u[|d|] == '.';
  }
}
