/** Characters, digit strings and trimming, shared by the JavaScript and Python number parsers. */
module Text {

  predicate IsDecimalDigit(c: char) {
    '0' <= c <= '9'
  }

  /** The value of a digit in any radix up to 36 ('0'..'9', then 'a'/'A' = 10 ... 'z'/'Z' = 35), or -1. */
  function DigitValue(c: char): (d: int)
    ensures -1 <= d < 36
    ensures IsDecimalDigit(c) ==> d == c as int - '0' as int
  {
    if '0' <= c <= '9' then c as int - '0' as int
    else if 'a' <= c <= 'z' then c as int - 'a' as int + 10
    else if 'A' <= c <= 'Z' then c as int - 'A' as int + 10
    else -1
  }

  predicate IsRadixDigit(c: char, radix: nat) {
    0 <= DigitValue(c) < radix
  }

  predicate AllRadixDigits(s: string, radix: nat) {
    forall i :: 0 <= i < |s| ==> IsRadixDigit(s[i], radix)
  }

  /** Some character of `s` is a decimal digit. */
  predicate HasDecimalDigit(s: string) {
    exists i :: 0 <= i < |s| && IsDecimalDigit(s[i])
  }

  /** The number a string of radix digits denotes, most significant digit first. */
  function ValueOf(digits: string, radix: nat): (v: int)
    requires AllRadixDigits(digits, radix)
    ensures v >= 0
  {
    if digits == [] then 0
    else
      var init := digits[..|digits| - 1];
      assert AllRadixDigits(init, radix);
      var high := ValueOf(init, radix);
      assert high * radix >= 0;
      high * radix + DigitValue(digits[|digits| - 1])
  }

  /** The length of the longest prefix of `s` made of radix digits. */
  function DigitPrefixLength(s: string, radix: nat): (n: nat)
    ensures n <= |s|
    ensures AllRadixDigits(s[..n], radix)
    ensures n < |s| ==> !IsRadixDigit(s[n], radix)
  {
    if s == [] || !IsRadixDigit(s[0], radix) then 0
    else
      var n := 1 + DigitPrefixLength(s[1..], radix);
      assert s[..n] == [s[0]] + s[1..][..n - 1];
      n
  }

  function DigitChar(d: nat): (c: char)
    requires d < 10
    ensures IsDecimalDigit(c) && DigitValue(c) == d
  {
    (48 + d) as char
  }

  /** The canonical decimal spelling of a natural number: no sign, no leading zero. */
  function DecimalString(n: nat): (s: string)
    ensures |s| > 0
    ensures forall i :: 0 <= i < |s| ==> IsDecimalDigit(s[i])
    ensures s[0] == '0' <==> n == 0
    decreases n
  {
    if n < 10 then [DigitChar(n)]
    else DecimalString(n / 10) + [DigitChar(n % 10)]
  }

  /** The decimal spelling of an integer, as JavaScript's String(n) and Python's str(n) write it. */
  function IntToString(n: int): string {
    if n < 0 then "-" + DecimalString(-n) else DecimalString(n)
  }

  /** Reading a decimal spelling back gives the number: the partner of DecimalString. */
  lemma {:induction false} DecimalStringValue(n: nat)
    ensures AllRadixDigits(DecimalString(n), 10)
    ensures ValueOf(DecimalString(n), 10) == n
    decreases n
  {
    var s := DecimalString(n);
    assert AllRadixDigits(s, 10);
    if n >= 10 {
      DecimalStringValue(n / 10);
      assert s[..|s| - 1] == DecimalString(n / 10);
    }
  }

  /** `s` with its leading characters satisfying `ws` removed. */
  function TrimStart(s: string, ws: char -> bool): (r: string)
    ensures |r| <= |s| && r == s[|s| - |r|..]
    ensures forall i :: 0 <= i < |s| - |r| ==> ws(s[i])
    ensures r != [] ==> !ws(r[0])
  {
    if s != [] && ws(s[0]) then TrimStart(s[1..], ws) else s
  }

  /** `s` with its trailing characters satisfying `ws` removed. */
  function TrimEnd(s: string, ws: char -> bool): (r: string)
    ensures |r| <= |s| && r == s[..|r|]
    ensures forall i :: |r| <= i < |s| ==> ws(s[i])
    ensures r != [] ==> !ws(r[|r| - 1])
  {
    if s != [] && ws(s[|s| - 1]) then TrimEnd(s[..|s| - 1], ws) else s
  }

  /** `s` with its leading and trailing characters satisfying `ws` removed. */
  function Trim(s: string, ws: char -> bool): (r: string)
    ensures |r| <= |s|
    ensures r == [] <==> forall i :: 0 <= i < |s| ==> ws(s[i])
    ensures r != [] ==> !ws(r[0]) && !ws(r[|r| - 1])
  {
    var t := TrimStart(s, ws);
    var r := TrimEnd(t, ws);
    r
  }

  /** Trimming a string that starts and ends with a non-blank character leaves it as it is. */
  lemma TrimNonBlankEnds(s: string, ws: char -> bool)
    requires s != [] && !ws(s[0]) && !ws(s[|s| - 1])
    ensures Trim(s, ws) == s
  {
  }

  /** Trimming only removes characters: whatever is left was in the string. */
  lemma TrimKeepsCharacters(s: string, ws: char -> bool)
    ensures forall i :: 0 <= i < |Trim(s, ws)| ==> Trim(s, ws)[i] in s
  {
    var t := TrimStart(s, ws);
    var r := TrimEnd(t, ws);
    forall i | 0 <= i < |r| ensures r[i] in s {
      assert r[i] == t[i] == s[|s| - |t| + i];
    }
  }

  /** A string that starts with a non-blank character keeps that first character when trimmed. */
  lemma TrimKeepsUnblankStart(s: string, ws: char -> bool)
    requires s != [] && !ws(s[0])
    ensures Trim(s, ws) != [] && Trim(s, ws)[0] == s[0]
  {
    assert TrimStart(s, ws) == s;
  }
}
