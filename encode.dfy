/**
  The `encode` command's two token encoders (src/GprTool/Program.cs, EncodeCommand).

  Both work on the UTF-16 code units of the token, one at a time:
  - XmlEncode writes each code unit as a decimal character reference `&#N;`
    (the CharRef production of section 4.1 of XML 1.0);
  - UnicodeEncode writes each code unit as a `\uXXXX` escape with four
    lower-case hexadecimal digits (section 7 of RFC 8259).
  The decoders here are the readers these outputs are written for; they are
  the partners the round-trip lemmas are proved against.
 */
module Encode {
  import opened Wrappers
  import opened Utf16

  // ---------------------------------------------------------------- decimal

  predicate IsDigit(c: char) {
    '0' <= c <= '9'
  }

  predicate AllDigits(s: seq<char>) {
    forall k :: 0 <= k < |s| ==> IsDigit(s[k])
  }

  function Digit(d: nat): (c: char)
    requires d < 10
    ensures IsDigit(c) && c as int - '0' as int == d
  {
    "0123456789"[d]
  }

  function DigitValue(c: char): (d: nat)
    requires IsDigit(c)
    ensures d < 10
  {
    c as int - '0' as int
  }

  /**
    `Int32.ToString()` of a non-negative number: its decimal digits, most
    significant first, with no leading zero except for 0 itself.
   */
  function DecimalDigits(n: nat): (r: seq<char>)
    ensures |r| >= 1 && AllDigits(r)
    ensures r[0] == '0' <==> n == 0
    decreases n
  {
    if n < 10 then [Digit(n)] else DecimalDigits(n / 10) + [Digit(n % 10)]
  }

  /** The number a non-empty run of decimal digits denotes (leading zeros allowed). */
  function ParseDecimal(s: seq<char>): nat
    requires AllDigits(s)
  {
    if s == [] then 0 else ParseDecimal(s[..|s| - 1]) * 10 + DigitValue(s[|s| - 1])
  }

  lemma {:induction false} DecimalRoundTrip(n: nat)
    ensures ParseDecimal(DecimalDigits(n)) == n
    decreases n
  {
    var r := DecimalDigits(n);
    if n >= 10 {
      DecimalRoundTrip(n / 10);
      assert r[..|r| - 1] == DecimalDigits(n / 10);
    }
  }

  function Pow10(k: nat): (p: nat)
    ensures p >= 1
  {
    if k == 0 then 1 else 10 * Pow10(k - 1)
  }

  /** A number below 10^k has at most k digits. */
  lemma {:induction false} DecimalLength(n: nat, k: nat)
    requires k >= 1 && n < Pow10(k)
    ensures |DecimalDigits(n)| <= k
    decreases n
  {
    if n >= 10 {
      assert k >= 2;
      DecimalLength(n / 10, k - 1);
    }
  }

  // ---------------------------------------------------------------- XmlEncode

  /** The characters an XML-encoded token can contain. */
  predicate IsCharRefChar(c: char) {
    c == '&' || c == '#' || c == ';' || IsDigit(c)
  }

  /** `&#N;` for one code unit. */
  function CharRef(u: CodeUnit): seq<char> {
    "&#" + DecimalDigits(u) + ";"
  }

  /**
    The XML encoding of a token: each code unit in turn, written as the decimal
    character reference of its numeric value, all concatenated. Each code unit
    takes between 4 (`&#0;`) and 8 (`&#65535;`) characters, so only the empty
    token encodes to the empty text.
   */
  function XmlEncode(s: Utf16String): (r: seq<char>)
    ensures 4 * |s| <= |r| <= 8 * |s|
  {
    if s == [] then []
    else
      assert Pow10(5) == 100000;
      DecimalLength(s[0], 5);
      CharRef(s[0]) + XmlEncode(s[1..])
  }

  /** The first `;` at or after `from`, or |t| if there is none. */
  function IndexOfSemicolon(t: seq<char>, from: nat): (k: nat)
    requires from <= |t|
    ensures from <= k <= |t|
    ensures k < |t| ==> t[k] == ';'
    ensures forall j :: from <= j < k ==> t[j] != ';'
    decreases |t| - from
  {
    if from == |t| || t[from] == ';' then from else IndexOfSemicolon(t, from + 1)
  }

  /**
    Reads a sequence of decimal character references `&#N;` (N below 0x10000)
    back into code units; None when the text is anything else.
   */
  function XmlDecode(t: seq<char>): Option<Utf16String>
    decreases |t|
  {
    if t == [] then Some([])
    else if |t| < 2 || t[0] != '&' || t[1] != '#' then None
    else
      var k := IndexOfSemicolon(t, 2);
      if k == |t| || k == 2 || !AllDigits(t[2..k]) then None
      else
        var v := ParseDecimal(t[2..k]);
        if v >= 0x1_0000 then None
        else
          match XmlDecode(t[k + 1..])
          case None => None
          case Some(rest) => Some([v as CodeUnit] + rest)
  }

  /** Reading one reference in front of any text gives back its code unit. */
  lemma XmlDecodeCharRef(u: CodeUnit, rest: seq<char>)
    ensures XmlDecode(CharRef(u) + rest) ==
      match XmlDecode(rest)
      case None => None
      case Some(us) => Some([u] + us)
  {
    var d := DecimalDigits(u);
    var t := CharRef(u) + rest;
    var k := 2 + |d|;
    assert t[..k] == "&#" + d;
    assert t[k] == ';';
    assert forall j :: 2 <= j < k ==> t[j] == d[j - 2];
    assert IndexOfSemicolon(t, 2) == k;
    assert t[2..k] == d;
    DecimalRoundTrip(u);
    assert t[k + 1..] == rest;
  }

  /** Decoding an encoded token gives the token back. */
  lemma {:induction false} XmlRoundTrip(s: Utf16String)
    ensures XmlDecode(XmlEncode(s)) == Some(s)
  {
    if s != [] {
      XmlRoundTrip(s[1..]);
      XmlDecodeCharRef(s[0], XmlEncode(s[1..]));
      assert [s[0]] + s[1..] == s;
    }
  }

  /** Distinct tokens have distinct encodings. */
  lemma XmlEncodeInjective(s: Utf16String, s': Utf16String)
    requires XmlEncode(s) == XmlEncode(s')
    ensures s == s'
  {
    XmlRoundTrip(s);
    XmlRoundTrip(s');
  }

  /** The encoding is the concatenation of the encodings of the parts. */
  lemma {:induction false} XmlEncodeAppend(a: Utf16String, b: Utf16String)
    ensures XmlEncode(a + b) == XmlEncode(a) + XmlEncode(b)
  {
    if a == [] {
      assert a + b == b;
    } else {
      assert (a + b)[0] == a[0] && (a + b)[1..] == a[1..] + b;
      XmlEncodeAppend(a[1..], b);
    }
  }

  /** An encoded token holds only `&`, `#`, `;` and decimal digits. */
  lemma {:induction false} XmlEncodeAlphabet(s: Utf16String)
    ensures forall k :: 0 <= k < |XmlEncode(s)| ==> IsCharRefChar(XmlEncode(s)[k])
  {
    if s != [] {
      XmlEncodeAlphabet(s[1..]);
      var head := CharRef(s[0]);
      var tail := XmlEncode(s[1..]);
      forall k | 0 <= k < |head + tail| ensures IsCharRefChar((head + tail)[k]) {
        if k >= |head| { assert (head + tail)[k] == tail[k - |head|]; }
      }
    }
  }

  // ---------------------------------------------------------------- UnicodeEncode

  predicate IsLowerHexDigit(c: char) {
    '0' <= c <= '9' || 'a' <= c <= 'f'
  }

  /** A hexadecimal digit of either case, as section 7 of RFC 8259 accepts. */
  predicate IsHexDigit(c: char) {
    '0' <= c <= '9' || 'a' <= c <= 'f' || 'A' <= c <= 'F'
  }

  function HexDigit(d: nat): (c: char)
    requires d < 16
    ensures IsLowerHexDigit(c)
  {
    "0123456789abcdef"[d]
  }

  function HexValue(c: char): (d: nat)
    requires IsHexDigit(c)
    ensures d < 16
  {
    if c <= '9' then c as int - '0' as int
    else if c <= 'F' then c as int - 'A' as int + 10
    else c as int - 'a' as int + 10
  }

  lemma HexDigitValue(d: nat)
    requires d < 16
    ensures HexValue(HexDigit(d)) == d
  {
    var digits := "0123456789abcdef";
    assert digits[10] == 'a' && digits[11] == 'b' && digits[12] == 'c';
    assert digits[13] == 'd' && digits[14] == 'e' && digits[15] == 'f';
  }

  /** `((int)ch).ToString("x4")`: a code unit is below 0x10000, so always exactly four digits. */
  function Hex4(u: CodeUnit): (r: seq<char>)
    ensures |r| == 4
    ensures forall k :: 0 <= k < 4 ==> IsLowerHexDigit(r[k])
  {
    var q1 := u / 0x10;
    var q2 := q1 / 0x10;
    var q3 := q2 / 0x10;
    [HexDigit(q3), HexDigit(q2 % 0x10), HexDigit(q1 % 0x10), HexDigit(u % 0x10)]
  }

  /** The number four hexadecimal digits denote. */
  function ParseHex4(h: seq<char>): (v: nat)
    requires |h| == 4 && forall k :: 0 <= k < 4 ==> IsHexDigit(h[k])
    ensures v < 0x1_0000
  {
    ((HexValue(h[0]) * 0x10 + HexValue(h[1])) * 0x10 + HexValue(h[2])) * 0x10 + HexValue(h[3])
  }

  lemma Hex4RoundTrip(u: CodeUnit)
    ensures ParseHex4(Hex4(u)) == u
  {
    var q1 := u / 0x10;
    var q2 := q1 / 0x10;
    var q3 := q2 / 0x10;
    HexDigitValue(q3);
    HexDigitValue(q2 % 0x10);
    HexDigitValue(q1 % 0x10);
    HexDigitValue(u % 0x10);
    assert q2 == q3 * 0x10 + q2 % 0x10;
    assert q1 == q2 * 0x10 + q1 % 0x10;
    assert u == q1 * 0x10 + u % 0x10;
  }

  /** `\uXXXX` for one code unit. */
  function UnicodeEscape(u: CodeUnit): seq<char> {
    "\\u" + Hex4(u)
  }

  /**
    The JSON encoding of a token: each code unit in turn, written as a `\u`
    escape of its four lower-case hexadecimal digits, all concatenated. Every
    code unit becomes exactly six characters.
   */
  function UnicodeEncode(s: Utf16String): (r: seq<char>)
    ensures |r| == 6 * |s|
  {
    if s == [] then [] else UnicodeEscape(s[0]) + UnicodeEncode(s[1..])
  }

  /** Reads a sequence of `\uXXXX` escapes back into code units; None when the text is anything else. */
  function UnicodeDecode(t: seq<char>): Option<Utf16String>
    decreases |t|
  {
    if t == [] then Some([])
    else if |t| < 6 || t[0] != '\\' || t[1] != 'u' || !(forall k :: 2 <= k < 6 ==> IsHexDigit(t[k])) then None
    else
      var v := ParseHex4(t[2..6]);
      match UnicodeDecode(t[6..])
      case None => None
      case Some(rest) => Some([v as CodeUnit] + rest)
  }

  /** Block i of the output is `\u` followed by the four lower-case hex digits of code unit i. */
  lemma {:induction false} UnicodeEncodeBlock(s: Utf16String, i: nat)
    requires i < |s|
    ensures UnicodeEncode(s)[6 * i..6 * i + 6] == UnicodeEscape(s[i])
  {
    var head := UnicodeEscape(s[0]);
    var tail := UnicodeEncode(s[1..]);
    assert UnicodeEncode(s) == head + tail;
    if i == 0 {
      assert (head + tail)[0..6] == head;
    } else {
      UnicodeEncodeBlock(s[1..], i - 1);
      SliceOfSuffix(head, tail, 6 * i, 6 * i + 6);
    }
  }

  lemma SliceOfSuffix<T>(h: seq<T>, t: seq<T>, lo: int, hi: int)
    requires |h| <= lo <= hi <= |h| + |t|
    ensures (h + t)[lo..hi] == t[lo - |h|..hi - |h|]
  {
  }

  /** Decoding an encoded token gives the token back. */
  lemma {:induction false} UnicodeRoundTrip(s: Utf16String)
    ensures UnicodeDecode(UnicodeEncode(s)) == Some(s)
  {
    if s != [] {
      UnicodeRoundTrip(s[1..]);
      var t := UnicodeEncode(s);
      var tail := UnicodeEncode(s[1..]);
      assert t == UnicodeEscape(s[0]) + tail;
      assert t[2..6] == Hex4(s[0]);
      assert t[6..] == tail;
      Hex4RoundTrip(s[0]);
      assert [s[0]] + s[1..] == s;
    }
  }

  /** Distinct tokens have distinct encodings. */
  lemma UnicodeEncodeInjective(s: Utf16String, s': Utf16String)
    requires UnicodeEncode(s) == UnicodeEncode(s')
    ensures s == s'
  {
    UnicodeRoundTrip(s);
    UnicodeRoundTrip(s');
  }
}
