/** The strings of section 7 of RFC 8259: that they are tokens, which of them the reader decodes, and to what. */
module JsonRfcStrings {
  import opened CStrings
  import opened Wrappers
  import opened CodeValues
  import opened WordSums
  import opened JsonValue
  import opened JsonSyntax
  import opened JsonGrammar
  import D = Decimal
  import JsonText
  import Utf

  // ---- section 7: strings ----

  predicate IsHex(c: Byte) { D.IsDigit(c) || 'a' <= c <= 'f' || 'A' <= c <= 'F' }

  /** `\u` and four digits. */
  predicate UnicodeEscape(s: String) {
    |s| == 6 && s[0] == '\\' && s[1] == 'u' && IsHex(s[2]) && IsHex(s[3]) && IsHex(s[4]) && IsHex(s[5])
  }

  predicate ShortEscape(s: String) {
    |s| == 2 && s[0] == '\\' && s[1] in {'"', '\\', '/', 'b', 'f', 'n', 'r', 't'}
  }

  /** One character of UTF-8 that is no control character, quotation mark or reverse solidus. */
  predicate Unescaped(s: String) {
    Utf.Utf8Char(JsonText.Codes(s)) && s != [] && s[0] as int >= 0x20 && s[0] != '"' && s[0] != '\\'
  }

  predicate RfcChar(s: String) { Unescaped(s) || ShortEscape(s) || UnicodeEscape(s) }

  ghost predicate RfcChars(s: String)
    decreases |s|
  {
    s == [] || exists k :: 0 < k <= |s| && RfcChar(s[..k]) && RfcChars(s[k..])
  }

  ghost predicate RfcString(l: String) {
    |l| >= 2 && l[0] == '"' == l[|l| - 1] && RfcChars(l[1..|l| - 1])
  }

  // ---- strings are tokens ----

  /** The bytes behind the first one of a character are above 127. */
  lemma UnescapedIsOrdinary(s: String)
    requires Unescaped(s)
    ensures JsonText.Ordinary(s)
  {
    var u := JsonText.Codes(s);
    assert forall i :: 0 <= i < |s| ==> u[i] == JsonText.Code(s[i]);
    hide JsonText.Code, JsonText.Codes;
    JsonText.SpecialCodes();
    assert forall i :: 1 <= i < |s| ==> u[i] >= 0x80;
  }

  /** The end of a string behind `c` is where it is behind it. */
  predicate EndsBehind(c: String, r: String) {
    JsonText.StringEnd(c + r, '"') == (JsonText.StringEnd(r, '"').0, |c| + JsonText.StringEnd(r, '"').1)
  }

  lemma EndBehindShort(c: String, r: String)
    requires ShortEscape(c)
    ensures EndsBehind(c, r)
  {
    hide JsonText.StringEnd;
    JsonText.EndBehindEscape(c, [], r);
    assert c + [] + r == c + r;
  }

  lemma EndBehindUnicode(c: String, r: String)
    requires UnicodeEscape(c)
    ensures EndsBehind(c, r)
  {
    DigitsAreOrdinary(c);
    hide JsonText.StringEnd, UnicodeEscape, JsonText.Ordinary;
    JsonText.EndBehindEscape(c[..2], c[2..], r);
    assert c[..2] + c[2..] == c;
  }

  /** A character does not end a string. */
  lemma EndBehindChar(c: String, r: String)
    requires RfcChar(c)
    ensures EndsBehind(c, r)
  {
    hide JsonText.StringEnd, Unescaped, ShortEscape, UnicodeEscape;
    if Unescaped(c) {
      UnescapedIsOrdinary(c);
      JsonText.EndBehind(c, r);
    } else if ShortEscape(c) {
      EndBehindShort(c, r);
    } else {
      EndBehindUnicode(c, r);
    }
  }

  lemma DigitsAreOrdinary(c: String)
    requires UnicodeEscape(c)
    ensures |c| == 6 && c[..2][0] == '\\' && JsonText.Ordinary(c[2..])
  {}

  lemma {:induction false} CharsEnd(s: String)
    requires RfcChars(s)
    ensures JsonText.StringEnd(s + "\"", '"') == (true, |s| + 1)
    decreases |s|
  {
    hide JsonText.StringEnd, RfcChar;
    if s == [] {
      assert s + "\"" == "\"";
      QuoteEnds();
    } else {
      var k :| 0 < k <= |s| && RfcChar(s[..k]) && RfcChars(s[k..]);
      hide RfcChars;
      CharsEnd(s[k..]);
      EndBehindChar(s[..k], s[k..] + "\"");
      assert s[..k] + (s[k..] + "\"") == s + "\"";
    }
  }

  lemma QuoteEnds()
    ensures JsonText.StringEnd("\"", '"') == (true, 1)
  {}

  lemma StringIsQuoted(l: String)
    requires RfcString(l)
    ensures IsQuoted(l)
  {
    hide RfcChars, JsonText.StringEnd;
    CharsEnd(l[1..|l| - 1]);
    assert l[1..|l| - 1] + "\"" == l[1..];
  }

  // ---- what strings mean ----

  function DigitOf(c: Byte): nat
    requires IsHex(c)
  {
    if c <= '9' then c as int - 0x30 else if c <= 'F' then c as int - 0x41 + 10 else c as int - 0x61 + 10
  }

  predicate FourDigits(h: String) { |h| == 4 && IsHex(h[0]) && IsHex(h[1]) && IsHex(h[2]) && IsHex(h[3]) }

  function HexNumber(h: String): (n: nat)
    requires FourDigits(h)
  {
    0x1000 * DigitOf(h[0]) + 0x100 * DigitOf(h[1]) + 0x10 * DigitOf(h[2]) + DigitOf(h[3])
  }

  predicate IsHigh(h: String) { FourDigits(h) && 0xD800 <= HexNumber(h) <= 0xDBFF }

  /** The characters for the escapes of two characters. */
  function ShortMeaning(e: Byte): String {
    match e
    case '"' => [0x22 as char]
    case '\\' => [0x5C as char]
    case '/' => [0x2F as char]
    case 'b' => [0x08 as char]
    case 'f' => [0x0C as char]
    case 'n' => [0x0A as char]
    case 'r' => [0x0D as char]
    case 't' => [0x09 as char]
    case _ => []
  }

  /** UTF-8. */
  function OctetText(n: nat): (s: String)
    requires n <= 0x10_FFFF
  {
    OctetsAreBytes(n);
    var o := Octets(n);
    seq<Byte>(|o|, i requires 0 <= i < |o| => o[i] as char)
  }

  lemma OctetsAreBytes(n: nat)
    requires n <= 0x10_FFFF
    ensures forall i :: 0 <= i < |Octets(n)| ==> Octets(n)[i] < 256
  {}

  /** The code point of the surrogates `u` and `v`; of a second unit that is no low surrogate, the reader takes the low ten
      bits. */
  function PairPoint(u: nat, v: nat): (n: nat)
    requires 0xD800 <= u <= 0xDBFF
    ensures 0x1_0000 <= n <= 0x10_FFFF
  {
    if 0xDC00 <= v <= 0xDFFF then 0x1_0000 + (u - 0xD800) * 0x400 + (v - 0xDC00)
    else 0x1_0000 + (u - 0xD800) * 0x400 + v % 0x400
  }

  lemma HexNumberIsSmall(h: String)
    requires FourDigits(h)
    ensures HexNumber(h) <= 0xFFFF
  {}

  /** What the characters between the quotes stand for, read from the front; a quotation mark by itself ends them. */
  function Meaning(s: String): String
    decreases |s|
  {
    if s == [] || s[0] == '"' then []
    else if s[0] != '\\' then [s[0]] + Meaning(s[1..])
    else if |s| < 2 then []
    else if s[1] != 'u' then ShortMeaning(s[1]) + Meaning(s[2..])
    else if |s| < 6 || !FourDigits(s[2..6]) then []
    else
      HexNumberIsSmall(s[2..6]);
      if !IsHigh(s[2..6]) then OctetText(HexNumber(s[2..6])) + Meaning(s[6..])
      else if |s| < 12 || !UnicodeEscape(s[6..12]) then []
      else OctetText(PairPoint(HexNumber(s[2..6]), HexNumber(s[8..12]))) + Meaning(s[12..])
  }

  /** Behind an escape of a high surrogate stands another escape, whatever its value; read from the front. */
  predicate Paired(s: String)
    decreases |s|
  {
    if s == [] then true
    else if s[0] != '\\' then Paired(s[1..])
    else if |s| < 2 then false
    else if s[1] != 'u' then Paired(s[2..])
    else if |s| < 6 then false
    else if IsHigh(s[2..6]) then |s| >= 12 && UnicodeEscape(s[6..12]) && Paired(s[12..])
    else Paired(s[6..])
  }

  /** All escapes are complete, and high surrogates are paired, up to the end or to a quotation mark by itself. */
  predicate Readable(s: String)
    decreases |s|
  {
    if s == [] || s[0] == '"' then true
    else if s[0] != '\\' then Readable(s[1..])
    else if |s| < 2 then false
    else if s[1] != 'u' then ShortEscape(s[..2]) && Readable(s[2..])
    else if |s| < 6 || !UnicodeEscape(s[..6]) then false
    else if IsHigh(s[2..6]) then |s| >= 12 && UnicodeEscape(s[6..12]) && Readable(s[12..])
    else Readable(s[6..])
  }

  // ---- which strings are decoded, and to what ----

  /** What the reader makes of the body, given what it makes of the rest behind a piece. */
  function Prefixed(piece: String, rest: Option<String>): Option<String> {
    match rest case None => None case Some(r) => Some(piece + r)
  }

  lemma DecodeOne(s: String, piece: String, n: nat)
    requires s != [] && s[0] != '"' && JsonText.DecodeStep(s) == Some((piece, n))
    ensures 1 <= n <= |s| && JsonText.DecodeBody(s) == Prefixed(piece, JsonText.DecodeBody(s[n..]))
  {
    hide JsonText.DecodeStep;
  }

  lemma BehindByte(s: String)
    requires s != [] && s[0] != '"' && s[0] != '\\'
    ensures JsonText.DecodeBody(s) == Prefixed([s[0]], JsonText.DecodeBody(s[1..]))
    ensures Meaning(s) == [s[0]] + Meaning(s[1..]) && (Readable(s) <==> Readable(s[1..]))
  {
    assert JsonText.DecodeStep(s) == Some(([s[0]], 1));
    hide JsonText.DecodeStep, JsonText.DecodeBody;
    DecodeOne(s, [s[0]], 1);
  }

  lemma BehindShort(s: String)
    requires |s| >= 2 && ShortEscape(s[..2])
    ensures s[0] == '\\' && s[1] != 'u'
    ensures JsonText.DecodeBody(s) == Prefixed(ShortMeaning(s[1]), JsonText.DecodeBody(s[2..]))
    ensures Meaning(s) == ShortMeaning(s[1]) + Meaning(s[2..]) && (Readable(s) <==> Readable(s[2..]))
  {
    assert s[0] == s[..2][0] && s[1] == s[..2][1];
    ShortStep(s);
    hide ShortEscape, JsonText.DecodeStep, ShortMeaning, JsonText.DecodeBody;
    DecodeOne(s, ShortMeaning(s[1]), 2);
  }

  lemma ShortStep(s: String)
    requires |s| >= 2 && s[0] == '\\' && s[1] in {'"', '\\', '/', 'b', 'f', 'n', 'r', 't'}
    ensures JsonText.DecodeStep(s) == Some((ShortMeaning(s[1]), 2))
  {}

  // ---- escapes of code units ----

  lemma NumberOfDigit(c: Byte)
    requires '0' <= c <= '9'
    ensures JsonText.HexValue(c).Some? && JsonText.HexValue(c).value < 16 && AsNumber(JsonText.HexValue(c).value) == c as int - 0x30
  {
    if c <= '4' {
      assert c == '0' ==> JsonText.HexValue(c) == Some(0) && AsNumber(0) == 0;
      assert c == '1' ==> JsonText.HexValue(c) == Some(1) && AsNumber(1) == 1;
      assert c == '2' ==> JsonText.HexValue(c) == Some(2) && AsNumber(2) == 2;
      assert c == '3' ==> JsonText.HexValue(c) == Some(3) && AsNumber(3) == 3;
      assert c == '4' ==> JsonText.HexValue(c) == Some(4) && AsNumber(4) == 4;
    } else {
      UpperDigit(c);
    }
  }

  lemma UpperDigit(c: Byte)
    requires '5' <= c <= '9'
    ensures JsonText.HexValue(c).Some? && JsonText.HexValue(c).value < 16 && AsNumber(JsonText.HexValue(c).value) == c as int - 0x30
  {
    assert c == '5' ==> JsonText.HexValue(c) == Some(5) && AsNumber(5) == 5;
    assert c == '6' ==> JsonText.HexValue(c) == Some(6) && AsNumber(6) == 6;
    assert c == '7' ==> JsonText.HexValue(c) == Some(7) && AsNumber(7) == 7;
    assert c == '8' ==> JsonText.HexValue(c) == Some(8) && AsNumber(8) == 8;
    assert c == '9' ==> JsonText.HexValue(c) == Some(9) && AsNumber(9) == 9;
  }

  lemma NumberOfCapital(c: Byte)
    requires 'A' <= c <= 'F'
    ensures JsonText.HexValue(c).Some? && JsonText.HexValue(c).value < 16 && AsNumber(JsonText.HexValue(c).value) == c as int - 0x41 + 10
  {
    assert c == 'A' ==> JsonText.HexValue(c) == Some(10) && AsNumber(10) == 10;
    assert c == 'B' ==> JsonText.HexValue(c) == Some(11) && AsNumber(11) == 11;
    assert c == 'C' ==> JsonText.HexValue(c) == Some(12) && AsNumber(12) == 12;
    assert c == 'D' ==> JsonText.HexValue(c) == Some(13) && AsNumber(13) == 13;
    assert c == 'E' ==> JsonText.HexValue(c) == Some(14) && AsNumber(14) == 14;
    assert c == 'F' ==> JsonText.HexValue(c) == Some(15) && AsNumber(15) == 15;
  }

  lemma NumberOfLetter(c: Byte)
    requires 'a' <= c <= 'f'
    ensures JsonText.HexValue(c).Some? && JsonText.HexValue(c).value < 16 && AsNumber(JsonText.HexValue(c).value) == c as int - 0x61 + 10
  {
    assert c == 'a' ==> JsonText.HexValue(c) == Some(10) && AsNumber(10) == 10;
    assert c == 'b' ==> JsonText.HexValue(c) == Some(11) && AsNumber(11) == 11;
    assert c == 'c' ==> JsonText.HexValue(c) == Some(12) && AsNumber(12) == 12;
    assert c == 'd' ==> JsonText.HexValue(c) == Some(13) && AsNumber(13) == 13;
    assert c == 'e' ==> JsonText.HexValue(c) == Some(14) && AsNumber(14) == 14;
    assert c == 'f' ==> JsonText.HexValue(c) == Some(15) && AsNumber(15) == 15;
  }

  lemma NumberOfHex(c: Byte)
    requires IsHex(c)
    ensures JsonText.HexValue(c).Some? && JsonText.HexValue(c).value < 16 && AsNumber(JsonText.HexValue(c).value) == DigitOf(c)
  {
    hide JsonText.HexValue, AsNumber;
    if D.IsDigit(c) {
      NumberOfDigit(c);
    } else if c <= 'F' {
      NumberOfCapital(c);
    } else {
      NumberOfLetter(c);
    }
  }

  lemma Digits4(h0: Utf.Unit, h1: Utf.Unit, h2: Utf.Unit, h3: Utf.Unit)
    requires h0 < 16 && h1 < 16 && h2 < 16 && h3 < 16
    ensures AsNumber(JsonText.Join4(h0, h1, h2, h3)) == 0x1000 * AsNumber(h0) + 0x100 * AsNumber(h1) + 0x10 * AsNumber(h2) + AsNumber(h3)
    ensures JsonText.Join4(h0, h1, h2, h3) <= 0xFFFF
  {
    hide AsNumber;
    HexValue(h0, h1, h2, h3);
  }

  /** Four hexadecimal digits have their value. */
  lemma HexIs(s: String)
    requires |s| >= 4 && FourDigits(s[..4])
    ensures JsonText.HexEscape(s).Some? && JsonText.HexEscape(s).value <= 0xFFFF
    ensures AsNumber(JsonText.HexEscape(s).value) == HexNumber(s[..4])
  {
    var h := s[..4];
    assert h[0] == s[0] && h[1] == s[1] && h[2] == s[2] && h[3] == s[3];
    hide IsHex, DigitOf, JsonText.HexValue, JsonText.Join4, AsNumber;
    NumberOfHex(s[0]);
    NumberOfHex(s[1]);
    NumberOfHex(s[2]);
    NumberOfHex(s[3]);
    Digits4(JsonText.HexValue(s[0]).value, JsonText.HexValue(s[1]).value, JsonText.HexValue(s[2]).value, JsonText.HexValue(s[3]).value);
  }

  /** A unit is a high surrogate if its value is one. */
  lemma HighByNumber(v: Utf.Unit)
    requires v <= 0xFFFF
    ensures 0xD800 <= v <= 0xDBFF <==> 0xD800 <= AsNumber(v) <= 0xDBFF
  {
    hide AsNumber;
    var s := TopSix(v);
  }

  lemma UnitOfEscape(s: String)
    requires |s| >= 6 && UnicodeEscape(s[..6])
    ensures s[0] == '\\' && s[1] == 'u' && FourDigits(s[2..6])
    ensures JsonText.HexEscape(s[2..]).Some? && AsNumber(JsonText.HexEscape(s[2..]).value) == HexNumber(s[2..6])
    ensures JsonText.HexEscape(s[2..]).value <= 0xFFFF
    ensures IsHigh(s[2..6]) <==> 0xD800 <= JsonText.HexEscape(s[2..]).value <= 0xDBFF
  {
    var e := s[..6];
    assert e[0] == s[0] && e[1] == s[1] && e[2] == s[2] && e[3] == s[3] && e[4] == s[4] && e[5] == s[5];
    assert s[2..][..4] == s[2..6];
    hide IsHex, DigitOf, HexNumber, AsNumber, JsonText.HexEscape;
    HexIs(s[2..]);
    HighByNumber(JsonText.HexEscape(s[2..]).value);
  }

  // ---- code points as text ----

  lemma ByteNumber(u: Utf.Unit)
    requires u <= 0xFF
    ensures JsonText.ByteOf(u) as int == AsNumber(u)
  {
    JsonText.CodeOfByte(u);
    JsonText.CodeIs(JsonText.ByteOf(u));
    hide JsonText.ByteOf, JsonText.Code;
  }

  lemma EncodedIsSmall(c: Utf.Unit)
    requires c <= 0x10FFFF
    ensures forall i :: 0 <= i < |Utf.Encode8(c)| ==> Utf.Encode8(c)[i] <= 0xFF
  {}

  /** The reader writes code points in UTF-8. */
  lemma PointText(c: Utf.Unit)
    requires c <= 0x10FFFF
    ensures AsNumber(c) <= 0x10_FFFF && JsonText.Bytes(JsonText.CodePointToUtf8(c)) == OctetText(AsNumber(c))
  {
    JsonText.CodePointToUtf8Is(c);
    EncodedIsSmall(c);
    EncodeIsOctets(c);
    hide JsonText.CodePointToUtf8, Utf.Encode8, Octets, AsNumber, JsonText.ByteOf;
    var u := Utf.Encode8(c);
    OctetsAreBytes(AsNumber(c));
    forall i | 0 <= i < |u|
      ensures JsonText.Bytes(u)[i] == OctetText(AsNumber(c))[i]
    {
      assert Numbers(u)[i] == AsNumber(u[i]);
      ByteNumber(u[i]);
    }
  }

  /** Two escapes as one code point. */
  lemma PairIs(u: Utf.Unit, v: Utf.Unit)
    requires 0xD800 <= u <= 0xDBFF && v <= 0xFFFF
    ensures 0xD800 <= AsNumber(u) <= 0xDBFF && AsNumber(JsonText.Combined(u, v)) == PairPoint(AsNumber(u), AsNumber(v))
    ensures JsonText.Combined(u, v) <= 0x10FFFF
  {
    CombinedIs(u, v);
    hide AsNumber, JsonText.Combined, Joined, LowTen;
    PairValue(u, v);
    LowSurrogateMod(AsNumber(v));
  }

  lemma CombinedIs(u: Utf.Unit, v: Utf.Unit)
    ensures JsonText.Combined(u, v) == Joined(LowTen(u), LowTen(v)) && JsonText.Combined(u, v) <= 0x10FFFF
  {}

  lemma LowSurrogateMod(v: nat)
    ensures 0xDC00 <= v <= 0xDFFF ==> v % 0x400 == v - 0xDC00
  {}

  // ---- escapes of code units in strings ----

  /** What the reader makes of the escape of a unit that is no high surrogate. */
  lemma UnicodeStep(s: String, u: Utf.Unit)
    requires |s| >= 6 && s[0] == '\\' && s[1] == 'u' && JsonText.HexEscape(s[2..]) == Some(u) && !(0xD800 <= u <= 0xDBFF)
    ensures JsonText.DecodeStep(s) == Some((JsonText.Bytes(JsonText.CodePointToUtf8(u)), 6))
  {
    hide JsonText.HexEscape, JsonText.CodePointToUtf8, JsonText.Bytes;
  }

  lemma BehindUnicode(s: String)
    requires |s| >= 6 && UnicodeEscape(s[..6]) && !IsHigh(s[2..6])
    ensures FourDigits(s[2..6]) && HexNumber(s[2..6]) <= 0xFFFF
    ensures JsonText.DecodeBody(s) == Prefixed(OctetText(HexNumber(s[2..6])), JsonText.DecodeBody(s[6..]))
    ensures Meaning(s) == OctetText(HexNumber(s[2..6])) + Meaning(s[6..]) && (Readable(s) <==> Readable(s[6..]))
  {
    UnitOfEscape(s);
    HexNumberIsSmall(s[2..6]);
    hide UnicodeEscape, IsHigh, FourDigits, HexNumber, JsonText.HexEscape, OctetText, JsonText.DecodeBody, JsonText.DecodeStep,
      JsonText.CodePointToUtf8, JsonText.Bytes, AsNumber;
    var u := JsonText.HexEscape(s[2..]).value;
    UnicodeStep(s, u);
    PointText(u);
    DecodeOne(s, OctetText(HexNumber(s[2..6])), 6);
  }

  lemma PairStep(s: String, u: Utf.Unit, v: Utf.Unit)
    requires |s| >= 12 && s[0] == '\\' && s[1] == 'u' && s[6] == '\\' && s[7] == 'u' && 0xD800 <= u <= 0xDBFF
    requires JsonText.HexEscape(s[2..]) == Some(u) && JsonText.HexEscape(s[8..]) == Some(v)
    ensures JsonText.DecodeStep(s) == Some((JsonText.Bytes(JsonText.CodePointToUtf8(JsonText.Combined(u, v))), 12))
  {
    var t := s[2..];
    assert t[6..] == s[8..] && t[4] == s[6] && t[5] == s[7];
    hide JsonText.HexEscape, JsonText.CodePointToUtf8, JsonText.Bytes, JsonText.Combined;
  }

  lemma BehindPair(s: String)
    requires |s| >= 12 && UnicodeEscape(s[..6]) && IsHigh(s[2..6]) && UnicodeEscape(s[6..12])
    ensures FourDigits(s[8..12])
    ensures var c := OctetText(PairPoint(HexNumber(s[2..6]), HexNumber(s[8..12])));
            JsonText.DecodeBody(s) == Prefixed(c, JsonText.DecodeBody(s[12..])) && Meaning(s) == c + Meaning(s[12..])
    ensures Readable(s) <==> Readable(s[12..])
  {
    UnitOfEscape(s);
    var r := s[6..];
    assert r[..6] == s[6..12] && r[2..] == s[8..] && r[2..6] == s[8..12] && r[0] == s[6] && r[1] == s[7];
    UnitOfEscape(r);
    PairUnfolds(s);
    hide UnicodeEscape, FourDigits, HexNumber, JsonText.HexEscape, OctetText, PairPoint, JsonText.DecodeBody, JsonText.DecodeStep,
      JsonText.CodePointToUtf8, JsonText.Bytes, JsonText.Combined, AsNumber, Meaning, Readable;
    var u, v := JsonText.HexEscape(s[2..]).value, JsonText.HexEscape(s[8..]).value;
    PairStep(s, u, v);
    PairIs(u, v);
    PointText(JsonText.Combined(u, v));
    DecodeOne(s, OctetText(PairPoint(HexNumber(s[2..6]), HexNumber(s[8..12]))), 12);
  }

  lemma PairUnfolds(s: String)
    requires |s| >= 12 && s[0] == '\\' && s[1] == 'u' && UnicodeEscape(s[..6]) && IsHigh(s[2..6]) && UnicodeEscape(s[6..12]) && FourDigits(s[8..12])
    ensures Meaning(s) == OctetText(PairPoint(HexNumber(s[2..6]), HexNumber(s[8..12]))) + Meaning(s[12..])
    ensures Readable(s) <==> Readable(s[12..])
  {
    hide UnicodeEscape, HexNumber, OctetText, PairPoint;
  }

  // ---- escapes that cannot be read ----

  lemma NotHex(c: Byte)
    requires !IsHex(c)
    ensures JsonText.HexValue(c).None?
  {
    JsonText.CodeIs(c);
    HexCodes(c);
    hide JsonText.Code;
  }

  lemma HexCodes(c: Byte)
    ensures 0x30 <= JsonText.Code(c) <= 0x39 <==> '0' <= c <= '9'
    ensures 0x41 <= JsonText.Code(c) <= 0x46 <==> 'A' <= c <= 'F'
    ensures 0x61 <= JsonText.Code(c) <= 0x66 <==> 'a' <= c <= 'f'
  {
    JsonText.CodeIs(c);
    hide JsonText.Code;
  }

  lemma NoHex(s: String)
    requires |s| < 4 || !FourDigits(s[..4])
    ensures JsonText.HexEscape(s).None?
  {
    if |s| >= 4 {
      var h := s[..4];
      assert h[0] == s[0] && h[1] == s[1] && h[2] == s[2] && h[3] == s[3];
      hide IsHex, JsonText.HexValue, JsonText.Join4;
      if !IsHex(s[0]) {
        NotHex(s[0]);
      } else if !IsHex(s[1]) {
        NotHex(s[1]);
      } else if !IsHex(s[2]) {
        NotHex(s[2]);
      } else {
        NotHex(s[3]);
      }
    }
  }

  /** The escape that the text starts with is no escape of section 7, or a high surrogate that none follows. */
  predicate Broken(s: String) {
    && s != [] && s[0] == '\\'
    && ( || |s| < 2 || (s[1] != 'u' && !ShortEscape(s[..2])) || (s[1] == 'u' && (|s| < 6 || !UnicodeEscape(s[..6])))
         || (s[1] == 'u' && IsHigh(s[2..6]) && (|s| < 12 || !UnicodeEscape(s[6..12]))))
  }

  lemma BrokenStep(s: String)
    requires Broken(s)
    ensures JsonText.DecodeStep(s).None?
  {
    if |s| >= 2 {
      var e := s[..2];
      assert e[0] == s[0] && e[1] == s[1];
      if s[1] == 'u' {
        BrokenUnicode(s);
      } else {
        hide UnicodeEscape, IsHigh;
      }
    }
  }

  lemma NotFourDigits(s: String)
    requires s != [] && s[0] == '\\' && |s| >= 2 && s[1] == 'u' && (|s| < 6 || !UnicodeEscape(s[..6]))
    ensures |s[2..]| < 4 || !FourDigits(s[2..][..4])
  {
    if |s| >= 6 {
      var e, h := s[..6], s[2..][..4];
      assert e[0] == s[0] && e[1] == s[1] && e[2] == h[0] && e[3] == h[1] && e[4] == h[2] && e[5] == h[3];
    }
  }

  lemma BrokenUnicode(s: String)
    requires Broken(s) && |s| >= 2 && s[1] == 'u'
    ensures JsonText.DecodeStep(s).None?
  {
    if |s| < 6 || !UnicodeEscape(s[..6]) {
      NotFourDigits(s);
      hide UnicodeEscape, IsHigh, FourDigits, Broken;
      NoHex(s[2..]);
      hide JsonText.HexEscape, JsonText.CodePointToUtf8, JsonText.Bytes;
    } else {
      UnitOfEscape(s);
      hide UnicodeEscape, IsHigh, FourDigits, HexNumber, AsNumber;
      AloneStep(s, JsonText.HexEscape(s[2..]).value);
    }
  }

  /** A high surrogate that no escape follows. */
  lemma AloneStep(s: String, u: Utf.Unit)
    requires |s| >= 6 && s[0] == '\\' && s[1] == 'u' && JsonText.HexEscape(s[2..]) == Some(u) && 0xD800 <= u <= 0xDBFF
    requires |s| < 12 || !UnicodeEscape(s[6..12])
    ensures JsonText.DecodeStep(s).None?
  {
    var t := s[2..];
    hide UnicodeEscape, JsonText.HexEscape, JsonText.CodePointToUtf8, JsonText.Bytes, JsonText.Combined, FourDigits;
    if |s| >= 12 && s[6] == '\\' && s[7] == 'u' {
      var r := s[6..];
      assert r[..6] == s[6..12] && r[2..] == s[8..] && r[0] == s[6] && r[1] == s[7] && t[6..] == s[8..];
      NotFourDigits(r);
      NoHex(s[8..]);
      assert t[4] == s[6] && t[5] == s[7];
    } else if |s| >= 12 {
      assert t[4] == s[6] && t[5] == s[7];
    }
  }

  lemma NoStep(s: String)
    requires s != [] && s[0] != '"' && JsonText.DecodeStep(s).None?
    ensures JsonText.DecodeBody(s).None?
  {
    hide JsonText.DecodeStep;
  }

  // ---- whole strings ----

  /** Whatever is between the quotes: it is decoded if and only if its escapes can be read, and then to what it means. */
  lemma {:induction false} DecodedAsMeant(s: String)
    ensures JsonText.DecodeBody(s) == if Readable(s) then Some(Meaning(s)) else None
    decreases |s|
  {
    if s != [] && s[0] != '"' {
      if Broken(s) {
        hide UnicodeEscape, ShortEscape, IsHigh, JsonText.DecodeBody, JsonText.DecodeStep;
        BrokenStep(s);
        NoStep(s);
      } else {
        hide JsonText.DecodeBody, Readable, Meaning, UnicodeEscape, ShortEscape, IsHigh, OctetText, PairPoint, HexNumber, ShortMeaning;
        if s[0] != '\\' {
          BehindByte(s);
          DecodedAsMeant(s[1..]);
        } else if s[1] != 'u' {
          BehindShort(s);
          DecodedAsMeant(s[2..]);
        } else if !IsHigh(s[2..6]) {
          BehindUnicode(s);
          DecodedAsMeant(s[6..]);
        } else {
          BehindPair(s);
          DecodedAsMeant(s[12..]);
        }
      }
    }
  }

  // ---- strings of section 7 ----

  /** The characters behind a prefix that starts like an escape. */
  lemma EscapeFirst(s: String)
    requires s != [] && RfcChars(s) && s[0] == '\\'
    ensures |s| >= 2
    ensures if s[1] == 'u' then |s| >= 6 && UnicodeEscape(s[..6]) && RfcChars(s[6..]) else ShortEscape(s[..2]) && RfcChars(s[2..])
  {
    var k :| 0 < k <= |s| && RfcChar(s[..k]) && RfcChars(s[k..]);
    assert s[..k][0] == s[0];
    assert k > 1 ==> s[..k][1] == s[1];
    hide RfcChars;
  }

  lemma NextEscape(s: String)
    requires |s| >= 6 && RfcChars(s[6..])
    ensures |s| >= 12 && UnicodeEscape(s[6..12]) ==> RfcChars(s[12..])
  {
    var r := s[6..];
    if |s| >= 12 && UnicodeEscape(s[6..12]) {
      assert r[0] == s[6..12][0] && r[1] == s[6..12][1];
      EscapeFirst(r);
      assert r[..6] == s[6..12] && r[6..] == s[12..];
    }
  }

  lemma {:induction false} PlainIsReadable(c: String, r: String)
    requires JsonText.Ordinary(c)
    ensures (Readable(c + r) <==> Readable(r)) && (Paired(c + r) <==> Paired(r))
    decreases |c|
  {
    if c == [] {
      assert c + r == r;
    } else {
      assert (c + r)[0] == c[0] && (c + r)[1..] == c[1..] + r;
      PlainIsReadable(c[1..], r);
    }
  }

  lemma PlainFirst(s: String) returns (k: nat)
    requires s != [] && RfcChars(s) && s[0] != '\\'
    ensures 0 < k <= |s| && RfcChars(s[k..])
    ensures (Readable(s) <==> Readable(s[k..])) && (Paired(s) <==> Paired(s[k..]))
  {
    k :| 0 < k <= |s| && RfcChar(s[..k]) && RfcChars(s[k..]);
    assert s[..k][0] == s[0] && Unescaped(s[..k]);
    hide Unescaped, RfcChars, Paired, Readable;
    UnescapedIsOrdinary(s[..k]);
    PlainIsReadable(s[..k], s[k..]);
    assert s[..k] + s[k..] == s;
  }

  /** A string of section 7 can be read if and only if its high surrogates are followed by an escape. */
  lemma {:induction false} ReadableIffPaired(s: String)
    requires RfcChars(s)
    ensures Readable(s) <==> Paired(s)
    decreases |s|
  {
    if s != [] {
      hide RfcChars, UnicodeEscape, ShortEscape, IsHigh;
      if s[0] != '\\' {
        var k := PlainFirst(s);
        ReadableIffPaired(s[k..]);
      } else {
        EscapeFirst(s);
        if s[1] != 'u' {
          ReadableIffPaired(s[2..]);
        } else if !IsHigh(s[2..6]) {
          ReadableIffPaired(s[6..]);
        } else {
          NextEscape(s);
          if |s| >= 12 && UnicodeEscape(s[6..12]) {
            ReadableIffPaired(s[12..]);
          }
        }
      }
    }
  }
}
