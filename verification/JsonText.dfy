/** Quoted strings of jsoncpp/jsoncpp.cpp: printing with escapes, and decoding them. */
module JsonText {
  import opened CStrings
  import opened Wrappers
  import Utf

  // ---- bytes as code units ----

  function Widened(b: bv8): (u: Utf.Unit)
    ensures u <= 0xFF
  {
    b as bv32
  }

  function Narrowed(u: Utf.Unit): bv8 { (u & 0xFF) as bv8 }

  function Code(c: Byte): (u: Utf.Unit)
    ensures u <= 0xFF
  {
    Widened((c as int) as bv8)
  }

  function ByteOf(u: Utf.Unit): Byte { (Narrowed(u) as int) as char }

  function Codes(s: String): (r: seq<Utf.Unit>)
    ensures |r| == |s|
  {
    seq(|s|, i requires 0 <= i < |s| => Code(s[i]))
  }

  function Bytes(u: seq<Utf.Unit>): (s: String)
    ensures |s| == |u|
  {
    seq(|u|, i requires 0 <= i < |u| => ByteOf(u[i]))
  }

  lemma NarrowWide(u: Utf.Unit, b: bv8)
    ensures Narrowed(Widened(b)) == b
    ensures u <= 0xFF ==> Widened(Narrowed(u)) == u
  {}

  lemma ByteOfCode(c: Byte)
    ensures ByteOf(Code(c)) == c
  {
    hide Widened, Narrowed;
    OctetIs(c as int);
    NarrowWide(0, (c as int) as bv8);
  }

  lemma CodeOfByte(u: Utf.Unit)
    requires u <= 0xFF
    ensures Code(ByteOf(u)) == u
  {
    hide Widened, Narrowed;
    NarrowWide(u, 0);
    ByteOfBits(Narrowed(u));
  }

  lemma BytesOfCodes(s: String)
    ensures Bytes(Codes(s)) == s && Utf.Sized(Utf.Utf8, Codes(s))
  {
    forall i | 0 <= i < |s|
      ensures Bytes(Codes(s))[i] == s[i]
    {
      ByteOfCode(s[i]);
    }
  }

  lemma CodesOfBytes(u: seq<Utf.Unit>)
    requires Utf.Sized(Utf.Utf8, u)
    ensures Codes(Bytes(u)) == u
  {
    forall i | 0 <= i < |u|
      ensures Codes(Bytes(u))[i] == u[i]
    {
      assert Utf.Fits(Utf.Utf8, u[i]);
      CodeOfByte(u[i]);
    }
  }

  lemma CodeOrder(c: Byte)
    ensures Code(c) < 0x80 <==> c as int < 0x80
    ensures Code(c) < 0x20 <==> c as int < 0x20
  {
    hide Code;
    CodeIs(c);
  }

  lemma CodeIs(c: Byte)
    ensures Code(c) as int == c as int
  {
    OctetIs(c as int);
  }

  ghost predicate ValidUtf8(s: String) {
    Utf.CodePoints(Utf.Utf8, Codes(s)).Some?
  }

  // ---- hexadecimal escapes ----

  /** A digit of the table `hex2`. */
  function HexDigit(n: Utf.Unit): Byte
    requires n < 16
  {
    ByteOf(if n < 10 then 0x30 + n else 0x57 + n)
  }

  /** Digits of either case. */
  function HexValue(c: Byte): Option<Utf.Unit> {
    var x := Code(c);
    if 0x30 <= x <= 0x39 then Some(x - 0x30)
    else if 0x61 <= x <= 0x66 then Some(x - 0x61 + 10)
    else if 0x41 <= x <= 0x46 then Some(x - 0x41 + 10)
    else None
  }

  /** `toHex16Bit`, behind the escape. */
  function Hex(x: Utf.Unit): (s: String)
    ensures |s| == 6
  {
    ['\\', 'u', HexDigit((x >> 12) & 15), HexDigit((x >> 8) & 15), HexDigit((x >> 4) & 15), HexDigit(x & 15)]
  }

  function Join4(h0: Utf.Unit, h1: Utf.Unit, h2: Utf.Unit, h3: Utf.Unit): Utf.Unit {
    ((h0 * 16 + h1) * 16 + h2) * 16 + h3
  }

  /** `decodeUnicodeEscapeSequence`: four digits. */
  function HexEscape(s: String): Option<Utf.Unit> {
    if |s| < 4 then None else
      var h0 :- HexValue(s[0]);
      var h1 :- HexValue(s[1]);
      var h2 :- HexValue(s[2]);
      var h3 :- HexValue(s[3]);
      Some(Join4(h0, h1, h2, h3))
  }

  lemma DigitValue(n: Utf.Unit)
    requires n < 16
    ensures HexValue(HexDigit(n)) == Some(n)
    ensures HexDigit(n) != '"' && HexDigit(n) != '\\'
  {
    hide Code, ByteOf;
    CodeOfByte(if n < 10 then 0x30 + n else 0x57 + n);
    SpecialCodes();
  }

  lemma SpecialCodes()
    ensures Code('"') == 0x22 && Code('\\') == 0x5C
  {}

  lemma NibblesJoin(x: Utf.Unit)
    requires x <= 0xFFFF
    ensures (x >> 12) & 15 < 16 && (x >> 8) & 15 < 16 && (x >> 4) & 15 < 16 && x & 15 < 16
    ensures Join4((x >> 12) & 15, (x >> 8) & 15, (x >> 4) & 15, x & 15) == x
  {}

  lemma HexEscapes(x: Utf.Unit, rest: String)
    requires x <= 0xFFFF
    ensures HexEscape(Hex(x)[2..] + rest) == Some(x)
  {
    hide HexDigit, HexValue, Join4;
    NibblesJoin(x);
    DigitValue((x >> 12) & 15);
    DigitValue((x >> 8) & 15);
    DigitValue((x >> 4) & 15);
    DigitValue(x & 15);
  }

  // ---- code points ----

  const REPLACEMENT: Utf.Unit := 0xFFFD

  function Two(a: Utf.Unit, b: Utf.Unit): Utf.Unit { ((a & 0x1F) << 6) | (b & 0x3F) }

  function Three(a: Utf.Unit, b: Utf.Unit, c: Utf.Unit): Utf.Unit {
    ((a & 0x0F) << 12) | ((b & 0x3F) << 6) | (c & 0x3F)
  }

  function Four(a: Utf.Unit, b: Utf.Unit, c: Utf.Unit, d: Utf.Unit): Utf.Unit {
    ((a & 0x07) << 18) | ((b & 0x3F) << 12) | ((c & 0x3F) << 6) | (d & 0x3F)
  }

  /** `utf8ToCodepoint`: lenient about trailing bytes; how many bytes were taken. */
  function ToCodepoint(u: seq<Utf.Unit>): (r: (Utf.Unit, nat))
    requires u != []
    ensures 1 <= r.1 <= |u| && r.1 <= 4
  {
    var first := u[0];
    if first < 0x80 then (first, 1)
    else if first < 0xE0 then
      if |u| < 2 then (REPLACEMENT, 1) else
        var c := Two(first, u[1]);
        (if c < 0x80 then REPLACEMENT else c, 2)
    else if first < 0xF0 then
      if |u| < 3 then (REPLACEMENT, 1) else
        var c := Three(first, u[1], u[2]);
        (if 0xD800 <= c <= 0xDFFF || c < 0x800 then REPLACEMENT else c, 3)
    else if first < 0xF8 then
      if |u| < 4 then (REPLACEMENT, 1) else
        var c := Four(first, u[1], u[2], u[3]);
        (if c < 0x10000 then REPLACEMENT else c, 4)
    else (REPLACEMENT, 1)
  }

  /** `codePointToUTF8`: nothing beyond 10FFFF. */
  function CodePointToUtf8(cp: Utf.Unit): seq<Utf.Unit> {
    if cp <= 0x7F then [cp]
    else if cp <= 0x7FF then [0xC0 | (0x1F & (cp >> 6)), 0x80 | (0x3F & cp)]
    else if cp <= 0xFFFF then [0xE0 | (0xF & (cp >> 12)), 0x80 | (0x3F & (cp >> 6)), 0x80 | (0x3F & cp)]
    else if cp <= 0x10FFFF then
      [0xF0 | (0x7 & (cp >> 18)), 0x80 | (0x3F & (cp >> 12)), 0x80 | (0x3F & (cp >> 6)), 0x80 | (0x3F & cp)]
    else []
  }

  lemma CodePointToUtf8Is(cp: Utf.Unit)
    requires cp <= 0x10FFFF
    ensures CodePointToUtf8(cp) == Utf.Encode8(cp)
  {}

  /** Where a text starts with a character of RFC 3629, the lenient reading is the strict one. */
  lemma LenientIsStrict(u: seq<Utf.Unit>)
    requires u != [] && Utf.Sized(Utf.Utf8, u) && Utf.Valid(Utf.Decode8(u).0)
    ensures ToCodepoint(u) == Utf.Decode8(u)
  {
    Utf.Decode8Accepts(u, 0);
    var (c, n) := Utf.Decode8(u);
    hide Utf.Decode8, Utf.Utf8Char;
    assert forall i :: 0 <= i < n ==> u[i] == Utf.Encode8(c)[i];
    LenientInverse(c, u);
  }

  lemma TwoBack(c: Utf.Unit)
    requires 0x80 <= c <= 0x7FF
    ensures 0x80 <= (c >> 6) | 0xC0 < 0xE0
    ensures Two((c >> 6) | 0xC0, (c & 0x3F) | 0x80) == c
  {}

  lemma ThreeBack(c: Utf.Unit)
    requires 0x800 <= c <= 0xFFFF
    ensures 0xE0 <= (c >> 12) | 0xE0 < 0xF0
    ensures Three((c >> 12) | 0xE0, ((c >> 6) & 0x3F) | 0x80, (c & 0x3F) | 0x80) == c
  {}

  lemma FourBack(c: Utf.Unit)
    requires 0x10000 <= c <= 0x10FFFF
    ensures 0xF0 <= (c >> 18) | 0xF0 < 0xF8
    ensures Four((c >> 18) | 0xF0, ((c >> 12) & 0x3F) | 0x80, ((c >> 6) & 0x3F) | 0x80, (c & 0x3F) | 0x80) == c
  {}

  lemma LenientInverse(c: Utf.Unit, u: seq<Utf.Unit>)
    requires Utf.Valid(c) && |u| >= Utf.Width8(c) && u[..Utf.Width8(c)] == Utf.Encode8(c)
    ensures ToCodepoint(u) == (c, Utf.Width8(c))
  {
    hide Two, Three, Four;
    if 0x80 <= c <= 0x7FF {
      TwoBack(c);
    } else if 0x800 <= c <= 0xFFFF {
      ThreeBack(c);
    } else if 0x10000 <= c {
      FourBack(c);
    }
    assert forall i :: 0 <= i < Utf.Width8(c) ==> u[i] == u[..Utf.Width8(c)][i];
  }

  // ---- printing ----

  /** The letter of a two-character escape. */
  function Short(c: Byte): Option<Byte> {
    match c as int
    case 34 => Some('"')
    case 92 => Some('\\')
    case 8 => Some('b')
    case 12 => Some('f')
    case 10 => Some('n')
    case 13 => Some('r')
    case 9 => Some('t')
    case _ => None
  }

  /** What is printed for a code point; four-byte sequences reach up to 1FFFFF. */
  function EscapePoint(c: Utf.Unit): String
    requires c <= 0x1F_FFFF
  {
    if c < 0x20 then Hex(c)
    else if c < 0x80 then [ByteOf(c)]
    else if c < 0x10000 then Hex(c)
    else Hex(High(c)) + Hex(Low(c))
  }

  function TopTen(d: Utf.Unit): Utf.Unit { (d >> 10) & 0x3FF }

  function LowTen(d: Utf.Unit): Utf.Unit { d & 0x3FF }

  /** The surrogates for 20 bits. */
  function HighSurrogate(h: Utf.Unit): Utf.Unit { 0xD800 + h }

  function LowSurrogate(l: Utf.Unit): Utf.Unit { 0xDC00 + l }

  function High(c: Utf.Unit): Utf.Unit { HighSurrogate(TopTen(c - 0x10000)) }

  function Low(c: Utf.Unit): Utf.Unit { LowSurrogate(LowTen(c - 0x10000)) }

  /** The text printed for the beginning of `s`, and how many bytes that takes. */
  function Step(s: String, emitUtf8: bool): (r: (String, nat))
    requires s != []
    ensures 1 <= r.1 <= |s|
  {
    match Short(s[0])
    case Some(e) => (['\\', e], 1)
    case None =>
      if emitUtf8 then (if Code(s[0]) < 0x20 then Hex(Code(s[0])) else [s[0]], 1) else
        var (c, n) := ToCodepoint(Codes(s));
        CodepointIsSmall(Codes(s));
        (EscapePoint(c), n)
  }

  lemma CodepointIsSmall(u: seq<Utf.Unit>)
    requires u != []
    ensures ToCodepoint(u).0 <= 0x1F_FFFF && !(0xD800 <= ToCodepoint(u).0 <= 0xDFFF)
  {}

  function Escape(s: String, emitUtf8: bool): String {
    if s == [] then [] else
      var (piece, n) := Step(s, emitUtf8);
      piece + Escape(s[n..], emitUtf8)
  }

  /** `valueToQuotedStringN`. */
  function Quote(s: String, emitUtf8: bool): String { "\"" + Escape(s, emitUtf8) + "\"" }

  // ---- reading ----

  function Unshort(e: Byte): Option<Byte> {
    match e
    case '"' => Some('"')
    case '/' => Some('/')
    case '\\' => Some('\\')
    case 'b' => Some(8 as char)
    case 'f' => Some(12 as char)
    case 'n' => Some('\n')
    case 'r' => Some('\r')
    case 't' => Some('\t')
    case _ => None
  }

  /** `decodeUnicodeCodePoint`, behind `\u`: the code point and the number of characters. */
  function DecodeUnicode(s: String): (r: Option<(Utf.Unit, nat)>)
    ensures r.Some? ==> r.value.1 <= |s|
  {
    var u :- HexEscape(s);
    if 0xD800 <= u <= 0xDBFF then
      if |s| - 4 < 6 then None
      else if s[4] == '\\' && s[5] == 'u' then
        var v :- HexEscape(s[6..]);
        Some((Combined(u, v), 10))
      else None
    else Some((u, 4))
  }

  function Combined(u: Utf.Unit, v: Utf.Unit): Utf.Unit { Pair20(LowTen(u), LowTen(v)) }

  function Pair20(h: Utf.Unit, l: Utf.Unit): Utf.Unit { 0x10000 + (h << 10) + l }

  /** What the beginning of a string's body stands for, and its length. */
  function DecodeStep(body: String): (r: Option<(String, nat)>)
    requires body != []
    ensures r.Some? ==> 1 <= r.value.1 <= |body|
  {
    if body[0] != '\\' then Some(([body[0]], 1))
    else if |body| == 1 then None
    else if body[1] == 'u' then
      var (c, n) :- DecodeUnicode(body[2..]);
      Some((Bytes(CodePointToUtf8(c)), 2 + n))
    else
      var c :- Unshort(body[1]);
      Some(([c], 2))
  }

  /** `decodeString` on what is between the quotes; a quote in there ends it. */
  function DecodeBody(body: String): Option<String>
    decreases |body|
  {
    if body == [] || body[0] == '"' then Some([]) else
      var (piece, n) :- DecodeStep(body);
      var rest :- DecodeBody(body[n..]);
      Some(piece + rest)
  }

  /** `readString`, behind the opening quote: whether there is a closing one, and the number of characters. */
  function StringEnd(s: String, quote: Byte): (r: (bool, nat))
    ensures r.1 <= |s|
    decreases |s|
  {
    if s == [] then (false, 0)
    else if s[0] == '\\' then
      var k := if |s| > 1 then 2 else 1;
      var (ok, n) := StringEnd(s[k..], quote);
      (ok, n + k)
    else if s[0] == quote then (true, 1)
    else
      var (ok, n) := StringEnd(s[1..], quote);
      (ok, n + 1)
  }

  // ---- reading inverts printing ----

  /** The code point that is read back. */
  function PointOf(c: Utf.Unit): Utf.Unit {
    if c < 0x10000 then c else Beyond(c - 0x10000)
  }

  function Beyond(d: Utf.Unit): Utf.Unit { 0x10000 + (d & 0xF_FFFF) }

  /** What the piece printed first is read back as. */
  function StepText(s: String, emitUtf8: bool): String
    requires s != []
  {
    if emitUtf8 || Short(s[0]).Some? then [s[0]] else Bytes(Utf.Encode8(PointOf(ToCodepoint(Codes(s)).0)))
  }

  function Recoded(s: String, emitUtf8: bool): String {
    if s == [] then [] else StepText(s, emitUtf8) + Recoded(s[Step(s, emitUtf8).1..], emitUtf8)
  }

  lemma UnshortShort(c: Byte)
    requires Short(c).Some?
    ensures Unshort(Short(c).value) == Some(c) && Short(c).value != 'u'
  {}

  lemma TenBits(d: Utf.Unit)
    ensures TopTen(d) <= 0x3FF && LowTen(d) <= 0x3FF
  {}

  lemma SurrogateRange(h: Utf.Unit, l: Utf.Unit)
    requires h <= 0x3FF && l <= 0x3FF
    ensures 0xD800 <= HighSurrogate(h) <= 0xDBFF && 0xDC00 <= LowSurrogate(l) <= 0xDFFF
    ensures LowTen(HighSurrogate(h)) == h && LowTen(LowSurrogate(l)) == l
  {}

  lemma TwentyBits(d: Utf.Unit)
    ensures Pair20(TopTen(d), LowTen(d)) == Beyond(d)
    ensures Utf.Valid(Beyond(d))
  {}

  lemma PairBack(c: Utf.Unit)
    requires 0x10000 <= c
    ensures 0xD800 <= High(c) <= 0xDBFF && 0xDC00 <= Low(c) <= 0xDFFF
    ensures Combined(High(c), Low(c)) == PointOf(c)
    ensures Utf.Valid(PointOf(c))
  {
    hide Utf.Valid, TopTen, LowTen, HighSurrogate, LowSurrogate, Beyond, Pair20;
    var d := c - 0x10000;
    TenBits(d);
    SurrogateRange(TopTen(d), LowTen(d));
    TwentyBits(d);
  }

  lemma HexDecodes(x: Utf.Unit, t: String)
    requires x <= 0xFFFF && !(0xD800 <= x <= 0xDBFF)
    ensures DecodeStep(Hex(x) + t) == Some((Bytes(CodePointToUtf8(x)), 6))
  {
    hide HexEscape, CodePointToUtf8, HexDigit;
    HexEscapes(x, t);
    assert (Hex(x) + t)[2..] == Hex(x)[2..] + t;
  }

  lemma HexIs(x: Utf.Unit)
    ensures Hex(x)[0] == '\\' && Hex(x)[1] == 'u'
  {}

  lemma PairOfEscapes(h: String, l: String, t: String, u: Utf.Unit, v: Utf.Unit)
    requires |h| == |l| == 6 && l[0] == '\\' && l[1] == 'u' && 0xD800 <= u <= 0xDBFF
    requires HexEscape(h[2..] + (l + t)) == Some(u) && HexEscape(l[2..] + t) == Some(v)
    ensures DecodeUnicode(h[2..] + (l + t)) == Some((Combined(u, v), 10))
  {
    hide HexEscape, Combined;
    var s := h[2..] + (l + t);
    assert s[6..] == l[2..] + t;
    assert s[4] == l[0] && s[5] == l[1];
  }

  lemma UnicodeStep(body: String, c: Utf.Unit, n: nat)
    requires |body| >= 2 && body[0] == '\\' && body[1] == 'u' && DecodeUnicode(body[2..]) == Some((c, n))
    ensures DecodeStep(body) == Some((Bytes(CodePointToUtf8(c)), 2 + n))
  {
    hide DecodeUnicode, CodePointToUtf8, Bytes;
  }

  lemma PairDecodes(c: Utf.Unit, t: String)
    requires 0x10000 <= c <= 0x1F_FFFF
    ensures DecodeStep(Hex(High(c)) + Hex(Low(c)) + t) == Some((Bytes(CodePointToUtf8(PointOf(c))), 12))
  {
    hide HexEscape, CodePointToUtf8, HexDigit, High, Low, Combined, PointOf, Hex, DecodeUnicode, DecodeStep, Bytes, Utf.Valid;
    PairBack(c);
    var h, l := Hex(High(c)), Hex(Low(c));
    HexIs(High(c));
    HexIs(Low(c));
    HexEscapes(High(c), l + t);
    HexEscapes(Low(c), t);
    PairOfEscapes(h, l, t, High(c), Low(c));
    assert (h + l + t)[2..] == h[2..] + (l + t);
    assert (h + l + t)[0] == h[0] && (h + l + t)[1] == h[1];
    UnicodeStep(h + l + t, PointOf(c), 10);
  }

  lemma AsciiText(c: Byte)
    requires Code(c) < 0x80
    ensures Bytes(CodePointToUtf8(Code(c))) == [c]
  {
    ByteOfCode(c);
    hide Code, ByteOf;
    assert CodePointToUtf8(Code(c)) == [Code(c)];
  }

  lemma PlainCode(c: Byte)
    requires Short(c).None?
    ensures c != '"' && c != '\\'
  {}

  /** The first character of a text without an escape keeps being the first code. */
  lemma FirstCode(s: String)
    requires s != []
    ensures Codes(s)[0] == Code(s[0])
    ensures ToCodepoint(Codes(s)).0 < 0x80 ==> ToCodepoint(Codes(s)).0 == Code(s[0])
  {
    hide Code;
    SmallIsFirst(Codes(s));
  }

  lemma SmallIsFirst(u: seq<Utf.Unit>)
    requires u != []
    ensures ToCodepoint(u).0 < 0x80 ==> ToCodepoint(u).0 == u[0]
  {}

  /** One printed piece is read back as its text, whatever follows. */
  lemma StepDecodes(s: String, emitUtf8: bool, t: String)
    requires s != []
    ensures var (piece, n) := Step(s, emitUtf8);
            piece != [] && piece[0] != '"' && DecodeStep(piece + t) == Some((StepText(s, emitUtf8), |piece|))
  {
    var (piece, n) := Step(s, emitUtf8);
    if Short(s[0]).Some? {
      UnshortShort(s[0]);
      hide Unshort, Short;
      assert (piece + t)[0] == '\\' && (piece + t)[1] == Short(s[0]).value;
    } else if emitUtf8 {
      if Code(s[0]) < 0x20 {
        hide Code, DecodeStep, Short;
        HexStarts(Code(s[0]));
        HexDecodes(Code(s[0]), t);
        AsciiText(s[0]);
      } else {
        PlainCode(s[0]);
      }
    } else {
      CodepointIsSmall(Codes(s));
      PointDecodes(s, t);
    }
  }

  lemma HexStarts(x: Utf.Unit)
    ensures Hex(x)[0] == '\\'
  {}

  lemma PointDecodes(s: String, t: String)
    requires s != [] && Short(s[0]).None? && ToCodepoint(Codes(s)).0 <= 0x1F_FFFF
    ensures var c := ToCodepoint(Codes(s)).0;
            Reads(EscapePoint(c), Bytes(Utf.Encode8(PointOf(c))), t)
  {
    hide EscapePoint, ToCodepoint, Codes, PointOf, Utf.Encode8, Bytes, Reads;
    var c := ToCodepoint(Codes(s)).0;
    CodepointIsSmall(Codes(s));
    FirstCode(s);
    PointInRange(c);
    CodePointToUtf8Is(PointOf(c));
    if 0x20 <= c < 0x80 {
      RawReads(s[0], t);
    } else if c < 0x10000 {
      HexReads(c, t);
    } else {
      PairReads(c, t);
    }
  }

  /** `piece` decodes to `text` in front of `t`. */
  ghost predicate Reads(piece: String, text: String, t: String) {
    piece != [] && piece[0] != '"' && DecodeStep(piece + t) == Some((text, |piece|))
  }

  lemma RawReads(c: Byte, t: String)
    requires Short(c).None? && 0x20 <= Code(c) < 0x80
    ensures Reads(EscapePoint(Code(c)), Bytes(CodePointToUtf8(PointOf(Code(c)))), t)
  {
    PlainCode(c);
    AsciiText(c);
    ByteOfCode(c);
    hide ByteOf, Code, Bytes, CodePointToUtf8, Short, Hex;
    assert EscapePoint(Code(c)) == [c] && PointOf(Code(c)) == Code(c);
  }

  lemma HexReads(c: Utf.Unit, t: String)
    requires c < 0x10000 && !(0x20 <= c < 0x80) && !(0xD800 <= c <= 0xDFFF)
    ensures Reads(EscapePoint(c), Bytes(CodePointToUtf8(PointOf(c))), t)
  {
    HexStarts(c);
    HexDecodes(c, t);
    hide Hex, Bytes, CodePointToUtf8, DecodeStep, HexDigit, ByteOf;
    assert EscapePoint(c) == Hex(c) && PointOf(c) == c;
  }

  lemma PairReads(c: Utf.Unit, t: String)
    requires 0x10000 <= c <= 0x1F_FFFF
    ensures Reads(EscapePoint(c), Bytes(CodePointToUtf8(PointOf(c))), t)
  {
    HexStarts(High(c));
    PairDecodes(c, t);
    hide Hex, Bytes, CodePointToUtf8, DecodeStep, PointOf, High, Low;
    assert EscapePoint(c) == Hex(High(c)) + Hex(Low(c));
  }

  lemma PointInRange(c: Utf.Unit)
    requires c <= 0x1F_FFFF && !(0xD800 <= c <= 0xDFFF)
    ensures PointOf(c) <= 0x10FFFF && Utf.Valid(PointOf(c))
  {
    if c >= 0x10000 {
      PairBack(c);
    }
  }

  /** What is printed always decodes, to the recoded text. */
  lemma {:induction false} EscapeDecodes(s: String, emitUtf8: bool)
    ensures DecodeBody(Escape(s, emitUtf8)) == Some(Recoded(s, emitUtf8))
    decreases |s|
  {
    hide Step, StepText, DecodeStep;
    if s != [] {
      var (piece, n) := Step(s, emitUtf8);
      var rest := Escape(s[n..], emitUtf8);
      EscapeDecodes(s[n..], emitUtf8);
      StepDecodes(s, emitUtf8, rest);
      assert (piece + rest)[|piece|..] == rest;
    }
  }

  /** With `emitUTF8` every byte string is recoded as itself. */
  lemma {:induction false} RecodedEmitted(s: String)
    ensures Recoded(s, true) == s
    decreases |s|
  {
    if s != [] {
      assert Step(s, true).1 == 1;
      RecodedEmitted(s[1..]);
    }
  }

  lemma CodesConcat(a: String, b: String)
    ensures Codes(a + b) == Codes(a) + Codes(b)
  {
    hide Code;
  }

  lemma EncodedSized(p: Utf.Unit)
    requires Utf.Valid(p)
    ensures Codes(Bytes(Utf.Encode8(p))) == Utf.Encode8(p)
  {
    Utf.Encode8IsChar(p);
    CodesOfBytes(Utf.Encode8(p));
  }

  lemma ConsValid(p: Utf.Unit, r: String)
    requires Utf.Valid(p) && ValidUtf8(r)
    ensures ValidUtf8(Bytes(Utf.Encode8(p)) + r)
  {
    BytesOfCodes(r);
    EncodedSized(p);
    CodesConcat(Bytes(Utf.Encode8(p)), r);
    Utf.DecodeEncodes(Utf.Utf8, p, Codes(r));
    hide Utf.Encode8, Utf.Decode8, Codes, Bytes;
    var u := Utf.Encode8(p) + Codes(r);
    assert u[Utf.Width8(p)..] == Codes(r);
  }

  /** The code point whose encoding the first piece is read back as. */
  function StepPoint(s: String): Utf.Unit
    requires s != []
  {
    if Short(s[0]).Some? then Code(s[0]) else PointOf(ToCodepoint(Codes(s)).0)
  }

  lemma ShortIsAscii(c: Byte)
    requires Short(c).Some?
    ensures Code(c) < 0x80
  {
    CodeOrder(c);
  }

  lemma StepTextIs(s: String)
    requires s != []
    ensures Utf.Valid(StepPoint(s)) && StepText(s, false) == Bytes(Utf.Encode8(StepPoint(s)))
  {
    if Short(s[0]).Some? {
      ShortIsAscii(s[0]);
      AsciiText(s[0]);
      hide Code, Bytes, Short;
      CodePointToUtf8Is(Code(s[0]));
    } else {
      CodepointIsSmall(Codes(s));
      PointInRange(ToCodepoint(Codes(s)).0);
    }
  }

  lemma {:induction false} RecodedIsValid(s: String)
    ensures ValidUtf8(Recoded(s, false))
    decreases |s|
  {
    hide Step, StepText, Bytes, StepPoint, Utf.Encode8;
    if s != [] {
      var n := Step(s, false).1;
      RecodedIsValid(s[n..]);
      StepTextIs(s);
      hide ValidUtf8;
      ConsValid(StepPoint(s), Recoded(s[n..], false));
    }
  }

  lemma BeyondIs(c: Utf.Unit)
    requires 0x10000 <= c <= 0x10FFFF
    ensures Beyond(c - 0x10000) == c
  {}

  lemma AsciiIsStrict(u: seq<Utf.Unit>)
    requires u != [] && u[0] < 0x80
    ensures Utf.Decode8(u) == (u[0], 1)
  {}

  lemma PointIsItself(c: Utf.Unit)
    requires c <= 0x10FFFF
    ensures PointOf(c) == c
  {
    if c >= 0x10000 {
      BeyondIs(c);
    }
  }

  /** Where the text is valid, the first piece takes just its first character. */
  lemma StepIsStrict(s: String)
    requires s != [] && Utf.Valid(Utf.Decode8(Codes(s)).0)
    ensures StepPoint(s) == Utf.Decode8(Codes(s)).0 && Step(s, false).1 == Utf.Decode8(Codes(s)).1
  {
    var u := Codes(s);
    if Short(s[0]).Some? {
      ShortIsAscii(s[0]);
      AsciiIsStrict(u);
    } else {
      BytesOfCodes(s);
      LenientIsStrict(u);
      hide Utf.Decode8, ToCodepoint, PointOf, EscapePoint;
      PointIsItself(Utf.Decode8(u).0);
    }
  }

  /** A valid text starts with the character that the first piece stands for. */
  lemma ValidStep(s: String)
    requires s != [] && ValidUtf8(s)
    ensures var n := Step(s, false).1;
            StepText(s, false) == s[..n] && ValidUtf8(s[n..])
  {
    BytesOfCodes(s);
    var u := Codes(s);
    Utf.Decode8Accepts(u, 0);
    StepTextIs(s);
    hide Utf.Encode8, Step, StepText, StepPoint, Utf.Utf8Char, Utf.Decode8;
    var (c, n) := Utf.Decode8(u);
    StepIsStrict(s);
    assert u[n..] == Codes(s[n..]);
    assert u[..n] == Codes(s[..n]);
    BytesOfCodes(s[..n]);
  }

  lemma {:induction false} RecodedValid(s: String)
    requires ValidUtf8(s)
    ensures Recoded(s, false) == s
    decreases |s|
  {
    hide Step, StepText, ValidUtf8;
    if s != [] {
      ValidStep(s);
      RecodedValid(s[Step(s, false).1..]);
    }
  }

  /** Without `emitUTF8` a byte string is recoded as itself if and only if it is valid UTF-8. */
  lemma RecodedIsItself(s: String, emitUtf8: bool)
    ensures Recoded(s, emitUtf8) == s <==> emitUtf8 || ValidUtf8(s)
  {
    hide Recoded, ValidUtf8;
    if emitUtf8 {
      RecodedEmitted(s);
    } else if ValidUtf8(s) {
      RecodedValid(s);
    } else {
      RecodedIsValid(s);
    }
  }

  // ---- the end of a quoted string ----

  predicate Ordinary(s: String) {
    forall i :: 0 <= i < |s| ==> s[i] != '"' && s[i] != '\\'
  }

  lemma {:induction false} EndBehind(s: String, t: String)
    requires Ordinary(s)
    ensures StringEnd(s + t, '"') == (StringEnd(t, '"').0, |s| + StringEnd(t, '"').1)
    decreases |s|
  {
    if s == [] {
      assert s + t == t;
    } else {
      EndBehind(s[1..], t);
      assert (s + t)[1..] == s[1..] + t;
    }
  }

  lemma EndOfEscaped(u: String)
    requires |u| > 1 && u[0] == '\\'
    ensures StringEnd(u, '"') == (StringEnd(u[2..], '"').0, 2 + StringEnd(u[2..], '"').1)
  {}

  lemma EndBehindEscape(h: String, s: String, t: String)
    requires |h| == 2 && h[0] == '\\' && Ordinary(s)
    ensures StringEnd(h + s + t, '"') == (StringEnd(t, '"').0, 2 + |s| + StringEnd(t, '"').1)
  {
    hide StringEnd, Ordinary;
    EndBehind(s, t);
    assert (h + s + t)[2..] == s + t;
    EndOfEscaped(h + s + t);
  }

  lemma HexIsOrdinary(x: Utf.Unit)
    requires x <= 0xFFFF
    ensures Ordinary(Hex(x)[2..]) && Hex(x)[..2] == ['\\', 'u']
  {
    hide HexDigit, HexValue, Join4;
    NibblesJoin(x);
    DigitValue((x >> 12) & 15);
    DigitValue((x >> 8) & 15);
    DigitValue((x >> 4) & 15);
    DigitValue(x & 15);
  }

  lemma EndBehindHex(x: Utf.Unit, t: String)
    requires x <= 0xFFFF
    ensures StringEnd(Hex(x) + t, '"') == (StringEnd(t, '"').0, 6 + StringEnd(t, '"').1)
  {
    HexIsOrdinary(x);
    hide StringEnd, Hex, Ordinary;
    var h, d := Hex(x)[..2], Hex(x)[2..];
    EndBehindEscape(h, d, t);
    assert Hex(x) == h + d;
  }

  lemma EndBehindByte(c: Byte, t: String)
    requires Short(c).None?
    ensures StringEnd([c] + t, '"') == (StringEnd(t, '"').0, 1 + StringEnd(t, '"').1)
  {
    PlainCode(c);
    EndBehind([c], t);
  }

  lemma EndBehindPoint(c: Utf.Unit, first: Byte, t: String)
    requires c <= 0x1F_FFFF && Short(first).None? && (c < 0x80 ==> c == Code(first))
    ensures StringEnd(EscapePoint(c) + t, '"') == (StringEnd(t, '"').0, |EscapePoint(c)| + StringEnd(t, '"').1)
  {
    hide StringEnd, Hex, Short, High, Low, Code, ByteOf;
    if c < 0x20 || 0x80 <= c < 0x10000 {
      EndBehindHex(c, t);
    } else if c < 0x80 {
      ByteOfCode(first);
      EndBehindByte(first, t);
    } else {
      PairBack(c);
      EndBehindHex(High(c), Hex(Low(c)) + t);
      EndBehindHex(Low(c), t);
      assert Hex(High(c)) + Hex(Low(c)) + t == Hex(High(c)) + (Hex(Low(c)) + t);
    }
  }

  /** A printed piece does not end a string. */
  lemma EndBehindPiece(s: String, emitUtf8: bool, t: String)
    requires s != []
    ensures var piece := Step(s, emitUtf8).0;
            StringEnd(piece + t, '"') == (StringEnd(t, '"').0, |piece| + StringEnd(t, '"').1)
  {
    hide StringEnd, Hex, ToCodepoint, Codes, Short, Code, EscapePoint;
    var piece := Step(s, emitUtf8).0;
    if Short(s[0]).Some? {
      EndBehindEscape(piece, [], t);
      assert piece + [] + t == piece + t;
    } else if emitUtf8 {
      if Code(s[0]) < 0x20 {
        EndBehindHex(Code(s[0]), t);
      } else {
        EndBehindByte(s[0], t);
      }
    } else {
      CodepointIsSmall(Codes(s));
      FirstCode(s);
      EndBehindPoint(ToCodepoint(Codes(s)).0, s[0], t);
    }
  }

  lemma {:induction false} EndOfEscape(s: String, emitUtf8: bool, rest: String)
    ensures StringEnd(Escape(s, emitUtf8) + ("\"" + rest), '"') == (true, |Escape(s, emitUtf8)| + 1)
    decreases |s|
  {
    hide Step;
    if s == [] {
      assert Escape(s, emitUtf8) + ("\"" + rest) == "\"" + rest;
    } else {
      var (piece, n) := Step(s, emitUtf8);
      var tail := Escape(s[n..], emitUtf8);
      EndOfEscape(s[n..], emitUtf8, rest);
      EndBehindPiece(s, emitUtf8, tail + ("\"" + rest));
      assert piece + tail + ("\"" + rest) == piece + (tail + ("\"" + rest));
    }
  }

  /** A quoted string ends exactly at its closing quote, whatever follows, and what is between the quotes always
      decodes; it decodes to the string itself if and only if `emitUTF8` was set or the string is valid UTF-8. */
  lemma QuoteRoundTrip(s: String, emitUtf8: bool, rest: String)
    ensures var q := Quote(s, emitUtf8);
            && |q| >= 2 && q[0] == '"' == q[|q| - 1]
            && StringEnd(q[1..] + rest, '"') == (true, |q| - 1)
            && DecodeBody(q[1..|q| - 1]).Some?
            && (DecodeBody(q[1..|q| - 1]) == Some(s) <==> emitUtf8 || ValidUtf8(s))
  {
    hide Escape, Recoded, ValidUtf8, DecodeBody, StringEnd;
    var q, e := Quote(s, emitUtf8), Escape(s, emitUtf8);
    EndOfEscape(s, emitUtf8, rest);
    assert q[1..] + rest == e + ("\"" + rest);
    EscapeDecodes(s, emitUtf8);
    assert q[1..|q| - 1] == e;
    RecodedIsItself(s, emitUtf8);
  }

  // ---- the loops ----

  /** `isprint` of the C locale, and no quote and no backslash. */
  predicate NeedsNoQuoting(c: Byte) { 0x20 <= c as int < 0x7F && c != '"' && c != '\\' }

  lemma {:induction false} EscapeOfPlain(s: String, emitUtf8: bool)
    requires forall i :: 0 <= i < |s| ==> NeedsNoQuoting(s[i])
    ensures Escape(s, emitUtf8) == s
    decreases |s|
  {
    if s != [] {
      assert NeedsNoQuoting(s[0]);
      CodeOrder(s[0]);
      PlainStep(s, emitUtf8);
      EscapeOfPlain(s[1..], emitUtf8);
      assert s == [s[0]] + s[1..];
    }
  }

  lemma PlainStep(s: String, emitUtf8: bool)
    requires s != [] && NeedsNoQuoting(s[0]) && 0x20 <= Code(s[0]) < 0x80
    ensures Step(s, emitUtf8) == ([s[0]], 1)
  {
    ByteOfCode(s[0]);
    hide Code, ByteOf, Hex;
  }

  /** `valueToQuotedStringN`, with its shortcut for strings that need no escapes. */
  method ValueToQuotedString(value: String, emitUtf8: bool) returns (result: String)
    ensures result == Quote(value, emitUtf8)
  {
    hide Step;
    var required := false;
    for i := 0 to |value|
      invariant !required ==> forall k :: 0 <= k < i ==> NeedsNoQuoting(value[k])
    {
      if !NeedsNoQuoting(value[i]) {
        required := true;
      }
    }
    if !required {
      EscapeOfPlain(value, emitUtf8);
      return "\"" + value + "\"";
    }
    result := "\"";
    var c: nat := 0;
    while c != |value|
      invariant c <= |value|
      invariant result + Escape(value[c..], emitUtf8) == "\"" + Escape(value, emitUtf8)
      decreases |value| - c
    {
      var (piece, n) := Step(value[c..], emitUtf8);
      assert value[c..][n..] == value[c + n..];
      result := result + piece;
      c := c + n;
    }
    assert Escape(value[c..], emitUtf8) == [];
    assert result + [] == result;
    result := result + "\"";
  }

  /** `decodeString` on what is between the quotes. */
  method DecodeString(body: String) returns (r: Option<String>)
    ensures r == DecodeBody(body)
  {
    hide DecodeStep;
    var decoded: String := [];
    var current: nat := 0;
    assert body[0..] == body;
    assert forall t: String :: [] + t == t;
    while current != |body|
      invariant current <= |body|
      invariant DecodeBody(body) == match DecodeBody(body[current..]) case None => None case Some(t) => Some(decoded + t)
      decreases |body| - current
    {
      if body[current] == '"' {
        break;
      }
      var step :- DecodeStep(body[current..]);
      var (piece, n) := step;
      assert body[current..][n..] == body[current + n..];
      ghost var before := decoded;
      decoded, current := decoded + piece, current + n;
      assert forall t: String :: before + (piece + t) == decoded + t;
    }
    assert decoded + [] == decoded;
    return Some(decoded);
  }
}
