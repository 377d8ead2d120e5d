/** Words of 32 bits as numbers: put together from pieces, surrogate pairs (section 2.2 of RFC 2781), hexadecimal digits. */
module WordSums {
  function AsNumber(v: bv32): nat { v as int }

  // ---- words put together from pieces ----

  lemma Sum2(h: bv5, l: bv6)
    ensures (((h as bv32) << 6) | (l as bv32)) as int == 0x40 * h as int + l as int
  {}

  lemma Sum3(h: bv4, m: bv6, l: bv6)
    ensures (((h as bv32) << 12) | ((m as bv32) << 6) | (l as bv32)) as int == 0x1000 * h as int + 0x40 * m as int + l as int
  {}

  lemma Sum4(h: bv3, m: bv6, n: bv6, l: bv6)
    ensures (((h as bv32) << 18) | ((m as bv32) << 12) | ((n as bv32) << 6) | (l as bv32)) as int ==
      0x4_0000 * h as int + 0x1000 * m as int + 0x40 * n as int + l as int
  {}

  lemma Marked6(l: bv6)
    ensures AsNumber((l as bv32) | 0x80) == 0x80 + l as int
  {}

  lemma Marked5(h: bv5)
    ensures AsNumber((h as bv32) | 0xC0) == 0xC0 + h as int
  {}

  lemma Marked4(h: bv4)
    ensures AsNumber((h as bv32) | 0xE0) == 0xE0 + h as int
  {}

  lemma Marked3(h: bv3)
    ensures AsNumber((h as bv32) | 0xF0) == 0xF0 + h as int
  {}

  lemma One(v: bv32)
    requires v <= 0x7F
    ensures AsNumber(v) < 0x80
  {
    var l := (v & 0x7F) as bv7;
    assert v == l as bv32;
  }

  lemma Two(v: bv32) returns (h: nat, l: nat)
    requires 0x7F < v <= 0x7FF
    ensures 2 <= h < 32 && l < 64 && AsNumber(v) == 0x40 * h + l
    ensures AsNumber((v >> 6) | 0xC0) == 0xC0 + h && AsNumber((v & 0x3F) | 0x80) == 0x80 + l
  {
    var a, b := ((v >> 6) & 0x1F) as bv5, (v & 0x3F) as bv6;
    TwoPieces(v, a, b);
    Sum2(a, b);
    Marked5(a);
    Marked6(b);
    AtLeastTwo(a);
    h, l := a as int, b as int;
  }

  lemma TwoPieces(v: bv32, a: bv5, b: bv6)
    requires 0x7F < v <= 0x7FF && a == ((v >> 6) & 0x1F) as bv5 && b == (v & 0x3F) as bv6
    ensures v == ((a as bv32) << 6) | (b as bv32) && v >> 6 == a as bv32 && v & 0x3F == b as bv32 && a >= 2
  {}

  lemma AtLeastTwo(a: bv5)
    ensures a >= 2 ==> a as int >= 2
  {}

  lemma Three(v: bv32) returns (h: nat, m: nat, l: nat)
    requires 0x7FF < v <= 0xFFFF
    ensures h < 16 && m < 64 && l < 64 && (h >= 1 || m >= 32) && AsNumber(v) == 0x1000 * h + 0x40 * m + l
    ensures AsNumber((v >> 12) | 0xE0) == 0xE0 + h && AsNumber(((v >> 6) & 0x3F) | 0x80) == 0x80 + m && AsNumber((v & 0x3F) | 0x80) == 0x80 + l
  {
    var a, b, c := ((v >> 12) & 0xF) as bv4, ((v >> 6) & 0x3F) as bv6, (v & 0x3F) as bv6;
    ThreePieces(v, a, b, c);
    Sum3(a, b, c);
    Marked4(a);
    Marked6(b);
    Marked6(c);
    ThreeRange(a, b);
    h, m, l := a as int, b as int, c as int;
  }

  lemma ThreePieces(v: bv32, a: bv4, b: bv6, c: bv6)
    requires 0x7FF < v <= 0xFFFF && a == ((v >> 12) & 0xF) as bv4 && b == ((v >> 6) & 0x3F) as bv6 && c == (v & 0x3F) as bv6
    ensures v == ((a as bv32) << 12) | ((b as bv32) << 6) | (c as bv32)
    ensures v >> 12 == a as bv32 && (v >> 6) & 0x3F == b as bv32 && v & 0x3F == c as bv32
    ensures a >= 1 || b >= 32
  {}

  lemma ThreeRange(a: bv4, b: bv6)
    ensures a >= 1 ==> a as int >= 1
    ensures b >= 32 ==> b as int >= 32
  {}

  lemma Four(v: bv32) returns (h: nat, m: nat, n: nat, l: nat)
    requires 0xFFFF < v <= 0x10FFFF
    ensures m < 64 && n < 64 && l < 64 && (h >= 1 || m >= 16) && (h < 4 || (h == 4 && m < 16))
    ensures AsNumber(v) == 0x4_0000 * h + 0x1000 * m + 0x40 * n + l
    ensures AsNumber((v >> 18) | 0xF0) == 0xF0 + h && AsNumber(((v >> 12) & 0x3F) | 0x80) == 0x80 + m
    ensures AsNumber(((v >> 6) & 0x3F) | 0x80) == 0x80 + n && AsNumber((v & 0x3F) | 0x80) == 0x80 + l
  {
    hide AsNumber;
    var a, b, c, d := ((v >> 18) & 7) as bv3, ((v >> 12) & 0x3F) as bv6, ((v >> 6) & 0x3F) as bv6, (v & 0x3F) as bv6;
    FourPieces(v, a, b, c, d);
    FourValue(v, a, b, c, d);
    Marked3(a);
    Marked6(b);
    Marked6(c);
    Marked6(d);
    FourRange(a, b);
    h, m, n, l := a as int, b as int, c as int, d as int;
  }

  lemma FourValue(v: bv32, a: bv3, b: bv6, c: bv6, d: bv6)
    requires v == ((a as bv32) << 18) | ((b as bv32) << 12) | ((c as bv32) << 6) | (d as bv32)
    ensures AsNumber(v) == 0x4_0000 * a as int + 0x1000 * b as int + 0x40 * c as int + d as int
  {
    Sum4(a, b, c, d);
  }

  lemma FourPieces(v: bv32, a: bv3, b: bv6, c: bv6, d: bv6)
    requires 0xFFFF < v <= 0x10FFFF && a == ((v >> 18) & 7) as bv3 && b == ((v >> 12) & 0x3F) as bv6
    requires c == ((v >> 6) & 0x3F) as bv6 && d == (v & 0x3F) as bv6
    ensures v == ((a as bv32) << 18) | ((b as bv32) << 12) | ((c as bv32) << 6) | (d as bv32)
    ensures v >> 18 == a as bv32 && (v >> 12) & 0x3F == b as bv32 && (v >> 6) & 0x3F == c as bv32 && v & 0x3F == d as bv32
    ensures (a >= 1 || b >= 16) && (a < 4 || (a == 4 && b < 16))
  {}

  lemma FourRange(a: bv3, b: bv6)
    ensures a >= 1 ==> a as int >= 1
    ensures a < 4 ==> a as int < 4
    ensures b >= 16 <==> b as int >= 16
  {}

  // ---- surrogate pairs ----

  lemma SumHigh(a: bv4, b: bv6)
    ensures (((0x36 as bv32) << 10) | ((a as bv32) << 6) | (b as bv32)) as int == 0xD800 + 0x40 * a as int + b as int
  {}

  lemma SumLow(s: bv6, l: bv10)
    ensures (((s as bv32) << 10) | (l as bv32)) as int == 0x400 * s as int + l as int
  {}

  lemma HighPieces(u: bv32, a: bv4, b: bv6)
    requires 0xD800 <= u <= 0xDBFF && a == ((u >> 6) & 0xF) as bv4 && b == (u & 0x3F) as bv6
    ensures u == ((0x36 as bv32) << 10) | ((a as bv32) << 6) | (b as bv32)
    ensures u & 0x3FF == ((a as bv32) << 6) | (b as bv32)
  {}

  function LowTen(v: bv32): bv32 { v & 0x3FF }

  function Pack(a: bv4, b: bv6): bv32 { ((a as bv32) << 6) | (b as bv32) }

  function Widened(l: bv10): bv32 { l as bv32 }

  lemma High(u: bv32) returns (a: bv4, b: bv6)
    requires 0xD800 <= u <= 0xDBFF
    ensures AsNumber(u) == 0xD800 + 0x40 * a as int + b as int && LowTen(u) == Pack(a, b)
  {
    a, b := ((u >> 6) & 0xF) as bv4, (u & 0x3F) as bv6;
    HighPieces(u, a, b);
    SumHigh(a, b);
  }

  lemma LowPieces(v: bv32, s: bv6, l: bv10)
    requires v <= 0xFFFF && s == ((v >> 10) & 0x3F) as bv6 && l == (v & 0x3FF) as bv10
    ensures v == ((s as bv32) << 10) | (l as bv32) && v & 0x3FF == l as bv32
  {}

  lemma Low(v: bv32) returns (s: bv6, l: bv10)
    requires v <= 0xFFFF
    ensures AsNumber(v) == 0x400 * s as int + l as int && LowTen(v) == Widened(l)
  {
    s, l := ((v >> 10) & 0x3F) as bv6, (v & 0x3FF) as bv10;
    LowPieces(v, s, l);
    SumLow(s, l);
  }

  /** The top six of sixteen bits tell the high surrogates. */
  lemma TopSix(v: bv32) returns (s: nat)
    requires v <= 0xFFFF
    ensures 0x400 * s <= AsNumber(v) < 0x400 * s + 0x400 && (0xD800 <= v <= 0xDBFF <==> s == 54)
  {
    var t, l := ((v >> 10) & 0x3F) as bv6, (v & 0x3FF) as bv10;
    LowPieces(v, t, l);
    SumLow(t, l);
    SurrogateBits(v, t);
    SixBits(t);
    s := t as int;
  }

  lemma SurrogateBits(v: bv32, t: bv6)
    requires v <= 0xFFFF && t == ((v >> 10) & 0x3F) as bv6
    ensures 0xD800 <= v <= 0xDBFF <==> t == 0x36
  {}

  lemma SixBits(t: bv6)
    ensures t == 0x36 <==> t as int == 54
  {}

  function Joined(h: bv32, l: bv32): bv32 { 0x1_0000 + (h << 10) + l }

  lemma JoinedIs(a: bv4, b: bv6, l: bv10)
    ensures Joined(Pack(a, b), Widened(l)) ==
            (0x1_0000 as bv32) + ((((a as bv32) << 6) | (b as bv32)) << 10) + (l as bv32)
  {}

  lemma SumJoined(a: bv4, b: bv6, l: bv10)
    ensures ((0x1_0000 as bv32) + ((((a as bv32) << 6) | (b as bv32)) << 10) + (l as bv32)) as int ==
      0x1_0000 * (a as int + 1) + 0x400 * b as int + l as int
  {}

  lemma SumNumber(a: bv4, b: bv6, l: bv10)
    ensures AsNumber((0x1_0000 as bv32) + ((((a as bv32) << 6) | (b as bv32)) << 10) + (l as bv32)) ==
      0x1_0000 * (a as int + 1) + 0x400 * b as int + l as int
  {
    SumJoined(a, b, l);
  }

  lemma JoinedValue(a: bv4, b: bv6, l: bv10)
    ensures AsNumber(Joined(Pack(a, b), Widened(l))) == 0x1_0000 * (a as int + 1) + 0x400 * b as int + l as int
  {
    hide AsNumber, Joined, Pack, Widened;
    JoinedIs(a, b, l);
    SumNumber(a, b, l);
  }

  lemma PairSum(a: nat, b: nat, s: nat, l: nat)
    requires a < 16 && b < 64 && l < 1024
    ensures var u, v := 0xD800 + 0x40 * a + b, 0x400 * s + l;
            0xD800 <= u <= 0xDBFF && 0x1_0000 * (a + 1) + 0x400 * b + l == 0x1_0000 + (u - 0xD800) * 0x400 + v % 0x400
  {}

  lemma PairNumbers(u: bv32, v: bv32) returns (a: nat, b: nat, s: nat, l: nat)
    requires 0xD800 <= u <= 0xDBFF && v <= 0xFFFF
    ensures a < 16 && b < 64 && l < 1024 && AsNumber(u) == 0xD800 + 0x40 * a + b && AsNumber(v) == 0x400 * s + l
    ensures AsNumber(Joined(LowTen(u), LowTen(v))) == 0x1_0000 * (a + 1) + 0x400 * b + l
  {
    hide AsNumber, Joined, LowTen, Pack, Widened;
    var a', b' := High(u);
    var s', l' := Low(v);
    JoinedValue(a', b', l');
    a, b, s, l := a' as int, b' as int, s' as int, l' as int;
  }

  /** The code point put together from the ten bits of a high surrogate and the low ten bits of another unit. */
  lemma PairValue(u: bv32, v: bv32)
    requires 0xD800 <= u <= 0xDBFF && v <= 0xFFFF
    ensures 0xD800 <= AsNumber(u) <= 0xDBFF
    ensures AsNumber(Joined(LowTen(u), LowTen(v))) == 0x1_0000 + (AsNumber(u) - 0xD800) * 0x400 + AsNumber(v) % 0x400
  {
    hide AsNumber, Joined, LowTen;
    var a, b, s, l := PairNumbers(u, v);
    PairSum(a, b, s, l);
  }

  lemma BeyondPieces(v: bv32, a: bv4, b: bv6, l: bv10)
    requires 0x1_0000 <= v <= 0x10_FFFF && a == (((v >> 16) - 1) & 0xF) as bv4 && b == ((v >> 10) & 0x3F) as bv6 && l == (v & 0x3FF) as bv10
    ensures v == ((((a as bv5) + 1) as bv32) << 16) | ((b as bv32) << 10) | (l as bv32)
    ensures (0xD800 as bv32) | ((v - 0x1_0000) >> 10) == ((0x36 as bv32) << 10) | ((a as bv32) << 6) | (b as bv32)
    ensures (0xDC00 as bv32) | ((v - 0x1_0000) & 0x3FF) == ((0x37 as bv32) << 10) | (l as bv32)
  {}

  lemma SumBeyond(a: bv4, b: bv6, l: bv10)
    ensures (((((a as bv5) + 1) as bv32) << 16) | ((b as bv32) << 10) | (l as bv32)) as int ==
      0x1_0000 * (a as int + 1) + 0x400 * b as int + l as int
  {}

  lemma SumSecond(l: bv10)
    ensures (((0x37 as bv32) << 10) | (l as bv32)) as int == 0xDC00 + l as int
  {}

  function First(v: bv32): bv32 { 0xD800 | ((v - 0x1_0000) >> 10) }

  function Second(v: bv32): bv32 { 0xDC00 | ((v - 0x1_0000) & 0x3FF) }

  lemma BeyondValue(v: bv32, a: bv4, b: bv6, l: bv10)
    requires v == ((((a as bv5) + 1) as bv32) << 16) | ((b as bv32) << 10) | (l as bv32)
    ensures AsNumber(v) == 0x1_0000 * (a as int + 1) + 0x400 * b as int + l as int
  {
    SumBeyond(a, b, l);
  }

  lemma FirstValue(v: bv32, a: bv4, b: bv6)
    requires (0xD800 as bv32) | ((v - 0x1_0000) >> 10) == ((0x36 as bv32) << 10) | ((a as bv32) << 6) | (b as bv32)
    ensures AsNumber(First(v)) == 0xD800 + 0x40 * a as int + b as int
  {
    SumHigh(a, b);
  }

  lemma SecondValue(v: bv32, l: bv10)
    requires (0xDC00 as bv32) | ((v - 0x1_0000) & 0x3FF) == ((0x37 as bv32) << 10) | (l as bv32)
    ensures AsNumber(Second(v)) == 0xDC00 + l as int
  {
    SumSecond(l);
  }

  lemma Beyond(v: bv32) returns (a: bv4, b: bv6, l: bv10)
    requires 0x1_0000 <= v <= 0x10_FFFF
    ensures AsNumber(v) == 0x1_0000 * (a as int + 1) + 0x400 * b as int + l as int
    ensures AsNumber(First(v)) == 0xD800 + 0x40 * a as int + b as int && AsNumber(Second(v)) == 0xDC00 + l as int
  {
    hide AsNumber, First, Second;
    a, b, l := (((v >> 16) - 1) & 0xF) as bv4, ((v >> 10) & 0x3F) as bv6, (v & 0x3FF) as bv10;
    BeyondPieces(v, a, b, l);
    BeyondValue(v, a, b, l);
    FirstValue(v, a, b);
    SecondValue(v, l);
  }

  // ---- hexadecimal digits ----

  lemma SumHex(a: bv4, b: bv4, c: bv4, d: bv4)
    ensures (((a as bv32) << 12) | ((b as bv32) << 8) | ((c as bv32) << 4) | (d as bv32)) as int ==
      0x1000 * a as int + 0x100 * b as int + 0x10 * c as int + d as int
  {}

  lemma HexPieces(h0: bv32, h1: bv32, h2: bv32, h3: bv32, a: bv4, b: bv4, c: bv4, d: bv4)
    requires h0 < 16 && h1 < 16 && h2 < 16 && h3 < 16 && a == h0 as bv4 && b == h1 as bv4 && c == h2 as bv4 && d == h3 as bv4
    ensures ((h0 * 16 + h1) * 16 + h2) * 16 + h3 == ((a as bv32) << 12) | ((b as bv32) << 8) | ((c as bv32) << 4) | (d as bv32)
    ensures h0 == a as bv32 && h1 == b as bv32 && h2 == c as bv32 && h3 == d as bv32
  {}

  lemma Nibble(a: bv4)
    ensures AsNumber(a as bv32) == a as int
  {}

  /** Four digits as a number. */
  lemma HexValue(h0: bv32, h1: bv32, h2: bv32, h3: bv32)
    requires h0 < 16 && h1 < 16 && h2 < 16 && h3 < 16
    ensures AsNumber(((h0 * 16 + h1) * 16 + h2) * 16 + h3) ==
      0x1000 * AsNumber(h0) + 0x100 * AsNumber(h1) + 0x10 * AsNumber(h2) + AsNumber(h3)
    ensures ((h0 * 16 + h1) * 16 + h2) * 16 + h3 <= 0xFFFF
  {
    var a, b, c, d := h0 as bv4, h1 as bv4, h2 as bv4, h3 as bv4;
    HexPieces(h0, h1, h2, h3, a, b, c, d);
    SumHex(a, b, c, d);
    Nibble(a);
    Nibble(b);
    Nibble(c);
    Nibble(d);
  }
}

/** UTF-8 and UTF-16 by division (section 3 of RFC 3629, section 2.1 of RFC 2781). */
module CodeValues {
  import opened WordSums
  import Utf

  /** The octets of a code point: its value in the base 64 behind the marks of the table in section 3 of RFC 3629. */
  function Octets(n: nat): seq<nat>
    requires n <= 0x10_FFFF
  {
    if n < 0x80 then [n]
    else if n < 0x800 then [0xC0 + n / 0x40, 0x80 + n % 0x40]
    else if n < 0x1_0000 then [0xE0 + n / 0x1000, 0x80 + n / 0x40 % 0x40, 0x80 + n % 0x40]
    else [0xF0 + n / 0x4_0000, 0x80 + n / 0x1000 % 0x40, 0x80 + n / 0x40 % 0x40, 0x80 + n % 0x40]
  }

  function Numbers(u: seq<Utf.Unit>): (r: seq<nat>)
    ensures |r| == |u|
  {
    seq(|u|, i requires 0 <= i < |u| => AsNumber(u[i]))
  }

  lemma Encodings(v: Utf.Unit)
    ensures v <= 0x7F ==> Utf.Encode8(v) == [v]
    ensures 0x7F < v <= 0x7FF ==> Utf.Encode8(v) == [(v >> 6) | 0xC0, (v & 0x3F) | 0x80]
    ensures 0x7FF < v <= 0xFFFF ==> Utf.Encode8(v) == [(v >> 12) | 0xE0, ((v >> 6) & 0x3F) | 0x80, (v & 0x3F) | 0x80]
    ensures 0xFFFF < v ==>
      Utf.Encode8(v) == [(v >> 18) | 0xF0, ((v >> 12) & 0x3F) | 0x80, ((v >> 6) & 0x3F) | 0x80, (v & 0x3F) | 0x80]
  {}

  lemma Numbers1(a: Utf.Unit)
    ensures Numbers([a]) == [AsNumber(a)]
  {}

  lemma Numbers2(a: Utf.Unit, b: Utf.Unit)
    ensures Numbers([a, b]) == [AsNumber(a), AsNumber(b)]
  {}

  lemma Numbers3(a: Utf.Unit, b: Utf.Unit, c: Utf.Unit)
    ensures Numbers([a, b, c]) == [AsNumber(a), AsNumber(b), AsNumber(c)]
  {}

  lemma Numbers4(a: Utf.Unit, b: Utf.Unit, c: Utf.Unit, d: Utf.Unit)
    ensures Numbers([a, b, c, d]) == [AsNumber(a), AsNumber(b), AsNumber(c), AsNumber(d)]
  {}

  /** `Encode8` writes the octets of the code point. */
  lemma EncodeIsOctets(v: Utf.Unit)
    requires v <= 0x10FFFF
    ensures AsNumber(v) <= 0x10_FFFF && Numbers(Utf.Encode8(v)) == Octets(AsNumber(v))
  {
    hide Utf.Encode8, AsNumber, Numbers;
    Encodings(v);
    if v <= 0x7F {
      One(v);
      Numbers1(v);
    } else if v <= 0x7FF {
      var h, l := Two(v);
      Numbers2((v >> 6) | 0xC0, (v & 0x3F) | 0x80);
      hide Octets;
      TwoAre(AsNumber(v), h, l);
    } else if v <= 0xFFFF {
      var h, m, l := Three(v);
      Numbers3((v >> 12) | 0xE0, ((v >> 6) & 0x3F) | 0x80, (v & 0x3F) | 0x80);
      hide Octets;
      ThreeAre(AsNumber(v), h, m, l);
    } else {
      var h, m, n, l := Four(v);
      Numbers4((v >> 18) | 0xF0, ((v >> 12) & 0x3F) | 0x80, ((v >> 6) & 0x3F) | 0x80, (v & 0x3F) | 0x80);
      hide Octets;
      FourAre(AsNumber(v), h, m, n, l);
    }
  }

  lemma TwoAre(v: nat, h: nat, l: nat)
    requires v == 0x40 * h + l && 2 <= h < 32 && l < 64
    ensures Octets(v) == [0xC0 + h, 0x80 + l]
  {}

  lemma ThreeAre(v: nat, h: nat, m: nat, l: nat)
    requires v == 0x1000 * h + 0x40 * m + l && (h >= 1 || m >= 32) && h < 16 && m < 64 && l < 64
    ensures Octets(v) == [0xE0 + h, 0x80 + m, 0x80 + l]
  {
    Base64(v, 0x40 * h + m, l);
    Base64(0x40 * h + m, h, m);
    assert v / 0x1000 == v / 0x40 / 0x40;
  }

  lemma FourAre(v: nat, h: nat, m: nat, n: nat, l: nat)
    requires v == 0x4_0000 * h + 0x1000 * m + 0x40 * n + l && (h >= 1 || m >= 16) && (h < 4 || (h == 4 && m < 16))
    requires m < 64 && n < 64 && l < 64
    ensures v <= 0x10_FFFF && Octets(v) == [0xF0 + h, 0x80 + m, 0x80 + n, 0x80 + l]
  {
    Base64(v, 0x1000 * h + 0x40 * m + n, l);
    Base64(0x1000 * h + 0x40 * m + n, 0x40 * h + m, n);
    Base64(0x40 * h + m, h, m);
    assert v / 0x1000 == v / 0x40 / 0x40 && v / 0x4_0000 == v / 0x40 / 0x40 / 0x40;
  }

  lemma Base64(v: nat, q: nat, r: nat)
    requires v == 0x40 * q + r && r < 64
    ensures v / 0x40 == q && v % 0x40 == r
  {}

  /** `Encode16` writes the code units of section 2.1 of RFC 2781: a code point beyond the first 65536 less 0x10000, divided
      by 1024. */
  lemma Encode16IsUnits(v: Utf.Unit)
    requires 0x1_0000 <= v <= 0x10_FFFF
    ensures 0x1_0000 <= AsNumber(v) <= 0x10_FFFF
    ensures Numbers(Utf.Encode16(v)) == [0xD800 + (AsNumber(v) - 0x1_0000) / 0x400, 0xDC00 + (AsNumber(v) - 0x1_0000) % 0x400]
  {
    hide Utf.Encode16, First, Second, AsNumber, Numbers;
    PairEncodes(v);
    var a, b, l := Beyond(v);
    Numbers2(First(v), Second(v));
    Base1024(AsNumber(v) - 0x1_0000, 0x40 * (a as int) + b as int, l as int);
  }

  lemma PairEncodes(v: Utf.Unit)
    requires 0x1_0000 <= v
    ensures Utf.Encode16(v) == [First(v), Second(v)]
  {}

  lemma Base1024(n: nat, q: nat, r: nat)
    requires n == 0x400 * q + r && r < 0x400
    ensures n / 0x400 == q && n % 0x400 == r
  {}
}
