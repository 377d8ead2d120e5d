/** UTF-8, UTF-16 and UTF-32 code units (nowide/utf.hpp), against section 4 of RFC 3629 and section 2 of RFC 2781. */
module Utf {
  import opened Wrappers

  /** By the size of a code unit: 1, 2 or 4 bytes. */
  datatype Encoding = Utf8 | Utf16 | Utf32

  /** A code unit of any size, or a code point. */
  type Unit = bv32

  const ILLEGAL: Unit := 0xFFFF_FFFF
  const INCOMPLETE: Unit := 0xFFFF_FFFE

  function Largest(e: Encoding): Unit {
    match e case Utf8 => 0xFF case Utf16 => 0xFFFF case Utf32 => 0xFFFF_FFFF
  }

  /** Units of the size of the encoding. */
  predicate Sized(e: Encoding, s: seq<Unit>) {
    forall i :: 0 <= i < |s| ==> Fits(e, s[i])
  }

  predicate Fits(e: Encoding, u: Unit) { u <= Largest(e) }

  /** `is_valid_codepoint`: up to 10FFFF, and no surrogate. */
  predicate Valid(v: Unit) {
    v <= 0x10FFFF && !(0xD800 <= v <= 0xDFFF)
  }

  // ---- UTF-8 ----

  /** -1 for bytes that start no sequence. */
  function TrailLength(c: Unit): (n: int)
    ensures -1 <= n <= 3
  {
    if c < 128 then 0 else if c < 194 then -1 else if c < 224 then 1 else if c < 240 then 2 else if c <= 244 then 3 else -1
  }

  function Width8(v: Unit): (n: nat)
    ensures 1 <= n <= 4
  {
    if v <= 0x7F then 1 else if v <= 0x7FF then 2 else if v <= 0xFFFF then 3 else 4
  }

  predicate IsTrail(c: Unit) { c & 0xC0 == 0x80 }

  /** The bits of a lead byte with `trail` bytes to follow. */
  function LeadBits(lead: Unit, trail: nat): Unit
    requires 1 <= trail <= 3
  {
    lead & (if trail == 1 then 0x1F else if trail == 2 then 0xF else 0x7)
  }

  function Join(c: Unit, trail: Unit): Unit { (c << 6) | (trail & 0x3F) }

  /** Reads `k` trailing bytes from position `i` on. */
  function Trail(s: seq<Unit>, i: nat, c: Unit, k: nat): (r: (Unit, nat))
    requires i <= |s|
    ensures i <= r.1 <= |s| && r.1 <= i + k
    decreases k
  {
    if k == 0 then (c, i)
    else if i == |s| then (INCOMPLETE, i)
    else if !IsTrail(s[i]) then (ILLEGAL, i + 1)
    else Trail(s, i + 1, Join(c, s[i]), k - 1)
  }

  function Checked(c: Unit, trail: nat): Unit {
    if c == INCOMPLETE then c else if !Valid(c) then ILLEGAL else if Width8(c) != trail + 1 then ILLEGAL else c
  }

  /** The code point, or a special value, and how many units were consumed. */
  function Decode8(s: seq<Unit>): (r: (Unit, nat))
    ensures r.1 <= |s| && (s != [] ==> r.1 > 0)
  {
    if s == [] then (INCOMPLETE, 0) else
      var trail := TrailLength(s[0]);
      if trail < 0 then (ILLEGAL, 1)
      else if trail == 0 then (s[0], 1)
      else
        var (c, n) := Trail(s, 1, LeadBits(s[0], trail), trail);
        (Checked(c, trail), n)
  }

  function Encode8(v: Unit): (s: seq<Unit>)
    ensures |s| == Width8(v)
  {
    if v <= 0x7F then [v]
    else if v <= 0x7FF then [(v >> 6) | 0xC0, (v & 0x3F) | 0x80]
    else if v <= 0xFFFF then [(v >> 12) | 0xE0, ((v >> 6) & 0x3F) | 0x80, (v & 0x3F) | 0x80]
    else [(v >> 18) | 0xF0, ((v >> 12) & 0x3F) | 0x80, ((v >> 6) & 0x3F) | 0x80, (v & 0x3F) | 0x80]
  }

  predicate Tail(c: Unit) { 0x80 <= c <= 0xBF }

  /** The rule `UTF8-char` of section 4 of RFC 3629. */
  predicate Utf8Char(s: seq<Unit>) {
    match |s|
    case 1 => s[0] <= 0x7F
    case 2 => 0xC2 <= s[0] <= 0xDF && Tail(s[1])
    case 3 =>
      && Tail(s[2])
      && ( || (s[0] == 0xE0 && 0xA0 <= s[1] <= 0xBF) || (0xE1 <= s[0] <= 0xEC && Tail(s[1]))
           || (s[0] == 0xED && 0x80 <= s[1] <= 0x9F) || (0xEE <= s[0] <= 0xEF && Tail(s[1])))
    case 4 =>
      && Tail(s[2]) && Tail(s[3])
      && ( || (s[0] == 0xF0 && 0x90 <= s[1] <= 0xBF) || (0xF1 <= s[0] <= 0xF3 && Tail(s[1]))
           || (s[0] == 0xF4 && 0x80 <= s[1] <= 0x8F))
    case _ => false
  }

  lemma TrailIsTail(c: Unit)
    requires c <= 0xFF
    ensures IsTrail(c) <==> Tail(c)
  {}

  lemma Encode8IsChar(v: Unit)
    requires Valid(v)
    ensures Utf8Char(Encode8(v)) && Sized(Utf8, Encode8(v))
  {}

  /** What the checks make of the value `v` joined from the bytes `u`. */
  ghost predicate Judged(u: seq<Unit>, v: Unit)
    requires u != []
  {
    Checked(v, |u| - 1) == (if Utf8Char(u) then v else ILLEGAL) && (Utf8Char(u) ==> Valid(v) && Encode8(v) == u)
  }

  /** The arithmetic of two, three and four bytes. */
  lemma TwoBytes(a: Unit, b: Unit)
    requires 0xC2 <= a < 0xE0 && Tail(b)
    ensures Judged([a, b], Join(LeadBits(a, 1), b))
  {}

  lemma ThreeBytes(a: Unit, b: Unit, c: Unit)
    requires 0xE0 <= a < 0xF0 && Tail(b) && Tail(c)
    ensures Judged([a, b, c], Join(Join(LeadBits(a, 2), b), c))
  {}

  lemma FourBytes(a: Unit, b: Unit, c: Unit, d: Unit)
    requires 0xF0 <= a <= 0xF4 && Tail(b) && Tail(c) && Tail(d)
    ensures Judged([a, b, c, d], Join(Join(Join(LeadBits(a, 3), b), c), d))
  {}

  /** Reading trailing bytes succeeds exactly if they are there. */
  lemma {:induction false} TrailReads(s: seq<Unit>, i: nat, c: Unit, k: nat)
    requires i <= |s| && k <= 3 && c <= 0x1F_FFFF && Sized(Utf8, s)
    requires k == 3 ==> c <= 0x7
    requires k == 2 ==> c <= 0x1FF
    requires k == 1 ==> c <= 0x7FFF
    ensures var (v, n) := Trail(s, i, c, k);
            if i + k <= |s| && (forall j :: i <= j < i + k ==> Tail(s[j])) then
              n == i + k && v <= 0x1F_FFFF && v == Joined(c, s[i..i + k])
            else v == ILLEGAL || v == INCOMPLETE
    decreases k
  {
    if k > 0 && i < |s| {
      TrailIsTail(s[i]);
      if IsTrail(s[i]) {
        JoinGrows(c, s[i]);
        TrailReads(s, i + 1, Join(c, s[i]), k - 1);
        if i + k <= |s| {
          assert s[i..i + k][0] == s[i] && s[i..i + k][1..] == s[i + 1..i + k];
        }
      }
    }
  }

  function Joined(c: Unit, t: seq<Unit>): Unit
    decreases |t|
  {
    if t == [] then c else Joined(Join(c, t[0]), t[1..])
  }

  lemma JoinGrows(c: Unit, b: Unit)
    ensures c <= 0x7 ==> Join(c, b) <= 0x1FF
    ensures c <= 0x1FF ==> Join(c, b) <= 0x7FFF
    ensures c <= 0x7FFF ==> Join(c, b) <= 0x1F_FFFF
  {}

  lemma LeadIsSmall(a: Unit, trail: nat)
    requires 1 <= trail <= 3
    ensures LeadBits(a, trail) <= if trail == 1 then 0x1F else if trail == 2 then 0xF else 0x7
  {}

  lemma NotAChar(s: seq<Unit>)
    requires s != [] && |s| == 1 + TrailLength(s[0]) && |s| > 1 && !(forall j :: 1 <= j < |s| ==> Tail(s[j])) && Sized(Utf8, s)
    ensures !Utf8Char(s)
  {}

  lemma {:induction false} JoinedIs(c: Unit, t: seq<Unit>)
    ensures |t| == 1 ==> Joined(c, t) == Join(c, t[0])
    ensures |t| == 2 ==> Joined(c, t) == Join(Join(c, t[0]), t[1])
    ensures |t| == 3 ==> Joined(c, t) == Join(Join(Join(c, t[0]), t[1]), t[2])
    decreases |t|
  {
    hide Join;
    if |t| > 0 {
      JoinedIs(Join(c, t[0]), t[1..]);
    }
  }

  /** The sequence with trailing bytes that `s` starts with. */
  lemma Decode8Long(s: seq<Unit>)
    requires Sized(Utf8, s) && s != [] && TrailLength(s[0]) > 0
    ensures var t := TrailLength(s[0]);
            var (c, n) := Decode8(s);
            if 1 + t <= |s| && Utf8Char(s[..1 + t]) then Valid(c) && n == 1 + t && s[..n] == Encode8(c)
            else c == ILLEGAL || c == INCOMPLETE
  {
    var t := TrailLength(s[0]);
    LeadIsSmall(s[0], t);
    TrailReads(s, 1, LeadBits(s[0], t), t);
    hide Trail, LeadBits, Join, Joined, Encode8, Utf8Char, Checked, Valid;
    if 1 + t <= |s| {
      var u := s[..1 + t];
      if forall j :: 1 <= j < 1 + t ==> Tail(s[j]) {
        JoinedIs(LeadBits(s[0], t), s[1..1 + t]);
        if t == 1 {
          assert u == [s[0], s[1]];
          TwoBytes(s[0], s[1]);
        } else if t == 2 {
          assert u == [s[0], s[1], s[2]];
          ThreeBytes(s[0], s[1], s[2]);
        } else {
          assert u == [s[0], s[1], s[2], s[3]];
          FourBytes(s[0], s[1], s[2], s[3]);
        }
      } else {
        NotAChar(u);
        SpecialsStay(t);
      }
    } else {
      SpecialsStay(t);
    }
  }

  lemma SpecialsStay(trail: nat)
    ensures Checked(INCOMPLETE, trail) == INCOMPLETE && Checked(ILLEGAL, trail) == ILLEGAL
  {}

  lemma CharHasItsLength(s: seq<Unit>)
    requires Utf8Char(s)
    ensures |s| == 1 + TrailLength(s[0])
  {}

  /** `decode` yields a code point if and only if the text starts with a character of RFC 3629; it then consumes
      that character and no more, and yields the code point whose encoding it is. */
  lemma Decode8Accepts(s: seq<Unit>, k: nat)
    requires Sized(Utf8, s) && s != [] && k <= |s|
    ensures var (c, n) := Decode8(s);
            && (Valid(c) || c == ILLEGAL || c == INCOMPLETE)
            && (Valid(c) ==> Utf8Char(s[..n]) && s[..n] == Encode8(c))
            && (Utf8Char(s[..k]) ==> Valid(c) && n == k)
  {
    if TrailLength(s[0]) > 0 {
      Decode8Long(s);
      hide Decode8, TrailLength, Encode8;
      if Utf8Char(s[..k]) {
        CharHasItsLength(s[..k]);
      }
    } else {
      assert s[..1] == [s[0]];
      if Utf8Char(s[..k]) {
        CharHasItsLength(s[..k]);
      }
    }
  }

  /** `decode` inverts `encode`, whatever follows. */
  lemma Decode8Encodes(v: Unit, rest: seq<Unit>)
    requires Valid(v) && Sized(Utf8, rest)
    ensures Decode8(Encode8(v) + rest) == (v, Width8(v))
  {
    Encode8IsChar(v);
    var s := Encode8(v) + rest;
    assert s[..Width8(v)] == Encode8(v);
    Decode8Accepts(s, Width8(v));
    hide Decode8, Encode8, Utf8Char;
    Encode8IsInjective(v, Decode8(s).0);
  }

  function Value8(s: seq<Unit>): Unit {
    match |s|
    case 1 => s[0]
    case 2 => Join(LeadBits(s[0], 1), s[1])
    case 3 => Join(Join(LeadBits(s[0], 2), s[1]), s[2])
    case 4 => Join(Join(Join(LeadBits(s[0], 3), s[1]), s[2]), s[3])
    case _ => ILLEGAL
  }

  lemma SplitBits(v: Unit)
    ensures 0x80 <= v <= 0x7FF ==> Join(LeadBits((v >> 6) | 0xC0, 1), (v & 0x3F) | 0x80) == v
    ensures 0x800 <= v <= 0xFFFF ==> Join(Join(LeadBits((v >> 12) | 0xE0, 2), ((v >> 6) & 0x3F) | 0x80), (v & 0x3F) | 0x80) == v
    ensures 0x10000 <= v <= 0x10FFFF ==>
      Join(Join(Join(LeadBits((v >> 18) | 0xF0, 3), ((v >> 12) & 0x3F) | 0x80), ((v >> 6) & 0x3F) | 0x80), (v & 0x3F) | 0x80) == v
  {}

  lemma ValueOfEncoding(v: Unit)
    requires Valid(v)
    ensures Value8(Encode8(v)) == v
  {
    hide Join, LeadBits;
    SplitBits(v);
  }

  lemma Encode8IsInjective(v: Unit, w: Unit)
    requires Valid(v) && Valid(w) && Encode8(v) == Encode8(w)
    ensures v == w
  {
    hide Encode8, Value8;
    ValueOfEncoding(v);
    ValueOfEncoding(w);
  }

  /** `utf_traits<CharType,1>::decode`: `p` is moved behind what was read; the cases of the switch fall through. */
  method ReadUtf8(s: seq<Unit>, start: nat) returns (c: Unit, p: nat)
    requires start <= |s|
    ensures (c, p - start) == Decode8(s[start..])
  {
    p := start;
    if p == |s| {
      return INCOMPLETE, p;
    }
    var lead := s[p];
    p := p + 1;
    var trail := TrailLength(lead);
    if trail < 0 {
      return ILLEGAL, p;
    }
    if trail == 0 {
      return lead, p;
    }
    hide Join, LeadBits, IsTrail;
    LeadIsSmall(lead, trail);
    c := LeadBits(lead, trail);
    for n := trail downto 0
      invariant p == start + 1 + trail - n <= |s|
      invariant c <= (if n == 3 then 0x7 else if n == 2 then 0x1FF else if n == 1 then 0x7FFF else 0x1F_FFFF)
      invariant Trail(s[start..], 1, LeadBits(lead, trail), trail) == Trail(s[start..], p - start, c, n)
    {
      if p == |s| {
        SpecialsStay(trail);
        return INCOMPLETE, p;
      }
      var tmp := s[p];
      p := p + 1;
      if !IsTrail(tmp) {
        SpecialsStay(trail);
        return ILLEGAL, p;
      }
      JoinGrows(c, tmp);
      c := Join(c, tmp);
    }
    if !Valid(c) {
      c := ILLEGAL;
    } else if Width8(c) != trail + 1 {
      c := ILLEGAL;
    }
  }

  // ---- UTF-16 ----

  predicate FirstSurrogate(x: Unit) { 0xD800 <= x <= 0xDBFF }

  predicate SecondSurrogate(x: Unit) { 0xDC00 <= x <= 0xDFFF }

  function Combine(w1: Unit, w2: Unit): Unit { (((w1 & 0x3FF) << 10) | (w2 & 0x3FF)) + 0x10000 }

  function Decode16(s: seq<Unit>): (r: (Unit, nat))
    ensures r.1 <= |s| && (s != [] ==> r.1 > 0)
  {
    if s == [] then (INCOMPLETE, 0)
    else if s[0] < 0xD800 || 0xDFFF < s[0] then (s[0], 1)
    else if s[0] > 0xDBFF then (ILLEGAL, 1)
    else if |s| == 1 then (INCOMPLETE, 1)
    else if s[1] < 0xDC00 || 0xDFFF < s[1] then (ILLEGAL, 2)
    else (Combine(s[0], s[1]), 2)
  }

  function Width16(v: Unit): nat { if v >= 0x10000 then 2 else 1 }

  function Encode16(v: Unit): (s: seq<Unit>)
    ensures |s| == Width16(v)
  {
    if v <= 0xFFFF then [v] else
      var u := v - 0x10000;
      [0xD800 | (u >> 10), 0xDC00 | (u & 0x3FF)]
  }

  /** Section 2 of RFC 2781: a unit that is no surrogate, or a pair of surrogates. */
  predicate Utf16Char(s: seq<Unit>) {
    || (|s| == 1 && s[0] <= 0xFFFF && !FirstSurrogate(s[0]) && !SecondSurrogate(s[0]))
    || (|s| == 2 && FirstSurrogate(s[0]) && SecondSurrogate(s[1]))
  }

  lemma Pair(a: Unit, b: Unit)
    requires FirstSurrogate(a) && SecondSurrogate(b)
    ensures Valid(Combine(a, b)) && Encode16(Combine(a, b)) == [a, b]
  {}

  lemma Encode16IsChar(v: Unit)
    requires Valid(v)
    ensures Utf16Char(Encode16(v)) && Sized(Utf16, Encode16(v))
  {}

  lemma Encode16IsInjective(v: Unit, w: Unit)
    requires Valid(v) && Valid(w) && Encode16(v) == Encode16(w)
    ensures v == w
  {}

  lemma Decode16Accepts(s: seq<Unit>, k: nat)
    requires Sized(Utf16, s) && s != [] && k <= |s|
    ensures var (c, n) := Decode16(s);
            && (Valid(c) || c == ILLEGAL || c == INCOMPLETE)
            && (Valid(c) ==> Utf16Char(s[..n]) && s[..n] == Encode16(c))
            && (Utf16Char(s[..k]) ==> Valid(c) && n == k)
  {
    hide Combine, Encode16;
    assert s[..1] == [s[0]];
    if |s| > 1 {
      assert s[..2] == [s[0], s[1]];
      if FirstSurrogate(s[0]) && SecondSurrogate(s[1]) {
        Pair(s[0], s[1]);
      }
    }
    SmallIsItself(s[0]);
  }

  lemma SmallIsItself(a: Unit)
    requires a <= 0xFFFF
    ensures Encode16(a) == [a]
  {}

  // ---- any encoding ----

  function Width(e: Encoding, v: Unit): nat {
    match e case Utf8 => Width8(v) case Utf16 => Width16(v) case Utf32 => 1
  }

  function Encode(e: Encoding, v: Unit): (s: seq<Unit>)
    ensures |s| == Width(e, v) > 0
  {
    match e case Utf8 => Encode8(v) case Utf16 => Encode16(v) case Utf32 => [v]
  }

  function Decode(e: Encoding, s: seq<Unit>): (r: (Unit, nat))
    ensures r.1 <= |s| && (s != [] ==> r.1 > 0)
  {
    match e
    case Utf8 => Decode8(s)
    case Utf16 => Decode16(s)
    case Utf32 => if s == [] then (INCOMPLETE, 0) else (if Valid(s[0]) then s[0] else ILLEGAL, 1)
  }

  /** One character of the encoding. */
  predicate Char(e: Encoding, s: seq<Unit>) {
    match e case Utf8 => Utf8Char(s) case Utf16 => Utf16Char(s) case Utf32 => |s| == 1 && Valid(s[0])
  }

  lemma EncodeIsChar(e: Encoding, v: Unit)
    requires Valid(v)
    ensures Char(e, Encode(e, v)) && Sized(e, Encode(e, v))
  {
    hide Utf8Char, Utf16Char, Encode8, Encode16;
    Encode8IsChar(v);
    Encode16IsChar(v);
  }

  lemma EncodeIsInjective(e: Encoding, v: Unit, w: Unit)
    requires Valid(v) && Valid(w) && Encode(e, v) == Encode(e, w)
    ensures v == w
  {
    hide Encode8, Encode16;
    if e == Utf8 {
      Encode8IsInjective(v, w);
    } else if e == Utf16 {
      Encode16IsInjective(v, w);
    }
  }

  /** For each encoding: `decode` yields a code point if and only if the text starts with a character of the
      standard, consumes just that character, and yields the code point that it encodes. */
  lemma DecodeAccepts(e: Encoding, s: seq<Unit>, k: nat)
    requires Sized(e, s) && s != [] && k <= |s|
    ensures var (c, n) := Decode(e, s);
            && (Valid(c) || c == ILLEGAL || c == INCOMPLETE)
            && (Valid(c) ==> Char(e, s[..n]) && s[..n] == Encode(e, c))
            && (Char(e, s[..k]) ==> Valid(c) && n == k)
  {
    hide Decode8, Decode16, Encode8, Encode16, Utf8Char, Utf16Char;
    match e
    case Utf8 => Decode8Accepts(s, k);
    case Utf16 => Decode16Accepts(s, k);
    case Utf32 => assert s[..1] == [s[0]];
  }

  lemma DecodeEncodes(e: Encoding, v: Unit, rest: seq<Unit>)
    requires Valid(v) && Sized(e, rest)
    ensures Decode(e, Encode(e, v) + rest) == (v, Width(e, v))
  {
    EncodeIsChar(e, v);
    var s := Encode(e, v) + rest;
    assert s[..Width(e, v)] == Encode(e, v);
    DecodeAccepts(e, s, Width(e, v));
    hide Decode, Encode, Char;
    EncodeIsInjective(e, v, Decode(e, s).0);
  }

  // ---- whole texts ----

  ghost predicate AllValid(cps: seq<Unit>) {
    forall i :: 0 <= i < |cps| ==> Valid(cps[i])
  }

  function EncodeAll(e: Encoding, cps: seq<Unit>): seq<Unit> {
    if cps == [] then [] else Encode(e, cps[0]) + EncodeAll(e, cps[1..])
  }

  /** The code points of a text, unless something in it is illegal or incomplete. */
  function CodePoints(e: Encoding, s: seq<Unit>): Option<seq<Unit>>
    decreases |s|
  {
    if s == [] then Some([]) else
      var (c, n) := Decode(e, s);
      if c == ILLEGAL || c == INCOMPLETE then None else
        var rest :- CodePoints(e, s[n..]);
        Some([c] + rest)
  }

  /** Well-formed text is what its code points encode to. */
  lemma {:induction false} EncodeCodePoints(e: Encoding, s: seq<Unit>)
    requires Sized(e, s) && CodePoints(e, s).Some?
    ensures AllValid(CodePoints(e, s).value) && EncodeAll(e, CodePoints(e, s).value) == s
    decreases |s|
  {
    hide Decode, Encode, Char, Valid;
    if s != [] {
      DecodeAccepts(e, s, 0);
      var (c, n) := Decode(e, s);
      EncodeCodePoints(e, s[n..]);
      assert s == s[..n] + s[n..];
    }
  }

  lemma NothingIsSized(e: Encoding)
    ensures Sized(e, [])
  {}

  lemma SizedConcat(e: Encoding, a: seq<Unit>, b: seq<Unit>)
    requires Sized(e, a) && Sized(e, b)
    ensures Sized(e, a + b)
  {
    hide Fits;
    forall i | 0 <= i < |a + b|
      ensures Fits(e, (a + b)[i])
    {
      assert (a + b)[i] == if i < |a| then a[i] else b[i - |a|];
    }
  }

  lemma {:induction false} EncodeAllSized(e: Encoding, cps: seq<Unit>)
    requires AllValid(cps)
    ensures Sized(e, EncodeAll(e, cps))
    decreases |cps|
  {
    hide Encode, Char, Valid, Sized;
    if cps != [] {
      EncodeIsChar(e, cps[0]);
      EncodeAllSized(e, cps[1..]);
      SizedConcat(e, Encode(e, cps[0]), EncodeAll(e, cps[1..]));
    } else {
      NothingIsSized(e);
    }
  }

  /** Every sequence of code points survives encoding and decoding. */
  lemma {:induction false} CodePointsOfEncoding(e: Encoding, cps: seq<Unit>)
    requires AllValid(cps)
    ensures CodePoints(e, EncodeAll(e, cps)) == Some(cps)
    decreases |cps|
  {
    if cps != [] {
      var rest := EncodeAll(e, cps[1..]);
      EncodeAllSized(e, cps[1..]);
      assert Valid(cps[0]) && cps[0] != ILLEGAL && cps[0] != INCOMPLETE;
      hide Decode, Encode, Char, Valid;
      DecodeEncodes(e, cps[0], rest);
      CodePointsOfEncoding(e, cps[1..]);
      assert (Encode(e, cps[0]) + rest)[Width(e, cps[0])..] == rest;
      assert [cps[0]] + cps[1..] == cps;
    }
  }
}
