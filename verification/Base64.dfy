/** The unpadded Base64 codec of argon2/encoding.c, against section 4 of RFC 4648. */
module Base64 {
  import opened CStrings
  import opened Wrappers

  /** The value of a digit. */
  type Sextet = bv6

  // ---- one digit: the constant-time comparisons on 32-bit words ----

  function Eq(x: bv32, y: bv32): bv32 { (((0 - (x ^ y)) >> 8) & 0xFF) ^ 0xFF }

  function Gt(x: bv32, y: bv32): bv32 { ((y - x) >> 8) & 0xFF }

  function Ge(x: bv32, y: bv32): bv32 { Gt(y, x) ^ 0xFF }

  function Lt(x: bv32, y: bv32): bv32 { Gt(y, x) }

  function Le(x: bv32, y: bv32): bv32 { Ge(y, x) }

  /** `b64_byte_to_char`. */
  function ByteToChar(x: bv32): bv32 {
    (Lt(x, 26) & (x + 65)) | (Ge(x, 26) & Lt(x, 52) & (x + (97 - 26))) | (Ge(x, 52) & Lt(x, 62) & (x + (48 - 52)))
    | (Eq(x, 62) & 43) | (Eq(x, 63) & 47)
  }

  /** `b64_char_to_byte`. */
  function CharToByte(c: bv32): bv32 {
    var x := (Ge(c, 65) & Le(c, 90) & (c - 65)) | (Ge(c, 97) & Le(c, 122) & (c - (97 - 26)))
             | (Ge(c, 48) & Le(c, 57) & (c - (48 - 52))) | (Eq(c, 43) & 62) | (Eq(c, 47) & 63);
    x | (Eq(x, 0) & (Eq(c, 65) ^ 0xFF))
  }

  /** A plain `char` is signed: the bytes from 128 on are negative, and become large as `unsigned`. */
  function Promoted(c: Char): bv32 { SignExtended((c as int) as bv8) }

  function SignExtended(b: bv8): bv32 {
    if b < 128 then b as bv32 else 0xFFFF_FF00 | (b as bv32)
  }

  /** A digit, or 0xFF. */
  function Decoded(c: Char): bv32 { CharToByte(Promoted(c)) }

  /** Table 1 of RFC 4648. */
  function Letter(x: Sextet): Char {
    var v := x as int;
    (if v < 26 then 65 + v else if v < 52 then 71 + v else if v < 62 then v - 4 else if v == 62 then 43 else 47) as char
  }

  predicate Alphabetic(c: Char) {
    'A' <= c <= 'Z' || 'a' <= c <= 'z' || '0' <= c <= '9' || c == '+' || c == '/'
  }

  lemma ByteToCharIsLetter(x: Sextet)
    ensures ByteToChar(x as bv32) as int == Letter(x) as int
  {}

  lemma CharToByteIs(c: bv32)
    requires c < 128 || c >= 0xFFFF_FF80
    ensures CharToByte(c) ==
      if 65 <= c <= 90 then c - 65 else if 97 <= c <= 122 then c - 71 else if 48 <= c <= 57 then c + 4
      else if c == 43 then 62 else if c == 47 || c >= 128 then 63 else 0xFF
  {}

  lemma WordIs(b: bv8)
    ensures (b as bv32) as int == b as int
  {}

  lemma PromotedIs(c: Char)
    ensures c as int < 128 ==> Promoted(c) < 128 && Promoted(c) as int == c as int
    ensures c as int >= 128 ==> Promoted(c) >= 0xFFFF_FF80
  {
    OctetIs(c as int);
    WordIs((c as int) as bv8);
  }

  /** For the characters 0..127 the decoder knows exactly Table 1; every negative `char` is taken for '/'. */
  lemma DecodedIs(c: Char)
    ensures Decoded(c) != 0xFF <==> Alphabetic(c) || c as int >= 128
    ensures Decoded(c) != 0xFF ==> Decoded(c) < 64
    ensures c as int >= 128 ==> Decoded(c) == 63
    ensures Alphabetic(c) ==> Decoded(c) < 64 && Letter(Decoded(c) as bv6) == c
  {
    hide CharToByte, Promoted;
    PromotedIs(c);
    CharToByteIs(Promoted(c));
  }

  lemma LetterDecodes(x: Sextet)
    ensures Alphabetic(Letter(x)) && Decoded(Letter(x)) == x as bv32
  {
    hide CharToByte, Promoted;
    PromotedIs(Letter(x));
    CharToByteIs(Promoted(Letter(x)));
  }

  // ---- groups of three bytes and of four digits ----

  function Digit0(b0: bv8): Sextet { (b0 >> 2) as bv6 }

  function Digit1(b0: bv8, b1: bv8): Sextet { (((b0 & 3) << 4) | (b1 >> 4)) as bv6 }

  function Digit2(b1: bv8, b2: bv8): Sextet { (((b1 & 15) << 2) | (b2 >> 6)) as bv6 }

  function Digit3(b2: bv8): Sextet { (b2 & 63) as bv6 }

  function Byte0(x0: Sextet, x1: Sextet): bv8 { ((x0 as bv8) << 2) | ((x1 as bv8) >> 4) }

  function Byte1(x1: Sextet, x2: Sextet): bv8 { ((x1 as bv8) << 4) | ((x2 as bv8) >> 2) }

  function Byte2(x2: Sextet, x3: Sextet): bv8 { ((x2 as bv8) << 6) | (x3 as bv8) }

  function ByteAt(s: seq<bv8>, i: nat): bv8 { if i < |s| then s[i] else 0 }

  function SextetAt(d: seq<Sextet>, k: nat): Sextet { if k < |d| then d[k] else 0 }

  /** Digit `k` of the encoding: groups of three bytes become groups of four digits, and missing bytes at the
      end are filled up with zero bits. */
  function DigitOf(s: seq<bv8>, k: nat): Sextet {
    var j := k / 4 * 3;
    if k % 4 == 0 then Digit0(ByteAt(s, j))
    else if k % 4 == 1 then Digit1(ByteAt(s, j), ByteAt(s, j + 1))
    else if k % 4 == 2 then Digit2(ByteAt(s, j + 1), ByteAt(s, j + 2))
    else Digit3(ByteAt(s, j + 2))
  }

  /** Number of digits that hold all bits of `n` bytes. */
  function Length(n: nat): nat { (4 * n + 2) / 3 }

  function Sextets(s: seq<bv8>): (d: seq<Sextet>)
    ensures |d| == Length(|s|)
  {
    seq(Length(|s|), k requires 0 <= k => DigitOf(s, k))
  }

  /** Byte `i` of what digits decode to. */
  function ByteOf(d: seq<Sextet>, i: nat): bv8 {
    var g := i / 3 * 4;
    if i % 3 == 0 then Byte0(SextetAt(d, g), SextetAt(d, g + 1))
    else if i % 3 == 1 then Byte1(SextetAt(d, g + 1), SextetAt(d, g + 2))
    else Byte2(SextetAt(d, g + 2), SextetAt(d, g + 3))
  }

  /** The complete bytes of `d`. */
  function Bytes(d: seq<Sextet>): (s: seq<bv8>)
    ensures |s| == 3 * |d| / 4
  {
    seq(3 * |d| / 4, i requires 0 <= i => ByteOf(d, i))
  }

  /** Fewer than six bits are left over, and all of them are zero. */
  predicate Canonical(d: seq<Sextet>) {
    var n := |d|;
    n % 4 == 0 || (n % 4 == 2 && d[n - 1] & 15 == 0) || (n % 4 == 3 && d[n - 1] & 3 == 0)
  }

  lemma RegroupBytes(b0: bv8, b1: bv8, b2: bv8)
    ensures Byte0(Digit0(b0), Digit1(b0, b1)) == b0
    ensures Byte1(Digit1(b0, b1), Digit2(b1, b2)) == b1
    ensures Byte2(Digit2(b1, b2), Digit3(b2)) == b2
    ensures Digit1(b0, 0) & 15 == 0 && Digit2(b1, 0) & 3 == 0
  {}

  lemma RegroupDigits(x0: Sextet, x1: Sextet, x2: Sextet, x3: Sextet)
    ensures Digit0(Byte0(x0, x1)) == x0
    ensures Digit1(Byte0(x0, x1), Byte1(x1, x2)) == x1
    ensures Digit2(Byte1(x1, x2), Byte2(x2, x3)) == x2
    ensures Digit3(Byte2(x2, x3)) == x3
    ensures x1 & 15 == 0 ==> Digit1(Byte0(x0, x1), 0) == x1
    ensures x2 & 3 == 0 ==> Digit2(Byte1(x1, x2), 0) == x2
  {}

  lemma Split(q: nat, r: nat, n: nat)
    requires r < n && (n == 3 || n == 4)
    ensures (n * q + r) / n == q && (n * q + r) % n == r
  {}

  lemma GroupOfBytes(s: seq<bv8>, q: nat)
    ensures DigitOf(s, 4 * q) == Digit0(ByteAt(s, 3 * q))
    ensures DigitOf(s, 4 * q + 1) == Digit1(ByteAt(s, 3 * q), ByteAt(s, 3 * q + 1))
    ensures DigitOf(s, 4 * q + 2) == Digit2(ByteAt(s, 3 * q + 1), ByteAt(s, 3 * q + 2))
    ensures DigitOf(s, 4 * q + 3) == Digit3(ByteAt(s, 3 * q + 2))
  {
    hide ByteAt, Digit0, Digit1, Digit2, Digit3;
    Split(q, 0, 4);
    Split(q, 1, 4);
    Split(q, 2, 4);
    Split(q, 3, 4);
  }

  lemma GroupOfDigits(d: seq<Sextet>, q: nat)
    ensures ByteOf(d, 3 * q) == Byte0(SextetAt(d, 4 * q), SextetAt(d, 4 * q + 1))
    ensures ByteOf(d, 3 * q + 1) == Byte1(SextetAt(d, 4 * q + 1), SextetAt(d, 4 * q + 2))
    ensures ByteOf(d, 3 * q + 2) == Byte2(SextetAt(d, 4 * q + 2), SextetAt(d, 4 * q + 3))
  {
    hide SextetAt, Byte0, Byte1, Byte2;
    Split(q, 0, 3);
    Split(q, 1, 3);
    Split(q, 2, 3);
  }

  lemma ByteOfDigits(s: seq<bv8>, i: nat)
    requires i < |s|
    ensures ByteOf(Sextets(s), i) == s[i]
  {
    hide DigitOf, ByteOf, Digit0, Digit1, Digit2, Digit3, Byte0, Byte1, Byte2;
    var q := i / 3;
    GroupOfBytes(s, q);
    GroupOfDigits(Sextets(s), q);
    RegroupBytes(ByteAt(s, 3 * q), ByteAt(s, 3 * q + 1), ByteAt(s, 3 * q + 2));
  }

  lemma DigitsAreCanonical(s: seq<bv8>)
    ensures Canonical(Sextets(s))
  {
    hide DigitOf, Digit0, Digit1, Digit2, Digit3;
    var q := |s| / 3;
    GroupOfBytes(s, q);
    RegroupBytes(ByteAt(s, 3 * q), ByteAt(s, 3 * q + 1), 0);
    var d := Sextets(s);
    if |s| == 3 * q + 1 {
      assert |d| == 4 * q + 2 && d[4 * q + 1] == DigitOf(s, 4 * q + 1);
    } else if |s| == 3 * q + 2 {
      assert |d| == 4 * q + 3 && d[4 * q + 2] == DigitOf(s, 4 * q + 2);
    } else {
      assert |d| == 4 * q;
    }
  }

  /** Decoding the digits of `s` gives `s` back, with nothing but zero bits left over. */
  lemma DigitsDecode(s: seq<bv8>)
    ensures Bytes(Sextets(s)) == s && Canonical(Sextets(s))
  {
    hide DigitOf, ByteOf, Canonical;
    DigitsAreCanonical(s);
    forall i | 0 <= i < |s|
      ensures Bytes(Sextets(s))[i] == s[i]
    {
      ByteOfDigits(s, i);
    }
  }

  lemma DigitOfBytes(d: seq<Sextet>, k: nat)
    requires Canonical(d) && k < |d|
    ensures DigitOf(Bytes(d), k) == d[k]
  {
    hide DigitOf, ByteOf, Digit0, Digit1, Digit2, Digit3, Byte0, Byte1, Byte2;
    var q := k / 4;
    GroupOfBytes(Bytes(d), q);
    GroupOfDigits(d, q);
    RegroupDigits(SextetAt(d, 4 * q), SextetAt(d, 4 * q + 1), SextetAt(d, 4 * q + 2), SextetAt(d, 4 * q + 3));
  }

  /** Canonical digits are the digits of what they decode to. */
  lemma BytesEncode(d: seq<Sextet>)
    requires Canonical(d)
    ensures Sextets(Bytes(d)) == d
  {
    hide DigitOf, ByteOf;
    forall k | 0 <= k < |d|
      ensures Sextets(Bytes(d))[k] == d[k]
    {
      DigitOfBytes(d, k);
    }
  }

  // ---- strings ----

  function Letters(d: seq<Sextet>): (s: CString)
    ensures |s| == |d|
  {
    seq(|d|, i requires 0 <= i < |d| => Letter(d[i]))
  }

  function Encode(s: seq<bv8>): (r: CString)
    ensures |r| == Length(|s|)
  {
    Letters(Sextets(s))
  }

  predicate IsDigit(c: Char) { Decoded(c) != 0xFF }

  function Value(c: Char): Sextet {
    if Decoded(c) < 64 then Decoded(c) as bv6 else 0
  }

  function Values(s: CString): (d: seq<Sextet>)
    ensures |d| == |s|
  {
    seq(|s|, i requires 0 <= i < |s| => Value(s[i]))
  }

  /** Where the digits from `pos` on end. */
  function Run(str: CString, pos: nat): (e: nat)
    requires pos <= |str|
    ensures pos <= e <= |str|
    ensures forall k :: pos <= k < e ==> IsDigit(str[k])
    ensures e < |str| ==> !IsDigit(str[e])
    decreases |str| - pos
  {
    if pos < |str| && IsDigit(str[pos]) then Run(str, pos + 1) else pos
  }

  /** The bytes and the position behind them. */
  function Decode(str: CString, pos: nat, capacity: nat): (r: Option<(seq<bv8>, nat)>)
    requires pos <= |str|
    ensures r.Some? ==> |r.value.0| <= capacity && pos <= r.value.1 <= |str|
  {
    var e := Run(str, pos);
    var d := Values(str[pos..e]);
    if Canonical(d) && |Bytes(d)| <= capacity then Some((Bytes(d), e)) else None
  }

  lemma {:induction false} RunIs(str: CString, pos: nat, e: nat)
    requires pos <= e <= |str| && (forall k :: pos <= k < e ==> IsDigit(str[k])) && (e < |str| ==> !IsDigit(str[e]))
    ensures Run(str, pos) == e
    decreases e - pos
  {
    hide IsDigit;
    if pos < e {
      RunIs(str, pos + 1, e);
    }
  }

  /** Every byte string survives encoding and decoding, if what follows is not a digit and the buffer holds it. */
  lemma DecodeEncode(s: seq<bv8>, str: CString, pos: nat, capacity: nat)
    requires pos + |Encode(s)| <= |str| && str[pos..pos + |Encode(s)|] == Encode(s)
    requires pos + |Encode(s)| < |str| ==> !IsDigit(str[pos + |Encode(s)|])
    ensures Decode(str, pos, capacity) == if |s| <= capacity then Some((s, pos + |Encode(s)|)) else None
  {
    hide Sextets, Bytes, Decoded, Canonical;
    var e := pos + |Encode(s)|;
    forall k | pos <= k < e
      ensures IsDigit(str[k]) && Value(str[k]) == Sextets(s)[k - pos]
    {
      assert str[k] == str[pos..e][k - pos];
      LetterIsDigit(Sextets(s)[k - pos]);
    }
    RunIs(str, pos, e);
    assert Values(str[pos..e]) == Sextets(s);
    DigitsDecode(s);
  }

  lemma LetterIsDigit(x: Sextet)
    ensures IsDigit(Letter(x)) && Value(Letter(x)) == x
  {
    LetterDecodes(x);
  }

  /** What is decoded re-encodes to the very digits that were read, if and only if these hold no negative
      `char`: among 7-bit characters only canonical encodings (section 3.5 of RFC 4648) are accepted. */
  lemma EncodeDecode(str: CString, pos: nat, capacity: nat)
    requires pos <= |str| && Decode(str, pos, capacity).Some?
    ensures var (s, e) := Decode(str, pos, capacity).value;
            && pos <= e <= |str|
            && (Encode(s) == str[pos..e] <==> forall k :: pos <= k < e ==> str[k] as int < 128)
  {
    hide Sextets, Bytes, Canonical, Decoded;
    var (s, e) := Decode(str, pos, capacity).value;
    var d := Values(str[pos..e]);
    BytesEncode(d);
    assert |Encode(s)| == e - pos;
    forall k | pos <= k < e
      ensures Encode(s)[k - pos] == str[k] <==> str[k] as int < 128
    {
      assert d[k - pos] == Value(str[k]);
      LetterOfValue(str[k]);
    }
    if forall k :: pos <= k < e ==> str[k] as int < 128 {
      assert Encode(s) == str[pos..e];
    } else {
      var k :| pos <= k < e && str[k] as int >= 128;
      assert Encode(s)[k - pos] != str[pos..e][k - pos];
    }
  }

  lemma LetterOfValue(c: Char)
    requires IsDigit(c)
    ensures Letter(Value(c)) == c <==> c as int < 128
  {
    DecodedIs(c);
  }

  /** A string with a byte above 127 that is accepted although it is not Base64. */
  lemma NegativeCharIsAccepted()
    ensures var str: CString := [128 as char, 'w'];
            Decode(str, 0, 1) == Some(([0xFF], 2)) && Encode([0xFF]) == "/w" != str
  {
    var str: CString := [128 as char, 'w'];
    DecodedIs(str[0]);
    DecodedIs(str[1]);
    var d := Values(str[0..2]);
    assert d == [63, 48];
    RunIs(str, 0, 2);
    assert Bytes(d) == [0xFF];
    assert Sextets([0xFF]) == [63, 48];
  }

  // ---- the loops ----

  /** The low bits of the accumulator when `i > 0` bytes went in and the last one is not yet taken out: that
      byte below the two or four bits that were left of the one before. */
  ghost predicate Loaded(acc: bv32, src: seq<bv8>, i: nat)
    requires 0 < i <= |src|
  {
    var b := src[i - 1] as bv32;
    && (i % 3 == 1 ==> acc & 0xFF == b)
    && (i % 3 == 2 ==> i > 1 && acc & 0x3FF == (((src[i - 2] & 3) as bv32) << 8) | b)
    && (i % 3 == 0 ==> i > 1 && acc & 0xFFF == (((src[i - 2] & 15) as bv32) << 8) | b)
  }

  /** Between bytes: the bits not written yet. */
  ghost predicate Rest(acc: bv32, src: seq<bv8>, i: nat)
    requires i <= |src|
  {
    && (i % 3 == 1 ==> acc & 3 == (src[i - 1] & 3) as bv32)
    && (i % 3 == 2 ==> acc & 15 == (src[i - 1] & 15) as bv32)
  }

  lemma Load(acc: bv32, src: seq<bv8>, i: nat)
    requires i < |src| && Rest(acc, src, i)
    ensures Loaded((acc << 8) + (src[i] as bv32), src, i + 1)
  {}

  lemma Unload(acc: bv32, src: seq<bv8>, i: nat)
    requires 0 < i <= |src| && Loaded(acc, src, i)
    ensures Rest(acc, src, i)
  {}

  /** Six bits of the accumulator, above the low `n` ones. */
  function SixBits(acc: bv32, n: nat): bv32
    requires n <= 26
  {
    (acc >> n) & 0x3F
  }

  lemma TakeBits(acc: bv32, p: bv8, b: bv8)
    ensures acc & 0xFF == b as bv32 ==> SixBits(acc, 2) == Digit0(b) as bv32
    ensures acc & 0x3FF == (((p & 3) as bv32) << 8) | (b as bv32) ==> SixBits(acc, 4) == Digit1(p, b) as bv32
    ensures acc & 0xFFF == (((p & 15) as bv32) << 8) | (b as bv32) ==>
      SixBits(acc, 6) == Digit2(p, b) as bv32 && SixBits(acc, 0) == Digit3(b) as bv32
  {}

  /** The digit taken from the accumulator is the next digit of the encoding. */
  lemma NextDigit(acc: bv32, accLen: nat, src: seq<bv8>, i: nat, k: nat)
    requires 0 < i <= |src| && Loaded(acc, src, i) && 6 <= accLen <= 12 && accLen == 8 * i - 6 * k
    ensures SixBits(acc, accLen - 6) == DigitOf(src, k) as bv32
  {
    hide SixBits, Digit0, Digit1, Digit2, Digit3;
    var q := (i - 1) / 3;
    GroupOfBytes(src, q);
    hide DigitOf;
    TakeBits(acc, if i > 1 then src[i - 2] else 0, src[i - 1]);
    if i == 3 * q + 1 {
      assert k == 4 * q && accLen == 8;
    } else if i == 3 * q + 2 {
      assert k == 4 * q + 1 && accLen == 10;
    } else {
      assert i == 3 * q + 3;
      assert (k == 4 * q + 2 && accLen == 12) || (k == 4 * q + 3 && accLen == 6);
    }
  }

  lemma NothingLeft(src: seq<bv8>)
    ensures Rest(0, src, 0)
  {}

  lemma LastDigit(acc: bv32, accLen: nat, src: seq<bv8>, k: nat)
    requires Rest(acc, src, |src|) && 0 < accLen < 6 && accLen == 8 * |src| - 6 * k
    ensures (acc << (6 - accLen)) & 0x3F == DigitOf(src, k) as bv32
    ensures k + 1 == Length(|src|)
  {
    var q := |src| / 3;
    GroupOfBytes(src, q);
    hide DigitOf;
    if |src| == 3 * q + 1 {
      assert k == 4 * q + 1 && accLen == 2;
    } else {
      assert |src| == 3 * q + 2 && k == 4 * q + 2 && accLen == 4;
    }
  }

  /** The length that `to_base64` and `b64len` compute. */
  function B64Len(n: nat): (olen: nat)
    ensures olen == Length(n)
    ensures 6 * olen >= 8 * n > 6 * (olen - 1)
  {
    var olen := n / 3 * 4;
    if n % 3 == 2 then olen + 3 else if n % 3 == 1 then olen + 2 else olen
  }

  /** `t` is `s` with the characters from `at` to `j` replaced by the beginning of `r`. */
  ghost predicate Written(s: seq<char>, t: seq<char>, at: nat, j: nat, r: CString) {
    at <= j <= |s| && j - at <= |r| && t == s[..at] + r[..j - at] + s[j..]
  }

  lemma NothingWritten(s: seq<char>, at: nat, r: CString)
    requires at <= |s|
    ensures Written(s, s, at, at, r)
  {}

  lemma AllWritten(s: seq<char>, t: seq<char>, at: nat, r: CString)
    requires at + |r| < |s| && Written(s, t, at, at + |r|, r)
    ensures |t| == |s| && t[at + |r| := 0 as char] == s[..at] + r + [0 as char] + s[at + |r| + 1..]
  {}

  method PutDigit(dst: array<char>, ghost s: seq<char>, at: nat, j: nat, d: bv32, src: seq<bv8>)
    requires Written(s, dst[..], at, j, Encode(src)) && j < dst.Length && j - at < Length(|src|)
    requires d == DigitOf(src, j - at) as bv32
    modifies dst
    ensures Written(s, dst[..], at, j + 1, Encode(src))
  {
    ByteToCharIsLetter(DigitOf(src, j - at));
    hide DigitOf, ByteToChar, Letter;
    assert Encode(src)[j - at] == Letter(DigitOf(src, j - at));
    dst[j] := ByteToChar(d) as char;
  }

  /** The next digit, taken from the accumulator. */
  method EmitDigit(dst: array<char>, ghost s: seq<char>, at: nat, j: nat, acc: bv32, accLen: nat, src: seq<bv8>, i: nat)
    requires 0 < i <= |src| && Loaded(acc, src, i) && accLen <= 6 && at <= j < dst.Length && accLen + 6 == 8 * i - 6 * (j - at)
    requires Written(s, dst[..], at, j, Encode(src)) && j - at < Length(|src|)
    modifies dst
    ensures Written(s, dst[..], at, j + 1, Encode(src))
  {
    hide Encode, DigitOf, Loaded, SixBits, Written, Length;
    NextDigit(acc, accLen + 6, src, i, j - at);
    PutDigit(dst, s, at, j, SixBits(acc, accLen), src);
  }

  /** The loops of `to_base64`: all digits are written. */
  method WriteDigits(dst: array<char>, at: nat, src: seq<bv8>) returns (j: nat)
    requires at + B64Len(|src|) < dst.Length
    modifies dst
    ensures j == at + |Encode(src)| && Written(old(dst[..]), dst[..], at, j, Encode(src))
  {
    hide Encode, DigitOf, Loaded, Rest, SixBits, Written, Length, B64Len;
    ghost var s := dst[..];
    var acc: bv32, accLen: nat := 0, 0;
    j := at;
    var i := 0;
    NothingLeft(src);
    NothingWritten(s, at, Encode(src));
    while i < |src|
      invariant 0 <= i <= |src| && at <= j && accLen == 8 * i - 6 * (j - at) < 6
      invariant Rest(acc, src, i) && Written(s, dst[..], at, j, Encode(src))
    {
      Load(acc, src, i);
      acc := (acc << 8) + (src[i] as bv32);
      accLen, i := accLen + 8, i + 1;
      while accLen >= 6
        invariant at <= j && accLen == 8 * i - 6 * (j - at) <= 12
        invariant Loaded(acc, src, i) && Written(s, dst[..], at, j, Encode(src))
      {
        accLen := accLen - 6;
        EmitDigit(dst, s, at, j, acc, accLen, src, i);
        j := j + 1;
      }
      Unload(acc, src, i);
    }
    if accLen > 0 {
      LastDigit(acc, accLen, src, j - at);
      PutDigit(dst, s, at, j, (acc << (6 - accLen)) & 0x3F, src);
      j := j + 1;
    }
  }

  /** `to_base64`, writing from `dst[at]` on; `dstLen` characters are free there. */
  method ToBase64(dst: array<char>, at: nat, dstLen: nat, src: seq<bv8>) returns (olen: Option<nat>)
    requires at + dstLen <= dst.Length
    modifies dst
    ensures olen == if dstLen <= |Encode(src)| then None else Some(|Encode(src)|)
    ensures olen.None? ==> dst[..] == old(dst[..])
    ensures olen.Some? ==>
      dst[..] == old(dst[..at]) + Encode(src) + [0 as char] + old(dst[at + |Encode(src)| + 1..])
  {
    hide Encode, Written, B64Len, Length;
    if dstLen <= B64Len(|src|) {
      return None;
    }
    ghost var s := dst[..];
    var j := WriteDigits(dst, at, src);
    AllWritten(s, dst[..], at, Encode(src));
    dst[j] := 0 as char;
    return Some(B64Len(|src|));
  }

  /** The bits of the last of `n` digits that no byte has taken yet. */
  ghost predicate Unread(acc: bv32, d: seq<Sextet>, n: nat)
    requires n <= |d|
  {
    && (n % 4 == 1 ==> acc & 63 == d[n - 1] as bv32)
    && (n % 4 == 2 ==> acc & 15 == (d[n - 1] & 15) as bv32)
    && (n % 4 == 3 ==> acc & 3 == (d[n - 1] & 3) as bv32)
  }

  function EightBits(acc: bv32, n: nat): bv8
    requires n <= 24
  {
    ((acc >> n) & 0xFF) as bv8
  }

  lemma JoinBits(acc: bv32, x: Sextet, y: Sextet)
    ensures var a := (acc << 6) + (y as bv32);
            && (acc & 63 == x as bv32 ==> EightBits(a, 4) == Byte0(x, y))
            && (acc & 15 == (x & 15) as bv32 ==> EightBits(a, 2) == Byte1(x, y))
            && (acc & 3 == (x & 3) as bv32 ==> EightBits(a, 0) == Byte2(x, y))
            && a & 63 == y as bv32 && a & 15 == (y & 15) as bv32 && a & 3 == (y & 3) as bv32
  {}

  /** One more digit: what stays in the accumulator, and the byte that it completes. */
  lemma NextByte(acc: bv32, accLen: nat, d: seq<Sextet>, n: nat, len: nat)
    requires n < |d| && Unread(acc, d, n) && accLen == 6 * n - 8 * len < 8
    ensures var a := (acc << 6) + (d[n] as bv32);
            && Unread(a, d, n + 1)
            && (accLen + 6 >= 8 ==> len < |Bytes(d)| && EightBits(a, accLen - 2) == ByteOf(d, len))
  {
    hide EightBits, Byte0, Byte1, Byte2;
    var q := n / 4;
    GroupOfDigits(d, q);
    hide ByteOf;
    JoinBits(acc, if n > 0 then d[n - 1] else 0, d[n]);
    if n == 4 * q + 1 {
      assert len == 3 * q && accLen == 6;
    } else if n == 4 * q + 2 {
      assert len == 3 * q + 1 && accLen == 4;
    } else if n == 4 * q + 3 {
      assert len == 3 * q + 2 && accLen == 2;
    } else {
      assert n == 4 * q && accLen == 0;
    }
  }

  lemma NothingRead(d: seq<Sextet>)
    ensures Unread(0, d, 0)
  {}

  /** The final test of `from_base64`. */
  function BadTail(acc: bv32, accLen: nat): bool
    requires accLen < 8
  {
    accLen > 4 || acc & (((1 as bv32) << accLen) - 1) != 0
  }

  lemma BadTailIs(acc: bv32, accLen: nat, d: seq<Sextet>, len: nat)
    requires Unread(acc, d, |d|) && accLen == 6 * |d| - 8 * len < 8
    ensures BadTail(acc, accLen) <==> !Canonical(d)
    ensures len == |Bytes(d)|
  {
    var q := |d| / 4;
    if |d| == 4 * q + 1 {
      assert accLen == 6;
    } else if |d| == 4 * q + 2 {
      assert accLen == 4;
    } else if |d| == 4 * q + 3 {
      assert accLen == 2;
    } else {
      assert |d| == 4 * q && accLen == 0;
    }
  }

  /** `*src`: a digit, or 0xFF, also for the terminating zero. */
  function DecodedAt(str: CString, p: nat): (d: bv32)
    requires p <= |str|
    ensures d == if p < |str| then Decoded(str[p]) else 0xFF
  {
    CharToByteIs(0);
    CharToByte(if p < |str| then Promoted(str[p]) else 0)
  }

  lemma RunContinues(str: CString, pos: nat, p: nat)
    requires pos <= |str| && pos <= p <= Run(str, pos)
    ensures p < Run(str, pos) <==> DecodedAt(str, p) != 0xFF
    ensures p < Run(str, pos) ==> DecodedAt(str, p) == Values(str[pos..Run(str, pos)])[p - pos] as bv32
  {
    hide Decoded, CharToByte, Promoted, CharToByte;
    if p < Run(str, pos) {
      assert IsDigit(str[p]);
      DecodedIs(str[p]);
      SextetIs(Decoded(str[p]));
    }
  }

  lemma SextetIs(d: bv32)
    requires d < 64
    ensures (d as bv6) as bv32 == d
  {}

  /** The first `len` bytes of `t` are those that the digits `d` stand for; behind `dstLen` it is `s`. */
  ghost predicate Filled(s: seq<bv8>, t: seq<bv8>, dstLen: nat, d: seq<Sextet>, len: nat) {
    len <= dstLen <= |s| == |t| && len <= |Bytes(d)| && t[..len] == Bytes(d)[..len] && t[dstLen..] == s[dstLen..]
  }

  lemma NothingFilled(s: seq<bv8>, dstLen: nat, d: seq<Sextet>)
    requires dstLen <= |s|
    ensures Filled(s, s, dstLen, d, 0)
  {}

  lemma FillOne(s: seq<bv8>, t: seq<bv8>, dstLen: nat, d: seq<Sextet>, len: nat)
    requires Filled(s, t, dstLen, d, len) && len < |Bytes(d)|
    ensures len < dstLen ==> len < |t| && Filled(s, t[len := ByteOf(d, len)], dstLen, d, len + 1)
    ensures len >= dstLen ==> |Bytes(d)| > dstLen
  {
    hide ByteOf;
  }

  /** What the two exits of the loop mean. */
  lemma ReadResult(s: seq<bv8>, t: seq<bv8>, dstLen: nat, str: CString, pos: nat, d: seq<Sextet>, len: nat)
    requires pos <= |str| && d == Values(str[pos..Run(str, pos)]) && Filled(s, t, dstLen, d, len)
    ensures len <= dstLen <= |t| == |s| && t[dstLen..] == s[dstLen..]
    ensures |Bytes(d)| > dstLen || !Canonical(d) ==> Decode(str, pos, dstLen).None?
    ensures len == |Bytes(d)| && Canonical(d) ==> Decode(str, pos, dstLen) == Some((t[..len], Run(str, pos)))
  {
    hide Run, Values, Bytes, Canonical;
    if len == |Bytes(d)| {
      assert Bytes(d)[..len] == Bytes(d);
    }
  }

  /** `from_base64`: the number of bytes and the position behind the digits; `dstLen` bytes are free. */
  method FromBase64(dst: array<bv8>, dstLen: nat, str: CString, pos: nat) returns (r: Option<(nat, nat)>)
    requires dstLen <= dst.Length && pos <= |str|
    modifies dst
    ensures r.Some? <==> Decode(str, pos, dstLen).Some?
    ensures r.Some? ==> r.value.0 <= dstLen && Decode(str, pos, dstLen).value == (dst[..r.value.0], r.value.1)
    ensures dst[dstLen..] == old(dst[dstLen..])
  {
    hide Run, Values, CharToByte, EightBits, Unread, ByteOf, Canonical, BadTail, IsDigit, DecodedAt, Filled, Bytes, Decode;
    ghost var s := dst[..];
    ghost var e := Run(str, pos);
    ghost var d := Values(str[pos..e]);
    var acc: bv32, accLen: nat, len: nat, p := 0, 0, 0, pos;
    NothingRead(d);
    NothingFilled(s, dstLen, d);
    while true
      invariant pos <= p <= e && accLen == 6 * (p - pos) - 8 * len < 8
      invariant Unread(acc, d, p - pos) && Filled(s, dst[..], dstLen, d, len)
      decreases |str| - p
    {
      var x := DecodedAt(str, p);
      RunContinues(str, pos, p);
      if x == 0xFF {
        break;
      }
      NextByte(acc, accLen, d, p - pos, len);
      p := p + 1;
      acc := (acc << 6) + x;
      accLen := accLen + 6;
      if accLen >= 8 {
        accLen := accLen - 8;
        FillOne(s, dst[..], dstLen, d, len);
        if len >= dstLen {
          ReadResult(s, dst[..], dstLen, str, pos, d, len);
          return None;
        }
        dst[len] := EightBits(acc, accLen);
        len := len + 1;
      }
    }
    BadTailIs(acc, accLen, d, len);
    ReadResult(s, dst[..], dstLen, str, pos, d, len);
    if BadTail(acc, accLen) {
      return None;
    }
    return Some((len, p));
  }
}
