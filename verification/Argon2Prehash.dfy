/** `initial_hash` of argon2/core.c: the digest H0 of section 3.2 of RFC 9106, fed to BLAKE2b piece by piece. */
module Argon2Prehash {
  import opened MachineInts
  import opened Argon2Params
  import opened Blake2b
  import CStrings
  import LittleEndian

  /** The bytes that a pointer and a length denote. */
  function Field(p: Pointer, len: u32): (r: seq<bv8>)
    requires p.To? ==> len <= |p.bytes|
  {
    match p case Null => [] case To(bytes) => bytes[..len]
  }

  ghost predicate LengthsFit(c: Context) {
    && (c.pwd.To? ==> c.pwdlen <= |c.pwd.bytes|)
    && (c.salt.To? ==> c.saltlen <= |c.salt.bytes|)
    && (c.secret.To? ==> c.secretlen <= |c.secret.bytes|)
    && (c.ad.To? ==> c.adlen <= |c.ad.bytes|)
  }

  /** LE32(p) || LE32(T) || LE32(m) || LE32(t) || LE32(v) || LE32(y). */
  ghost function Header(c: Context, ty: Argon2Type): (h: seq<bv8>)
    ensures |h| == 24
  {
    Store32(c.lanes) + Store32(c.outlen) + Store32(c.mCost) + Store32(c.tCost) + Store32(c.version) + Store32(TypeNumber(ty))
  }

  /** LE32(|P|) || P. */
  function CountedField(p: Pointer, len: u32): seq<bv8>
    requires p.To? ==> len <= |p.bytes|
  {
    Store32(len) + Field(p, len)
  }

  /** The header, and the password, the salt, the secret and the associated data. */
  ghost function H0Input(c: Context, ty: Argon2Type): seq<bv8>
    requires LengthsFit(c)
  {
    Header(c, ty) + CountedField(c.pwd, c.pwdlen) + CountedField(c.salt, c.saltlen) + CountedField(c.secret, c.secretlen)
    + CountedField(c.ad, c.adlen)
  }

  /** Appends a length and the field it counts. */
  method UpdateField(s: Blake2bState, p: Pointer, len: u32)
    requires s.Absorbing() && (p.To? ==> len <= |p.bytes|)
    modifies s, s.h, s.buf
    ensures s.Absorbing() && s.data == old(s.data) + CountedField(p, len)
    ensures s.start == old(s.start) && s.outlen == old(s.outlen)
  {
    hide Store32, Chain, FullBlocks;
    var ret := s.Update(Store32(len));
    if p.To? {
      ret := s.Update(p.bytes[..len]);
    }
    assert s.data == old(s.data) + CountedField(p, len);
  }

  method UpdateWord(s: Blake2bState, w: u32)
    requires s.Absorbing()
    modifies s, s.h, s.buf
    ensures s.Absorbing() && s.data == old(s.data) + Store32(w)
    ensures s.start == old(s.start) && s.outlen == old(s.outlen)
  {
    hide Store32, Chain, FullBlocks;
    var ret := s.Update(Store32(w));
  }

  method InitialHash(c: Context, ty: Argon2Type) returns (blockhash: seq<bv8>)
    requires LengthsFit(c)
    ensures blockhash == Hash(64, [], H0Input(c, ty))
  {
    hide Store32, Chain, FullBlocks, CountedField, InitialChain, ByteOf, Digest;
    var s := new Blake2bState();
    var ret := s.Init(64);
    UpdateWord(s, c.lanes);
    UpdateWord(s, c.outlen);
    UpdateWord(s, c.mCost);
    UpdateWord(s, c.tCost);
    UpdateWord(s, c.version);
    UpdateWord(s, TypeNumber(ty));
    assert [] + Store32(c.lanes) == Store32(c.lanes);
    assert s.data == Header(c, ty);
    hide Header;
    UpdateField(s, c.pwd, c.pwdlen);
    UpdateField(s, c.salt, c.saltlen);
    UpdateField(s, c.secret, c.secretlen);
    UpdateField(s, c.ad, c.adlen);
    Unkeyed(64, H0Input(c, ty));
    ret, blockhash := s.Final(64);
  }

  // ---- the input determines the context ----

  lemma Store32Value(n: u32)
    ensures LittleEndian.Value(Store32(n)) == n
  {
    var b := Store32(n);
    ByteOfValue(n % 256);
    ByteOfValue(n / 256 % 256);
    ByteOfValue(n / 65536 % 256);
    ByteOfValue(n / 16777216 % 256);
    hide ByteOf;
    LittleEndian.FourBytes(b);
    hide Store32;
    Digits256(n);
  }

  lemma ByteOfValue(n: nat)
    requires n < 256
    ensures ByteOf(n) as int == n
  {
    CStrings.OctetIs(n);
  }

  lemma Digits256(n: u32)
    ensures n == n % 256 + 0x100 * (n / 256 % 256) + 0x1_0000 * (n / 65536 % 256) + 0x100_0000 * (n / 16777216 % 256)
  {}

  /** The six words of the header, little-endian, in the order of section 3.2 of RFC 9106. */
  lemma HeaderWords(c: Context, ty: Argon2Type)
    requires LengthsFit(c)
    ensures |H0Input(c, ty)| >= 24
    ensures var b := H0Input(c, ty);
            && LittleEndian.Value(b[0..4]) == c.lanes && LittleEndian.Value(b[4..8]) == c.outlen
            && LittleEndian.Value(b[8..12]) == c.mCost && LittleEndian.Value(b[12..16]) == c.tCost
            && LittleEndian.Value(b[16..20]) == c.version
            && LittleEndian.Value(b[20..24]) == (match ty case Argon2d => 0 case Argon2i => 1 case Argon2id => 2)
  {
    hide CountedField, Store32, LittleEndian.Value;
    var b, h := H0Input(c, ty), Header(c, ty);
    HeaderPieces(c, ty);
    assert b[0..4] == h[0..4] && b[4..8] == h[4..8] && b[8..12] == h[8..12];
    assert b[12..16] == h[12..16] && b[16..20] == h[16..20] && b[20..24] == h[20..24];
    hide Header, H0Input;
    Store32Value(c.lanes);
    Store32Value(c.outlen);
    Store32Value(c.mCost);
    Store32Value(c.tCost);
    Store32Value(c.version);
    Store32Value(TypeNumber(ty));
  }

  lemma HeaderPieces(c: Context, ty: Argon2Type)
    ensures var h := Header(c, ty);
            && h[0..4] == Store32(c.lanes) && h[4..8] == Store32(c.outlen) && h[8..12] == Store32(c.mCost)
            && h[12..16] == Store32(c.tCost) && h[16..20] == Store32(c.version) && h[20..24] == Store32(TypeNumber(ty))
  {
    hide Store32;
  }

  /** A pointer without bytes has the length zero. */
  predicate Counted(p: Pointer, len: u32) { if p.To? then len <= |p.bytes| else len == 0 }

  ghost predicate AllCounted(c: Context) {
    Counted(c.pwd, c.pwdlen) && Counted(c.salt, c.saltlen) && Counted(c.secret, c.secretlen) && Counted(c.ad, c.adlen)
  }

  lemma AcceptedIsCounted(c: Context)
    requires LengthsFit(c) && ValidateInputs(c) == Ok
    ensures AllCounted(c)
  {
    AcceptedIffAcceptable(c);
  }

  lemma SplitFront<T>(a: seq<T>, b: seq<T>, r: seq<T>, s: seq<T>)
    requires |a| == |b| && a + r == b + s
    ensures a == b && r == s
  {
    assert (a + r)[..|a|] == a && (a + r)[|a|..] == r;
    assert (b + s)[..|b|] == b && (b + s)[|b|..] == s;
  }

  /** A counted field can be told from what follows. */
  lemma FieldBack(p: Pointer, len: u32, r: seq<bv8>, q: Pointer, len': u32, s: seq<bv8>)
    requires Counted(p, len) && Counted(q, len') && CountedField(p, len) + r == CountedField(q, len') + s
    ensures len == len' && Field(p, len) == Field(q, len') && r == s
  {
    Associate(Store32(len), Field(p, len), r);
    Associate(Store32(len'), Field(q, len'), s);
    assert |Field(p, len)| == len && |Field(q, len')| == len';
    hide Store32, CountedField, Field, LittleEndian.Value;
    SplitFront(Store32(len), Store32(len'), Field(p, len) + r, Field(q, len') + s);
    Store32Value(len);
    Store32Value(len');
    SplitFront(Field(p, len), Field(q, len'), r, s);
  }

  lemma Nested(c: Context, ty: Argon2Type)
    requires LengthsFit(c)
    ensures H0Input(c, ty) == Header(c, ty) + (CountedField(c.pwd, c.pwdlen) + (CountedField(c.salt, c.saltlen)
                              + (CountedField(c.secret, c.secretlen) + (CountedField(c.ad, c.adlen) + []))))
  {
    hide Header, CountedField;
  }

  /** Contexts whose inputs to H0 are equal agree in all parameters, all lengths and all bytes that are counted. */
  lemma H0InputIsInjective(c: Context, ty: Argon2Type, d: Context, ty': Argon2Type)
    requires LengthsFit(c) && LengthsFit(d) && AllCounted(c) && AllCounted(d)
    requires H0Input(c, ty) == H0Input(d, ty')
    ensures ty == ty' && c.lanes == d.lanes && c.outlen == d.outlen && c.mCost == d.mCost && c.tCost == d.tCost && c.version == d.version
    ensures c.pwdlen == d.pwdlen && c.saltlen == d.saltlen && c.secretlen == d.secretlen && c.adlen == d.adlen
    ensures Field(c.pwd, c.pwdlen) == Field(d.pwd, d.pwdlen) && Field(c.salt, c.saltlen) == Field(d.salt, d.saltlen)
    ensures Field(c.secret, c.secretlen) == Field(d.secret, d.secretlen) && Field(c.ad, c.adlen) == Field(d.ad, d.adlen)
  {
    HeaderWords(c, ty);
    HeaderWords(d, ty');
    Nested(c, ty);
    Nested(d, ty');
    hide H0Input, Header, Field, CountedField, LittleEndian.Value, Store32;
    var ad, ad' := CountedField(c.ad, c.adlen) + [], CountedField(d.ad, d.adlen) + [];
    var secret, secret' := CountedField(c.secret, c.secretlen) + ad, CountedField(d.secret, d.secretlen) + ad';
    var salt, salt' := CountedField(c.salt, c.saltlen) + secret, CountedField(d.salt, d.saltlen) + secret';
    SplitFront(Header(c, ty), Header(d, ty'), CountedField(c.pwd, c.pwdlen) + salt, CountedField(d.pwd, d.pwdlen) + salt');
    FieldBack(c.pwd, c.pwdlen, salt, d.pwd, d.pwdlen, salt');
    FieldBack(c.salt, c.saltlen, secret, d.salt, d.saltlen, secret');
    FieldBack(c.secret, c.secretlen, ad, d.secret, d.secretlen, ad');
    FieldBack(c.ad, c.adlen, [], d.ad, d.adlen, []);
  }

  lemma SmallWords()
    ensures Store32(4) == [4, 0, 0, 0] && Store32(0) == [0, 0, 0, 0]
  {
    LittleEndian.ByteIs(ByteOf(4), 4);
    LittleEndian.ByteIs(ByteOf(0), 0);
  }

  lemma SameBytes()
    ensures CountedField(Null, 4) + CountedField(To([0, 0, 0, 0]), 4) == CountedField(To([4, 0, 0, 0]), 4) + CountedField(Null, 0)
  {
    SmallWords();
    hide Store32;
    assert CountedField(Null, 4) == [4, 0, 0, 0] && CountedField(Null, 0) == [0, 0, 0, 0];
    assert CountedField(To([0, 0, 0, 0]), 4) == [4, 0, 0, 0, 0, 0, 0, 0];
    assert CountedField(To([4, 0, 0, 0]), 4) == [4, 0, 0, 0, 4, 0, 0, 0];
  }

  /** Without that, the length of a null pointer may stand for the bytes of another field. */
  lemma NullFieldsCollide(c: Context, ty: Argon2Type)
    requires LengthsFit(c)
    ensures var a := c.(pwd := Null, pwdlen := 4, salt := To([0, 0, 0, 0]), saltlen := 4);
            var b := c.(pwd := To([4, 0, 0, 0]), pwdlen := 4, salt := Null, saltlen := 0);
            LengthsFit(a) && LengthsFit(b) && H0Input(a, ty) == H0Input(b, ty)
  {
    var a := c.(pwd := Null, pwdlen := 4, salt := To([0, 0, 0, 0]), saltlen := 4);
    var b := c.(pwd := To([4, 0, 0, 0]), pwdlen := 4, salt := Null, saltlen := 0);
    SameBytes();
    assert Header(a, ty) == Header(b, ty);
    hide Header, CountedField;
    Associate(Header(a, ty), CountedField(a.pwd, a.pwdlen), CountedField(a.salt, a.saltlen));
    Associate(Header(b, ty), CountedField(b.pwd, b.pwdlen), CountedField(b.salt, b.saltlen));
  }

  lemma Associate<T>(a: seq<T>, b: seq<T>, c: seq<T>)
    ensures a + b + c == a + (b + c)
  {}
}
