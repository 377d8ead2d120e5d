/** Hashing into a string and verifying against it: `argon2_hash`, `argon2_verify` and `argon2_compare` of
    argon2/argon2.c. */
module Argon2Verify {
  import opened MachineInts
  import opened CStrings
  import opened Wrappers
  import opened Argon2Params
  import opened Argon2Prehash
  import opened Argon2Encoding
  import opened Argon2Blocks
  import B = Blake2b
  import opened Argon2
  import opened Argon2ThreadCount

  /** `argon2_compare`: 0 for equal bytes, -1 otherwise, without a branch. */
  method Compare(b1: seq<bv8>, b2: seq<bv8>, len: nat) returns (r: int)
    requires len <= |b1| && len <= |b2|
    ensures r == if b1[..len] == b2[..len] then 0 else -1
  {
    var d: bv8 := 0;
    for i := 0 to len
      invariant d == 0 <==> b1[..i] == b2[..i]
    {
      OrIsZero(d, b1[i], b2[i]);
      d := d | (b1[i] ^ b2[i]);
      assert b1[..i + 1] == b1[..i] + [b1[i]] && b2[..i + 1] == b2[..i] + [b2[i]];
    }
    // `d` is promoted to `int`; shifting right by 8 rounds down, and `1 & x` is the parity of `x`.
    r := (d as int - 1) / 256 % 2 - 1;
  }

  lemma OrIsZero(d: bv8, x: bv8, y: bv8)
    ensures d | (x ^ y) == 0 <==> d == 0 && x == y
  {}

  /** The context of `argon2_hash`. */
  function HashContext(tCost: u32, mCost: u32, parallelism: u32, pwd: seq<bv8>, salt: seq<bv8>, out: seq<bv8>, version: u32): Context
    requires |pwd| <= UINT32_MAX && |salt| <= UINT32_MAX && |out| <= UINT32_MAX
  {
    Context(To(out), |out|, To(pwd), |pwd|, To(salt), |salt|, Null, 0, Null, 0,
            tCost, mCost, parallelism, parallelism, version, false, false)
  }

  /** `argon2_verify`: both buffers get as many bytes as the string has characters. */
  ghost function VerifyStatus(encoded: CString, pwd: seq<bv8>, ty: Argon2Type): Status {
    if |pwd| > MAX_U32 then PwdTooLong
    else if |encoded| > UINT32_MAX then DecodingFail
    else
      var n := |encoded|;
      var status := DecodeStatus(encoded, ty, n, n, To(pwd), |pwd|);
      if status != Ok then status else
        var f := Parse(encoded, ty, n, n).value.0;
        var tag := Tag(ContextOf(f, To(pwd), |pwd|), ty);
        if tag == f.out then Ok else VerifyMismatch
  }

  /** No field of a string is longer than the string. */
  lemma FieldsFitTheString(f: Fields, ty: Argon2Type)
    ensures |f.salt| <= |Printed(f, ty)| && |f.out| <= |Printed(f, ty)|
  {}

  /** What the output buffer holds does not change the tag. */
  lemma TagIgnoresOutput(c: Context, ty: Argon2Type, out: seq<bv8>)
    requires ValidateInputs(c) == Ok && LengthsFit(c)
    ensures ValidateInputs(c.(out := To(out))) == Ok
    ensures Tag(c.(out := To(out)), ty) == Tag(c, ty)
  {
    hide TagOf, B.Hash, B.Store32;
  }

  /** `argon2_hash`: the tag of a context whose output buffer held `junk`, and its string unless `dst` is empty. */
  method HashEncoded(build: Build, tCost: u32, mCost: u32, parallelism: u32, pwd: seq<bv8>, salt: seq<bv8>, junk: seq<bv8>,
                     dst: array<char>, ty: Argon2Type, version: u32) returns (status: Status, tag: seq<bv8>)
    modifies dst
    ensures
      if |pwd| > UINT32_MAX then status == PwdTooLong
      else if |salt| > UINT32_MAX then status == SaltTooLong
      else if |junk| > UINT32_MAX then status == OutputTooLong
      else if |junk| < 4 then status == OutputTooShort
      else
      var c := HashContext(tCost, mCost, parallelism, pwd, salt, junk, version);
      if ValidateInputs(c) != Ok then status == ValidateInputs(c) else
        var str := Printed(Fields(version, mCost, tCost, parallelism, salt, Tag(c, ty)), ty);
        && tag == Tag(c, ty)
        && status == (if dst.Length == 0 || |str| < dst.Length then Ok else EncodingFail)
        && (status == Ok && dst.Length != 0 ==> dst[..|str|] == str && dst[|str|] == 0 as char)
  {
    hide ValidateInputs, Tag, Printed;
    tag := [];
    if |pwd| > UINT32_MAX {
      return PwdTooLong, [];
    }
    if |salt| > UINT32_MAX {
      return SaltTooLong, [];
    }
    if |junk| > UINT32_MAX {
      return OutputTooLong, [];
    }
    if |junk| < MIN_OUTLEN {
      return OutputTooShort, [];
    }
    var c := HashContext(tCost, mCost, parallelism, pwd, salt, junk, version);
    status, tag := Argon2Ctx(build, c, ty);
    if status != Ok {
      return;
    }
    TagIgnoresOutput(c, ty, tag);
    var c' := c.(out := To(tag));
    assert FieldsOf(c') == Fields(version, mCost, tCost, parallelism, salt, tag);
    if dst.Length != 0 {
      var encoded := EncodeString(dst, dst.Length, c', ty);
      if encoded != Ok {
        return EncodingFail, tag;
      }
    }
  }

  /** `argon2_verify`. */
  method Verify(build: Build, encoded: CString, pwd: seq<bv8>, ty: Argon2Type) returns (ret: Status)
    ensures ret == VerifyStatus(encoded, pwd, ty)
  {
    hide ValidateInputs, Tag, Parse;
    if |pwd| > MAX_U32 {
      return PwdTooLong;
    }
    if |encoded| > UINT32_MAX {
      return DecodingFail;
    }
    var n := |encoded|;
    var salt, out := new bv8[n], new bv8[n];
    var c;
    ret, c := DecodeString(salt, n, out, n, To(pwd), |pwd|, encoded, ty);
    if ret != Ok {
      return;
    }
    var desired := c.value.out.bytes;
    var tag;
    ret, tag := Argon2Ctx(build, c.value, ty);
    assert ret == Ok;
    var differ := Compare(desired, tag, c.value.outlen);
    assert desired[..c.value.outlen] == desired && tag[..c.value.outlen] == tag;
    if differ != 0 {
      ret := VerifyMismatch;
    }
  }

  /** Verifying against the string of any valid fields compares the recomputed tag. */
  lemma VerifyPrinted(f: Fields, ty: Argon2Type, pwd: seq<bv8>, ty': Argon2Type)
    requires |pwd| <= UINT32_MAX && |Printed(f, ty)| <= UINT32_MAX && |f.salt| <= UINT32_MAX && |f.out| <= UINT32_MAX
    requires ValidateInputs(ContextOf(f, To(pwd), |pwd|)) == Ok
    ensures VerifyStatus(Printed(f, ty), pwd, ty) ==
            if Tag(ContextOf(f, To(pwd), |pwd|), ty) == f.out then Ok else VerifyMismatch
    ensures ty' != ty ==> VerifyStatus(Printed(f, ty), pwd, ty') == DecodingFail
  {
    hide Parse, Printed, ValidateInputs, DecodeStatus, Tag;
    FieldsFitTheString(f, ty);
    var n := |Printed(f, ty)|;
    var c := ContextOf(f, To(pwd), |pwd|);
    assert FieldsOf(c) == f;
    DecodeInvertsEncode(c, ty, n, n, To(pwd), |pwd|);
  }

  /** The string that `argon2_hash` makes from a context. */
  ghost predicate IsHashOf(c: Context, ty: Argon2Type, encoded: CString) {
    && ValidateInputs(c) == Ok && LengthsFit(c)
    && encoded == Printed(Fields(c.version, c.mCost, c.tCost, c.lanes, Field(c.salt, c.saltlen), Tag(c, ty)), ty)
    && |encoded| <= UINT32_MAX
  }

  lemma AnyPassword(c: Context, pwd: seq<bv8>)
    requires ValidateInputs(c) == Ok && |pwd| <= UINT32_MAX
    ensures ValidateInputs(c.(pwd := To(pwd), pwdlen := |pwd|)) == Ok
    ensures (c.secret.Null? ==> c.secretlen == 0) && (c.ad.Null? ==> c.adlen == 0) && c.allocateCbk == c.freeCbk
  {
    AcceptedIffAcceptable(c);
    AcceptedIffAcceptable(c.(pwd := To(pwd), pwdlen := |pwd|));
  }

  /** A string made by `argon2_hash` is malformed under every other type, and accepted for exactly the passwords
      that have the same tag, the one that was hashed among them; with however many threads it was made. */
  lemma HashThenVerify(c: Context, ty: Argon2Type, encoded: CString, pwd: seq<bv8>, ty': Argon2Type)
    requires IsHashOf(c, ty, encoded) && c.secret.Null? && c.ad.Null? && |pwd| <= UINT32_MAX
    requires c.salt.To? && c.saltlen == |c.salt.bytes| && !c.allocateCbk
    ensures ty' != ty ==> VerifyStatus(encoded, pwd, ty') == DecodingFail
    ensures var c' := c.(pwd := To(pwd), pwdlen := |pwd|);
            && ValidateInputs(c) == Ok == ValidateInputs(c') && LengthsFit(c)
            && VerifyStatus(encoded, pwd, ty) == if Tag(c', ty) == Tag(c, ty) then Ok else VerifyMismatch
    ensures c.pwd == To(pwd) && c.pwdlen == |pwd| ==> VerifyStatus(encoded, pwd, ty) == Ok
  {
    hide Printed, ValidateInputs, VerifyStatus, Tag;
    AnyPassword(c, pwd);
    assert c.salt.bytes[..c.saltlen] == c.salt.bytes;
    OneThreadPerLane(c, ty);
    OneThreadPerLane(c.(pwd := To(pwd), pwdlen := |pwd|), ty);
    VerifyOther(c.(threads := c.lanes), ty, pwd, Tag(c, ty), ty');
  }

  /** `argon2_verify` uses as many threads as lanes. */
  lemma OneThreadPerLane(c: Context, ty: Argon2Type)
    requires ValidateInputs(c) == Ok && LengthsFit(c)
    ensures ValidateInputs(c.(threads := c.lanes)) == Ok && Tag(c.(threads := c.lanes), ty) == Tag(c, ty)
  {
    assert 1 <= c.lanes <= MAX_THREADS;
    hide ValidateInputs, Tag, LengthsFit;
    ThreadsDoNotMatter(c, ty, c.lanes);
  }

  lemma VerifyOther(c: Context, ty: Argon2Type, pwd: seq<bv8>, tag: seq<bv8>, ty': Argon2Type)
    requires c.secret.Null? && c.ad.Null? && c.secretlen == 0 == c.adlen && |pwd| <= UINT32_MAX && |tag| == c.outlen
    requires c.salt.To? && c.saltlen == |c.salt.bytes| && c.threads == c.lanes && !c.allocateCbk && !c.freeCbk
    requires ValidateInputs(c.(pwd := To(pwd), pwdlen := |pwd|)) == Ok
    requires |Printed(Fields(c.version, c.mCost, c.tCost, c.lanes, c.salt.bytes, tag), ty)| <= UINT32_MAX
    ensures var encoded := Printed(Fields(c.version, c.mCost, c.tCost, c.lanes, c.salt.bytes, tag), ty);
            && (ty' != ty ==> VerifyStatus(encoded, pwd, ty') == DecodingFail)
            && VerifyStatus(encoded, pwd, ty) ==
               if Tag(c.(pwd := To(pwd), pwdlen := |pwd|), ty) == tag then Ok else VerifyMismatch
  {
    hide Printed, ValidateInputs, VerifyStatus, Tag;
    var c' := c.(pwd := To(pwd), pwdlen := |pwd|);
    TagIgnoresOutput(c', ty, tag);
    var f := Fields(c.version, c.mCost, c.tCost, c.lanes, c.salt.bytes, tag);
    assert ContextOf(f, To(pwd), |pwd|) == c'.(out := To(tag));
    VerifyPrinted(f, ty, pwd, ty');
  }
}
