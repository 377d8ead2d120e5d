/** Parameter checking (argon2/core.c) and the block counts derived from it (argon2/argon2.c). */
module Argon2Params {
  import opened MachineInts
  import opened Nonlinear

  const SYNC_POINTS: u32 := 4
  const MIN_LANES: u32 := 1
  const MAX_LANES: u32 := 0xFFFFFF
  const MIN_THREADS: u32 := 1
  const MAX_THREADS: u32 := 0xFFFFFF
  const MIN_OUTLEN: u32 := 4
  const MIN_MEMORY: u32 := 8
  const MIN_TIME: u32 := 1
  const MIN_SALT_LENGTH: u32 := 8
  /** Every upper length bound, the largest memory (64-bit pointers) and the largest time cost. */
  const MAX_U32: u32 := 0xFFFFFFFF
  const VERSION_10: u32 := 0x10
  const VERSION_13: u32 := 0x13

  datatype Argon2Type = Argon2d | Argon2i | Argon2id

  function TypeNumber(ty: Argon2Type): u32 {
    match ty case Argon2d => 0 case Argon2i => 1 case Argon2id => 2
  }

  datatype Pointer = Null | To(bytes: seq<bv8>)

  datatype Context = Context(
    out: Pointer, outlen: u32,
    pwd: Pointer, pwdlen: u32,
    salt: Pointer, saltlen: u32,
    secret: Pointer, secretlen: u32,
    ad: Pointer, adlen: u32,
    tCost: u32, mCost: u32, lanes: u32, threads: u32,
    version: u32, allocateCbk: bool, freeCbk: bool)

  datatype Status =
    | Ok
    | OutputPtrNull | OutputTooShort | OutputTooLong
    | PwdPtrMismatch | PwdTooShort | PwdTooLong
    | SaltPtrMismatch | SaltTooShort | SaltTooLong
    | SecretPtrMismatch | SecretTooShort | SecretTooLong
    | AdPtrMismatch | AdTooShort | AdTooLong
    | MemoryTooLittle | MemoryTooMuch
    | TimeTooSmall | TimeTooLarge
    | LanesTooFew | LanesTooMany
    | ThreadsTooFew | ThreadsTooMany
    | FreeMemoryCbkNull | AllocateMemoryCbkNull
    | EncodingFail | DecodingFail | VerifyMismatch

  /** The checks of `validate_inputs`, in its order; the product `8 * lanes` is a 32-bit one. */
  function ValidateInputs(c: Context): Status {
    if c.out.Null? then OutputPtrNull
    else if MIN_OUTLEN > c.outlen then OutputTooShort
    else if MAX_U32 < c.outlen then OutputTooLong
    else if c.pwd.Null? && c.pwdlen != 0 then PwdPtrMismatch
    else if MAX_U32 < c.pwdlen then PwdTooLong
    else if c.salt.Null? && c.saltlen != 0 then SaltPtrMismatch
    else if MIN_SALT_LENGTH > c.saltlen then SaltTooShort
    else if MAX_U32 < c.saltlen then SaltTooLong
    else if c.secret.Null? && c.secretlen != 0 then SecretPtrMismatch
    else if c.secret.To? && MAX_U32 < c.secretlen then SecretTooLong
    else if c.ad.Null? && c.adlen != 0 then AdPtrMismatch
    else if c.ad.To? && MAX_U32 < c.adlen then AdTooLong
    else if MIN_MEMORY > c.mCost then MemoryTooLittle
    else if MAX_U32 < c.mCost then MemoryTooMuch
    else if c.mCost < Wrap32(8 * c.lanes) then MemoryTooLittle
    else if MIN_TIME > c.tCost then TimeTooSmall
    else if MAX_U32 < c.tCost then TimeTooLarge
    else if MIN_LANES > c.lanes then LanesTooFew
    else if MAX_LANES < c.lanes then LanesTooMany
    else if MIN_THREADS > c.threads then ThreadsTooFew
    else if MAX_THREADS < c.threads then ThreadsTooMany
    else if c.allocateCbk && !c.freeCbk then FreeMemoryCbkNull
    else if !c.allocateCbk && c.freeCbk then AllocateMemoryCbkNull
    else Ok
  }

  /** What the documentation of the limits asks for, over unbounded integers. */
  ghost predicate Acceptable(c: Context) {
    && c.out.To? && 4 <= c.outlen
    && (c.pwd.Null? ==> c.pwdlen == 0)
    && c.salt.To? && 8 <= c.saltlen
    && (c.secret.Null? ==> c.secretlen == 0)
    && (c.ad.Null? ==> c.adlen == 0)
    && 1 <= c.tCost
    && 1 <= c.lanes <= 0xFFFFFF
    && 8 * c.lanes <= c.mCost
    && 1 <= c.threads <= 0xFFFFFF
    && c.allocateCbk == c.freeCbk
  }

  /** Although `8 * lanes` may wrap, a context is accepted exactly when the unwrapped bound holds. */
  lemma AcceptedIffAcceptable(c: Context)
    ensures ValidateInputs(c) == Ok <==> Acceptable(c)
  {
    if c.lanes <= 0xFFFFFF {
      assert Wrap32(8 * c.lanes) == 8 * c.lanes;
    }
  }

  /** What passes the two memory tests for `m` blocks meets the documented bound. */
  ghost predicate MemoryTestsSuffice(lanes: u32, m: u32) {
    MIN_MEMORY <= m && Wrap32(8 * lanes) <= m ==> 8 * lanes <= m
  }

  /** The memory tests alone are sound if and only if there are fewer than 2^29 lanes. */
  lemma MemoryTestsAreSoundIff(lanes: u32)
    ensures (forall m: u32 :: MemoryTestsSuffice(lanes, m)) <==> lanes < 0x2000_0000
  {
    if lanes < 0x2000_0000 {
      assert Wrap32(8 * lanes) == 8 * lanes;
    } else {
      assert !MemoryTestsSuffice(lanes, MAX_U32);
    }
  }

  /** The memory test alone is not sound: with 2^29 lanes it lets 8 blocks pass; the lane bound rejects later. */
  lemma MemoryTestAloneWraps(c: Context)
    requires Acceptable(c.(lanes := 1)) && c.lanes == 0x2000_0000
    ensures c.mCost >= Wrap32(8 * c.lanes)
    ensures c.mCost < 8 * c.lanes
    ensures ValidateInputs(c) == LanesTooMany
  {
    assert Wrap32(8 * c.lanes) == 0;
  }

  datatype Instance = Instance(
    version: u32, passes: u32, memoryBlocks: u32, segmentLength: u32,
    laneLength: u32, lanes: u32, threads: u32, ty: Argon2Type)

  /** Unsigned 32-bit division. */
  function Div32(n: u32, d: u32): (q: u32)
    requires d != 0
    ensures q == n / d
  {
    DivAtMost(n, d);
    n / d
  }

  /** Step 2 of `argon2_ctx`: align the memory size, with the 32-bit products of the source. */
  function Derive(c: Context, ty: Argon2Type): Instance
    requires Wrap32(c.lanes * SYNC_POINTS) != 0
  {
    var rows := Wrap32(c.lanes * SYNC_POINTS);
    var least := Wrap32(2 * SYNC_POINTS * c.lanes);
    var segment := Div32(if c.mCost < least then least else c.mCost, rows);
    Instance(c.version, c.tCost, Wrap32(segment * rows), segment, Wrap32(segment * SYNC_POINTS),
             c.lanes, if c.threads > c.lanes then c.lanes else c.threads, ty)
  }

  /** What the memory filling relies on. */
  ghost predicate Valid(inst: Instance) {
    && 1 <= inst.passes
    && 1 <= inst.lanes
    && 1 <= inst.threads <= inst.lanes
    && 2 <= inst.segmentLength
    && inst.laneLength == 4 * inst.segmentLength
    && inst.memoryBlocks == inst.lanes * inst.laneLength
  }

  /** An accepted context yields a valid instance that uses at most the requested memory and wastes
      fewer than `4 * lanes` blocks of it. */
  lemma AcceptedGivesValidInstance(c: Context, ty: Argon2Type)
    requires ValidateInputs(c) == Ok
    ensures Wrap32(c.lanes * SYNC_POINTS) != 0
    ensures var inst := Derive(c, ty);
            && Valid(inst)
            && inst.memoryBlocks <= c.mCost < inst.memoryBlocks + 4 * c.lanes
            && inst.lanes == c.lanes && inst.passes == c.tCost && inst.threads <= c.threads
            && inst.version == c.version && inst.ty == ty
  {
    hide ValidateInputs, Wrap32;
    AcceptedIffAcceptable(c);
    SegmentBounds(c.mCost, c.lanes);
    var s := c.mCost / (4 * c.lanes);
    Unwrapped(c.lanes * SYNC_POINTS);
    Unwrapped(2 * SYNC_POINTS * c.lanes);
    Unwrapped(s * SYNC_POINTS);
    Unwrapped(s * (4 * c.lanes));
  }

  lemma SegmentBounds(m: u32, lanes: u32)
    requires 1 <= lanes && 8 * lanes <= m
    ensures var s := m / (4 * lanes);
            && 2 <= s
            && 4 * s <= s * (4 * lanes) == lanes * (4 * s) <= m < s * (4 * lanes) + 4 * lanes
  {
    var s := m / (4 * lanes);
    DivBounds(m, 4 * lanes);
    if s <= 1 {
      MulMonotonic(s, 1, 4 * lanes);
    }
    Rearranged(s, lanes);
    MulGrows(4 * s, lanes);
  }

  lemma Rearranged(s: int, lanes: int)
    ensures s * (4 * lanes) == lanes * (4 * s) == (4 * s) * lanes
  {}
}
