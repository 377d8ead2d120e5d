/** The 64-bit word operations behind the rounds: the scalar ones of blamka-round-ref.h and blake2-impl.h,
    and what one 64-bit lane of the vector instructions of blamka-round-opt.h computes. */
module BlamkaWords {
  import opened Blamka
  import opened MachineInts

  /** The product of the low halves: `xy` of the reference header, one lane of `_mm_mul_epu32`. */
  function MulLow(x: bv64, y: bv64): bv64 {
    var m: bv64 := 0xFFFF_FFFF;
    (x & m) * (y & m)
  }

  /** `fBlaMka` of the reference header. */
  function FBlaMka(x: bv64, y: bv64): bv64 {
    x + y + 2 * MulLow(x, y)
  }

  function ScalarOps(): Ops<bv64> {
    Ops((x, y) => FBlaMka(x, y), (x, y) => x ^ y,
        x => Rotr64(x, 32), x => Rotr64(x, 24), x => Rotr64(x, 16), x => Rotr64(x, 63))
  }

  /** `fBlaMka` of the SSE header. */
  function FBlaMkaSse(x: bv64, y: bv64): bv64 {
    var z := MulLow(x, y);
    (x + y) + (z + z)
  }

  /** The first statements of `G1_AVX2`. */
  function FBlaMkaAvx2(x: bv64, y: bv64): bv64 {
    var ml := MulLow(x, y);
    var ml := ml + ml;
    x + (y + ml)
  }

  /** One lane of `_mm_shuffle_epi8` with the masks r24 and r16: byte k of the result is byte k + 3, or
      k + 2, of the operand, cyclically. */
  function ShuffleR24(x: bv64): bv64 {
    ((x >> 24) & 0xFF) | (((x >> 32) & 0xFF) << 8) | (((x >> 40) & 0xFF) << 16) | (((x >> 48) & 0xFF) << 24) |
    (((x >> 56) & 0xFF) << 32) | ((x & 0xFF) << 40) | (((x >> 8) & 0xFF) << 48) | (((x >> 16) & 0xFF) << 56)
  }

  function ShuffleR16(x: bv64): bv64 {
    ((x >> 16) & 0xFF) | (((x >> 24) & 0xFF) << 8) | (((x >> 32) & 0xFF) << 16) | (((x >> 40) & 0xFF) << 24) |
    (((x >> 48) & 0xFF) << 32) | (((x >> 56) & 0xFF) << 40) | ((x & 0xFF) << 48) | (((x >> 8) & 0xFF) << 56)
  }

  /** One lane of `_mm_shuffle_epi32` with _MM_SHUFFLE(2, 3, 0, 1): the halves change places. */
  function SwapHalves(x: bv64): bv64 { (x >> 32) | ((x & 0xFFFF_FFFF) << 32) }

  /** The rotation by 63 as a shift and a doubling, and the SSE2 rotation by shifts. */
  function Rotr63ByDoubling(x: bv64): bv64 { (x >> 63) ^ (x + x) }

  function RotrByShifts(x: bv64, c: nat): bv64
    requires 0 < c < 64
  {
    (x >> c) ^ (x << (64 - c))
  }

  function Sse2Ops(): Ops<bv64> {
    Ops((x, y) => FBlaMkaSse(x, y), (x, y) => x ^ y,
        x => RotrByShifts(x, 32), x => RotrByShifts(x, 24), x => RotrByShifts(x, 16), x => RotrByShifts(x, 63))
  }

  function Ssse3Ops(): Ops<bv64> {
    Ops((x, y) => FBlaMkaSse(x, y), (x, y) => x ^ y, x => SwapHalves(x),
        x => ShuffleR24(x), x => ShuffleR16(x), x => Rotr63ByDoubling(x))
  }

  function Avx2Ops(): Ops<bv64> {
    Ops((x, y) => FBlaMkaAvx2(x, y), (x, y) => x ^ y, x => SwapHalves(x),
        x => ShuffleR24(x), x => ShuffleR16(x), x => Rotr63ByDoubling(x))
  }

  lemma DoubleIsSum(t: bv64)
    ensures 2 * t == t + t
  {}

  lemma SumsAgree(x: bv64, y: bv64, t: bv64)
    ensures x + y + t == (x + y) + t == x + (y + t)
  {}

  lemma MultiplicationsAgree(x: bv64, y: bv64)
    ensures FBlaMka(x, y) == FBlaMkaSse(x, y) == FBlaMkaAvx2(x, y)
  {
    hide MulLow;
    var t := MulLow(x, y);
    DoubleIsSum(t);
    SumsAgree(x, y, t + t);
  }

  lemma ShiftRotations(x: bv64)
    ensures RotrByShifts(x, 32) == Rotr64(x, 32)
    ensures RotrByShifts(x, 24) == Rotr64(x, 24)
    ensures RotrByShifts(x, 16) == Rotr64(x, 16)
    ensures RotrByShifts(x, 63) == Rotr64(x, 63)
  {}

  lemma ByteShuffles(x: bv64)
    ensures ShuffleR24(x) == Rotr64(x, 24)
    ensures ShuffleR16(x) == Rotr64(x, 16)
  {}

  lemma MaskedShift(x: bv64)
    ensures (x & 0xFFFF_FFFF) << 32 == x << 32
  {}

  lemma HalfSwap(x: bv64)
    ensures SwapHalves(x) == Rotr64(x, 32)
  {
    calc {
      SwapHalves(x);
      (x >> 32) | ((x & 0xFFFF_FFFF) << 32);
      { MaskedShift(x); }
      (x >> 32) | (x << 32);
      Rotr64(x, 32);
    }
  }

  lemma DoubleIsShift(x: bv64)
    ensures x + x == x << 1
  {}

  lemma DisjointXor(x: bv64)
    ensures (x >> 63) ^ (x << 1) == (x >> 63) | (x << 1)
  {}

  lemma Doubling(x: bv64)
    ensures Rotr63ByDoubling(x) == Rotr64(x, 63)
  {
    calc {
      Rotr63ByDoubling(x);
      (x >> 63) ^ (x + x);
      { DoubleIsShift(x); }
      (x >> 63) ^ (x << 1);
      { DisjointXor(x); }
      (x >> 63) | (x << 1);
      Rotr64(x, 63);
    }
  }

  /** Two sets of operations that compute the same functions. */
  ghost predicate SameOps<W(!new)>(o: Ops<W>, o': Ops<W>) {
    && (forall x, y :: o.blamka(x, y) == o'.blamka(x, y))
    && (forall x, y :: o.xor(x, y) == o'.xor(x, y))
    && (forall x :: o.rotr32(x) == o'.rotr32(x))
    && (forall x :: o.rotr24(x) == o'.rotr24(x))
    && (forall x :: o.rotr16(x) == o'.rotr16(x))
    && (forall x :: o.rotr63(x) == o'.rotr63(x))
  }

  lemma SameMix<W(!new)>(o: Ops<W>, o': Ops<W>, a: W, b: W, c: W, d: W)
    requires SameOps(o, o')
    ensures G(o, a, b, c, d) == G(o', a, b, c, d)
  {}

  lemma SameRound<W(!new)>(o: Ops<W>, o': Ops<W>, w: Words16<W>)
    requires SameOps(o, o')
    ensures Round(o, w) == Round(o', w)
  {
    forall a, b, c, d
      ensures G(o, a, b, c, d) == G(o', a, b, c, d)
    {
      SameMix(o, o', a, b, c, d);
    }
    hide G;
  }

  lemma VectorOpsAreScalar()
    ensures SameOps(Sse2Ops(), ScalarOps()) && SameOps(Ssse3Ops(), ScalarOps()) && SameOps(Avx2Ops(), ScalarOps())
  {
    forall x, y
      ensures FBlaMka(x, y) == FBlaMkaSse(x, y) == FBlaMkaAvx2(x, y)
    {
      MultiplicationsAgree(x, y);
    }
    forall x
      ensures RotrByShifts(x, 32) == SwapHalves(x) == Rotr64(x, 32)
      ensures RotrByShifts(x, 24) == ShuffleR24(x) == Rotr64(x, 24)
      ensures RotrByShifts(x, 16) == ShuffleR16(x) == Rotr64(x, 16)
      ensures RotrByShifts(x, 63) == Rotr63ByDoubling(x) == Rotr64(x, 63)
    {
      ShiftRotations(x);
      ByteShuffles(x);
      HalfSwap(x);
      Doubling(x);
    }
    hide FBlaMka, FBlaMkaSse, FBlaMkaAvx2, RotrByShifts, SwapHalves, ShuffleR24, ShuffleR16, Rotr63ByDoubling, Rotr64;
  }

  /** The rounds of all three instruction sets compute the reference round on all words. */
  lemma AllRoundsAgree(s: Sse<bv64>, t: Avx<bv64>)
    ensures Unpack(RoundSse2(Sse2Ops(), s)) == Round(ScalarOps(), Unpack(s))
    ensures Unpack(RoundSsse3(Ssse3Ops(), s)) == Round(ScalarOps(), Unpack(s))
    ensures var r := RoundAvx1(Avx2Ops(), t);
            && Row(r.A0, r.B0, r.C0, r.D0) == Round(ScalarOps(), Row(t.A0, t.B0, t.C0, t.D0))
            && Row(r.A1, r.B1, r.C1, r.D1) == Round(ScalarOps(), Row(t.A1, t.B1, t.C1, t.D1))
    ensures LowerHalf(RoundAvx2(Avx2Ops(), t)) == Round(ScalarOps(), LowerHalf(t))
    ensures UpperHalf(RoundAvx2(Avx2Ops(), t)) == Round(ScalarOps(), UpperHalf(t))
  {
    hide Round, RoundSse2, RoundSsse3, RoundAvx1, RoundAvx2, ScalarOps, Sse2Ops, Ssse3Ops, Avx2Ops;
    VectorOpsAreScalar();
    Sse2RoundIsSsse3Round(Sse2Ops(), s);
    Ssse3RoundIsScalar(Sse2Ops(), s);
    SameRound(Sse2Ops(), ScalarOps(), Unpack(s));
    Ssse3RoundIsScalar(Ssse3Ops(), s);
    SameRound(Ssse3Ops(), ScalarOps(), Unpack(s));
    AvxRound1IsScalar(Avx2Ops(), t);
    SameRound(Avx2Ops(), ScalarOps(), Row(t.A0, t.B0, t.C0, t.D0));
    SameRound(Avx2Ops(), ScalarOps(), Row(t.A1, t.B1, t.C1, t.D1));
    AvxRound2IsScalar(Avx2Ops(), t);
    SameRound(Avx2Ops(), ScalarOps(), LowerHalf(t));
    SameRound(Avx2Ops(), ScalarOps(), UpperHalf(t));
  }
}
