/** `fill_block` of argon2/opt.c, for SSE2/SSSE3 (64 vectors of two words) and AVX2 (32 vectors of four words).
    Both leave in `state` and in `next` the block that the RFC prescribes. */
module BlamkaSimd {
  import opened Wrappers
  import opened Blamka
  import opened BlamkaWords
  import opened BlamkaBlock

  // ---- two words per vector ----

  function Words2(state: seq<V2<bv64>>): Block
    requires |state| == 64
  {
    seq(128, k requires 0 <= k < 128 => if k % 2 == 0 then state[k / 2].lo else state[k / 2].hi)
  }

  function Load2(b: seq<bv64>, m: nat): V2<bv64>
    requires |b| == 128 && m < 64
  {
    V2(b[2 * m], b[2 * m + 1])
  }

  function XorV2(x: V2<bv64>, y: V2<bv64>): V2<bv64> { V2(XorWord(x.lo, y.lo), XorWord(x.hi, y.hi)) }

  lemma Words2At(state: seq<V2<bv64>>, b: Block)
    requires |state| == 64 && forall m :: 0 <= m < 64 ==> state[m] == Load2(b, m)
    ensures Words2(state) == b
  {}

  /** Eight registers that hold sixteen words in order. */
  ghost predicate HoldsWords(v: seq<V2<bv64>>, w: seq<bv64>) {
    |v| == 8 && |w| == 16 && forall j :: 0 <= j < 8 ==> v[j] == V2(w[2 * j], w[2 * j + 1])
  }

  function Registers(v: seq<V2<bv64>>): Sse<bv64>
    requires |v| == 8
  {
    Sse(v[0], v[1], v[2], v[3], v[4], v[5], v[6], v[7])
  }

  function RegisterSeq(r: Sse<bv64>): (v: seq<V2<bv64>>)
    ensures |v| == 8
  {
    [r.A0, r.A1, r.B0, r.B1, r.C0, r.C1, r.D0, r.D1]
  }

  /** `BLAKE2_ROUND` on eight registers. */
  function RoundSse(ssse3: bool, v: seq<V2<bv64>>): (r: seq<V2<bv64>>)
    requires |v| == 8
    ensures |r| == 8
  {
    RegisterSeq(if ssse3 then RoundSsse3(Ssse3Ops(), Registers(v)) else RoundSse2(Sse2Ops(), Registers(v)))
  }

  lemma UnpackedWords(v: seq<V2<bv64>>, w: seq<bv64>)
    requires HoldsWords(v, w)
    ensures Unpack(Registers(v)) == Words16(w[0], w[1], w[2], w[3], w[4], w[5], w[6], w[7],
                                            w[8], w[9], w[10], w[11], w[12], w[13], w[14], w[15])
  {}

  lemma RegisterWords(r: Sse<bv64>)
    ensures HoldsWords(RegisterSeq(r), ToSeq(Unpack(r)))
  {}

  lemma RoundSseIsRoundSeq(ssse3: bool, v: seq<V2<bv64>>, w: seq<bv64>)
    requires |v| == 8 && HoldsWords(v, w)
    ensures HoldsWords(RoundSse(ssse3, v), RoundSeq(w))
  {
    hide RoundSsse3, RoundSse2, RoundAvx1, RoundAvx2, Round, ScalarOps, Ssse3Ops, Sse2Ops, Avx2Ops,
      Unpack, Registers, RegisterSeq, ToSeq, HoldsWords;
    UnpackedWords(v, w);
    var any := V4(0, 0, 0, 0);
    AllRoundsAgree(Registers(v), Avx(any, any, any, any, any, any, any, any));
    RegisterWords(if ssse3 then RoundSsse3(Ssse3Ops(), Registers(v)) else RoundSse2(Sse2Ops(), Registers(v)));
  }

  /** The eight registers of a row (`stride` 1, from a multiple of 8) or of a column (`stride` 8). */
  ghost predicate GroupAt(base: int, stride: int) {
    (stride == 1 && base % 8 == 0 && 0 <= base < 64) || (stride == 8 && 0 <= base < 8)
  }

  function Gather(state: seq<V2<bv64>>, base: nat, stride: nat): (v: seq<V2<bv64>>)
    requires |state| == 64 && GroupAt(base, stride)
    ensures |v| == 8
  {
    [state[base], state[base + stride], state[base + stride * 2], state[base + stride * 3],
     state[base + stride * 4], state[base + stride * 5], state[base + stride * 6], state[base + stride * 7]]
  }

  /** `after` is `before` with register `base + stride * j` replaced by `v[j]`. */
  ghost predicate Scattered(before: seq<V2<bv64>>, after: seq<V2<bv64>>, v: seq<V2<bv64>>, base: int, stride: int) {
    && |before| == 64 == |after| && |v| == 8
    && forall m :: 0 <= m < 64 ==>
      after[m] == if stride == 1 && m / 8 == base / 8 then v[m % 8]
                  else if stride == 8 && m % 8 == base then v[m / 8]
                  else before[m]
  }

  /** `BLAKE2_ROUND` in place. */
  method RoundAt(ssse3: bool, state: array<V2<bv64>>, base: nat, stride: nat)
    requires state.Length == 64 && GroupAt(base, stride)
    modifies state
    ensures Scattered(old(state[..]), state[..], RoundSse(ssse3, Gather(old(state[..]), base, stride)), base, stride)
  {
    hide RoundSse, Gather;
    var rs := RoundSse(ssse3, Gather(state[..], base, stride));
    if stride == 1 {
      for j := 0 to 8
        invariant forall m :: 0 <= m < 64 ==> state[m] == if m / 8 == base / 8 && m % 8 < j then rs[m % 8] else old(state[m])
      {
        state[base + j] := rs[j];
      }
    } else {
      for j := 0 to 8
        invariant forall m :: 0 <= m < 64 ==> state[m] == if m % 8 == base && m / 8 < j then rs[m / 8] else old(state[m])
      {
        state[base + 8 * j] := rs[j];
      }
    }
  }

  lemma RowsStep2(before: seq<V2<bv64>>, after: seq<V2<bv64>>, s: Block, i: nat, v: seq<V2<bv64>>)
    requires |before| == 64 && i < 8 && RowsDone(Words2(before), s, i)
    requires Scattered(before, after, v, 8 * i, 1) && HoldsWords(v, RoundSeq(RowOf(s, i)))
    ensures RowsDone(Words2(after), s, i + 1)
  {
    hide RoundSeq, RowOf;
    forall k | 0 <= k < 128
      ensures Words2(after)[k] == if k / 16 < i + 1 then Rows(s)[k] else s[k]
    {
      assert Words2(before)[k] == if k / 16 < i then Rows(s)[k] else s[k];
      assert k / 2 / 8 == k / 16 && 2 * (k / 2 % 8) + k % 2 == k % 16;
    }
  }

  lemma ColumnsStep2(before: seq<V2<bv64>>, after: seq<V2<bv64>>, s: Block, i: nat, v: seq<V2<bv64>>)
    requires |before| == 64 && i < 8 && ColumnsDone(Words2(before), s, i)
    requires Scattered(before, after, v, i, 8) && HoldsWords(v, RoundSeq(ColumnOf(s, i)))
    ensures ColumnsDone(Words2(after), s, i + 1)
  {
    hide RoundSeq, ColumnOf, ColumnNumber, ColumnSlot;
    forall k | 0 <= k < 128
      ensures Words2(after)[k] == if ColumnNumber(k) < i + 1 then Columns(s)[k] else s[k]
    {
      assert Words2(before)[k] == if ColumnNumber(k) < i then Columns(s)[k] else s[k];
      VectorOfColumn2(k);
    }
  }

  lemma VectorOfColumn2(k: nat)
    requires k < 128
    ensures k / 2 % 8 == ColumnNumber(k) && 2 * (k / 2 / 8) + k % 2 == ColumnSlot(k)
  {
    var a, r := k / 16, k % 16;
    assert k == 16 * a + r && k / 2 == 8 * a + r / 2;
  }

  /** The first loop of `fill_block`: `state` becomes R, and `block_XY` R or R XOR the old block. */
  method MixIn2(state: array<V2<bv64>>, blockXY: array<V2<bv64>>, ref: array<bv64>, next: array<bv64>, withXor: bool)
    requires state.Length == 64 == blockXY.Length && state != blockXY && ref.Length == 128 == next.Length
    modifies state, blockXY
    ensures var r := Xor(ref[..], old(Words2(state[..])));
            && Words2(state[..]) == r
            && Words2(blockXY[..]) == if withXor then Xor(r, next[..]) else r
  {
    hide Words2, XorWord, Xor;
    ghost var prev: Block := Words2(state[..]);
    ghost var r := Xor(ref[..], prev);
    ghost var t := if withXor then Xor(r, next[..]) else r;
    Words2Are(state[..], prev);
    for i := 0 to 64
      invariant forall m :: 0 <= m < 64 ==> state[m] == if m < i then Load2(r, m) else Load2(prev, m)
      invariant forall m :: 0 <= m < i ==> blockXY[m] == Load2(t, m)
    {
      XorAtTwo(prev, ref[..], 2 * i);
      XorAtTwo(next[..], r, 2 * i);
      state[i] := XorV2(state[i], V2(ref[2 * i], ref[2 * i + 1]));
      blockXY[i] := if withXor then XorV2(state[i], V2(next[2 * i], next[2 * i + 1])) else state[i];
    }
    Words2At(state[..], r);
    Words2At(blockXY[..], t);
  }

  /** The last loop of `fill_block`. */
  method MixOut2(state: array<V2<bv64>>, blockXY: array<V2<bv64>>, next: array<bv64>)
    requires state.Length == 64 == blockXY.Length && state != blockXY && next.Length == 128
    modifies state, next
    ensures next[..] == Words2(state[..]) == Xor(Words2(blockXY[..]), old(Words2(state[..])))
  {
    hide Words2, XorWord, Xor;
    ghost var p, t := Words2(state[..]), Words2(blockXY[..]);
    ghost var b := Xor(t, p);
    Words2Are(state[..], p);
    Words2Are(blockXY[..], t);
    for i := 0 to 64
      invariant forall m :: 0 <= m < 64 ==> state[m] == if m < i then Load2(b, m) else Load2(p, m)
      invariant forall k :: 0 <= k < 2 * i ==> next[k] == b[k]
    {
      XorAtTwo(p, t, 2 * i);
      state[i] := XorV2(state[i], blockXY[i]);
      next[2 * i], next[2 * i + 1] := state[i].lo, state[i].hi;
    }
    Words2At(state[..], b);
    assert next[..] == b;
  }

  /** `fill_block` for SSE2 and SSSE3; `ref` and `next` may coincide. */
  method FillBlockSse(ssse3: bool, state: array<V2<bv64>>, ref: array<bv64>, next: array<bv64>, withXor: bool)
    requires state.Length == 64 && ref.Length == 128 == next.Length
    modifies state, next
    ensures var b := Compress(old(Words2(state[..])), old(ref[..]), if withXor then Some(old(next[..])) else None);
            Words2(state[..]) == b && next[..] == b
  {
    hide Rows, Columns, RoundSeq, RoundSse, Xor, ColumnOf, RowOf, Words2, Gather, HoldsWords, Scattered;
    var blockXY := new V2<bv64>[64];
    MixIn2(state, blockXY, ref, next, withXor);
    ghost var xy, old_ := blockXY[..], next[..];
    ghost var r := Words2(state[..]);
    for i := 0 to 8
      invariant RowsDone(Words2(state[..]), r, i)
      invariant blockXY[..] == xy && next[..] == old_
    {
      ghost var before := state[..];
      RowInPlace2(before, r, i);
      RoundSseIsRoundSeq(ssse3, Gather(before, 8 * i, 1), RowOf(r, i));
      RoundAt(ssse3, state, 8 * i, 1);
      RowsStep2(before, state[..], r, i, RoundSse(ssse3, Gather(before, 8 * i, 1)));
    }
    ghost var rows := Rows(r);
    assert Words2(state[..]) == rows;
    for i := 0 to 8
      invariant ColumnsDone(Words2(state[..]), rows, i)
      invariant blockXY[..] == xy && next[..] == old_
    {
      ghost var before := state[..];
      ColumnInPlace2(before, rows, i);
      RoundSseIsRoundSeq(ssse3, Gather(before, i, 8), ColumnOf(rows, i));
      RoundAt(ssse3, state, i, 8);
      ColumnsStep2(before, state[..], rows, i, RoundSse(ssse3, Gather(before, i, 8)));
    }
    assert Words2(state[..]) == Columns(rows);
    MixOut2(state, blockXY, next);
  }

  lemma XorAtTwo(a: Block, b: Block, k: nat)
    requires k + 1 < 128
    ensures Xor(b, a)[k] == XorWord(a[k], b[k]) == XorWord(b[k], a[k])
    ensures Xor(b, a)[k + 1] == XorWord(a[k + 1], b[k + 1]) == XorWord(b[k + 1], a[k + 1])
  {
    hide XorWord;
    XorWordCommutes(a[k], b[k]);
    XorWordCommutes(a[k + 1], b[k + 1]);
  }

  lemma Words2Is(state: seq<V2<bv64>>, m: nat)
    requires |state| == 64 && m < 64
    ensures Words2(state)[2 * m] == state[m].lo && Words2(state)[2 * m + 1] == state[m].hi
  {}

  lemma Words2Are(state: seq<V2<bv64>>, b: Block)
    requires |state| == 64 && Words2(state) == b
    ensures forall m :: 0 <= m < 64 ==> state[m] == Load2(b, m)
  {
    hide Words2;
    forall m | 0 <= m < 64
      ensures state[m] == Load2(b, m)
    {
      Words2Is(state, m);
    }
  }

  lemma RowInPlace2(state: seq<V2<bv64>>, s: Block, i: nat)
    requires |state| == 64 && i < 8 && RowsDone(Words2(state), s, i)
    ensures HoldsWords(Gather(state, 8 * i, 1), RowOf(s, i))
  {
    hide Rows, Words2;
    Words2Are(state, Words2(state));
    forall j | 0 <= j < 8
      ensures Gather(state, 8 * i, 1)[j] == V2(RowOf(s, i)[2 * j], RowOf(s, i)[2 * j + 1])
    {
      GatheredRow(state, i, j);
      var k := 2 * (8 * i + j);
      assert k / 16 == i && (k + 1) / 16 == i;
      assert Words2(state)[k] == s[k] && Words2(state)[k + 1] == s[k + 1];
    }
    hide Gather, RowOf;
  }

  lemma GatheredRow(state: seq<V2<bv64>>, i: nat, j: nat)
    requires |state| == 64 && i < 8 && j < 8
    ensures Gather(state, 8 * i, 1)[j] == state[8 * i + j]
  {}

  lemma ColumnInPlace2(state: seq<V2<bv64>>, s: Block, i: nat)
    requires |state| == 64 && i < 8 && ColumnsDone(Words2(state), s, i)
    ensures HoldsWords(Gather(state, i, 8), ColumnOf(s, i))
  {
    hide Columns, Words2, ColumnOf, Gather;
    Words2Are(state, Words2(state));
    ColumnUntouched(Words2(state), s, i);
    hide ColumnsDone;
    forall j | 0 <= j < 8
      ensures Gather(state, i, 8)[j] == V2(ColumnOf(s, i)[2 * j], ColumnOf(s, i)[2 * j + 1])
    {
      GatheredColumn(state, i, j);
      ColumnOfAt(Words2(state), i, j);
    }
  }

  lemma GatheredColumn(state: seq<V2<bv64>>, i: nat, j: nat)
    requires |state| == 64 && i < 8 && j < 8
    ensures Gather(state, i, 8)[j] == state[i + 8 * j]
  {}

  lemma ColumnOfAt(s: seq<bv64>, i: nat, j: nat)
    requires |s| == 128 && i < 8 && j < 8
    ensures ColumnOf(s, i)[2 * j] == s[2 * i + 16 * j]
    ensures ColumnOf(s, i)[2 * j + 1] == s[2 * i + 16 * j + 1]
  {}
}
