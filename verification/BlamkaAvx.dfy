/** `fill_block` of argon2/opt.c for AVX2: 32 vectors of four words, two rows or two columns per round. */
module BlamkaAvx {
  import opened Wrappers
  import opened Blamka
  import opened BlamkaWords
  import opened BlamkaBlock
  import opened BlamkaSimd

  function Words4(state: seq<V4<bv64>>): Block
    requires |state| == 32
  {
    seq(128, k requires 0 <= k < 128 => Word(state[k / 4], k % 4))
  }

  function Load4(b: seq<bv64>, m: nat): V4<bv64>
    requires |b| == 128 && m < 32
  {
    V4(b[4 * m], b[4 * m + 1], b[4 * m + 2], b[4 * m + 3])
  }

  function XorV4(x: V4<bv64>, y: V4<bv64>): V4<bv64> {
    V4(XorWord(x.w0, y.w0), XorWord(x.w1, y.w1), XorWord(x.w2, y.w2), XorWord(x.w3, y.w3))
  }

  lemma Words4At(state: seq<V4<bv64>>, b: Block)
    requires |state| == 32 && forall m :: 0 <= m < 32 ==> state[m] == Load4(b, m)
    ensures Words4(state) == b
  {}

  lemma Words4Are(state: seq<V4<bv64>>, b: Block)
    requires |state| == 32 && Words4(state) == b
    ensures forall m :: 0 <= m < 32 ==> state[m] == Load4(b, m)
  {
    forall m | 0 <= m < 32
      ensures state[m] == Load4(b, m)
    {
      var w := Words4(state);
      assert w[4 * m] == state[m].w0 && w[4 * m + 1] == state[m].w1 && w[4 * m + 2] == state[m].w2 && w[4 * m + 3] == state[m].w3;
    }
  }

  // ---- two rows ----

  /** Two rows in eight consecutive registers. */
  ghost predicate HoldsRows(v: seq<V4<bv64>>, w: seq<bv64>, w': seq<bv64>) {
    && |v| == 8 && |w| == 16 == |w'|
    && forall j :: 0 <= j < 4 ==>
      && v[j] == V4(w[4 * j], w[4 * j + 1], w[4 * j + 2], w[4 * j + 3])
      && v[j + 4] == V4(w'[4 * j], w'[4 * j + 1], w'[4 * j + 2], w'[4 * j + 3])
  }

  /** The argument order of `BLAKE2_ROUND_1` in `fill_block`. */
  function Registers1(v: seq<V4<bv64>>): Avx<bv64>
    requires |v| == 8
  {
    Avx(v[0], v[4], v[1], v[5], v[2], v[6], v[3], v[7])
  }

  function RegisterSeq1(r: Avx<bv64>): (v: seq<V4<bv64>>)
    ensures |v| == 8
  {
    [r.A0, r.B0, r.C0, r.D0, r.A1, r.B1, r.C1, r.D1]
  }

  function RowsRound(v: seq<V4<bv64>>): (r: seq<V4<bv64>>)
    requires |v| == 8
    ensures |r| == 8
  {
    RegisterSeq1(RoundAvx1(Avx2Ops(), Registers1(v)))
  }

  function W16(w: seq<bv64>): Words16<bv64>
    requires |w| == 16
  {
    Words16(w[0], w[1], w[2], w[3], w[4], w[5], w[6], w[7], w[8], w[9], w[10], w[11], w[12], w[13], w[14], w[15])
  }

  lemma UnpackedRows(v: seq<V4<bv64>>, w: seq<bv64>, w': seq<bv64>)
    requires HoldsRows(v, w, w')
    ensures var s := Registers1(v);
            Row(s.A0, s.B0, s.C0, s.D0) == W16(w) && Row(s.A1, s.B1, s.C1, s.D1) == W16(w')
  {}

  lemma PackedRows(r: Avx<bv64>)
    ensures HoldsRows(RegisterSeq1(r), ToSeq(Row(r.A0, r.B0, r.C0, r.D0)), ToSeq(Row(r.A1, r.B1, r.C1, r.D1)))
  {}

  lemma RowsRoundIsRoundSeq(v: seq<V4<bv64>>, w: seq<bv64>, w': seq<bv64>)
    requires |v| == 8 && HoldsRows(v, w, w')
    ensures HoldsRows(RowsRound(v), RoundSeq(w), RoundSeq(w'))
  {
    hide RoundSsse3, RoundSse2, RoundAvx1, RoundAvx2, Round, ScalarOps, Ssse3Ops, Sse2Ops, Avx2Ops,
      Row, Registers1, RegisterSeq1, ToSeq, HoldsRows;
    UnpackedRows(v, w, w');
    var any := V2(0, 0);
    AllRoundsAgree(Sse(any, any, any, any, any, any, any, any), Registers1(v));
    PackedRows(RoundAvx1(Avx2Ops(), Registers1(v)));
  }

  // ---- two columns ----

  ghost predicate HoldsColumns(v: seq<V4<bv64>>, w: seq<bv64>, w': seq<bv64>) {
    && |v| == 8 && |w| == 16 == |w'|
    && forall j :: 0 <= j < 8 ==> v[j] == V4(w[2 * j], w[2 * j + 1], w'[2 * j], w'[2 * j + 1])
  }

  /** The argument order of `BLAKE2_ROUND_2` in `fill_block`. */
  function Registers2(v: seq<V4<bv64>>): Avx<bv64>
    requires |v| == 8
  {
    Avx(v[0], v[1], v[2], v[3], v[4], v[5], v[6], v[7])
  }

  function RegisterSeq2(r: Avx<bv64>): (v: seq<V4<bv64>>)
    ensures |v| == 8
  {
    [r.A0, r.A1, r.B0, r.B1, r.C0, r.C1, r.D0, r.D1]
  }

  function ColumnsRound(v: seq<V4<bv64>>): (r: seq<V4<bv64>>)
    requires |v| == 8
    ensures |r| == 8
  {
    RegisterSeq2(RoundAvx2(Avx2Ops(), Registers2(v)))
  }

  lemma UnpackedColumns(v: seq<V4<bv64>>, w: seq<bv64>, w': seq<bv64>)
    requires HoldsColumns(v, w, w')
    ensures LowerHalf(Registers2(v)) == W16(w) && UpperHalf(Registers2(v)) == W16(w')
  {}

  lemma PackedColumns(r: Avx<bv64>)
    ensures HoldsColumns(RegisterSeq2(r), ToSeq(LowerHalf(r)), ToSeq(UpperHalf(r)))
  {}

  lemma ColumnsRoundIsRoundSeq(v: seq<V4<bv64>>, w: seq<bv64>, w': seq<bv64>)
    requires |v| == 8 && HoldsColumns(v, w, w')
    ensures HoldsColumns(ColumnsRound(v), RoundSeq(w), RoundSeq(w'))
  {
    hide RoundSsse3, RoundSse2, RoundAvx1, RoundAvx2, Round, ScalarOps, Ssse3Ops, Sse2Ops, Avx2Ops,
      LowerHalf, UpperHalf, Registers2, RegisterSeq2, ToSeq, HoldsColumns;
    UnpackedColumns(v, w, w');
    var any := V2(0, 0);
    AllRoundsAgree(Sse(any, any, any, any, any, any, any, any), Registers2(v));
    PackedColumns(RoundAvx2(Avx2Ops(), Registers2(v)));
  }

  // ---- in place ----

  function GatherRows(state: seq<V4<bv64>>, i: nat): (v: seq<V4<bv64>>)
    requires |state| == 32 && i < 4
    ensures |v| == 8
  {
    state[8 * i..8 * i + 8]
  }

  function GatherColumns(state: seq<V4<bv64>>, i: nat): (v: seq<V4<bv64>>)
    requires |state| == 32 && i < 4
    ensures |v| == 8
  {
    [state[i], state[4 + i], state[8 + i], state[12 + i], state[16 + i], state[20 + i], state[24 + i], state[28 + i]]
  }

  ghost predicate RowsReplaced(before: seq<V4<bv64>>, after: seq<V4<bv64>>, v: seq<V4<bv64>>, i: int) {
    && |before| == 32 == |after| && |v| == 8
    && forall m :: 0 <= m < 32 ==> after[m] == if m / 8 == i then v[m % 8] else before[m]
  }

  ghost predicate ColumnsReplaced(before: seq<V4<bv64>>, after: seq<V4<bv64>>, v: seq<V4<bv64>>, i: int) {
    && |before| == 32 == |after| && |v| == 8
    && forall m :: 0 <= m < 32 ==> after[m] == if m % 4 == i then v[m / 4] else before[m]
  }

  method RoundRows(state: array<V4<bv64>>, i: nat)
    requires state.Length == 32 && i < 4
    modifies state
    ensures RowsReplaced(old(state[..]), state[..], RowsRound(GatherRows(old(state[..]), i)), i)
  {
    hide RowsRound, GatherRows;
    var rs := RowsRound(GatherRows(state[..], i));
    for j := 0 to 8
      invariant forall m :: 0 <= m < 32 ==> state[m] == if m / 8 == i && m % 8 < j then rs[m % 8] else old(state[m])
    {
      state[8 * i + j] := rs[j];
    }
  }

  method RoundColumns(state: array<V4<bv64>>, i: nat)
    requires state.Length == 32 && i < 4
    modifies state
    ensures ColumnsReplaced(old(state[..]), state[..], ColumnsRound(GatherColumns(old(state[..]), i)), i)
  {
    hide ColumnsRound, GatherColumns;
    var rs := ColumnsRound(GatherColumns(state[..], i));
    for j := 0 to 8
      invariant forall m :: 0 <= m < 32 ==> state[m] == if m % 4 == i && m / 4 < j then rs[m / 4] else old(state[m])
    {
      state[4 * j + i] := rs[j];
    }
  }

  lemma RowUntouched(w: Block, s: Block, i: nat, k: nat)
    requires |w| == |s| == 128 && RowsDone(w, s, i) && 16 * i <= k < 128
    ensures w[k] == s[k]
  {
    hide Rows;
    assert k / 16 >= i;
  }

  lemma RowRegister4(state: seq<V4<bv64>>, s: Block, i: nat, j: nat)
    requires |state| == 32 && |s| == 128 && i < 4 && j < 8 && RowsDone(Words4(state), s, 2 * i)
    ensures state[8 * i + j] == V4(s[32 * i + 4 * j], s[32 * i + 4 * j + 1], s[32 * i + 4 * j + 2], s[32 * i + 4 * j + 3])
  {
    hide Rows, Words4, RowsDone;
    Words4Are(state, Words4(state));
    var k := 4 * (8 * i + j);
    RowUntouched(Words4(state), s, 2 * i, k);
    RowUntouched(Words4(state), s, 2 * i, k + 1);
    RowUntouched(Words4(state), s, 2 * i, k + 2);
    RowUntouched(Words4(state), s, 2 * i, k + 3);
  }

  lemma RowsInPlace4(state: seq<V4<bv64>>, s: Block, i: nat)
    requires |state| == 32 && |s| == 128 && i < 4 && RowsDone(Words4(state), s, 2 * i)
    ensures HoldsRows(GatherRows(state, i), RowOf(s, 2 * i), RowOf(s, 2 * i + 1))
  {
    hide Rows, Words4, RowsDone;
    forall j | 0 <= j < 4
      ensures GatherRows(state, i)[j] == V4(RowOf(s, 2 * i)[4 * j], RowOf(s, 2 * i)[4 * j + 1],
                                            RowOf(s, 2 * i)[4 * j + 2], RowOf(s, 2 * i)[4 * j + 3])
      ensures GatherRows(state, i)[j + 4] == V4(RowOf(s, 2 * i + 1)[4 * j], RowOf(s, 2 * i + 1)[4 * j + 1],
                                                RowOf(s, 2 * i + 1)[4 * j + 2], RowOf(s, 2 * i + 1)[4 * j + 3])
    {
      RowRegister4(state, s, i, j);
      RowRegister4(state, s, i, j + 4);
    }
  }

  lemma ColumnsInPlace4(state: seq<V4<bv64>>, s: Block, i: nat)
    requires |state| == 32 && i < 4 && ColumnsDone(Words4(state), s, 2 * i)
    ensures HoldsColumns(GatherColumns(state, i), ColumnOf(s, 2 * i), ColumnOf(s, 2 * i + 1))
  {
    hide Columns, Words4, ColumnOf;
    var w := Words4(state);
    Words4Are(state, w);
    ColumnUntouched(w, s, 2 * i);
    RightColumnUntouched(w, s, i);
    forall j | 0 <= j < 8
      ensures GatherColumns(state, i)[j] == V4(ColumnOf(w, 2 * i)[2 * j], ColumnOf(w, 2 * i)[2 * j + 1],
                                               ColumnOf(w, 2 * i + 1)[2 * j], ColumnOf(w, 2 * i + 1)[2 * j + 1])
    {
      GatheredColumn(state, w, i, j);
    }
    hide GatherColumns, Load4;
  }

  lemma GatheredColumn(state: seq<V4<bv64>>, w: seq<bv64>, i: nat, j: nat)
    requires |state| == 32 && |w| == 128 && i < 4 && j < 8 && state[4 * j + i] == Load4(w, 4 * j + i)
    ensures GatherColumns(state, i)[j] == V4(ColumnOf(w, 2 * i)[2 * j], ColumnOf(w, 2 * i)[2 * j + 1],
                                             ColumnOf(w, 2 * i + 1)[2 * j], ColumnOf(w, 2 * i + 1)[2 * j + 1])
  {
    hide ColumnOf;
    assert GatherColumns(state, i)[j] == state[4 * j + i];
    ColumnOfAt(w, 2 * i, j);
    ColumnOfAt(w, 2 * i + 1, j);
    hide GatherColumns;
  }

  lemma RightColumnUntouched(v: seq<bv64>, s: Block, i: nat)
    requires i < 4 && ColumnsDone(v, s, 2 * i)
    ensures ColumnOf(v, 2 * i + 1) == ColumnOf(s, 2 * i + 1)
  {
    hide Columns;
    forall j | 0 <= j < 8
      ensures v[16 * j + 2 * (2 * i + 1)] == s[16 * j + 2 * (2 * i + 1)] && v[16 * j + 2 * (2 * i + 1) + 1] == s[16 * j + 2 * (2 * i + 1) + 1]
    {
      ColumnIndex(2 * i + 1, j, 16 * j + 2 * (2 * i + 1));
      ColumnIndex(2 * i + 1, j, 16 * j + 2 * (2 * i + 1) + 1);
    }
  }

  lemma RowsStep4(before: seq<V4<bv64>>, after: seq<V4<bv64>>, s: Block, i: nat, v: seq<V4<bv64>>)
    requires |before| == 32 && i < 4 && RowsDone(Words4(before), s, 2 * i)
    requires RowsReplaced(before, after, v, i) && HoldsRows(v, RoundSeq(RowOf(s, 2 * i)), RoundSeq(RowOf(s, 2 * i + 1)))
    ensures RowsDone(Words4(after), s, 2 * i + 2)
  {
    hide RoundSeq, RowOf;
    forall k | 0 <= k < 128
      ensures Words4(after)[k] == if k / 16 < 2 * i + 2 then Rows(s)[k] else s[k]
    {
      assert Words4(before)[k] == if k / 16 < 2 * i then Rows(s)[k] else s[k];
      VectorOfRow4(k, i);
    }
  }

  lemma VectorOfRow4(k: nat, i: nat)
    requires k < 128 && i < 4
    ensures k / 4 / 8 == i <==> k / 16 == 2 * i || k / 16 == 2 * i + 1
    ensures k / 16 == 2 * i ==> k / 4 % 8 < 4 && 4 * (k / 4 % 8) + k % 4 == k % 16
    ensures k / 16 == 2 * i + 1 ==> 4 <= k / 4 % 8 && 4 * (k / 4 % 8 - 4) + k % 4 == k % 16
  {}

  lemma ColumnsStep4(before: seq<V4<bv64>>, after: seq<V4<bv64>>, s: Block, i: nat, v: seq<V4<bv64>>)
    requires |before| == 32 == |after| && i < 4 && ColumnsDone(Words4(before), s, 2 * i)
    requires ColumnsReplaced(before, after, v, i) && HoldsColumns(v, RoundSeq(ColumnOf(s, 2 * i)), RoundSeq(ColumnOf(s, 2 * i + 1)))
    ensures ColumnsDone(Words4(after), s, 2 * i + 2)
  {
    hide RoundSeq, ColumnOf, ColumnNumber, ColumnSlot, HoldsColumns, ColumnsReplaced, Words4, Columns;
    forall k | 0 <= k < 128
      ensures Words4(after)[k] == if ColumnNumber(k) < 2 * i + 2 then Columns(s)[k] else s[k]
    {
      assert Words4(before)[k] == if ColumnNumber(k) < 2 * i then Columns(s)[k] else s[k];
      var a, b, c := Digits(k);
      VectorOfColumn4(a, b, c);
      WordAfterColumns(before, after, s, i, v, a, b, c);
    }
  }

  lemma Digits(k: nat) returns (a: nat, b: nat, c: nat)
    requires k < 128
    ensures a < 8 && b < 4 && c < 4 && k == 16 * a + 4 * b + c
  {
    a, b, c := k / 16, k % 16 / 4, k % 4;
  }

  lemma WordAfterColumns(before: seq<V4<bv64>>, after: seq<V4<bv64>>, s: Block, i: nat, v: seq<V4<bv64>>, a: nat, b: nat, c: nat)
    requires i < 4 && a < 8 && b < 4 && c < 4 && ColumnsReplaced(before, after, v, i)
    requires HoldsColumns(v, RoundSeq(ColumnOf(s, 2 * i)), RoundSeq(ColumnOf(s, 2 * i + 1)))
    ensures var k := 16 * a + 4 * b + c;
            Words4(after)[k] == if b == i then Columns(s)[k] else Words4(before)[k]
  {
    hide RoundSeq, ColumnOf, Columns, Words4;
    WordAt4(after, a, b, c);
    WordAt4(before, a, b, c);
    assert after[4 * a + b] == if b == i then v[a] else before[4 * a + b];
    hide ColumnsReplaced;
    if b == i {
      ColumnsWord(s, a, b, c);
    }
  }

  lemma ColumnsWord(s: Block, a: nat, b: nat, c: nat)
    requires a < 8 && b < 4 && c < 4
    ensures Columns(s)[16 * a + 4 * b + c] ==
      if c < 2 then RoundSeq(ColumnOf(s, 2 * b))[2 * a + c] else RoundSeq(ColumnOf(s, 2 * b + 1))[2 * a + c - 2]
  {
    hide RoundSeq, ColumnOf, ColumnNumber, ColumnSlot;
    VectorOfColumn4(a, b, c);
  }

  lemma WordAt4(state: seq<V4<bv64>>, a: nat, b: nat, c: nat)
    requires |state| == 32 && a < 8 && b < 4 && c < 4
    ensures Words4(state)[16 * a + 4 * b + c] == Word(state[4 * a + b], c)
    ensures (4 * a + b) % 4 == b && (4 * a + b) / 4 == a
  {
    VectorOf4(a, b, c);
  }

  lemma VectorOf4(a: nat, b: nat, c: nat)
    requires a < 8 && b < 4 && c < 4
    ensures (16 * a + 4 * b + c) / 4 == 4 * a + b && (16 * a + 4 * b + c) % 4 == c
  {}

  /** Word `c` of vector `4 * a + b`. */
  lemma VectorOfColumn4(a: nat, b: nat, c: nat)
    requires a < 8 && b < 4 && c < 4
    ensures var k := 16 * a + 4 * b + c;
            && ColumnNumber(k) == (if c < 2 then 2 * b else 2 * b + 1)
            && ColumnSlot(k) == 2 * a + if c < 2 then c else c - 2
  {
    var k := 16 * a + 4 * b + c;
    assert k / 16 == a && k % 16 == 4 * b + c && k % 2 == c % 2;
  }

  lemma XorAtFour(a: Block, b: Block, m: nat)
    requires m < 32
    ensures Load4(Xor(b, a), m) == XorV4(Load4(a, m), Load4(b, m)) == XorV4(Load4(b, m), Load4(a, m))
  {
    hide XorWord, Xor;
    XorAtTwo(a, b, 4 * m);
    XorAtTwo(a, b, 4 * m + 2);
  }

  /** The first loop of `fill_block`. */
  method MixIn4(state: array<V4<bv64>>, blockXY: array<V4<bv64>>, ref: array<bv64>, next: array<bv64>, withXor: bool)
    requires state.Length == 32 == blockXY.Length && state != blockXY && ref.Length == 128 == next.Length
    modifies state, blockXY
    ensures var r := Xor(ref[..], old(Words4(state[..])));
            && Words4(state[..]) == r
            && Words4(blockXY[..]) == if withXor then Xor(r, next[..]) else r
  {
    hide Words4, XorV4, Xor;
    ghost var prev: Block := Words4(state[..]);
    ghost var r := Xor(ref[..], prev);
    ghost var t := if withXor then Xor(r, next[..]) else r;
    Words4Are(state[..], prev);
    for i := 0 to 32
      invariant forall m :: 0 <= m < 32 ==> state[m] == if m < i then Load4(r, m) else Load4(prev, m)
      invariant forall m :: 0 <= m < i ==> blockXY[m] == Load4(t, m)
    {
      XorAtFour(prev, ref[..], i);
      XorAtFour(next[..], r, i);
      state[i] := XorV4(state[i], V4(ref[4 * i], ref[4 * i + 1], ref[4 * i + 2], ref[4 * i + 3]));
      blockXY[i] := if withXor then XorV4(state[i], V4(next[4 * i], next[4 * i + 1], next[4 * i + 2], next[4 * i + 3])) else state[i];
    }
    Words4At(state[..], r);
    Words4At(blockXY[..], t);
  }

  /** The last loop of `fill_block`. */
  method MixOut4(state: array<V4<bv64>>, blockXY: array<V4<bv64>>, next: array<bv64>)
    requires state.Length == 32 == blockXY.Length && state != blockXY && next.Length == 128
    modifies state, next
    ensures next[..] == Words4(state[..]) == Xor(Words4(blockXY[..]), old(Words4(state[..])))
  {
    hide Words4, XorWord, Xor;
    ghost var p, t := Words4(state[..]), Words4(blockXY[..]);
    ghost var b := Xor(t, p);
    Words4Are(state[..], p);
    Words4Are(blockXY[..], t);
    for i := 0 to 32
      invariant forall m :: 0 <= m < 32 ==> state[m] == if m < i then Load4(b, m) else Load4(p, m)
      invariant forall k :: 0 <= k < 4 * i ==> next[k] == b[k]
    {
      XorAtFour(p, t, i);
      state[i] := XorV4(state[i], blockXY[i]);
      next[4 * i], next[4 * i + 1], next[4 * i + 2], next[4 * i + 3] := state[i].w0, state[i].w1, state[i].w2, state[i].w3;
    }
    Words4At(state[..], b);
    assert next[..] == b;
  }

  /** `fill_block` for AVX2; `ref` and `next` may coincide. */
  method FillBlockAvx2(state: array<V4<bv64>>, ref: array<bv64>, next: array<bv64>, withXor: bool)
    requires state.Length == 32 && ref.Length == 128 == next.Length
    modifies state, next
    ensures var b := Compress(old(Words4(state[..])), old(ref[..]), if withXor then Some(old(next[..])) else None);
            Words4(state[..]) == b && next[..] == b
  {
    hide Rows, Columns, RoundSeq, RowsRound, ColumnsRound, Xor, ColumnOf, RowOf, Words4, GatherRows, GatherColumns,
      HoldsRows, HoldsColumns, RowsReplaced, ColumnsReplaced;
    var blockXY := new V4<bv64>[32];
    MixIn4(state, blockXY, ref, next, withXor);
    ghost var xy, old_ := blockXY[..], next[..];
    ghost var r := Words4(state[..]);
    for i := 0 to 4
      invariant RowsDone(Words4(state[..]), r, 2 * i)
      invariant blockXY[..] == xy && next[..] == old_
    {
      ghost var before := state[..];
      RowsInPlace4(before, r, i);
      RowsRoundIsRoundSeq(GatherRows(before, i), RowOf(r, 2 * i), RowOf(r, 2 * i + 1));
      RoundRows(state, i);
      RowsStep4(before, state[..], r, i, RowsRound(GatherRows(before, i)));
    }
    ghost var rows := Rows(r);
    assert Words4(state[..]) == rows;
    for i := 0 to 4
      invariant ColumnsDone(Words4(state[..]), rows, 2 * i)
      invariant blockXY[..] == xy && next[..] == old_
    {
      ghost var before := state[..];
      ColumnsInPlace4(before, rows, i);
      ColumnsRoundIsRoundSeq(GatherColumns(before, i), ColumnOf(rows, 2 * i), ColumnOf(rows, 2 * i + 1));
      RoundColumns(state, i);
      ColumnsStep4(before, state[..], rows, i, ColumnsRound(GatherColumns(before, i)));
    }
    assert Words4(state[..]) == Columns(rows);
    MixOut4(state, blockXY, next);
  }
}
