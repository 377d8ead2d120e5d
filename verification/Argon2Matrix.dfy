/** Construction of the Argon2 memory as sections 3.2 and 3.4 of RFC 9106 describe it: a matrix of blocks,
    one row per lane. Everything here is independent of how the blocks are laid out or scheduled. */
module Argon2Matrix {
  import opened MachineInts
  import opened Nonlinear
  import opened Wrappers
  import opened Argon2Params
  import opened Argon2Index

  /** The operations on one block, left uninterpreted. */
  datatype Primitives<!B> = Primitives(
    /** `fill_block(prev, ref, next, with_xor)`: the new next block; the option is the block to XOR over. */
    compress: (B, B, Option<B>) -> B,
    word: (B, nat) -> u64,
    /** The block that starts with the given words and is zero elsewhere. */
    fromWords: seq<nat> -> B,
    /** `xor_block`. */
    xor: (B, B) -> B)

  const ADDRESSES_IN_BLOCK: u32 := 128

  predicate DataIndependent(inst: Instance, pass: nat, slice: nat) {
    inst.ty == Argon2i || (inst.ty == Argon2id && pass == 0 && slice < SYNC_POINTS / 2)
  }

  /** The input words of section 3.4.1.2 of RFC 9106. */
  function AddressWords(inst: Instance, pass: nat, lane: nat, slice: nat, counter: nat): seq<nat> {
    [pass, lane, slice, inst.memoryBlocks, inst.passes, TypeNumber(inst.ty), counter]
  }

  /** G(ZERO, G(ZERO, Z || counter)), the counter-th block of pseudo-random values of a segment. */
  function AddressBlock<B>(p: Primitives<B>, inst: Instance, pass: nat, lane: nat, slice: nat, counter: nat): B {
    var zero := p.fromWords([]);
    p.compress(zero, p.compress(zero, p.fromWords(AddressWords(inst, pass, lane, slice, counter)), None), None)
  }

  ghost predicate Shaped<B>(inst: Instance, m: seq<seq<B>>) {
    |m| == inst.lanes && forall l :: 0 <= l < |m| ==> |m[l]| == inst.laneLength
  }

  function RefLane(inst: Instance, pos: Position, rand: u64): nat
    requires inst.lanes != 0
  {
    if pos.pass == 0 && pos.slice == 0 then pos.lane else (rand / TWO_32) % inst.lanes
  }

  function RefColumn(inst: Instance, pos: Position, rand: u64): nat
    requires inst.lanes != 0 && inst.laneLength != 0
  {
    IndexAlpha(inst, pos, rand % TWO_32, RefLane(inst, pos, rand) == pos.lane)
  }

  lemma PositionBounds(inst: Instance, pos: Position)
    requires ValidPosition(inst, pos)
    ensures Column(inst, pos) < inst.laneLength
    ensures PreviousColumn(inst, Column(inst, pos)) < inst.laneLength
    ensures PreviousColumn(inst, Column(inst, pos)) == if Column(inst, pos) == 0 then inst.laneLength - 1 else Column(inst, pos) - 1
  {
    SliceBounds(inst, pos.slice);
    PreviousColumnIs(inst, Column(inst, pos));
  }

  ghost function PseudoRand<B>(p: Primitives<B>, inst: Instance, m: seq<seq<B>>, pos: Position): u64
    requires ValidPosition(inst, pos) && Shaped(inst, m)
  {
    PositionBounds(inst, pos);
    if DataIndependent(inst, pos.pass, pos.slice) then
      p.word(AddressBlock(p, inst, pos.pass, pos.lane, pos.slice, pos.index / ADDRESSES_IN_BLOCK + 1),
             pos.index % ADDRESSES_IN_BLOCK)
    else p.word(m[pos.lane][PreviousColumn(inst, Column(inst, pos))], 0)
  }

  /** Whether a new block is XORed over the old one: version 1.3, from the second pass on. */
  predicate WithXor(inst: Instance, pass: nat) {
    inst.version != VERSION_10 && pass != 0
  }

  ghost function NewBlock<B>(p: Primitives<B>, inst: Instance, m: seq<seq<B>>, pos: Position): B
    requires ValidPosition(inst, pos) && Shaped(inst, m)
  {
    PositionBounds(inst, pos);
    var rand := PseudoRand(p, inst, m, pos);
    p.compress(m[pos.lane][PreviousColumn(inst, Column(inst, pos))],
               m[RefLane(inst, pos, rand)][RefColumn(inst, pos, rand)],
               if WithXor(inst, pos.pass) then Some(m[pos.lane][Column(inst, pos)]) else None)
  }

  ghost function Put<B>(inst: Instance, m: seq<seq<B>>, lane: nat, column: nat, b: B): (r: seq<seq<B>>)
    requires Shaped(inst, m) && lane < inst.lanes && column < inst.laneLength
    ensures Shaped(inst, r)
  {
    m[lane := m[lane][column := b]]
  }

  ghost predicate ValidSegment(inst: Instance, pass: nat, slice: nat) {
    Valid(inst) && pass < inst.passes && slice < 4
  }

  /** The matrix after one worker alone built the blocks of its segment below index `n`. */
  ghost function Run<B>(p: Primitives<B>, inst: Instance, m: seq<seq<B>>, pass: nat, slice: nat, lane: nat, n: nat): (r: seq<seq<B>>)
    requires ValidSegment(inst, pass, slice) && lane < inst.lanes && n <= inst.segmentLength && Shaped(inst, m)
    ensures Shaped(inst, r)
    decreases n
  {
    if n <= FirstIndex(pass, slice) then m
    else
      var pos := Position(pass, lane, slice, n - 1);
      PositionBounds(inst, pos);
      var before := Run(p, inst, m, pass, slice, lane, n - 1);
      Put(inst, before, lane, Column(inst, pos), NewBlock(p, inst, before, pos))
  }

  /** The first `k` lanes, one segment after the other. */
  ghost function RunLanes<B>(p: Primitives<B>, inst: Instance, m: seq<seq<B>>, pass: nat, slice: nat, k: nat): (r: seq<seq<B>>)
    requires ValidSegment(inst, pass, slice) && k <= inst.lanes && Shaped(inst, m)
    ensures Shaped(inst, r)
    decreases k
  {
    if k == 0 then m
    else Run(p, inst, RunLanes(p, inst, m, pass, slice, k - 1), pass, slice, k - 1, inst.segmentLength)
  }

  /** The memory when the fill arrives at a slice of a pass. */
  ghost function Fill<B>(p: Primitives<B>, inst: Instance, m: seq<seq<B>>, pass: nat, slice: nat): (r: seq<seq<B>>)
    requires Valid(inst) && slice < 4 && 4 * pass + slice <= 4 * inst.passes && Shaped(inst, m)
    ensures Shaped(inst, r)
    decreases pass, slice
  {
    if slice > 0 then RunLanes(p, inst, Fill(p, inst, m, pass, slice - 1), pass, slice - 1, inst.lanes)
    else if pass > 0 then RunLanes(p, inst, Fill(p, inst, m, pass - 1, 3), pass - 1, 3, inst.lanes)
    else m
  }

  // ---- a segment depends only on its own lane and on finished segments ----

  /** Columns of the slice being built. */
  ghost predicate InSlice(inst: Instance, slice: nat, c: nat) {
    slice * inst.segmentLength <= c < slice * inst.segmentLength + inst.segmentLength
  }

  /** `a` and `b` agree on one lane, and elsewhere on all columns outside the slice. */
  ghost predicate AgreeFor<B>(inst: Instance, slice: nat, lane: nat, a: seq<seq<B>>, b: seq<seq<B>>)
    requires Shaped(inst, a) && Shaped(inst, b)
  {
    forall l, c {:trigger a[l][c]} {:trigger b[l][c]} ::
      0 <= l < inst.lanes && 0 <= c < inst.laneLength && (l == lane || !InSlice(inst, slice, c)) ==> a[l][c] == b[l][c]
  }

  lemma ReferenceIsStable(inst: Instance, pos: Position, rand: u64)
    requires ValidPosition(inst, pos)
    ensures var l, c := RefLane(inst, pos, rand), RefColumn(inst, pos, rand);
            && 0 <= l < inst.lanes && 0 <= c < inst.laneLength
            && Constructed(inst, pos, l == pos.lane, c)
            && (l != pos.lane ==> !InSlice(inst, pos.slice, c))
            && (l == pos.lane ==> c != PreviousColumn(inst, Column(inst, pos)) && c != Column(inst, pos))
  {
    var l := RefLane(inst, pos, rand);
    var same := l == pos.lane;
    IndexAlphaSelectsFromWindow(inst, pos, rand % TWO_32, same);
    WindowIsConstructed(inst, pos, same, RefColumn(inst, pos, rand));
    SliceBounds(inst, pos.slice);
  }

  lemma NewBlockIsLocal<B>(p: Primitives<B>, inst: Instance, a: seq<seq<B>>, b: seq<seq<B>>, pos: Position)
    requires ValidPosition(inst, pos) && Shaped(inst, a) && Shaped(inst, b)
    requires AgreeFor(inst, pos.slice, pos.lane, a, b)
    ensures NewBlock(p, inst, a, pos) == NewBlock(p, inst, b, pos)
  {
    PositionBounds(inst, pos);
    var lane, prev := pos.lane, PreviousColumn(inst, Column(inst, pos));
    assert a[lane][prev] == b[lane][prev];
    assert a[lane][Column(inst, pos)] == b[lane][Column(inst, pos)];
    var rand := PseudoRand(p, inst, a, pos);
    assert rand == PseudoRand(p, inst, b, pos);
    ReferenceIsStable(inst, pos, rand);
  }

  /** A worker changes nothing but the blocks of its own segment that it has reached. */
  lemma {:induction false} RunChangesOnlySegment<B>(p: Primitives<B>, inst: Instance, m: seq<seq<B>>, pass: nat, slice: nat, lane: nat, n: nat, l: nat, c: nat)
    requires ValidSegment(inst, pass, slice) && lane < inst.lanes && n <= inst.segmentLength && Shaped(inst, m)
    requires l < inst.lanes && c < inst.laneLength
    requires l != lane || !(slice * inst.segmentLength + FirstIndex(pass, slice) <= c < slice * inst.segmentLength + n)
    ensures Run(p, inst, m, pass, slice, lane, n)[l][c] == m[l][c]
    decreases n
  {
    hide NewBlock;
    if n > FirstIndex(pass, slice) {
      RunChangesOnlySegment(p, inst, m, pass, slice, lane, n - 1, l, c);
    }
  }

  /** What a worker does to its lane does not depend on what the other lanes hold in the current slice. */
  lemma {:induction false} RunIsLocal<B>(p: Primitives<B>, inst: Instance, a: seq<seq<B>>, b: seq<seq<B>>, pass: nat, slice: nat, lane: nat, n: nat)
    requires ValidSegment(inst, pass, slice) && lane < inst.lanes && n <= inst.segmentLength
    requires Shaped(inst, a) && Shaped(inst, b) && AgreeFor(inst, slice, lane, a, b)
    ensures Run(p, inst, a, pass, slice, lane, n)[lane] == Run(p, inst, b, pass, slice, lane, n)[lane]
    decreases n
  {
    hide NewBlock;
    if n <= FirstIndex(pass, slice) {
      assert a[lane] == b[lane];
    } else {
      RunIsLocal(p, inst, a, b, pass, slice, lane, n - 1);
      RunKeepsAgreement(p, inst, a, b, pass, slice, lane, n - 1);
      NewBlockIsLocal(p, inst, Run(p, inst, a, pass, slice, lane, n - 1), Run(p, inst, b, pass, slice, lane, n - 1),
                      Position(pass, lane, slice, n - 1));
    }
  }

  lemma RunKeepsAgreement<B>(p: Primitives<B>, inst: Instance, a: seq<seq<B>>, b: seq<seq<B>>, pass: nat, slice: nat, lane: nat, n: nat)
    requires ValidSegment(inst, pass, slice) && lane < inst.lanes && n <= inst.segmentLength
    requires Shaped(inst, a) && Shaped(inst, b) && AgreeFor(inst, slice, lane, a, b)
    requires Run(p, inst, a, pass, slice, lane, n)[lane] == Run(p, inst, b, pass, slice, lane, n)[lane]
    ensures AgreeFor(inst, slice, lane, Run(p, inst, a, pass, slice, lane, n), Run(p, inst, b, pass, slice, lane, n))
  {
    hide NewBlock, Run;
    var ra, rb := Run(p, inst, a, pass, slice, lane, n), Run(p, inst, b, pass, slice, lane, n);
    forall l, c | 0 <= l < inst.lanes && 0 <= c < inst.laneLength && (l == lane || !InSlice(inst, slice, c))
      ensures ra[l][c] == rb[l][c]
    {
      if l != lane {
        RunChangesOnlySegment(p, inst, a, pass, slice, lane, n, l, c);
        RunChangesOnlySegment(p, inst, b, pass, slice, lane, n, l, c);
      }
    }
  }

  /** The sequential slice gives every lane what its worker alone makes of it. */
  lemma {:induction false} RunLanesIsLanewise<B>(p: Primitives<B>, inst: Instance, m: seq<seq<B>>, pass: nat, slice: nat, k: nat, lane: nat)
    requires ValidSegment(inst, pass, slice) && k <= inst.lanes && Shaped(inst, m) && lane < inst.lanes
    ensures RunLanes(p, inst, m, pass, slice, k)[lane] ==
      if lane < k then Run(p, inst, m, pass, slice, lane, inst.segmentLength)[lane] else m[lane]
    decreases k, 0
  {
    hide NewBlock, Run;
    if k > 0 {
      var before := RunLanes(p, inst, m, pass, slice, k - 1);
      if lane == k - 1 {
        RunLanesAgrees(p, inst, m, pass, slice, k - 1);
        RunIsLocal(p, inst, before, m, pass, slice, lane, inst.segmentLength);
      } else {
        RunLanesIsLanewise(p, inst, m, pass, slice, k - 1, lane);
        RunLeavesOtherLanes(p, inst, before, pass, slice, k - 1, lane);
      }
    }
  }

  lemma RunLeavesOtherLanes<B>(p: Primitives<B>, inst: Instance, m: seq<seq<B>>, pass: nat, slice: nat, lane: nat, other: nat)
    requires ValidSegment(inst, pass, slice) && Shaped(inst, m) && lane < inst.lanes && other < inst.lanes && lane != other
    ensures Run(p, inst, m, pass, slice, lane, inst.segmentLength)[other] == m[other]
  {
    hide NewBlock, Run;
    var after := Run(p, inst, m, pass, slice, lane, inst.segmentLength);
    forall c | 0 <= c < inst.laneLength
      ensures after[other][c] == m[other][c]
    {
      RunChangesOnlySegment(p, inst, m, pass, slice, lane, inst.segmentLength, other, c);
    }
  }

  lemma RunLanesAgrees<B>(p: Primitives<B>, inst: Instance, m: seq<seq<B>>, pass: nat, slice: nat, k: nat)
    requires ValidSegment(inst, pass, slice) && k < inst.lanes && Shaped(inst, m)
    ensures AgreeFor(inst, slice, k, RunLanes(p, inst, m, pass, slice, k), m)
    decreases k, 1
  {
    hide NewBlock, Run, RunLanes;
    var before := RunLanes(p, inst, m, pass, slice, k);
    forall l, c {:trigger before[l][c]} | 0 <= l < inst.lanes && 0 <= c < inst.laneLength && (l == k || !InSlice(inst, slice, c))
      ensures before[l][c] == m[l][c]
    {
      RunLanesIsLanewise(p, inst, m, pass, slice, k, l);
      if l < k {
        RunChangesOnlySegment(p, inst, m, pass, slice, l, inst.segmentLength, l, c);
      }
    }
  }
}
