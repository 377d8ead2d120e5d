/** No block is read before it is written: the result does not depend on what the allocated memory holds
    beyond the first two blocks of every lane. */
module Argon2FirstPass {
  import opened MachineInts
  import opened Argon2Params
  import opened Argon2Index
  import opened Argon2Matrix

  /** `a` and `b` agree on the first `n` columns of every lane. */
  ghost predicate AgreeBelow<B>(inst: Instance, n: nat, a: seq<seq<B>>, b: seq<seq<B>>)
    requires Shaped(inst, a) && Shaped(inst, b)
  {
    forall l, c {:trigger a[l][c]} {:trigger b[l][c]} :: 0 <= l < inst.lanes && 0 <= c < n && c < inst.laneLength ==> a[l][c] == b[l][c]
  }

  /** Number of columns that are written when the first pass arrives at a slice. */
  function Written(inst: Instance, slice: nat): nat {
    if slice == 0 then 2 else slice * inst.segmentLength
  }

  ghost predicate LaneAgreesBelow<B>(n: nat, a: seq<B>, b: seq<B>) {
    forall c :: 0 <= c < n && c < |a| && c < |b| ==> a[c] == b[c]
  }

  lemma FirstPassBlock<B>(p: Primitives<B>, inst: Instance, a: seq<seq<B>>, b: seq<seq<B>>, pos: Position)
    requires ValidPosition(inst, pos) && pos.pass == 0 && Shaped(inst, a) && Shaped(inst, b)
    requires AgreeBelow(inst, Written(inst, pos.slice), a, b)
    requires LaneAgreesBelow(Column(inst, pos), a[pos.lane], b[pos.lane])
    ensures NewBlock(p, inst, a, pos) == NewBlock(p, inst, b, pos)
  {
    PositionBounds(inst, pos);
    SliceBounds(inst, pos.slice);
    var prev := PreviousColumn(inst, Column(inst, pos));
    assert prev == Column(inst, pos) - 1;
    assert a[pos.lane][prev] == b[pos.lane][prev];
    var rand := PseudoRand(p, inst, a, pos);
    assert rand == PseudoRand(p, inst, b, pos);
    ReferenceIsStable(inst, pos, rand);
  }

  lemma {:induction false} FirstPassRun<B>(p: Primitives<B>, inst: Instance, a: seq<seq<B>>, b: seq<seq<B>>, slice: nat, lane: nat, n: nat)
    requires ValidSegment(inst, 0, slice) && lane < inst.lanes && n <= inst.segmentLength
    requires Shaped(inst, a) && Shaped(inst, b) && AgreeBelow(inst, Written(inst, slice), a, b)
    ensures LaneAgreesBelow(slice * inst.segmentLength + n, Run(p, inst, a, 0, slice, lane, n)[lane], Run(p, inst, b, 0, slice, lane, n)[lane])
    decreases n
  {
    hide NewBlock;
    SliceBounds(inst, slice);
    if n > FirstIndex(0, slice) {
      FirstPassRun(p, inst, a, b, slice, lane, n - 1);
      var ra, rb := Run(p, inst, a, 0, slice, lane, n - 1), Run(p, inst, b, 0, slice, lane, n - 1);
      RunKeepsFirstColumns(p, inst, a, slice, lane, n - 1);
      RunKeepsFirstColumns(p, inst, b, slice, lane, n - 1);
      FirstPassBlock(p, inst, ra, rb, Position(0, lane, slice, n - 1));
      PositionBounds(inst, Position(0, lane, slice, n - 1));
    }
  }

  lemma RunKeepsFirstColumns<B>(p: Primitives<B>, inst: Instance, m: seq<seq<B>>, slice: nat, lane: nat, n: nat)
    requires ValidSegment(inst, 0, slice) && lane < inst.lanes && n <= inst.segmentLength && Shaped(inst, m)
    ensures AgreeBelow(inst, Written(inst, slice), Run(p, inst, m, 0, slice, lane, n), m)
  {
    hide NewBlock, Run;
    SliceBounds(inst, slice);
    var r := Run(p, inst, m, 0, slice, lane, n);
    forall l, c {:trigger r[l][c]} | 0 <= l < inst.lanes && 0 <= c < Written(inst, slice) && c < inst.laneLength
      ensures r[l][c] == m[l][c]
    {
      RunChangesOnlySegment(p, inst, m, 0, slice, lane, n, l, c);
    }
  }

  lemma FirstPassSlice<B>(p: Primitives<B>, inst: Instance, a: seq<seq<B>>, b: seq<seq<B>>, slice: nat)
    requires ValidSegment(inst, 0, slice) && Shaped(inst, a) && Shaped(inst, b) && AgreeBelow(inst, Written(inst, slice), a, b)
    ensures AgreeBelow(inst, Written(inst, slice + 1), RunLanes(p, inst, a, 0, slice, inst.lanes), RunLanes(p, inst, b, 0, slice, inst.lanes))
  {
    hide NewBlock, Run, RunLanes;
    SliceBounds(inst, slice);
    var ra, rb := RunLanes(p, inst, a, 0, slice, inst.lanes), RunLanes(p, inst, b, 0, slice, inst.lanes);
    forall l, c {:trigger ra[l][c]} | 0 <= l < inst.lanes && 0 <= c < Written(inst, slice + 1) && c < inst.laneLength
      ensures ra[l][c] == rb[l][c]
    {
      FirstPassRun(p, inst, a, b, slice, l, inst.segmentLength);
      RunLanesIsLanewise(p, inst, a, 0, slice, inst.lanes, l);
      RunLanesIsLanewise(p, inst, b, 0, slice, inst.lanes, l);
    }
  }

  lemma {:induction false} FirstPass<B>(p: Primitives<B>, inst: Instance, a: seq<seq<B>>, b: seq<seq<B>>, slice: nat)
    requires Valid(inst) && Shaped(inst, a) && Shaped(inst, b) && AgreeBelow(inst, 2, a, b) && slice < 4
    ensures AgreeBelow(inst, Written(inst, slice), Fill(p, inst, a, 0, slice), Fill(p, inst, b, 0, slice))
    decreases slice
  {
    hide NewBlock, Run, RunLanes;
    if slice > 0 {
      FirstPass(p, inst, a, b, slice - 1);
      FirstPassSlice(p, inst, Fill(p, inst, a, 0, slice - 1), Fill(p, inst, b, 0, slice - 1), slice - 1);
    }
  }

  /** Two fills that start with the same first two blocks per lane agree from the end of the first pass on. */
  lemma {:induction false} UninitialisedMemoryIsIrrelevant<B>(p: Primitives<B>, inst: Instance, a: seq<seq<B>>, b: seq<seq<B>>, pass: nat, slice: nat)
    requires Valid(inst) && Shaped(inst, a) && Shaped(inst, b) && AgreeBelow(inst, 2, a, b)
    requires 1 <= pass && slice < 4 && 4 * pass + slice <= 4 * inst.passes
    ensures Fill(p, inst, a, pass, slice) == Fill(p, inst, b, pass, slice)
    decreases pass, slice
  {
    hide NewBlock, Run, RunLanes;
    if slice > 0 {
      UninitialisedMemoryIsIrrelevant(p, inst, a, b, pass, slice - 1);
    } else if pass > 1 {
      UninitialisedMemoryIsIrrelevant(p, inst, a, b, pass - 1, 3);
    } else {
      FirstPass(p, inst, a, b, 3);
      FirstPassSlice(p, inst, Fill(p, inst, a, 0, 3), Fill(p, inst, b, 0, 3), 3);
      SameMatrix(inst, Fill(p, inst, a, 1, 0), Fill(p, inst, b, 1, 0));
    }
  }

  lemma SameMatrix<B>(inst: Instance, a: seq<seq<B>>, b: seq<seq<B>>)
    requires Valid(inst) && Shaped(inst, a) && Shaped(inst, b) && AgreeBelow(inst, Written(inst, 4), a, b)
    ensures a == b
  {
    forall l | 0 <= l < inst.lanes
      ensures a[l] == b[l]
    {
      assert forall c :: 0 <= c < inst.laneLength ==> a[l][c] == b[l][c];
    }
  }
}
