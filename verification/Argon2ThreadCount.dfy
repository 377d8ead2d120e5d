/** The number of threads does not change the tag: only the number of lanes does (argon2/argon2.c, argon2/core.c). */
module Argon2ThreadCount {
  import opened MachineInts
  import opened Wrappers
  import opened Argon2Params
  import opened Argon2Index
  import opened Argon2Matrix
  import opened Argon2Fill
  import opened Argon2Prehash
  import opened Argon2Blocks
  import opened Argon2

  /** Two instances that differ in the number of threads only. */
  ghost predicate SameLayout(a: Instance, b: Instance) {
    Valid(a) && Valid(b) && b == a.(threads := b.threads)
  }

  lemma SameNewBlock<B>(p: Primitives<B>, a: Instance, b: Instance, m: seq<seq<B>>, pos: Position)
    requires SameLayout(a, b) && ValidPosition(a, pos) && Shaped(a, m)
    ensures ValidPosition(b, pos) && NewBlock(p, a, m, pos) == NewBlock(p, b, m, pos)
    ensures Column(a, pos) == Column(b, pos)
  {
    PositionBounds(a, pos);
    hide Wrap32, Wrap64;
  }

  lemma {:induction false} SameRun<B>(p: Primitives<B>, a: Instance, b: Instance, m: seq<seq<B>>, pass: nat, slice: nat, lane: nat, n: nat)
    requires SameLayout(a, b) && ValidSegment(a, pass, slice) && lane < a.lanes && n <= a.segmentLength && Shaped(a, m)
    ensures Run(p, a, m, pass, slice, lane, n) == Run(p, b, m, pass, slice, lane, n)
    decreases n
  {
    hide NewBlock;
    if n > FirstIndex(pass, slice) {
      SameRun(p, a, b, m, pass, slice, lane, n - 1);
      var pos := Position(pass, lane, slice, n - 1);
      PositionBounds(a, pos);
      SameNewBlock(p, a, b, Run(p, a, m, pass, slice, lane, n - 1), pos);
      hide Column;
    }
  }

  lemma {:induction false} SameLanes<B>(p: Primitives<B>, a: Instance, b: Instance, m: seq<seq<B>>, pass: nat, slice: nat, n: nat)
    requires SameLayout(a, b) && ValidSegment(a, pass, slice) && n <= a.lanes && Shaped(a, m)
    ensures RunLanes(p, a, m, pass, slice, n) == RunLanes(p, b, m, pass, slice, n)
    decreases n
  {
    hide Run;
    if n > 0 {
      SameLanes(p, a, b, m, pass, slice, n - 1);
      SameRun(p, a, b, RunLanes(p, a, m, pass, slice, n - 1), pass, slice, n - 1, a.segmentLength);
    }
  }

  lemma {:induction false} SameFill<B>(p: Primitives<B>, a: Instance, b: Instance, m: seq<seq<B>>, pass: nat, slice: nat)
    requires SameLayout(a, b) && slice < 4 && 4 * pass + slice <= 4 * a.passes && Shaped(a, m)
    ensures Fill(p, a, m, pass, slice) == Fill(p, b, m, pass, slice)
    decreases pass, slice
  {
    hide RunLanes;
    if slice > 0 {
      SameFill(p, a, b, m, pass, slice - 1);
      SameLanes(p, a, b, Fill(p, a, m, pass, slice - 1), pass, slice - 1, a.lanes);
    } else if pass > 0 {
      SameFill(p, a, b, m, pass - 1, 3);
      SameLanes(p, a, b, Fill(p, a, m, pass - 1, 3), pass - 1, 3, a.lanes);
    }
  }

  lemma {:induction false} SameFinal<B>(p: Primitives<B>, a: Instance, b: Instance, m: seq<seq<B>>, n: nat)
    requires SameLayout(a, b) && Shaped(a, m) && 1 <= n <= a.lanes
    ensures FinalBlock(p, a, m, n) == FinalBlock(p, b, m, n)
    decreases n
  {
    if n > 1 {
      SameFinal(p, a, b, m, n - 1);
    }
  }

  lemma SameLast(a: Instance, b: Instance, h0: seq<bv8>)
    requires SameLayout(a, b)
    ensures LastBlock(a, h0) == LastBlock(b, h0)
  {
    hide Fill, FinalBlock, Rfc, FirstBlock;
    var m := FirstMatrix(a, h0);
    assert m == FirstMatrix(b, h0);
    SameFill(Rfc(), a, b, m, a.passes, 0);
    SameFinal(Rfc(), a, b, Fill(Rfc(), a, m, a.passes, 0), a.lanes);
  }

  lemma SameLayouts(c: Context, ty: Argon2Type, n: u32)
    requires ValidateInputs(c) == Ok == ValidateInputs(c.(threads := n))
    ensures SameLayout(Layout(c, ty), Layout(c.(threads := n), ty))
  {
    hide ValidateInputs, Valid, Wrap32;
  }

  /** Contexts that differ in the number of threads only have the same tag. */
  lemma ThreadsDoNotMatter(c: Context, ty: Argon2Type, n: u32)
    requires ValidateInputs(c) == Ok && LengthsFit(c) && 1 <= n <= MAX_THREADS
    ensures ValidateInputs(c.(threads := n)) == Ok && Tag(c.(threads := n), ty) == Tag(c, ty)
  {
    assert ValidateInputs(c.(threads := n)) == Ok;
    assert H0(c, ty) == H0(c.(threads := n), ty);
    hide ValidateInputs, H0, Layout, LastBlock, LengthsFit;
    SameLayouts(c, ty, n);
    SameLast(Layout(c, ty), Layout(c.(threads := n), ty), H0(c, ty));
  }
}
