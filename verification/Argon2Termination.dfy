/** Every schedule of the multi-threaded fill (argon2/core.c) comes to its end, after the same number of steps. */
module Argon2Termination {
  import opened MachineInts
  import opened Nonlinear
  import opened Wrappers
  import opened Argon2Params
  import opened Argon2Index
  import opened Argon2Matrix
  import opened Argon2Threads

  /** The steps that a worker still costs: creation, a load and a store for each block, and the exit. */
  function Work<B>(todo: nat, segmentLength: nat, w: Worker<B>): int {
    match w
    case NotCreated => 2 * todo + 2
    case Running(i, pending) => 2 * (segmentLength - i) + if pending.Some? then 0 else 1
    case Finished => 0
  }

  function TotalWork<B>(todo: nat, segmentLength: nat, ws: seq<Worker<B>>): int {
    if ws == [] then 0 else Work(todo, segmentLength, ws[0]) + TotalWork(todo, segmentLength, ws[1..])
  }

  lemma {:induction false} WorkChanges<B>(todo: nat, segmentLength: nat, ws: seq<Worker<B>>, k: nat, w: Worker<B>)
    requires k < |ws|
    ensures TotalWork(todo, segmentLength, ws[k := w])
            == TotalWork(todo, segmentLength, ws) - Work(todo, segmentLength, ws[k]) + Work(todo, segmentLength, w)
    decreases k
  {
    if k == 0 {
      assert ws[0 := w][1..] == ws[1..];
    } else {
      WorkChanges(todo, segmentLength, ws[1..], k - 1, w);
      assert ws[k := w][1..] == ws[1..][k - 1 := w];
    }
  }

  /** Workers that are all alike. */
  lemma {:induction false} SameWork<B>(todo: nat, segmentLength: nat, ws: seq<Worker<B>>, w: Worker<B>)
    requires forall k :: 0 <= k < |ws| ==> ws[k] == w
    ensures TotalWork(todo, segmentLength, ws) == |ws| * Work(todo, segmentLength, w)
    decreases |ws|
  {
    hide Work;
    if ws != [] {
      SameWork(todo, segmentLength, ws[1..], w);
      assert |ws| * Work(todo, segmentLength, w) == Work(todo, segmentLength, w) + (|ws| - 1) * Work(todo, segmentLength, w);
    }
  }

  /** The blocks that a worker of a slice builds. */
  function ToBuild(inst: Instance, pass: nat, slice: nat): int { inst.segmentLength - FirstIndex(pass, slice) }

  /** The steps of a slice in which whole segments are built. */
  function SliceSteps(inst: Instance): nat { inst.lanes * (2 * inst.segmentLength + 3) + 1 }

  /** The steps still to come: those of the later slices, the work and the joins of this one, and its end. */
  ghost function Remaining<B>(inst: Instance, s: State<B>): int
    requires WellShaped(inst, s)
  {
    if s.launcher.Returned? || ToBuild(inst, s.pass, s.slice) < 0 then 0 else
      (4 * inst.passes - 4 * s.pass - s.slice - 1) * SliceSteps(inst)
      + TotalWork(ToBuild(inst, s.pass, s.slice), inst.segmentLength, s.workers)
      + (inst.lanes - Joined(inst, s.launcher)) + 1
  }

  /** Every step, whichever it is, brings the end nearer by one. */
  lemma StepCounts<B>(p: Primitives<B>, inst: Instance, init: seq<seq<B>>, s: State<B>, e: Event)
    requires Valid(inst) && Shaped(inst, init) && Inv(p, inst, init, s) && Enabled(inst, s, e)
    ensures Remaining(inst, Apply(p, inst, s, e)) == Remaining(inst, s) - 1
  {
    hide NewBlock, Fill, Run, WritesOk, LaneOk;
    if e.EndSlice? {
      EndSliceCounts(p, inst, init, s);
    } else {
      hide WorkersOk;
      WithinSlice(p, inst, init, s, e);
    }
  }

  lemma WithinSlice<B>(p: Primitives<B>, inst: Instance, init: seq<seq<B>>, s: State<B>, e: Event)
    requires Valid(inst) && Shaped(inst, init) && Inv(p, inst, init, s) && Enabled(inst, s, e) && !e.EndSlice?
    ensures Remaining(inst, Apply(p, inst, s, e)) == Remaining(inst, s) - 1
  {
    hide NewBlock, Fill, Run, WritesOk, LaneOk, TotalWork, SliceSteps;
    var t := Apply(p, inst, s, e);
    var todo, n := ToBuild(inst, s.pass, s.slice), inst.segmentLength;
    match e
    case JoinOldest =>
    case JoinRest =>
    case EndSlice =>
    case Create => WorkChanges(todo, n, s.workers, s.launcher.lane, t.workers[s.launcher.lane]);
    case Load(w) => WorkChanges(todo, n, s.workers, w, t.workers[w]);
    case Store(w) => WorkChanges(todo, n, s.workers, w, t.workers[w]);
    case Exit(w) => WorkChanges(todo, n, s.workers, w, t.workers[w]);
  }

  /** What a slice costs that has just begun. */
  lemma NewSlice<B>(inst: Instance, t: State<B>)
    requires WellShaped(inst, t) && t.launcher == Launching(0, false) && ToBuild(inst, t.pass, t.slice) >= 0
    requires forall w :: 0 <= w < inst.lanes ==> t.workers[w].NotCreated?
    ensures Remaining(inst, t) == (4 * inst.passes - 4 * t.pass - t.slice - 1) * SliceSteps(inst)
                                  + inst.lanes * (2 * ToBuild(inst, t.pass, t.slice) + 3) + 1
  {
    hide TotalWork, SliceSteps;
    var todo := ToBuild(inst, t.pass, t.slice);
    SameWork(todo, inst.segmentLength, t.workers, NotCreated);
    assert inst.lanes * (2 * todo + 3) == inst.lanes * (2 * todo + 2) + inst.lanes;
  }

  lemma EndSliceCounts<B>(p: Primitives<B>, inst: Instance, init: seq<seq<B>>, s: State<B>)
    requires Valid(inst) && Shaped(inst, init) && Inv(p, inst, init, s) && Enabled(inst, s, EndSlice)
    ensures Remaining(inst, NextSlice(inst, s)) == Remaining(inst, s) - 1
  {
    hide NewBlock, Fill, Run, WritesOk, LaneOk, TotalWork;
    var t := NextSlice(inst, s);
    SameWork(ToBuild(inst, s.pass, s.slice), inst.segmentLength, s.workers, Finished);
    var n := 4 * inst.passes - 4 * s.pass - s.slice - 1;
    assert inst.lanes * 0 == 0;
    if t.launcher.Returned? {
      assert n == 0;
    } else {
      NewSlice(inst, t);
      assert 4 * inst.passes - 4 * t.pass - t.slice - 1 == n - 1;
      assert n * SliceSteps(inst) == (n - 1) * SliceSteps(inst) + SliceSteps(inst);
    }
  }

  lemma {:induction false} ScheduleCounts<B>(p: Primitives<B>, inst: Instance, init: seq<seq<B>>, s: State<B>, schedule: seq<Event>)
    requires Valid(inst) && Shaped(inst, init) && Inv(p, inst, init, s) && Feasible(p, inst, s, schedule)
    ensures Inv(p, inst, init, Outcome(p, inst, s, schedule))
    ensures |schedule| + Remaining(inst, Outcome(p, inst, s, schedule)) == Remaining(inst, s)
    decreases |schedule|
  {
    hide Fill, NewBlock, Run, WorkersOk, WritesOk, LaneOk, Remaining;
    if schedule != [] {
      StepKeepsInv(p, inst, init, s, schedule[0]);
      StepCounts(p, inst, init, s, schedule[0]);
      ScheduleCounts(p, inst, init, Apply(p, inst, s, schedule[0]), schedule[1..]);
    }
  }

  /** The steps of a whole fill; in the very first slice the first two blocks of each lane are there already. */
  function Steps(inst: Instance): int { 4 * inst.passes * SliceSteps(inst) - 4 * inst.lanes }

  lemma RemainingIsPositive<B>(p: Primitives<B>, inst: Instance, init: seq<seq<B>>, s: State<B>)
    requires Valid(inst) && Shaped(inst, init) && Inv(p, inst, init, s)
    ensures Remaining(inst, s) >= 0 && (Remaining(inst, s) == 0 <==> s.launcher.Returned?)
  {
    hide NewBlock, Fill, Run, WritesOk, LaneOk, TotalWork, SliceSteps;
    if !s.launcher.Returned? {
      WorkIsNatural(ToBuild(inst, s.pass, s.slice), inst.segmentLength, s.workers);
      MulMonotonic(0, 4 * inst.passes - 4 * s.pass - s.slice - 1, SliceSteps(inst));
    }
  }

  lemma {:induction false} WorkIsNatural<B>(todo: nat, segmentLength: nat, ws: seq<Worker<B>>)
    requires forall k :: 0 <= k < |ws| && ws[k].Running? ==> ws[k].index <= segmentLength
    ensures TotalWork(todo, segmentLength, ws) >= 0
    decreases |ws|
  {
    if ws != [] {
      WorkIsNatural(todo, segmentLength, ws[1..]);
    }
  }

  /** No schedule goes on for ever: its length is bounded by a number that depends on the instance only, and the fill
      has returned if and only if that many steps were made. As no run gets stuck before (`NeverStuck`), every
      schedule that is continued while a step is possible reaches the return. */
  lemma EveryScheduleEnds<B>(p: Primitives<B>, inst: Instance, init: seq<seq<B>>, schedule: seq<Event>)
    requires Valid(inst) && Shaped(inst, init) && Feasible(p, inst, Initial(inst, init), schedule)
    ensures |schedule| <= Steps(inst)
    ensures Outcome(p, inst, Initial(inst, init), schedule).launcher.Returned? <==> |schedule| == Steps(inst)
  {
    var s := Initial(inst, init);
    InitialInv(p, inst, init);
    WholeFill(inst, init);
    hide Inv, Fill, NewBlock, Run, Remaining, Steps, Initial, Apply;
    ScheduleCounts(p, inst, init, s, schedule);
    RemainingIsPositive(p, inst, init, Outcome(p, inst, s, schedule));
  }

  lemma WholeFill<B>(inst: Instance, init: seq<seq<B>>)
    requires Valid(inst) && Shaped(inst, init)
    ensures Remaining(inst, Initial(inst, init)) == Steps(inst)
  {
    NewSlice(inst, Initial(inst, init));
    hide Remaining;
    FirstSliceCosts(inst.passes, inst.lanes, inst.segmentLength);
  }

  lemma FirstSliceCosts(passes: int, lanes: int, segment: int)
    ensures var k := lanes * (2 * segment + 3) + 1;
            (4 * passes - 1) * k + lanes * (2 * (segment - 2) + 3) + 1 == 4 * passes * k - 4 * lanes
  {
    var k := lanes * (2 * segment + 3) + 1;
    assert lanes * (2 * (segment - 2) + 3) == lanes * (2 * segment + 3) - lanes * 4;
    assert (4 * passes - 1) * k == 4 * passes * k - k;
  }
}
