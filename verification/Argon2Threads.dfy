/** The multi-threaded fill (`fill_memory_blocks_mt` of argon2/core.c) as a transition system: the launching
    thread with its sliding join window, and one worker per lane whose loads and stores interleave freely. */
module Argon2Threads {
  import opened MachineInts
  import opened Nonlinear
  import opened Wrappers
  import opened Argon2Params
  import opened Argon2Index
  import opened Argon2Matrix

  /** A worker is between blocks, or has read what block `index` needs and not stored it yet. */
  datatype Worker<+B> = NotCreated | Running(index: nat, pending: Option<B>) | Finished

  /** Where the launching thread stands. `mustJoin`: `thread[lane - threads]` is still to be joined. */
  datatype Launcher = Launching(lane: nat, mustJoin: bool) | Draining(lane: nat) | Returned

  /** `base`, `joins` and `writes` record history: the memory at the start of the slice, how often each
      worker of the slice was joined, how often each block was written. */
  datatype State<+B> = State(
    pass: nat, slice: nat, mem: seq<seq<B>>, workers: seq<Worker<B>>, launcher: Launcher,
    base: seq<seq<B>>, joins: seq<nat>, writes: seq<seq<nat>>)

  datatype Event = JoinOldest | Create | JoinRest | EndSlice | Load(lane: nat) | Store(lane: nat) | Exit(lane: nat)

  ghost predicate WellShaped<B>(inst: Instance, s: State<B>) {
    && Valid(inst)
    && s.slice < 4
    && (s.launcher.Returned? || s.pass < inst.passes)
    && Shaped(inst, s.mem) && Shaped(inst, s.base) && Shaped(inst, s.writes)
    && |s.workers| == inst.lanes == |s.joins|
  }

  function WorkerPosition<B>(s: State<B>, lane: nat, i: nat): Position
    requires lane < TWO_32 && i < TWO_32 && s.pass < TWO_32 && s.slice < 4
  {
    Position(s.pass, lane, s.slice, i)
  }

  ghost predicate Enabled<B>(inst: Instance, s: State<B>, e: Event)
    requires WellShaped(inst, s)
  {
    !s.launcher.Returned? &&
    match e
    case JoinOldest =>
      && s.launcher.Launching? && s.launcher.mustJoin
      && inst.threads <= s.launcher.lane < inst.lanes
      && s.workers[s.launcher.lane - inst.threads].Finished?
    case Create => s.launcher.Launching? && !s.launcher.mustJoin && s.launcher.lane < inst.lanes
    case JoinRest => s.launcher.Draining? && s.launcher.lane < inst.lanes && s.workers[s.launcher.lane].Finished?
    case EndSlice => s.launcher.Draining? && s.launcher.lane == inst.lanes
    case Load(w) =>
      && w < inst.lanes && s.workers[w].Running? && s.workers[w].pending.None?
      && FirstIndex(s.pass, s.slice) <= s.workers[w].index < inst.segmentLength
    case Store(w) =>
      && w < inst.lanes && s.workers[w].Running? && s.workers[w].pending.Some?
      && FirstIndex(s.pass, s.slice) <= s.workers[w].index < inst.segmentLength
    case Exit(w) =>
      && w < inst.lanes && s.workers[w].Running? && s.workers[w].pending.None?
      && s.workers[w].index >= inst.segmentLength
  }

  /** The launching loop after lane `l` was created. */
  function AfterCreate(inst: Instance, l: nat): Launcher
    requires inst.threads <= inst.lanes
  {
    if l + 1 < inst.lanes then Launching(l + 1, l + 1 >= inst.threads) else Draining(inst.lanes - inst.threads)
  }

  ghost function Apply<B>(p: Primitives<B>, inst: Instance, s: State<B>, e: Event): (r: State<B>)
    requires WellShaped(inst, s) && Enabled(inst, s, e)
    ensures WellShaped(inst, r)
  {
    match e
    case JoinOldest =>
      var w := s.launcher.lane - inst.threads;
      s.(launcher := Launching(s.launcher.lane, false), joins := s.joins[w := s.joins[w] + 1])
    case Create =>
      s.(launcher := AfterCreate(inst, s.launcher.lane),
         workers := s.workers[s.launcher.lane := Running(FirstIndex(s.pass, s.slice), None)])
    case JoinRest =>
      var w := s.launcher.lane;
      s.(launcher := Draining(w + 1), joins := s.joins[w := s.joins[w] + 1])
    case EndSlice => NextSlice(inst, s)
    case Load(w) =>
      var i := s.workers[w].index;
      s.(workers := s.workers[w := Running(i, Some(NewBlock(p, inst, s.mem, WorkerPosition(s, w, i))))])
    case Store(w) =>
      var i := s.workers[w].index;
      var pos := WorkerPosition(s, w, i);
      PositionBounds(inst, pos);
      var c := Column(inst, pos);
      s.(workers := s.workers[w := Running(i + 1, None)],
         mem := Put(inst, s.mem, w, c, s.workers[w].pending.value),
         writes := Put(inst, s.writes, w, c, s.writes[w][c] + 1))
    case Exit(w) => s.(workers := s.workers[w := Finished])
  }

  /** The loop heads of `r` and `s` after all workers of a slice were joined. */
  ghost function NextSlice<B>(inst: Instance, s: State<B>): State<B>
    requires WellShaped(inst, s)
  {
    var pass := if s.slice == 3 then s.pass + 1 else s.pass;
    State(pass, if s.slice == 3 then 0 else s.slice + 1, s.mem, seq(inst.lanes, l => NotCreated),
          if pass == inst.passes then Returned else Launching(0, false),
          s.mem, seq(inst.lanes, l => 0), s.writes)
  }

  /** The start of the fill: `fill_first_blocks` wrote the first two blocks of every lane once. */
  ghost function Initial<B>(inst: Instance, m: seq<seq<B>>): State<B>
    requires Valid(inst) && Shaped(inst, m)
  {
    State(0, 0, m, seq(inst.lanes, l => NotCreated), Launching(0, false), m, seq(inst.lanes, l => 0),
          seq(inst.lanes, l => seq(inst.laneLength, c => if c < 2 then 1 else 0)))
  }

  /** A schedule that the system can follow from `s`, and the state it leads to. */
  ghost predicate Feasible<B>(p: Primitives<B>, inst: Instance, s: State<B>, schedule: seq<Event>)
    requires WellShaped(inst, s)
    decreases |schedule|
  {
    schedule == [] || (Enabled(inst, s, schedule[0]) && Feasible(p, inst, Apply(p, inst, s, schedule[0]), schedule[1..]))
  }

  ghost function Outcome<B>(p: Primitives<B>, inst: Instance, s: State<B>, schedule: seq<Event>): (r: State<B>)
    requires WellShaped(inst, s) && Feasible(p, inst, s, schedule)
    ensures WellShaped(inst, r)
    decreases |schedule|
  {
    if schedule == [] then s else Outcome(p, inst, Apply(p, inst, s, schedule[0]), schedule[1..])
  }

  // ---- the invariant ----

  /** Workers below `Created` exist; those below `Joined` were joined. */
  function Created(inst: Instance, launcher: Launcher): nat {
    match launcher case Launching(l, _) => l case Draining(_) => inst.lanes case Returned => 0
  }

  function Joined(inst: Instance, launcher: Launcher): int {
    match launcher
    case Launching(l, mustJoin) => if l < inst.threads then 0 else if mustJoin then l - inst.threads else l - inst.threads + 1
    case Draining(l) => l
    case Returned => 0
  }

  ghost predicate LauncherOk(inst: Instance, launcher: Launcher) {
    match launcher
    case Launching(l, mustJoin) => l < inst.lanes && (mustJoin ==> inst.threads <= l)
    case Draining(l) => inst.lanes - inst.threads <= l <= inst.lanes
    case Returned => true
  }

  ghost predicate WorkersOk<B>(inst: Instance, s: State<B>)
    requires WellShaped(inst, s)
  {
    var c, j := Created(inst, s.launcher), Joined(inst, s.launcher);
    forall w :: 0 <= w < inst.lanes ==>
      && (s.workers[w].NotCreated? <==> c <= w)
      && (w < j ==> s.workers[w].Finished?)
      && s.joins[w] == (if w < j then 1 else 0)
      && (s.workers[w].Running? ==> FirstIndex(s.pass, s.slice) <= s.workers[w].index <= inst.segmentLength)
      && (s.workers[w].Running? && s.workers[w].pending.Some? ==> s.workers[w].index < inst.segmentLength)
  }

  /** The index up to which the lane's segment is built. */
  function Progress<B>(inst: Instance, s: State<B>, w: nat): nat
    requires w < |s.workers|
  {
    match s.workers[w]
    case NotCreated => FirstIndex(s.pass, s.slice)
    case Running(i, _) => i
    case Finished => inst.segmentLength
  }

  ghost predicate LaneOk<B>(p: Primitives<B>, inst: Instance, s: State<B>, w: nat)
    requires WellShaped(inst, s) && WorkersOk(inst, s) && w < inst.lanes && s.pass < inst.passes
  {
    var mine := Run(p, inst, s.base, s.pass, s.slice, w, Progress(inst, s, w));
    && s.mem[w] == mine[w]
    && (s.workers[w].Running? && s.workers[w].pending.Some? ==>
          s.workers[w].pending.value == NewBlock(p, inst, mine, WorkerPosition(s, w, s.workers[w].index)))
  }

  /** How often block `c` of a lane has been written when its segment is built up to `i`. */
  function WriteCount(inst: Instance, pass: nat, slice: nat, i: nat, c: nat): nat {
    pass + if c < slice * inst.segmentLength + i then 1 else 0
  }

  ghost predicate WritesOk<B>(inst: Instance, s: State<B>)
    requires WellShaped(inst, s)
  {
    forall w, c :: 0 <= w < inst.lanes && 0 <= c < inst.laneLength ==>
      s.writes[w][c] == WriteCount(inst, s.pass, s.slice, Progress(inst, s, w), c)
  }

  ghost predicate Inv<B>(p: Primitives<B>, inst: Instance, init: seq<seq<B>>, s: State<B>)
    requires Valid(inst) && Shaped(inst, init)
  {
    && WellShaped(inst, s)
    && 4 * s.pass + s.slice <= 4 * inst.passes
    && (s.launcher.Returned? <==> s.pass == inst.passes)
    && s.base == Fill(p, inst, init, s.pass, s.slice)
    && LauncherOk(inst, s.launcher)
    && WorkersOk(inst, s)
    && WritesOk(inst, s)
    && (if s.launcher.Returned? then s.mem == s.base
        else forall w :: 0 <= w < inst.lanes ==> LaneOk(p, inst, s, w))
  }

  lemma InitialInv<B>(p: Primitives<B>, inst: Instance, m: seq<seq<B>>)
    requires Valid(inst) && Shaped(inst, m)
    ensures Inv(p, inst, m, Initial(inst, m))
  {}

  /** What a worker is about to read was written; nobody else writes it in this slice; and what it read or
      is about to store is what it would see if it ran alone. */
  lemma LoadIsAsIfAlone<B>(p: Primitives<B>, inst: Instance, init: seq<seq<B>>, s: State<B>, w: nat)
    requires Valid(inst) && Shaped(inst, init) && Inv(p, inst, init, s)
    requires Enabled(inst, s, Load(w))
    ensures var i := s.workers[w].index;
            NewBlock(p, inst, s.mem, WorkerPosition(s, w, i))
            == NewBlock(p, inst, Run(p, inst, s.base, s.pass, s.slice, w, i), WorkerPosition(s, w, i))
  {
    var i := s.workers[w].index;
    var mine := Run(p, inst, s.base, s.pass, s.slice, w, i);
    assert LaneOk(p, inst, s, w);
    forall l, c | 0 <= l < inst.lanes && 0 <= c < inst.laneLength && (l == w || !InSlice(inst, s.slice, c))
      ensures s.mem[l][c] == mine[l][c]
    {
      if l != w {
        assert LaneOk(p, inst, s, l);
        RunChangesOnlySegment(p, inst, s.base, s.pass, s.slice, l, Progress(inst, s, l), l, c);
        RunChangesOnlySegment(p, inst, s.base, s.pass, s.slice, w, i, l, c);
      }
    }
    NewBlockIsLocal(p, inst, s.mem, mine, WorkerPosition(s, w, i));
  }

  /** Reading a block word by word makes no difference: no step of another thread changes what the worker of lane `w`
      reads for its next block. */
  lemma LoadMayBeSplit<B>(p: Primitives<B>, inst: Instance, init: seq<seq<B>>, s: State<B>, w: nat, e: Event)
    requires Valid(inst) && Shaped(inst, init) && Inv(p, inst, init, s)
    requires Enabled(inst, s, Load(w)) && Enabled(inst, s, e) && e != Store(w)
    ensures var pos := WorkerPosition(s, w, s.workers[w].index);
            NewBlock(p, inst, Apply(p, inst, s, e).mem, pos) == NewBlock(p, inst, s.mem, pos)
  {
    hide Fill, Run, WritesOk, LaneOk;
    var t := Apply(p, inst, s, e);
    if e.Store? {
      PositionBounds(inst, WorkerPosition(s, e.lane, s.workers[e.lane].index));
    }
    hide NewBlock, Inv;
    NewBlockIsLocal(p, inst, s.mem, t.mem, WorkerPosition(s, w, s.workers[w].index));
  }

  /** Storing a block word by word makes no difference either: while the worker of lane `w` stores its block, whatever
      the block holds meanwhile, no other worker reads it for its next block. */
  lemma StoreMayBeSplit<B>(p: Primitives<B>, inst: Instance, init: seq<seq<B>>, s: State<B>, w: nat, other: nat, b: B)
    requires Valid(inst) && Shaped(inst, init) && Inv(p, inst, init, s) && w != other
    requires Enabled(inst, s, Store(w)) && Enabled(inst, s, Load(other))
    ensures var pos := WorkerPosition(s, w, s.workers[w].index);
            var next := WorkerPosition(s, other, s.workers[other].index);
            Column(inst, pos) < inst.laneLength
            && NewBlock(p, inst, Put(inst, s.mem, w, Column(inst, pos), b), next) == NewBlock(p, inst, s.mem, next)
  {
    hide Fill, Run, WritesOk, LaneOk, NewBlock;
    var pos := WorkerPosition(s, w, s.workers[w].index);
    PositionBounds(inst, pos);
    var m := Put(inst, s.mem, w, Column(inst, pos), b);
    assert InSlice(inst, s.slice, Column(inst, pos));
    hide Inv, Column;
    NewBlockIsLocal(p, inst, m, s.mem, WorkerPosition(s, other, s.workers[other].index));
  }

  lemma StepKeepsInv<B>(p: Primitives<B>, inst: Instance, init: seq<seq<B>>, s: State<B>, e: Event)
    requires Valid(inst) && Shaped(inst, init) && Inv(p, inst, init, s) && Enabled(inst, s, e)
    ensures Inv(p, inst, init, Apply(p, inst, s, e))
  {
    match e
    case JoinOldest => LauncherStepKeepsInv(p, inst, init, s, e);
    case Create => LauncherStepKeepsInv(p, inst, init, s, e);
    case JoinRest => LauncherStepKeepsInv(p, inst, init, s, e);
    case EndSlice => EndSliceKeepsInv(p, inst, init, s);
    case Load(w) => LoadKeepsInv(p, inst, init, s, w);
    case Store(w) => StoreKeepsInv(p, inst, init, s, w);
    case Exit(w) => ExitKeepsInv(p, inst, init, s, w);
  }

  /** Within a slice the launching thread and the workers stay in step. */
  lemma StepKeepsControl<B>(p: Primitives<B>, inst: Instance, s: State<B>, e: Event)
    requires WellShaped(inst, s) && LauncherOk(inst, s.launcher) && WorkersOk(inst, s)
    requires Enabled(inst, s, e) && !e.EndSlice?
    ensures var t := Apply(p, inst, s, e);
            && t.pass == s.pass && t.slice == s.slice && t.base == s.base && !t.launcher.Returned?
            && LauncherOk(inst, t.launcher) && WorkersOk(inst, t)
            && forall w :: 0 <= w < inst.lanes && e != Store(w) ==> Progress(inst, t, w) == Progress(inst, s, w)
  {
    hide NewBlock, Run, Fill;
  }

  lemma LauncherStepKeepsInv<B>(p: Primitives<B>, inst: Instance, init: seq<seq<B>>, s: State<B>, e: Event)
    requires Valid(inst) && Shaped(inst, init) && Inv(p, inst, init, s) && Enabled(inst, s, e)
    requires e.JoinOldest? || e.Create? || e.JoinRest?
    ensures Inv(p, inst, init, Apply(p, inst, s, e))
  {
    hide NewBlock, Run, Fill;
    var t := Apply(p, inst, s, e);
    StepKeepsControl(p, inst, s, e);
    forall w | 0 <= w < inst.lanes
      ensures LaneOk(p, inst, t, w)
    {
      assert LaneOk(p, inst, s, w);
    }
  }

  lemma LoadKeepsInv<B>(p: Primitives<B>, inst: Instance, init: seq<seq<B>>, s: State<B>, w: nat)
    requires Valid(inst) && Shaped(inst, init) && Inv(p, inst, init, s) && Enabled(inst, s, Load(w))
    ensures Inv(p, inst, init, Apply(p, inst, s, Load(w)))
  {
    hide NewBlock, Run, Fill;
    var t := Apply(p, inst, s, Load(w));
    StepKeepsControl(p, inst, s, Load(w));
    LoadIsAsIfAlone(p, inst, init, s, w);
    forall l | 0 <= l < inst.lanes
      ensures LaneOk(p, inst, t, l)
    {
      assert LaneOk(p, inst, s, l);
    }
  }

  lemma ExitKeepsInv<B>(p: Primitives<B>, inst: Instance, init: seq<seq<B>>, s: State<B>, w: nat)
    requires Valid(inst) && Shaped(inst, init) && Inv(p, inst, init, s) && Enabled(inst, s, Exit(w))
    ensures Inv(p, inst, init, Apply(p, inst, s, Exit(w)))
  {
    hide NewBlock, Run, Fill;
    var t := Apply(p, inst, s, Exit(w));
    StepKeepsControl(p, inst, s, Exit(w));
    forall l | 0 <= l < inst.lanes
      ensures LaneOk(p, inst, t, l)
    {
      assert LaneOk(p, inst, s, l);
    }
  }

  lemma StoreKeepsInv<B>(p: Primitives<B>, inst: Instance, init: seq<seq<B>>, s: State<B>, w: nat)
    requires Valid(inst) && Shaped(inst, init) && Inv(p, inst, init, s) && Enabled(inst, s, Store(w))
    ensures Inv(p, inst, init, Apply(p, inst, s, Store(w)))
  {
    hide NewBlock, Run, Fill;
    var t := Apply(p, inst, s, Store(w));
    StepKeepsControl(p, inst, s, Store(w));
    StoreKeepsWrites(p, inst, s, w);
    forall l | 0 <= l < inst.lanes
      ensures LaneOk(p, inst, t, l)
    {
      assert LaneOk(p, inst, s, l);
      if l == w {
        StoreExtendsRun(p, inst, s, w);
      }
    }
  }

  lemma StoreExtendsRun<B>(p: Primitives<B>, inst: Instance, s: State<B>, w: nat)
    requires WellShaped(inst, s) && WorkersOk(inst, s) && Enabled(inst, s, Store(w)) && LaneOk(p, inst, s, w)
    ensures Apply(p, inst, s, Store(w)).mem[w] == Run(p, inst, s.base, s.pass, s.slice, w, s.workers[w].index + 1)[w]
  {
    PositionBounds(inst, WorkerPosition(s, w, s.workers[w].index));
  }

  lemma StoreKeepsWrites<B>(p: Primitives<B>, inst: Instance, s: State<B>, w: nat)
    requires WellShaped(inst, s) && Enabled(inst, s, Store(w)) && WritesOk(inst, s)
    ensures WritesOk(inst, Apply(p, inst, s, Store(w)))
  {
    var t := Apply(p, inst, s, Store(w));
    var i := s.workers[w].index;
    forall l, c | 0 <= l < inst.lanes && 0 <= c < inst.laneLength
      ensures t.writes[l][c] == WriteCount(inst, t.pass, t.slice, Progress(inst, t, l), c)
    {
      assert s.writes[l][c] == WriteCount(inst, s.pass, s.slice, Progress(inst, s, l), c);
      if l != w {
        assert Progress(inst, t, l) == Progress(inst, s, l);
      }
    }
  }

  /** At the barrier every worker was joined exactly once, and the memory is that of the sequential slice. */
  lemma BarrierIsSequential<B>(p: Primitives<B>, inst: Instance, init: seq<seq<B>>, s: State<B>)
    requires Valid(inst) && Shaped(inst, init) && Inv(p, inst, init, s) && Enabled(inst, s, EndSlice)
    ensures forall w :: 0 <= w < inst.lanes ==> s.workers[w].Finished? && s.joins[w] == 1
    ensures s.mem == RunLanes(p, inst, s.base, s.pass, s.slice, inst.lanes)
  {
    var sequential := RunLanes(p, inst, s.base, s.pass, s.slice, inst.lanes);
    forall w | 0 <= w < inst.lanes
      ensures s.mem[w] == sequential[w]
    {
      assert LaneOk(p, inst, s, w);
      RunLanesIsLanewise(p, inst, s.base, s.pass, s.slice, inst.lanes, w);
    }
    assert s.mem == sequential;
  }

  lemma EndSliceKeepsInv<B>(p: Primitives<B>, inst: Instance, init: seq<seq<B>>, s: State<B>)
    requires Valid(inst) && Shaped(inst, init) && Inv(p, inst, init, s) && Enabled(inst, s, EndSlice)
    ensures Inv(p, inst, init, NextSlice(inst, s))
  {
    hide NewBlock, RunLanes, Run;
    var t := NextSlice(inst, s);
    BarrierIsSequential(p, inst, init, s);
    EndSliceKeepsWrites(inst, s);
    FreshSlice(p, inst, t);
  }

  lemma FreshSlice<B>(p: Primitives<B>, inst: Instance, t: State<B>)
    requires WellShaped(inst, t) && t.mem == t.base && Joined(inst, t.launcher) == Created(inst, t.launcher) == 0
    requires forall w :: 0 <= w < inst.lanes ==> t.workers[w].NotCreated? && t.joins[w] == 0
    ensures WorkersOk(inst, t)
    ensures t.pass < inst.passes ==> forall w :: 0 <= w < inst.lanes ==> LaneOk(p, inst, t, w)
  {}

  lemma EndSliceKeepsWrites<B>(inst: Instance, s: State<B>)
    requires WellShaped(inst, s) && WritesOk(inst, s)
    requires forall w :: 0 <= w < inst.lanes ==> s.workers[w].Finished?
    requires s.pass < inst.passes
    ensures WritesOk(inst, NextSlice(inst, s))
  {
    var t := NextSlice(inst, s);
    SliceBounds(inst, s.slice);
    forall l, c | 0 <= l < inst.lanes && 0 <= c < inst.laneLength
      ensures t.writes[l][c] == WriteCount(inst, t.pass, t.slice, Progress(inst, t, l), c)
    {
      assert s.writes[l][c] == WriteCount(inst, s.pass, s.slice, Progress(inst, s, l), c);
      SliceBounds(inst, t.slice);
    }
  }

  // ---- every schedule ----

  /** The invariant holds after every schedule. */
  lemma {:induction false} ScheduleKeepsInv<B>(p: Primitives<B>, inst: Instance, init: seq<seq<B>>, s: State<B>, schedule: seq<Event>)
    requires Valid(inst) && Shaped(inst, init) && Inv(p, inst, init, s) && Feasible(p, inst, s, schedule)
    ensures Inv(p, inst, init, Outcome(p, inst, s, schedule))
    decreases |schedule|
  {
    if schedule != [] {
      StepKeepsInv(p, inst, init, s, schedule[0]);
      ScheduleKeepsInv(p, inst, init, Apply(p, inst, s, schedule[0]), schedule[1..]);
    }
  }

  /** Whatever the schedule, once the threaded fill returns the memory is that of the sequential fill, and
      every block was written exactly once per pass. */
  lemma ThreadedFillIsSequential<B>(p: Primitives<B>, inst: Instance, init: seq<seq<B>>, schedule: seq<Event>)
    requires Valid(inst) && Shaped(inst, init) && Feasible(p, inst, Initial(inst, init), schedule)
    requires Outcome(p, inst, Initial(inst, init), schedule).launcher.Returned?
    ensures var r := Outcome(p, inst, Initial(inst, init), schedule);
            && r.mem == Fill(p, inst, init, inst.passes, 0)
            && forall l, c :: 0 <= l < inst.lanes && 0 <= c < inst.laneLength ==> r.writes[l][c] == inst.passes
  {
    InitialInv(p, inst, init);
    ScheduleKeepsInv(p, inst, init, Initial(inst, init), schedule);
    var r := Outcome(p, inst, Initial(inst, init), schedule);
    assert r.slice == 0;
    forall l, c | 0 <= l < inst.lanes && 0 <= c < inst.laneLength
      ensures r.writes[l][c] == inst.passes
    {
      assert r.writes[l][c] == WriteCount(inst, r.pass, 0, Progress(inst, r, l), c);
      assert r.workers[l].NotCreated?;
    }
  }

  /** No run gets stuck before the fill returns. */
  lemma NeverStuck<B>(p: Primitives<B>, inst: Instance, init: seq<seq<B>>, schedule: seq<Event>)
    requires Valid(inst) && Shaped(inst, init) && Feasible(p, inst, Initial(inst, init), schedule)
    ensures var s := Outcome(p, inst, Initial(inst, init), schedule);
            s.launcher.Returned? || exists e :: Enabled(inst, s, e)
  {
    InitialInv(p, inst, init);
    ScheduleKeepsInv(p, inst, init, Initial(inst, init), schedule);
    var s := Outcome(p, inst, Initial(inst, init), schedule);
    var w :=
      match s.launcher
      case Launching(l, mustJoin) => if mustJoin then l - inst.threads else 0
      case Draining(l) => l
      case Returned => 0;
    assert s.launcher.Launching? && !s.launcher.mustJoin ==> Enabled(inst, s, Create);
    assert s.launcher.Draining? && w == inst.lanes ==> Enabled(inst, s, EndSlice);
    if !s.launcher.Returned? && w < inst.lanes && !(s.launcher.Launching? && !s.launcher.mustJoin) {
      assert !s.workers[w].NotCreated?;
      match s.workers[w]
      case NotCreated =>
      case Finished => assert Enabled(inst, s, if s.launcher.Launching? then JoinOldest else JoinRest);
      case Running(i, pending) =>
        if pending.Some? {
          assert Enabled(inst, s, Store(w));
        } else if i < inst.segmentLength {
          assert Enabled(inst, s, Load(w));
        } else {
          assert Enabled(inst, s, Exit(w));
        }
    }
  }

  /** The blocks that the worker of lane `w` is about to read were written, the previous block in this pass
      or at its end; a reference into another lane is outside the slice that the lane's worker writes. */
  ghost predicate SafeLoad<B>(p: Primitives<B>, inst: Instance, s: State<B>, w: nat)
    requires WellShaped(inst, s) && Enabled(inst, s, Load(w))
  {
    var pos := WorkerPosition(s, w, s.workers[w].index);
    var prev := PreviousColumn(inst, Column(inst, pos));
    var rand := PseudoRand(p, inst, s.mem, pos);
    ReadsFinished(inst, s, w, prev, RefLane(inst, pos, rand), RefColumn(inst, pos, rand), Column(inst, pos))
  }

  ghost predicate ReadsFinished<B>(inst: Instance, s: State<B>, w: nat, prev: nat, l: nat, c: nat, own: nat)
    requires WellShaped(inst, s) && w < inst.lanes
  {
    && prev < inst.laneLength && s.writes[w][prev] >= 1
    && l < inst.lanes && c < inst.laneLength && s.writes[l][c] >= 1
    && (l != w ==> !InSlice(inst, s.slice, c))
    && own < inst.laneLength && s.writes[w][own] == s.pass
  }

  /** In every reachable state, every load is safe, and the block about to be built was written once per
      earlier pass. */
  lemma LoadsAreSafe<B>(p: Primitives<B>, inst: Instance, init: seq<seq<B>>, schedule: seq<Event>, w: nat)
    requires Valid(inst) && Shaped(inst, init) && Feasible(p, inst, Initial(inst, init), schedule)
    requires Enabled(inst, Outcome(p, inst, Initial(inst, init), schedule), Load(w))
    ensures SafeLoad(p, inst, Outcome(p, inst, Initial(inst, init), schedule), w)
  {
    InitialInv(p, inst, init);
    ScheduleKeepsInv(p, inst, init, Initial(inst, init), schedule);
    var s := Outcome(p, inst, Initial(inst, init), schedule);
    var pos := WorkerPosition(s, w, s.workers[w].index);
    PositionBounds(inst, pos);
    var prev := PreviousColumn(inst, Column(inst, pos));
    var rand := PseudoRand(p, inst, s.mem, pos);
    ReferenceIsStable(inst, pos, rand);
    var l, c := RefLane(inst, pos, rand), RefColumn(inst, pos, rand);
    assert s.writes[w][prev] == WriteCount(inst, s.pass, s.slice, Progress(inst, s, w), prev);
    assert s.writes[l][c] == WriteCount(inst, s.pass, s.slice, Progress(inst, s, l), c);
    assert s.writes[w][Column(inst, pos)] == WriteCount(inst, s.pass, s.slice, Progress(inst, s, w), Column(inst, pos));
  }

  /** At most `threads` workers are alive at a time, and none was joined more than once. */
  lemma JoinWindow<B>(p: Primitives<B>, inst: Instance, init: seq<seq<B>>, schedule: seq<Event>)
    requires Valid(inst) && Shaped(inst, init) && Feasible(p, inst, Initial(inst, init), schedule)
    ensures var s := Outcome(p, inst, Initial(inst, init), schedule);
            && |set w | 0 <= w < inst.lanes && s.workers[w].Running?| <= inst.threads
            && forall w :: 0 <= w < inst.lanes ==> s.joins[w] <= 1 && (s.joins[w] == 1 ==> s.workers[w].Finished?)
  {
    InitialInv(p, inst, init);
    ScheduleKeepsInv(p, inst, init, Initial(inst, init), schedule);
    var s := Outcome(p, inst, Initial(inst, init), schedule);
    var alive := set w | 0 <= w < inst.lanes && s.workers[w].Running?;
    var j, c := Joined(inst, s.launcher), Created(inst, s.launcher);
    IntervalSize(alive, j, c);
  }

  lemma {:induction false} IntervalSize(s: set<int>, lo: int, hi: int)
    requires lo <= hi && forall x :: x in s ==> lo <= x < hi
    ensures |s| <= hi - lo
    decreases hi - lo
  {
    if lo < hi {
      IntervalSize(s - {lo}, lo + 1, hi);
    } else {
      assert s == {};
    }
  }
}
