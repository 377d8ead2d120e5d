/** Selection of the reference block: `index_alpha` of argon2/core.c against section 3.4.2 of RFC 9106. */
module Argon2Index {
  import opened MachineInts
  import opened Nonlinear
  import opened Argon2Params

  datatype Position = Position(pass: u32, lane: u32, slice: u8, index: u32)

  /** A block that `fill_segment` constructs; the first two of every lane come from `fill_first_blocks`. */
  ghost predicate ValidPosition(inst: Instance, pos: Position) {
    && Valid(inst)
    && pos.pass < inst.passes
    && pos.lane < inst.lanes
    && pos.slice < 4
    && FirstIndex(pos.pass, pos.slice) <= pos.index < inst.segmentLength
  }

  /** `starting_index` of `fill_segment`. */
  function FirstIndex(pass: nat, slice: nat): nat {
    if pass == 0 && slice == 0 then 2 else 0
  }

  /** The size of the reference area, in the 32-bit arithmetic of the source. */
  function AreaSize(inst: Instance, pos: Position, sameLane: bool): u32 {
    if pos.pass == 0 then
      if pos.slice == 0 then Wrap32(pos.index - 1)
      else if sameLane then Wrap32(pos.slice * inst.segmentLength + pos.index - 1)
      else Wrap32(pos.slice * inst.segmentLength + (if pos.index == 0 then -1 else 0))
    else
      if sameLane then Wrap32(inst.laneLength - inst.segmentLength + pos.index - 1)
      else Wrap32(inst.laneLength - inst.segmentLength + (if pos.index == 0 then -1 else 0))
  }

  /** `relative_position`: 64-bit products of 32-bit operands. */
  function RelativePosition(area: u32, rand: u32): u64 {
    var square := Wrap64(rand * rand) / TWO_32;
    Wrap64(Wrap32(area - 1) - Wrap64(area * square) / TWO_32)
  }

  /** `start_position`. */
  function StartPosition(inst: Instance, pos: Position): u32 {
    if pos.pass == 0 || pos.slice == SYNC_POINTS - 1 then 0 else Wrap32((pos.slice + 1) * inst.segmentLength)
  }

  /** `index_alpha`. */
  function IndexAlpha(inst: Instance, pos: Position, rand: u32, sameLane: bool): u32
    requires inst.laneLength != 0
  {
    Mod32(Wrap64(StartPosition(inst, pos) + RelativePosition(AreaSize(inst, pos, sameLane), rand)), inst.laneLength)
  }

  function Mod32(x: u64, m: u32): (r: u32)
    requires m != 0
  {
    x % m
  }

  /** The column of the block constructed at `pos`, and its cyclic predecessor in the lane. */
  function Column(inst: Instance, pos: Position): nat {
    pos.slice * inst.segmentLength + pos.index
  }

  function PreviousColumn(inst: Instance, column: nat): nat
    requires inst.laneLength != 0
  {
    (column + inst.laneLength - 1) % inst.laneLength
  }

  /** Columns of a lane whose segments are complete, oldest first: the whole first pass so far, then the
      last three segments. */
  ghost function Finished(inst: Instance, pos: Position): seq<nat>
    requires Valid(inst)
  {
    if pos.pass == 0 then seq(pos.slice * inst.segmentLength, k => k)
    else seq(3 * inst.segmentLength, k requires 0 <= k => ((pos.slice + 1) * inst.segmentLength + k) % inst.laneLength)
  }

  /** The index list W of section 3.4.2 of RFC 9106, in order of construction. */
  ghost function Window(inst: Instance, pos: Position, sameLane: bool): seq<nat>
    requires Valid(inst)
  {
    var finished := Finished(inst, pos);
    var all := if sameLane then finished + seq(pos.index, k requires 0 <= k => pos.slice * inst.segmentLength + k)
               else finished;
    if |all| > 0 && (sameLane || pos.index == 0) then all[..|all| - 1] else all
  }

  /** The J1 mapping of section 3.4.2 of RFC 9106, over unbounded integers. */
  ghost function Skewed(n: nat, j1: nat): int {
    n - 1 - n * (j1 * j1 / TWO_32) / TWO_32
  }

  lemma SquareBounds(rand: u32)
    ensures rand * rand < TWO_64
    ensures rand * rand / TWO_32 < TWO_32
  {
    MulMonotonic(rand, TWO_32 - 1, rand);
    MulMonotonic(rand, TWO_32 - 1, TWO_32 - 1);
  }

  lemma SkewedInRange(n: nat, rand: u32)
    requires 0 < n < TWO_32
    ensures n * (rand * rand / TWO_32) < TWO_64
    ensures 0 <= Skewed(n, rand) < n
  {
    SquareBounds(rand);
    var x := rand * rand / TWO_32;
    MulMonotonic(x, TWO_32 - 1, n);
    assert n * x == x * n;
    var y := n * x;
    assert 0 <= y <= n * TWO_32 - n;
  }

  /** The choice favours recent blocks: the larger J1 the older the block, from the newest one on, and half of all values fall
      upon the newest quarter. */
  lemma RecentBlocksAreFavoured(n: nat, j: u32, j': u32)
    requires 0 < n < TWO_32 && j <= j'
    ensures Skewed(n, 0) == n - 1 && Skewed(n, j') <= Skewed(n, j)
    ensures if j < 0x8000_0000 then Skewed(n, j) >= n - 1 - n / 4 else Skewed(n, j) <= n - 1 - n / 4
  {
    Squared(j, j');
    Squared(0x8000_0000, j);
    Squared(j, 0x7FFF_FFFF);
    var q, q' := j * j / TWO_32, j' * j' / TWO_32;
    MulMonotonic(q, q', n);
    assert n * q == q * n && n * q' == q' * n;
    if j < 0x8000_0000 {
      MulMonotonic(q, 0x4000_0000, n);
    } else {
      MulMonotonic(0x4000_0000, q, n);
    }
  }

  lemma Squared(j: nat, j': nat)
    ensures j <= j' ==> j * j / TWO_32 <= j' * j' / TWO_32
    ensures 0x8000_0000 * 0x8000_0000 / TWO_32 == 0x4000_0000 && 0x7FFF_FFFF * 0x7FFF_FFFF / TWO_32 < 0x4000_0000
  {
    if j <= j' {
      MulMonotonic(j, j', j);
      MulMonotonic(j, j', j');
    }
  }

  /** No product of `index_alpha` wraps, and it picks exactly the block that the RFC prescribes. */
  lemma IndexAlphaSelectsFromWindow(inst: Instance, pos: Position, rand: u32, sameLane: bool)
    requires ValidPosition(inst, pos)
    requires pos.pass == 0 && pos.slice == 0 ==> sameLane
    ensures var w := Window(inst, pos, sameLane);
            && 0 < |w| < TWO_32
            && |w| * (rand * rand / TWO_32) < TWO_64
            && 0 <= Skewed(|w|, rand) < |w|
            && IndexAlpha(inst, pos, rand, sameLane) == w[Skewed(|w|, rand)]
  {
    AreaIsWindowSize(inst, pos, sameLane);
    var n := AreaSize(inst, pos, sameLane);
    SkewedInRange(n, rand);
    WindowAt(inst, pos, sameLane, Skewed(n, rand));
    RelativePositionIsSkewed(n, rand);
    IndexAlphaAt(inst, pos, rand, sameLane, Skewed(n, rand));
  }

  lemma IndexAlphaAt(inst: Instance, pos: Position, rand: u32, sameLane: bool, relative: u32)
    requires inst.laneLength != 0
    requires relative == RelativePosition(AreaSize(inst, pos, sameLane), rand)
    ensures IndexAlpha(inst, pos, rand, sameLane) == (StartPosition(inst, pos) + relative) % inst.laneLength
  {
    hide Wrap64, StartPosition, RelativePosition, AreaSize;
    Unwrapped64(StartPosition(inst, pos) + relative);
  }

  lemma RelativePositionIsSkewed(n: u32, rand: u32)
    requires 0 < n
    ensures RelativePosition(n, rand) == Skewed(n, rand)
  {
    SquareBounds(rand);
    SkewedInRange(n, rand);
    var square := rand * rand / TWO_32;
    assert Wrap64(rand * rand) / TWO_32 == square;
    UnwrappedDifference(n, n * square);
  }

  lemma UnwrappedDifference(n: u32, product: nat)
    requires product < TWO_64 && 0 <= n - 1 - product / TWO_32
    ensures Wrap64(Wrap32(n - 1) - Wrap64(product) / TWO_32) == n - 1 - product / TWO_32
  {}

  lemma AreaIsWindowSize(inst: Instance, pos: Position, sameLane: bool)
    requires ValidPosition(inst, pos)
    requires pos.pass == 0 && pos.slice == 0 ==> sameLane
    ensures AreaSize(inst, pos, sameLane) == |Window(inst, pos, sameLane)| > 0
  {
    SliceBounds(inst, pos.slice);
    WindowSize(inst, pos, sameLane);
    hide Window, Wrap32;
    var s := pos.slice * inst.segmentLength;
    var exact :=
      if pos.pass == 0 && pos.slice == 0 then pos.index - 1
      else (if pos.pass == 0 then s else inst.laneLength - inst.segmentLength)
           + (if sameLane then pos.index - 1 else if pos.index == 0 then -1 else 0);
    Unwrapped(exact);
    assert AreaSize(inst, pos, sameLane) == Wrap32(exact);
  }

  lemma WindowSize(inst: Instance, pos: Position, sameLane: bool)
    requires ValidPosition(inst, pos)
    requires pos.pass == 0 && pos.slice == 0 ==> sameLane
    ensures |Window(inst, pos, sameLane)| ==
      (if pos.pass == 0 then pos.slice * inst.segmentLength else 3 * inst.segmentLength)
      + (if sameLane then pos.index - 1 else if pos.index == 0 then -1 else 0)
  {
    SliceBounds(inst, pos.slice);
    assert |Finished(inst, pos)| == if pos.pass == 0 then pos.slice * inst.segmentLength else 3 * inst.segmentLength;
    hide Finished;
  }

  /** Products of the slice number and the segment length, as linear facts. */
  lemma SliceBounds(inst: Instance, slice: nat)
    requires Valid(inst) && slice < 4
    ensures var s := slice * inst.segmentLength;
            && 0 <= s <= 3 * inst.segmentLength
            && (slice + 1) * inst.segmentLength == s + inst.segmentLength
            && (slice == 0 <==> s == 0)
            && (slice == 3 <==> s == 3 * inst.segmentLength)
            && (slice < 3 ==> s <= 2 * inst.segmentLength)
            && (slice > 0 ==> inst.segmentLength <= s)
    ensures inst.laneLength <= inst.memoryBlocks
  {
    assert slice == 0 || slice == 1 || slice == 2 || slice == 3;
    MulGrows(inst.laneLength, inst.lanes);
  }

  lemma StartPositionUnwrapped(inst: Instance, pos: Position)
    requires Valid(inst) && pos.slice < 4
    ensures StartPosition(inst, pos) ==
      if pos.pass == 0 || pos.slice == 3 then 0 else pos.slice * inst.segmentLength + inst.segmentLength
  {
    SliceBounds(inst, pos.slice);
  }

  lemma WindowAt(inst: Instance, pos: Position, sameLane: bool, k: nat)
    requires ValidPosition(inst, pos) && k < |Window(inst, pos, sameLane)|
    ensures var c := StartPosition(inst, pos) + k;
            && c < 2 * inst.laneLength
            && Window(inst, pos, sameLane)[k] == c % inst.laneLength
            && Window(inst, pos, sameLane)[k] == if c < inst.laneLength then c else c - inst.laneLength
  {
    SliceBounds(inst, pos.slice);
    StartPositionUnwrapped(inst, pos);
    hide StartPosition;
    ModWithinTwo(StartPosition(inst, pos) + k, inst.laneLength);
    if pos.pass > 0 && pos.slice == 3 {
      ModWithinTwo(inst.laneLength + k, inst.laneLength);
    }
  }

  lemma PreviousColumnIs(inst: Instance, c: nat)
    requires Valid(inst) && c < inst.laneLength
    ensures PreviousColumn(inst, c) == if c == 0 then inst.laneLength - 1 else c - 1
  {
    ModWithinTwo(c + inst.laneLength - 1, inst.laneLength);
  }

  /** A block of the lane already holds its value for this position: earlier segments, and when `sameLane`
      the blocks of the current segment built so far. */
  ghost predicate Constructed(inst: Instance, pos: Position, sameLane: bool, c: nat) {
    var s := pos.slice * inst.segmentLength;
    || c < s
    || (pos.pass > 0 && s + inst.segmentLength <= c < inst.laneLength)
    || (sameLane && s <= c < s + pos.index)
  }

  /** The window holds every constructed block, except the previous one (own lane) or the very last one
      (foreign lane at the start of a segment); nothing else. */
  lemma WindowIsConstructed(inst: Instance, pos: Position, sameLane: bool, c: nat)
    requires ValidPosition(inst, pos)
    requires pos.pass == 0 && pos.slice == 0 ==> sameLane
    ensures c in Window(inst, pos, sameLane) <==>
              && Constructed(inst, pos, sameLane, c)
              && (sameLane || pos.index == 0 ==> c != PreviousColumn(inst, Column(inst, pos)))
  {
    var w := Window(inst, pos, sameLane);
    SliceBounds(inst, pos.slice);
    PreviousColumnIs(inst, Column(inst, pos));
    WindowSize(inst, pos, sameLane);
    StartPositionUnwrapped(inst, pos);
    hide Window, StartPosition, AreaSize;
    var start := StartPosition(inst, pos);
    if c in w {
      var k :| 0 <= k < |w| && w[k] == c;
      WindowAt(inst, pos, sameLane, k);
    } else {
      var k := if c >= start then c - start else c + inst.laneLength - start;
      if 0 <= k < |w| {
        WindowAt(inst, pos, sameLane, k);
      }
    }
  }
}
