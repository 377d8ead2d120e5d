/** The fill loops of argon2/core.c, argon2/ref.c and argon2/opt.c over one flat block array, against the
    matrix of section 3.2 of RFC 9106. */
module Argon2Fill {
  import opened MachineInts
  import opened Nonlinear
  import opened Wrappers
  import opened Argon2Params
  import opened Argon2Index
  import opened Argon2Matrix
  import opened Argon2Blocks
  import opened BlamkaBlock

  // ---- the flat layout ----

  lemma Offset(inst: Instance, l: nat, c: nat)
    requires Valid(inst) && l < inst.lanes && c < inst.laneLength
    ensures 0 <= l * inst.laneLength
    ensures l * inst.laneLength + c < l * inst.laneLength + inst.laneLength <= inst.memoryBlocks
    ensures (l * inst.laneLength + c) % inst.laneLength == c
  {
    MulMonotonic(l + 1, inst.lanes, inst.laneLength);
    DivIs(l, c, inst.laneLength);
  }

  lemma OffsetsDiffer(inst: Instance, l: nat, c: nat, l': nat, c': nat)
    requires Valid(inst) && c < inst.laneLength && c' < inst.laneLength && (l != l' || c != c')
    ensures l * inst.laneLength + c != l' * inst.laneLength + c'
  {
    DivIs(l, c, inst.laneLength);
    DivIs(l', c', inst.laneLength);
  }

  ghost function Row<B>(inst: Instance, s: seq<B>, l: nat): (r: seq<B>)
    requires Valid(inst) && |s| == inst.memoryBlocks && l < inst.lanes
    ensures |r| == inst.laneLength
  {
    Offset(inst, l, 0);
    s[l * inst.laneLength..l * inst.laneLength + inst.laneLength]
  }

  /** The block in column `c` of lane `l` is at offset `l * lane_length + c`. */
  ghost function ToMatrix<B>(inst: Instance, s: seq<B>): (m: seq<seq<B>>)
    requires Valid(inst) && |s| == inst.memoryBlocks
    ensures Shaped(inst, m)
  {
    seq(inst.lanes, l requires 0 <= l < inst.lanes => Row(inst, s, l))
  }

  lemma At<B>(inst: Instance, s: seq<B>, l: nat, c: nat)
    requires Valid(inst) && |s| == inst.memoryBlocks && l < inst.lanes && c < inst.laneLength
    ensures 0 <= l * inst.laneLength + c < |s|
    ensures ToMatrix(inst, s)[l][c] == s[l * inst.laneLength + c]
  {
    Offset(inst, l, c);
  }

  lemma StoreIsPut<B>(inst: Instance, s: seq<B>, l: nat, c: nat, b: B)
    requires Valid(inst) && |s| == inst.memoryBlocks && l < inst.lanes && c < inst.laneLength
    ensures 0 <= l * inst.laneLength + c < |s|
    ensures ToMatrix(inst, s[l * inst.laneLength + c := b]) == Put(inst, ToMatrix(inst, s), l, c, b)
  {
    At(inst, s, l, c);
    var t := s[l * inst.laneLength + c := b];
    var a, m := ToMatrix(inst, t), Put(inst, ToMatrix(inst, s), l, c, b);
    forall l' | 0 <= l' < inst.lanes
      ensures a[l'] == m[l']
    {
      forall c' | 0 <= c' < inst.laneLength
        ensures a[l'][c'] == m[l'][c']
      {
        At(inst, s, l', c');
        At(inst, t, l', c');
        if l != l' || c != c' {
          OffsetsDiffer(inst, l, c, l', c');
        }
      }
    }
  }

  // ---- one segment ----

  /** The input block of a segment after some calls of `next_addresses`. */
  function InputBlock(inst: Instance, pass: nat, lane: nat, slice: nat, calls: nat): Block {
    WordsBlock(AddressWords(inst, pass, lane, slice, calls))
  }

  function Bumped(b: Block): Block { b[6 := b[6] + 1] }

  /** With the counter bumped, the input block of one more call; and what it is compressed to. */
  lemma CounterWord(inst: Instance, pass: nat, lane: nat, slice: nat, calls: nat)
    ensures Bumped(InputBlock(inst, pass, lane, slice, calls)) == InputBlock(inst, pass, lane, slice, calls + 1)
    ensures AddressBlock(Rfc(), inst, pass, lane, slice, calls) == TwiceCompressed(InputBlock(inst, pass, lane, slice, calls))
  {
    hide Compress;
  }

  /** G(ZERO, G(ZERO, Z)). */
  function TwiceCompressed(z: Block): Block {
    var zero := WordsBlock([]);
    Compress(zero, Compress(zero, z, None), None)
  }

  method CompressTwice(build: Build, address: array<bv64>, input: array<bv64>)
    requires address.Length == 128 == input.Length && address != input
    modifies address
    ensures address[..] == TwiceCompressed(input[..])
  {
    hide Compress;
    var zero := new bv64[128](_ => 0);
    assert zero[..] == WordsBlock([]);
    hide WordsBlock;
    if build == Reference {
      FillBlockRef(zero, input, address, false);
      FillBlockRef(zero, address, address, false);
    } else {
      var zeros := new Registers(build, zero);
      var zeros2 := new Registers(build, zero);
      zeros.FillBlock(input, address, false);
      zeros2.FillBlock(address, address, false);
    }
  }

  method BumpCounter(input: array<bv64>)
    requires input.Length == 128
    modifies input
    ensures input[..] == Bumped(old(input[..]))
  {
    input[6] := input[6] + 1;
  }

  /** `next_addresses`: with the input block of a segment after any number of `calls`, it gives the address block
      and the input block of the next counter. */
  method NextAddresses(build: Build, address: array<bv64>, input: array<bv64>, ghost inst: Instance, ghost pass: nat, ghost lane: nat,
                       ghost slice: nat, ghost calls: nat)
    requires address.Length == 128 == input.Length && address != input
    modifies address, input
    ensures old(input[..]) == InputBlock(inst, pass, lane, slice, calls) ==>
      input[..] == InputBlock(inst, pass, lane, slice, calls + 1)
      && address[..] == AddressBlock(Rfc(), inst, pass, lane, slice, calls + 1)
    ensures input[..] == Bumped(old(input[..])) && address[..] == TwiceCompressed(input[..])
  {
    CounterWord(inst, pass, lane, slice, calls);
    CounterWord(inst, pass, lane, slice, calls + 1);
    hide TwiceCompressed, InputBlock, AddressBlock, Rfc, Bumped;
    BumpCounter(input);
    CompressTwice(build, address, input);
  }

  function CallsBefore(i: nat): nat {
    (i + ADDRESSES_IN_BLOCK - 1) / ADDRESSES_IN_BLOCK
  }

  lemma CallsGrow(i: nat)
    ensures CallsBefore(i + 1) == i / ADDRESSES_IN_BLOCK + 1
    ensures CallsBefore(i) == if i % ADDRESSES_IN_BLOCK == 0 then i / ADDRESSES_IN_BLOCK else i / ADDRESSES_IN_BLOCK + 1
  {}

  /** The input block and the current address block before index `i` is built: so far every started group
      of 128 indexes cost one call of `next_addresses`. */
  ghost predicate AddressState(inst: Instance, pass: nat, slice: nat, lane: nat, i: nat, input: seq<bv64>, addresses: seq<bv64>) {
    && |input| == 128 == |addresses|
    && (DataIndependent(inst, pass, slice) ==>
          var calls := CallsBefore(i);
          && input == InputBlock(inst, pass, lane, slice, calls)
          && (i > 0 ==> addresses == AddressBlock(Rfc(), inst, pass, lane, slice, calls)))
  }

  /** Step 1.2.1 of `fill_segment`: the pseudo-random word for the index; `s` is what the memory holds. */
  method DrawRand(build: Build, inst: Instance, ghost s: seq<Block>, pos: Position, prev: array<bv64>, input: array<bv64>, address: array<bv64>)
    returns (rand: u64)
    requires ValidPosition(inst, pos) && |s| == inst.memoryBlocks && address != input && prev.Length == 128
    requires 0 <= pos.lane * inst.laneLength + PreviousColumn(inst, Column(inst, pos)) < |s|
    requires prev[..] == s[pos.lane * inst.laneLength + PreviousColumn(inst, Column(inst, pos))]
    requires AddressState(inst, pos.pass, pos.slice, pos.lane, pos.index, input[..], address[..])
    requires prev != input && prev != address
    modifies input, address
    ensures AddressState(inst, pos.pass, pos.slice, pos.lane, pos.index + 1, input[..], address[..])
    ensures rand == PseudoRand(Rfc(), inst, ToMatrix(inst, s), pos)
    ensures rand == if inst.ty == Argon2i || (inst.ty == Argon2id && pos.pass == 0 && pos.slice < 2)
                    then ValueOf(address[pos.index % 128]) else ValueOf(prev[0])
  {
    hide IndexAlpha, ToMatrix, CallsBefore, RefLane, PreviousColumn, Column, Compress, InputBlock, AddressBlock, ValueOf;
    CallsGrow(pos.index);
    if DataIndependent(inst, pos.pass, pos.slice) {
      if pos.index % ADDRESSES_IN_BLOCK == 0 {
        NextAddresses(build, address, input, inst, pos.pass, pos.lane, pos.slice, pos.index / ADDRESSES_IN_BLOCK);
      }
      rand := ValueOf(address[pos.index % ADDRESSES_IN_BLOCK]);
    } else {
      PositionBounds(inst, pos);
      At(inst, s, pos.lane, PreviousColumn(inst, Column(inst, pos)));
      rand := ValueOf(prev[0]);
    }
  }

  /** Steps 1.2 of `fill_segment`: the offset of the reference block. */
  method SelectReference(build: Build, inst: Instance, ghost s: seq<Block>, pos: Position, prev: array<bv64>, input: array<bv64>, address: array<bv64>)
    returns (ref: nat)
    requires ValidPosition(inst, pos) && |s| == inst.memoryBlocks && address != input && prev.Length == 128
    requires 0 <= pos.lane * inst.laneLength + PreviousColumn(inst, Column(inst, pos)) < |s|
    requires prev[..] == s[pos.lane * inst.laneLength + PreviousColumn(inst, Column(inst, pos))]
    requires AddressState(inst, pos.pass, pos.slice, pos.lane, pos.index, input[..], address[..])
    requires prev != input && prev != address
    modifies input, address
    ensures AddressState(inst, pos.pass, pos.slice, pos.lane, pos.index + 1, input[..], address[..])
    ensures IsReference(Rfc(), inst, s, pos, ref)
  {
    hide IndexAlpha, ToMatrix, RefLane, IsReference, AddressState, PseudoRand, PreviousColumn, Column, Rfc;
    var rand := DrawRand(build, inst, s, pos, prev, input, address);
    var refLane := RefLane(inst, pos, rand);
    var refIndex := IndexAlpha(inst, pos, rand % TWO_32, refLane == pos.lane);
    ReferenceIs(Rfc(), inst, s, pos, rand);
    ref := inst.laneLength * refLane + refIndex;
  }

  /** Compressing the previous block and the block at `ref` gives the block that the RFC prescribes. */
  ghost predicate IsReference<B>(p: Primitives<B>, inst: Instance, s: seq<B>, pos: Position, ref: nat)
    requires ValidPosition(inst, pos) && |s| == inst.memoryBlocks
  {
    PositionBounds(inst, pos);
    Offset(inst, pos.lane, Column(inst, pos));
    Offset(inst, pos.lane, PreviousColumn(inst, Column(inst, pos)));
    && ref < |s|
    && NewBlock(p, inst, ToMatrix(inst, s), pos) ==
       p.compress(s[pos.lane * inst.laneLength + PreviousColumn(inst, Column(inst, pos))], s[ref],
                  if WithXor(inst, pos.pass) then Some(s[pos.lane * inst.laneLength + Column(inst, pos)]) else None)
  }

  lemma RefColumnIs(inst: Instance, pos: Position, rand: u64)
    requires inst.lanes != 0 && inst.laneLength != 0
    ensures RefColumn(inst, pos, rand) == IndexAlpha(inst, pos, rand % TWO_32, RefLane(inst, pos, rand) == pos.lane)
    ensures inst.laneLength * RefLane(inst, pos, rand) == RefLane(inst, pos, rand) * inst.laneLength
  {
    hide IndexAlpha, RefLane;
  }

  lemma ReferenceIs<B>(p: Primitives<B>, inst: Instance, s: seq<B>, pos: Position, rand: u64)
    requires ValidPosition(inst, pos) && |s| == inst.memoryBlocks
    requires rand == PseudoRand(p, inst, ToMatrix(inst, s), pos)
    ensures var l := RefLane(inst, pos, rand);
            var ref := inst.laneLength * l + IndexAlpha(inst, pos, rand % TWO_32, l == pos.lane);
            0 <= ref && IsReference(p, inst, s, pos, ref)
  {
    hide PseudoRand, IndexAlpha, ToMatrix, RefLane, Column, PreviousColumn, RefColumn, Constructed, InSlice, WithXor;
    PositionBounds(inst, pos);
    ReferenceIsStable(inst, pos, rand);
    At(inst, s, pos.lane, PreviousColumn(inst, Column(inst, pos)));
    At(inst, s, pos.lane, Column(inst, pos));
    At(inst, s, RefLane(inst, pos, rand), RefColumn(inst, pos, rand));
    RefColumnIs(inst, pos, rand);
  }

  /** Before the loop: in the very first slice one block of addresses is generated ahead. */
  method StartAddresses(build: Build, inst: Instance, pass: u32, lane: u32, slice: u8) returns (input: array<bv64>, address: array<bv64>)
    ensures fresh(input) && fresh(address) && input != address && input.Length == 128 == address.Length
    ensures AddressState(inst, pass, slice, lane, FirstIndex(pass, slice), input[..], address[..])
  {
    hide Compress, AddressBlock, InputBlock;
    address := new bv64[128];
    var words := InputBlock(inst, pass, lane, slice, 0);
    input := new bv64[128](k requires 0 <= k < 128 => words[k]);
    assert input[..] == words;
    if pass == 0 && slice == 0 && DataIndependent(inst, pass, slice) {
      NextAddresses(build, address, input, inst, pass, lane, slice, 0);
    }
  }

  /** `curr_offset` and `prev_offset` when column `c` of a lane that starts at `base` comes next; the step
      into column 1 is put right only inside the loop. */
  ghost predicate OffsetsAt(inst: Instance, base: int, c: int, curr: int, prev: int) {
    curr == base + c && prev == base + if c <= 1 then inst.laneLength - 1 + c else c - 1
  }

  lemma ColumnBounds(inst: Instance, pass: nat, slice: nat, lane: nat, i: nat)
    requires ValidSegment(inst, pass, slice) && lane < inst.lanes
    requires i < inst.segmentLength || (slice == 0 && i == inst.segmentLength)
    ensures var c := slice * inst.segmentLength + i;
            && 0 <= slice * inst.segmentLength && c < inst.laneLength
            && 0 <= lane * inst.laneLength
            && lane * inst.laneLength + inst.laneLength <= inst.memoryBlocks
            && (lane * inst.laneLength + c) % inst.laneLength == c
            && PreviousColumn(inst, c) == (if c == 0 then inst.laneLength - 1 else c - 1)
  {
    SliceBounds(inst, slice);
    Offset(inst, lane, slice * inst.segmentLength + i);
    PreviousColumnIs(inst, slice * inst.segmentLength + i);
  }

  /** The offsets that `fill_segment` starts with. */
  method StartOffsets(inst: Instance, pass: u32, lane: u32, slice: u8) returns (curr: int, prev: int)
    requires ValidSegment(inst, pass, slice) && lane < inst.lanes
    ensures OffsetsAt(inst, lane * inst.laneLength, slice * inst.segmentLength + FirstIndex(pass, slice), curr, prev)
    ensures 0 <= prev < inst.memoryBlocks
    ensures prev == lane * inst.laneLength + PreviousColumn(inst, slice * inst.segmentLength + FirstIndex(pass, slice))
  {
    hide PreviousColumn;
    ColumnBounds(inst, pass, slice, lane, FirstIndex(pass, slice));
    ghost var c := slice * inst.segmentLength + FirstIndex(pass, slice);
    curr := lane * inst.laneLength + slice * inst.segmentLength + FirstIndex(pass, slice);
    assert curr == lane * inst.laneLength + c;
    prev := if curr % inst.laneLength == 0 then curr + inst.laneLength - 1 else curr - 1;
  }

  /** Step 1.1 of `fill_segment`: put `prev_offset` right in column 1. */
  function Rotated(inst: Instance, curr: nat, prev: int): int
    requires inst.laneLength != 0
  {
    if curr % inst.laneLength == 1 then curr - 1 else prev
  }

  /** Rotating `prev_offset` makes it the cyclic predecessor in the lane, and the increments keep in step. */
  lemma RotatedPrevious(inst: Instance, pos: Position, curr: int, prev: int)
    requires ValidPosition(inst, pos)
    requires OffsetsAt(inst, pos.lane * inst.laneLength, Column(inst, pos), curr, prev)
    ensures 0 <= curr
    ensures var prev' := Rotated(inst, curr, prev);
            && curr == pos.lane * inst.laneLength + Column(inst, pos) < inst.memoryBlocks
            && 0 <= prev' == pos.lane * inst.laneLength + PreviousColumn(inst, Column(inst, pos)) < inst.memoryBlocks
            && OffsetsAt(inst, pos.lane * inst.laneLength, Column(inst, pos) + 1, curr + 1, prev' + 1)
  {
    hide PreviousColumn;
    ColumnBounds(inst, pos.pass, pos.slice, pos.lane, pos.index);
  }

  lemma StepRun<B>(p: Primitives<B>, inst: Instance, m0: seq<seq<B>>, s: seq<B>, pos: Position, b: B)
    requires ValidPosition(inst, pos) && Shaped(inst, m0) && |s| == inst.memoryBlocks
    requires ToMatrix(inst, s) == Run(p, inst, m0, pos.pass, pos.slice, pos.lane, pos.index)
    requires b == NewBlock(p, inst, ToMatrix(inst, s), pos)
    ensures var curr := pos.lane * inst.laneLength + Column(inst, pos);
            && 0 <= curr < |s|
            && ToMatrix(inst, s[curr := b]) == Run(p, inst, m0, pos.pass, pos.slice, pos.lane, pos.index + 1)
  {
    hide NewBlock, ToMatrix;
    PositionBounds(inst, pos);
    StoreIsPut(inst, s, pos.lane, Column(inst, pos), b);
  }

  /** The offsets, the addresses and the memory before the block with index `i` of a segment is built. */
  ghost predicate InStep(inst: Instance, m0: seq<seq<Block>>, s: seq<Block>, pass: nat, slice: nat, lane: nat, i: nat, curr: int, prev: int,
                         input: seq<bv64>, addresses: seq<bv64>)
    requires ValidSegment(inst, pass, slice) && lane < inst.lanes && Shaped(inst, m0) && |s| == inst.memoryBlocks && i <= inst.segmentLength
  {
    && OffsetsAt(inst, lane * inst.laneLength, slice * inst.segmentLength + i, curr, prev)
    && AddressState(inst, pass, slice, lane, i, input, addresses)
    && ToMatrix(inst, s) == Run(Rfc(), inst, m0, pass, slice, lane, i)
  }

  lemma WholeRun(inst: Instance, m0: seq<seq<Block>>, s: seq<Block>, pass: nat, slice: nat, lane: nat, curr: int, prev: int,
                 input: seq<bv64>, addresses: seq<bv64>)
    requires ValidSegment(inst, pass, slice) && lane < inst.lanes && Shaped(inst, m0) && |s| == inst.memoryBlocks
    requires InStep(inst, m0, s, pass, slice, lane, inst.segmentLength, curr, prev, input, addresses)
    ensures ToMatrix(inst, s) == Run(Rfc(), inst, m0, pass, slice, lane, inst.segmentLength)
  {}

  /** `fill_segment` of argon2/ref.c, in place. */
  method FillSegmentRef(inst: Instance, memory: seq<array<bv64>>, pass: u32, lane: u32, slice: u8)
    requires ValidSegment(inst, pass, slice) && lane < inst.lanes
    requires |memory| == inst.memoryBlocks && Separate(memory)
    modifies memory
    ensures ToMatrix(inst, Blocks(memory)) == Run(Rfc(), inst, ToMatrix(inst, old(Blocks(memory))), pass, slice, lane, inst.segmentLength)
  {
    hide NewBlock, ToMatrix, AddressState, OffsetsAt, PreviousColumn, Run, Compress;
    ghost var m0 := ToMatrix(inst, Blocks(memory));
    var input, address := StartAddresses(Reference, inst, pass, lane, slice);
    var curr, prev := StartOffsets(inst, pass, lane, slice);
    var i := FirstIndex(pass, slice);
    RunStarts(Rfc(), inst, m0, pass, slice, lane);
    assert InStep(inst, m0, Blocks(memory), pass, slice, lane, i, curr, prev, input[..], address[..]);
    hide InStep;
    while i < inst.segmentLength
      invariant FirstIndex(pass, slice) <= i <= inst.segmentLength
      invariant InStep(inst, m0, Blocks(memory), pass, slice, lane, i, curr, prev, input[..], address[..])
    {
      prev := StepRef(inst, memory, pass, lane, slice, i, curr, prev, input, address, m0);
      i, curr, prev := i + 1, curr + 1, prev + 1;
    }
    WholeRun(inst, m0, Blocks(memory), pass, slice, lane, curr, prev, input[..], address[..]);
  }

  /** One pass of the loop. */
  method StepRef(inst: Instance, memory: seq<array<bv64>>, pass: u32, lane: u32, slice: u8, i: nat, curr: int, prev: int,
                 input: array<bv64>, address: array<bv64>, ghost m0: seq<seq<Block>>) returns (prev': int)
    requires ValidSegment(inst, pass, slice) && lane < inst.lanes && FirstIndex(pass, slice) <= i < inst.segmentLength
    requires |memory| == inst.memoryBlocks && Separate(memory) && Shaped(inst, m0)
    requires input != address && input !in memory && address !in memory
    requires InStep(inst, m0, Blocks(memory), pass, slice, lane, i, curr, prev, input[..], address[..])
    modifies memory, input, address
    ensures InStep(inst, m0, Blocks(memory), pass, slice, lane, i + 1, curr + 1, prev' + 1, input[..], address[..])
  {
    hide NewBlock, ToMatrix, AddressState, OffsetsAt, PreviousColumn, Run, Rotated, Compress;
    var pos := Position(pass, lane, slice, i);
    RotatedPrevious(inst, pos, curr, prev);
    prev' := Rotated(inst, curr, prev);
    BuildBlock(inst, memory, pos, prev', curr, input, address, m0);
  }

  /** Steps 1.2 and 2 of `fill_segment`: the block at `curr` is built. */
  method BuildBlock(inst: Instance, memory: seq<array<bv64>>, pos: Position, prev: nat, curr: nat, input: array<bv64>, address: array<bv64>,
                    ghost m0: seq<seq<Block>>)
    requires ValidPosition(inst, pos) && |memory| == inst.memoryBlocks && Separate(memory) && Shaped(inst, m0)
    requires prev == pos.lane * inst.laneLength + PreviousColumn(inst, Column(inst, pos)) < |memory|
    requires curr == pos.lane * inst.laneLength + Column(inst, pos) < |memory|
    requires input != address && input !in memory && address !in memory
    requires AddressState(inst, pos.pass, pos.slice, pos.lane, pos.index, input[..], address[..])
    requires ToMatrix(inst, Blocks(memory)) == Run(Rfc(), inst, m0, pos.pass, pos.slice, pos.lane, pos.index)
    modifies memory[curr], input, address
    ensures AddressState(inst, pos.pass, pos.slice, pos.lane, pos.index + 1, input[..], address[..])
    ensures ToMatrix(inst, Blocks(memory)) == Run(Rfc(), inst, m0, pos.pass, pos.slice, pos.lane, pos.index + 1)
  {
    hide NewBlock, ToMatrix, AddressState, PreviousColumn, Run, Compress, Column;
    ghost var s := Blocks(memory);
    var ref := SelectReference(Reference, inst, s, pos, memory[prev], input, address);
    assert Blocks(memory) == s;
    FillBlockRef(memory[prev], memory[ref], memory[curr], WithXor(inst, pos.pass));
    assert Blocks(memory) == s[curr := memory[curr][..]];
    StepRun(Rfc(), inst, m0, s, pos, memory[curr][..]);
  }

  lemma RunStarts<B>(p: Primitives<B>, inst: Instance, m: seq<seq<B>>, pass: nat, slice: nat, lane: nat)
    requires ValidSegment(inst, pass, slice) && lane < inst.lanes && Shaped(inst, m)
    ensures Run(p, inst, m, pass, slice, lane, FirstIndex(pass, slice)) == m
  {}

  ghost predicate HoldsPrevious<B>(inst: Instance, s: seq<B>, slice: nat, lane: nat, i: nat, state: B)
    requires inst.laneLength != 0
  {
    var before := lane * inst.laneLength + PreviousColumn(inst, slice * inst.segmentLength + i);
    0 <= before < |s| && state == s[before]
  }

  lemma NextPrevious<B>(inst: Instance, s: seq<B>, pos: Position, state: B)
    requires ValidPosition(inst, pos) && |s| == inst.memoryBlocks && pos.index + 1 < inst.segmentLength
    requires 0 <= pos.lane * inst.laneLength + Column(inst, pos) < |s| && state == s[pos.lane * inst.laneLength + Column(inst, pos)]
    ensures HoldsPrevious(inst, s, pos.slice, pos.lane, pos.index + 1, state)
  {
    ColumnBounds(inst, pos.pass, pos.slice, pos.lane, pos.index + 1);
    hide PreviousColumn;
    assert pos.slice * inst.segmentLength + (pos.index + 1) == Column(inst, pos) + 1;
  }

  lemma Carried<B>(inst: Instance, s: seq<B>, pos: Position, state: B, prev: int)
    requires ValidPosition(inst, pos) && HoldsPrevious(inst, s, pos.slice, pos.lane, pos.index, state)
    requires prev == pos.lane * inst.laneLength + PreviousColumn(inst, Column(inst, pos))
    ensures 0 <= prev < |s| && s[prev] == state
  {
    hide PreviousColumn;
  }

  /** The copy of the previous block that `fill_segment` starts with. */
  method StartRegisters(build: Build, inst: Instance, memory: seq<array<bv64>>, pass: u32, lane: u32, slice: u8, prev: nat) returns (state: Registers)
    requires inst.laneLength != 0 && prev < |memory| && Separate(memory)
    requires prev == lane * inst.laneLength + PreviousColumn(inst, slice * inst.segmentLength + FirstIndex(pass, slice))
    ensures state.Valid() && fresh(state.Repr())
    ensures HoldsPrevious(inst, Blocks(memory), slice, lane, FirstIndex(pass, slice), state.Words())
  {
    hide PreviousColumn, FirstIndex, Registers.Words;
    state := new Registers(build, memory[prev]);
  }

  /** `fill_segment` of argon2/opt.c, in place: the registers carry the block built last. */
  method FillSegmentOpt(build: Build, inst: Instance, memory: seq<array<bv64>>, pass: u32, lane: u32, slice: u8)
    requires build != Reference && ValidSegment(inst, pass, slice) && lane < inst.lanes
    requires |memory| == inst.memoryBlocks && Separate(memory)
    modifies memory
    ensures ToMatrix(inst, Blocks(memory)) == Run(Rfc(), inst, ToMatrix(inst, old(Blocks(memory))), pass, slice, lane, inst.segmentLength)
  {
    hide NewBlock, ToMatrix, AddressState, OffsetsAt, PreviousColumn, Run, HoldsPrevious, Compress, Registers.Words;
    ghost var m0 := ToMatrix(inst, Blocks(memory));
    var input, address := StartAddresses(build, inst, pass, lane, slice);
    var curr, prev := StartOffsets(inst, pass, lane, slice);
    var state := StartRegisters(build, inst, memory, pass, lane, slice, prev);
    var i := FirstIndex(pass, slice);
    RunStarts(Rfc(), inst, m0, pass, slice, lane);
    assert InStep(inst, m0, Blocks(memory), pass, slice, lane, i, curr, prev, input[..], address[..]);
    hide InStep;
    while i < inst.segmentLength
      invariant FirstIndex(pass, slice) <= i <= inst.segmentLength
      invariant InStep(inst, m0, Blocks(memory), pass, slice, lane, i, curr, prev, input[..], address[..])
      invariant i < inst.segmentLength ==> HoldsPrevious(inst, Blocks(memory), slice, lane, i, state.Words())
    {
      prev := StepOpt(state, inst, memory, pass, lane, slice, i, curr, prev, input, address, m0);
      i, curr, prev := i + 1, curr + 1, prev + 1;
    }
    WholeRun(inst, m0, Blocks(memory), pass, slice, lane, curr, prev, input[..], address[..]);
  }

  /** One pass of the loop. */
  method StepOpt(state: Registers, inst: Instance, memory: seq<array<bv64>>, pass: u32, lane: u32, slice: u8, i: nat, curr: int, prev: int,
                 input: array<bv64>, address: array<bv64>, ghost m0: seq<seq<Block>>) returns (prev': int)
    requires ValidSegment(inst, pass, slice) && lane < inst.lanes && FirstIndex(pass, slice) <= i < inst.segmentLength
    requires |memory| == inst.memoryBlocks && Separate(memory) && Shaped(inst, m0)
    requires input != address && input !in memory && address !in memory
    requires InStep(inst, m0, Blocks(memory), pass, slice, lane, i, curr, prev, input[..], address[..])
    requires state.Valid() && HoldsPrevious(inst, Blocks(memory), slice, lane, i, state.Words())
    requires input !in state.Repr() && address !in state.Repr()
    modifies memory, input, address, state.narrow, state.wide
    ensures InStep(inst, m0, Blocks(memory), pass, slice, lane, i + 1, curr + 1, prev' + 1, input[..], address[..])
    ensures i + 1 < inst.segmentLength ==> HoldsPrevious(inst, Blocks(memory), slice, lane, i + 1, state.Words())
  {
    hide NewBlock, ToMatrix, AddressState, OffsetsAt, PreviousColumn, Run, Rotated, HoldsPrevious, Compress, Registers.Words;
    var pos := Position(pass, lane, slice, i);
    RotatedPrevious(inst, pos, curr, prev);
    prev' := Rotated(inst, curr, prev);
    BuildBlockOpt(state, inst, memory, pos, prev', curr, input, address, m0);
  }

  lemma ReferenceGives(inst: Instance, s: seq<Block>, pos: Position, ref: nat, prev: nat, curr: nat)
    requires ValidPosition(inst, pos) && |s| == inst.memoryBlocks && IsReference(Rfc(), inst, s, pos, ref)
    requires prev == pos.lane * inst.laneLength + PreviousColumn(inst, Column(inst, pos)) < |s|
    requires curr == pos.lane * inst.laneLength + Column(inst, pos) < |s|
    ensures ref < |s|
    ensures Compress(s[prev], s[ref], if WithXor(inst, pos.pass) then Some(s[curr]) else None)
            == NewBlock(Rfc(), inst, ToMatrix(inst, s), pos)
  {
    hide Compress, NewBlock, ToMatrix, PreviousColumn, Column;
  }

  /** `fill_block` on blocks of the memory. */
  method FillBlockAt(state: Registers, memory: seq<array<bv64>>, ref: nat, curr: nat, withXor: bool)
    requires state.Valid() && Separate(memory) && ref < |memory| && curr < |memory|
    modifies memory[curr], state.narrow, state.wide
    ensures var s := old(Blocks(memory));
            && state.Words() == Compress(old(state.Words()), s[ref], if withXor then Some(s[curr]) else None)
            && Blocks(memory) == s[curr := state.Words()]
  {
    hide Compress, Registers.Words;
    ghost var s := Blocks(memory);
    state.FillBlock(memory[ref], memory[curr], withXor);
    assert Blocks(memory) == s[curr := memory[curr][..]];
  }

  /** Steps 1.2 and 2 of `fill_segment`: the registers hold the previous block, and then the new one. */
  method BuildBlockOpt(state: Registers, inst: Instance, memory: seq<array<bv64>>, pos: Position, prev: nat, curr: nat,
                       input: array<bv64>, address: array<bv64>, ghost m0: seq<seq<Block>>)
    requires ValidPosition(inst, pos) && |memory| == inst.memoryBlocks && Separate(memory) && Shaped(inst, m0)
    requires prev == pos.lane * inst.laneLength + PreviousColumn(inst, Column(inst, pos)) < |memory|
    requires curr == pos.lane * inst.laneLength + Column(inst, pos) < |memory|
    requires input != address && input !in memory && address !in memory
    requires AddressState(inst, pos.pass, pos.slice, pos.lane, pos.index, input[..], address[..])
    requires ToMatrix(inst, Blocks(memory)) == Run(Rfc(), inst, m0, pos.pass, pos.slice, pos.lane, pos.index)
    requires state.Valid() && HoldsPrevious(inst, Blocks(memory), pos.slice, pos.lane, pos.index, state.Words())
    requires input !in state.Repr() && address !in state.Repr()
    modifies memory[curr], input, address, state.narrow, state.wide
    ensures AddressState(inst, pos.pass, pos.slice, pos.lane, pos.index + 1, input[..], address[..])
    ensures ToMatrix(inst, Blocks(memory)) == Run(Rfc(), inst, m0, pos.pass, pos.slice, pos.lane, pos.index + 1)
    ensures pos.index + 1 < inst.segmentLength ==> HoldsPrevious(inst, Blocks(memory), pos.slice, pos.lane, pos.index + 1, state.Words())
  {
    hide NewBlock, ToMatrix, AddressState, PreviousColumn, Run, Compress, Column, HoldsPrevious, Registers.Words, IsReference, ValidPosition,
      WithXor, Rfc;
    ghost var s := Blocks(memory);
    ghost var before := state.Words();
    Carried(inst, s, pos, before, prev);
    var ref := SelectReference(state.build, inst, s, pos, memory[prev], input, address);
    assert Blocks(memory) == s && state.Words() == before;
    ReferenceGives(inst, s, pos, ref, prev, curr);
    FillBlockAt(state, memory, ref, curr, WithXor(inst, pos.pass));
    StepRun(Rfc(), inst, m0, s, pos, state.Words());
    if pos.index + 1 < inst.segmentLength {
      NextPrevious(inst, Blocks(memory), pos, state.Words());
    }
  }

  // ---- the whole run of one thread ----

  /** `fill_segment`, by the file that was compiled. */
  method FillSegment(build: Build, inst: Instance, memory: seq<array<bv64>>, pass: u32, lane: u32, slice: u8)
    requires ValidSegment(inst, pass, slice) && lane < inst.lanes
    requires |memory| == inst.memoryBlocks && Separate(memory)
    modifies memory
    ensures ToMatrix(inst, Blocks(memory)) == Run(Rfc(), inst, ToMatrix(inst, old(Blocks(memory))), pass, slice, lane, inst.segmentLength)
  {
    if build == Reference {
      FillSegmentRef(inst, memory, pass, lane, slice);
    } else {
      FillSegmentOpt(build, inst, memory, pass, lane, slice);
    }
  }

  /** `fill_memory_blocks_st`. */
  method FillMemoryBlocksSt(build: Build, inst: Instance, memory: seq<array<bv64>>)
    requires Valid(inst) && |memory| == inst.memoryBlocks && Separate(memory)
    modifies memory
    ensures ToMatrix(inst, Blocks(memory)) == Fill(Rfc(), inst, ToMatrix(inst, old(Blocks(memory))), inst.passes, 0)
  {
    hide Run, NewBlock, ToMatrix;
    ghost var m0 := ToMatrix(inst, Blocks(memory));
    for r := 0 to inst.passes
      invariant ToMatrix(inst, Blocks(memory)) == Fill(Rfc(), inst, m0, r, 0)
    {
      for s := 0 to 4
        invariant ToMatrix(inst, Blocks(memory)) == if s < 4 then Fill(Rfc(), inst, m0, r, s) else Fill(Rfc(), inst, m0, r + 1, 0)
      {
        ghost var m := ToMatrix(inst, Blocks(memory));
        for l := 0 to inst.lanes
          invariant ToMatrix(inst, Blocks(memory)) == RunLanes(Rfc(), inst, m, r, s, l)
        {
          FillSegment(build, inst, memory, r, l, s);
        }
      }
    }
  }

  /** The XOR of the last blocks of the first `n` lanes: C of section 3.2 of RFC 9106. */
  ghost function FinalBlock<B>(p: Primitives<B>, inst: Instance, m: seq<seq<B>>, n: nat): B
    requires Valid(inst) && Shaped(inst, m) && 1 <= n <= inst.lanes
  {
    if n == 1 then m[0][inst.laneLength - 1]
    else p.xor(FinalBlock(p, inst, m, n - 1), m[n - 1][inst.laneLength - 1])
  }

  /** The folding loop of `finalize`. */
  method XorLastBlocks(inst: Instance, memory: seq<array<bv64>>) returns (blockhash: array<bv64>)
    requires Valid(inst) && |memory| == inst.memoryBlocks && Separate(memory)
    ensures fresh(blockhash) && blockhash.Length == 128
    ensures blockhash[..] == FinalBlock(Rfc(), inst, ToMatrix(inst, Blocks(memory)), inst.lanes)
  {
    hide ToMatrix, Xor;
    ghost var s := Blocks(memory);
    Offset(inst, 0, inst.laneLength - 1);
    At(inst, s, 0, inst.laneLength - 1);
    blockhash := new bv64[128];
    CopyBlock(blockhash, memory[inst.laneLength - 1]);
    for l := 1 to inst.lanes
      invariant Blocks(memory) == s && blockhash[..] == FinalBlock(Rfc(), inst, ToMatrix(inst, s), l)
    {
      Offset(inst, l, inst.laneLength - 1);
      At(inst, s, l, inst.laneLength - 1);
      var last := l * inst.laneLength + (inst.laneLength - 1);
      XorBlock(blockhash, memory[last]);
    }
  }
}
