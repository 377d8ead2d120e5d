/** What the type and the version of an instance decide: which blocks are addressed independently of the data, and which
    are overwritten (section 3.4.1 and step 6 of section 3.2 of RFC 9106). */
module Argon2Rules {
  import opened MachineInts
  import opened Wrappers
  import opened Argon2Params
  import opened Argon2Index
  import opened Argon2Matrix
  import opened Argon2Blocks
  import opened Argon2Fill
  import opened BlamkaBlock

  // ---- addressing ----

  /** Argon2i everywhere, and Argon2id in the first two slices of the first pass, choose the pseudo-random word and the
      reference block whatever the memory holds. */
  lemma AddressedByPosition<B>(p: Primitives<B>, inst: Instance, a: seq<seq<B>>, b: seq<seq<B>>, pos: Position)
    requires ValidPosition(inst, pos) && Shaped(inst, a) && Shaped(inst, b)
    requires inst.ty == Argon2i || (inst.ty == Argon2id && pos.pass == 0 && pos.slice < 2)
    ensures var ra, rb := PseudoRand(p, inst, a, pos), PseudoRand(p, inst, b, pos);
            && ra == p.word(AddressBlock(p, inst, pos.pass, pos.lane, pos.slice, pos.index / 128 + 1), pos.index % 128)
            && ra == rb && RefLane(inst, pos, ra) == RefLane(inst, pos, rb) && RefColumn(inst, pos, ra) == RefColumn(inst, pos, rb)
  {
    hide IndexAlpha, AddressBlock, Column, PreviousColumn;
    PositionBounds(inst, pos);
  }

  /** All other blocks take the first word of the previous block. */
  lemma AddressedByData<B>(p: Primitives<B>, inst: Instance, m: seq<seq<B>>, pos: Position)
    requires ValidPosition(inst, pos) && Shaped(inst, m)
    requires inst.ty == Argon2d || (inst.ty == Argon2id && (pos.pass > 0 || pos.slice >= 2))
    ensures var c := Column(inst, pos);
            var previous := if c == 0 then inst.laneLength - 1 else c - 1;
            0 <= previous < |m[pos.lane]| && PseudoRand(p, inst, m, pos) == p.word(m[pos.lane][previous], 0)
  {
    hide AddressBlock, Column, PreviousColumn;
    PositionBounds(inst, pos);
  }

  /** The memory does not decide the pseudo-random word of a position. */
  ghost predicate Oblivious<B(!new)>(p: Primitives<B>, inst: Instance, pos: Position)
    requires ValidPosition(inst, pos)
  {
    forall a: seq<seq<B>>, b: seq<seq<B>> | Shaped(inst, a) && Shaped(inst, b) :: PseudoRand(p, inst, a, pos) == PseudoRand(p, inst, b, pos)
  }

  ghost function Constant<B>(inst: Instance, x: B): (m: seq<seq<B>>)
    requires Valid(inst)
    ensures Shaped(inst, m) && forall l, c :: 0 <= l < inst.lanes && 0 <= c < inst.laneLength ==> m[l][c] == x
  {
    seq<seq<B>>(inst.lanes, l => seq<B>(inst.laneLength, c => x))
  }

  /** Exactly the positions of Argon2i, and of the first half pass of Argon2id, are addressed independently of the data, as
      soon as first words can differ at all. */
  lemma ObliviousIff<B(!new)>(p: Primitives<B>, inst: Instance, pos: Position, x: B, y: B)
    requires ValidPosition(inst, pos) && p.word(x, 0) != p.word(y, 0)
    ensures Oblivious(p, inst, pos) <==> inst.ty == Argon2i || (inst.ty == Argon2id && pos.pass == 0 && pos.slice < 2)
  {
    hide PseudoRand;
    if inst.ty == Argon2i || (inst.ty == Argon2id && pos.pass == 0 && pos.slice < 2) {
      forall a: seq<seq<B>>, b: seq<seq<B>> | Shaped(inst, a) && Shaped(inst, b)
        ensures PseudoRand(p, inst, a, pos) == PseudoRand(p, inst, b, pos)
      {
        AddressedByPosition(p, inst, a, b, pos);
      }
    } else {
      AddressedByData(p, inst, Constant(inst, x), pos);
      AddressedByData(p, inst, Constant(inst, y), pos);
    }
  }

  /** The lanes and columns of the reference blocks of a segment below index `n`, in order, as its worker reads them. */
  ghost function References<B>(p: Primitives<B>, inst: Instance, m: seq<seq<B>>, pass: nat, slice: nat, lane: nat, n: nat): seq<(nat, nat)>
    requires ValidSegment(inst, pass, slice) && lane < inst.lanes && n <= inst.segmentLength && Shaped(inst, m)
    decreases n
  {
    if n <= FirstIndex(pass, slice) then []
    else
      var pos := Position(pass, lane, slice, n - 1);
      var rand := PseudoRand(p, inst, Run(p, inst, m, pass, slice, lane, n - 1), pos);
      References(p, inst, m, pass, slice, lane, n - 1) + [(RefLane(inst, pos, rand), RefColumn(inst, pos, rand))]
  }

  /** The blocks that such a segment refers to are a function of the instance alone: no password and no salt decides
      where the memory is read. */
  lemma {:induction false} ReferencesAreFixed<B>(p: Primitives<B>, inst: Instance, a: seq<seq<B>>, b: seq<seq<B>>, pass: nat, slice: nat, lane: nat, n: nat)
    requires ValidSegment(inst, pass, slice) && lane < inst.lanes && n <= inst.segmentLength && Shaped(inst, a) && Shaped(inst, b)
    requires inst.ty == Argon2i || (inst.ty == Argon2id && pass == 0 && slice < 2)
    ensures References(p, inst, a, pass, slice, lane, n) == References(p, inst, b, pass, slice, lane, n)
    decreases n
  {
    hide PseudoRand, RefLane, RefColumn, Run;
    if n > FirstIndex(pass, slice) {
      ReferencesAreFixed(p, inst, a, b, pass, slice, lane, n - 1);
      AddressedByPosition(p, inst, Run(p, inst, a, pass, slice, lane, n - 1), Run(p, inst, b, pass, slice, lane, n - 1),
                          Position(pass, lane, slice, n - 1));
    }
  }

  /** The words that number the address blocks, at their places in the input block; all others are zero. */
  lemma InputBlockWords(inst: Instance, pass: nat, lane: nat, slice: nat, calls: nat)
    ensures var b := InputBlock(inst, pass, lane, slice, calls);
            && b[0] == ToWord(pass) && b[1] == ToWord(lane) && b[2] == ToWord(slice) && b[3] == ToWord(inst.memoryBlocks)
            && b[4] == ToWord(inst.passes) && b[5] == ToWord(match inst.ty case Argon2d => 0 case Argon2i => 1 case Argon2id => 2)
            && b[6] == ToWord(calls) && forall k :: 7 <= k < 128 ==> b[k] == 0
  {}

  // ---- overwriting ----

  /** Step 6 of section 3.2: version 1.0 and the first pass overwrite a block with G of the previous and the reference
      block; from the second pass on, other versions XOR that over what the block held. */
  lemma Overwriting(inst: Instance, m: seq<seq<Block>>, pos: Position)
    requires ValidPosition(inst, pos) && Shaped(inst, m)
    ensures var c := Column(inst, pos);
            var previous := if c == 0 then inst.laneLength - 1 else c - 1;
            var rand := PseudoRand(Rfc(), inst, m, pos);
            var l, k := RefLane(inst, pos, rand), RefColumn(inst, pos, rand);
            && c < inst.laneLength && 0 <= previous < inst.laneLength && l < inst.lanes && 0 <= k < inst.laneLength
            && var fresh_ := Compress(m[pos.lane][previous], m[l][k], None);
               NewBlock(Rfc(), inst, m, pos) ==
                 if pos.pass > 0 && inst.version != 0x10 then Xor(m[pos.lane][c], fresh_) else fresh_
  {
    hide Compress, Xor, IndexAlpha, Column, PreviousColumn, RefLane, RefColumn, AddressBlock;
    PositionBounds(inst, pos);
    var rand := PseudoRand(Rfc(), inst, m, pos);
    ReferenceIsStable(inst, pos, rand);
    var prev := m[pos.lane][PreviousColumn(inst, Column(inst, pos))];
    CompressLaws(prev, m[RefLane(inst, pos, rand)][RefColumn(inst, pos, rand)], m[pos.lane][Column(inst, pos)]);
  }
}
