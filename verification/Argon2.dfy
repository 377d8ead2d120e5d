/** `argon2_ctx` of argon2/argon2.c: from the parameters to the tag of section 3.2 of RFC 9106, with the block functions
    and the hashes of the other modules put together, for one thread and for many. */
module Argon2 {
  import opened MachineInts
  import opened Wrappers
  import opened Argon2Params
  import opened Argon2Index
  import opened Argon2Matrix
  import opened Argon2Blocks
  import opened Argon2Fill
  import opened Argon2FirstPass
  import opened Argon2Prehash
  import opened Blake2b
  import opened BlamkaBlock
  import Argon2Termination
  import LittleEndian
  import Argon2Threads
  import W = Blake2bCore

  const BLOCK_SIZE: u32 := 1024

  // ---- blocks as bytes ----

  /** `load_block` and `store_block`. */
  function FromBytes(s: seq<bv8>): Block
    requires |s| == 1024
  {
    seq(128, k requires 0 <= k < 128 => W.Load64(s[8 * k..8 * k + 8]))
  }

  function ToBytes(b: Block, n: nat): (s: seq<bv8>)
    requires n <= 128
    ensures |s| == 8 * n
  {
    if n == 0 then [] else ToBytes(b, n - 1) + W.Store64(b[n - 1])
  }

  lemma WordBack(w: bv64)
    ensures W.Load64(W.Store64(w)) == w
  {}

  lemma {:induction false} WordsOf(b: Block, n: nat, k: nat)
    requires k < n <= 128
    ensures ToBytes(b, n)[8 * k..8 * k + 8] == W.Store64(b[k])
    decreases n
  {
    hide W.Store64;
    var s := ToBytes(b, n - 1);
    if k < n - 1 {
      WordsOf(b, n - 1, k);
      assert ToBytes(b, n)[8 * k..8 * k + 8] == s[8 * k..8 * k + 8];
    } else {
      assert ToBytes(b, n)[8 * k..8 * k + 8] == W.Store64(b[k]);
    }
  }

  /** The bytes of a block give back the block. */
  lemma BlockBack(b: Block)
    ensures FromBytes(ToBytes(b, 128)) == b
  {
    hide W.Load64, W.Store64, ToBytes;
    forall k | 0 <= k < 128
      ensures W.Load64(ToBytes(b, 128)[8 * k..8 * k + 8]) == b[k]
    {
      WordsOf(b, 128, k);
      WordBack(b[k]);
    }
  }

  method LoadBlock(dst: array<bv64>, input: seq<bv8>)
    requires dst.Length == 128 && |input| == 1024
    modifies dst
    ensures dst[..] == FromBytes(input)
  {
    hide W.Load64;
    for i := 0 to 128
      invariant forall k :: 0 <= k < i ==> dst[k] == W.Load64(input[8 * k..8 * k + 8])
    {
      dst[i] := W.Load64(input[8 * i..8 * i + 8]);
    }
  }

  method StoreBlock(src: array<bv64>) returns (output: seq<bv8>)
    requires src.Length == 128
    ensures output == ToBytes(src[..], 128)
  {
    hide W.Store64;
    output := [];
    for i := 0 to 128
      invariant output == ToBytes(src[..], i)
    {
      output := output + W.Store64(src[i]);
    }
  }

  /** H'^(1024)(H0 || LE32(k) || LE32(l)), the first blocks of lane `l`. */
  ghost function FirstBlock(h0: seq<bv8>, k: u32, l: u32): Block {
    FromBytes(VariableHash(BLOCK_SIZE, h0 + Store32(k) + Store32(l)))
  }

  /** Behind H0 stand the number of the block and the lane: no two of the first blocks are made from the same bytes. */
  lemma FirstBlockInput(h0: seq<bv8>, k: u32, l: u32)
    requires |h0| == 64
    ensures var b := h0 + Store32(k) + Store32(l);
            |b| == 72 && b[..64] == h0 && LittleEndian.Value(b[64..68]) == k && LittleEndian.Value(b[68..72]) == l
  {
    Store32Value(k);
    Store32Value(l);
    hide Store32, LittleEndian.Value;
    var b := h0 + Store32(k) + Store32(l);
    assert b[64..68] == Store32(k) && b[68..72] == Store32(l);
  }

  /** The first two blocks of every lane, and nothing else. */
  ghost function FirstMatrix(inst: Instance, h0: seq<bv8>): (m: seq<seq<Block>>)
    requires Valid(inst)
    ensures Shaped(inst, m)
  {
    seq<seq<Block>>(inst.lanes, l requires 0 <= l < inst.lanes => FirstRow(inst, h0, l))
  }

  ghost function FirstRow(inst: Instance, h0: seq<bv8>, l: u32): (row: seq<Block>)
    ensures |row| == inst.laneLength
  {
    seq<Block>(inst.laneLength, c requires 0 <= c < inst.laneLength => if c < 2 then FirstBlock(h0, c, l) else WordsBlock([]))
  }

  /** The block C of section 3.2. */
  ghost function LastBlock(inst: Instance, h0: seq<bv8>): Block
    requires Valid(inst)
  {
    FinalBlock(Rfc(), inst, Fill(Rfc(), inst, FirstMatrix(inst, h0), inst.passes, 0), inst.lanes)
  }

  /** The tag of section 3.2: H'^T(C). */
  ghost function TagOf(inst: Instance, h0: seq<bv8>, length: u32): (t: seq<bv8>)
    requires Valid(inst) && length > 0
    ensures |t| == length
  {
    VariableHash(length, ToBytes(LastBlock(inst, h0), 128))
  }

  /** The memory layout for an accepted context. */
  ghost function Layout(c: Context, ty: Argon2Type): (inst: Instance)
    requires ValidateInputs(c) == Ok
    ensures Valid(inst) && inst.lanes == c.lanes && c.outlen > 0
  {
    AcceptedGivesValidInstance(c, ty);
    Derive(c, ty)
  }

  ghost function H0(c: Context, ty: Argon2Type): seq<bv8>
    requires LengthsFit(c)
  {
    Hash(64, [], H0Input(c, ty))
  }

  /** The tag for an accepted context. */
  ghost function Tag(c: Context, ty: Argon2Type): (t: seq<bv8>)
    requires ValidateInputs(c) == Ok && LengthsFit(c)
    ensures |t| == c.outlen
  {
    hide Derive, ValidateInputs, Hash, H0Input;
    TagOf(Layout(c, ty), H0(c, ty), c.outlen)
  }

  // ---- argon2_ctx ----

  /** The memory holds the first blocks of the first `n` lanes. */
  ghost predicate FirstBlocksDone(inst: Instance, m: seq<seq<Block>>, h0: seq<bv8>, n: nat)
    requires Valid(inst) && Shaped(inst, m)
  {
    forall l, c :: 0 <= l < inst.lanes && l < n && 0 <= c < 2 ==> m[l][c] == FirstBlock(h0, c, l)
  }

  /** One of the first blocks. */
  method MakeFirstBlock(dst: array<bv64>, h0: seq<bv8>, k: u32, l: u32)
    requires dst.Length == 128 && |h0| == 64
    modifies dst
    ensures dst[..] == FirstBlock(h0, k, l)
  {
    hide Store32, VariableHash, FromBytes;
    var ret, bytes := Long(BLOCK_SIZE, h0 + Store32(k) + Store32(l));
    LoadBlock(dst, bytes);
  }

  /** `fill_first_blocks`: exactly the first two blocks of every lane are written. */
  method FillFirstBlocks(inst: Instance, memory: seq<array<bv64>>, h0: seq<bv8>)
    requires Valid(inst) && |memory| == inst.memoryBlocks && Separate(memory) && |h0| == 64
    modifies memory
    ensures FirstBlocksDone(inst, ToMatrix(inst, Blocks(memory)), h0, inst.lanes)
    ensures forall l, c :: 0 <= l < inst.lanes && 2 <= c < inst.laneLength ==>
      ToMatrix(inst, Blocks(memory))[l][c] == ToMatrix(inst, old(Blocks(memory)))[l][c]
  {
    hide ToMatrix, FirstBlock;
    ghost var m0 := ToMatrix(inst, Blocks(memory));
    for l := 0 to inst.lanes
      invariant FirstBlocksDone(inst, ToMatrix(inst, Blocks(memory)), h0, l)
      invariant forall l', c :: 0 <= l' < inst.lanes && 2 <= c < inst.laneLength ==> ToMatrix(inst, Blocks(memory))[l'][c] == m0[l'][c]
    {
      FirstBlockAt(inst, memory, h0, l, 0);
      FirstBlockAt(inst, memory, h0, l, 1);
    }
  }

  method FirstBlockAt(inst: Instance, memory: seq<array<bv64>>, h0: seq<bv8>, l: u32, k: u32)
    requires Valid(inst) && |memory| == inst.memoryBlocks && Separate(memory) && |h0| == 64 && l < inst.lanes && k < 2
    modifies memory
    ensures ToMatrix(inst, Blocks(memory)) == Put(inst, ToMatrix(inst, old(Blocks(memory))), l, k, FirstBlock(h0, k, l))
  {
    hide ToMatrix, FirstBlock;
    ghost var s := Blocks(memory);
    StoreIsPut(inst, s, l, k, FirstBlock(h0, k, l));
    MakeFirstBlock(memory[l * inst.laneLength + k], h0, k, l);
    assert Blocks(memory) == s[l * inst.laneLength + k := FirstBlock(h0, k, l)];
  }

  /** `allocate_memory`: blocks with whatever they held. */
  method AllocateMemory(n: nat) returns (memory: seq<array<bv64>>)
    ensures |memory| == n && Separate(memory) && forall i :: 0 <= i < n ==> fresh(memory[i])
  {
    memory := [];
    for i := 0 to n
      invariant |memory| == i && Separate(memory) && forall k :: 0 <= k < i ==> fresh(memory[k])
    {
      var block := new bv64[128];
      memory := memory + [block];
    }
  }

  /** Whatever else the memory held, the fill ends with the block of the RFC. */
  lemma FirstBlocksSuffice(inst: Instance, h0: seq<bv8>, m: seq<seq<Block>>)
    requires Valid(inst) && Shaped(inst, m) && FirstBlocksDone(inst, m, h0, inst.lanes)
    ensures FinalBlock(Rfc(), inst, Fill(Rfc(), inst, m, inst.passes, 0), inst.lanes) == LastBlock(inst, h0)
  {
    hide Fill, Rfc, FirstBlock;
    assert AgreeBelow(inst, 2, m, FirstMatrix(inst, h0));
    UninitialisedMemoryIsIrrelevant(Rfc(), inst, m, FirstMatrix(inst, h0), inst.passes, 0);
  }

  /** The hash of the XOR of the last blocks. */
  ghost function HashedLast(inst: Instance, m: seq<seq<Block>>, outlen: u32): seq<bv8>
    requires Valid(inst) && Shaped(inst, m) && outlen > 0
  {
    VariableHash(outlen, ToBytes(FinalBlock(Rfc(), inst, m, inst.lanes), 128))
  }

  /** `finalize`. */
  method Finalize(inst: Instance, memory: seq<array<bv64>>, outlen: u32) returns (out: seq<bv8>)
    requires Valid(inst) && |memory| == inst.memoryBlocks && Separate(memory) && outlen > 0
    ensures out == HashedLast(inst, ToMatrix(inst, Blocks(memory)), outlen)
  {
    hide ToMatrix, FinalBlock, VariableHash, ToBytes, Rfc;
    var blockhash := XorLastBlocks(inst, memory);
    var bytes := StoreBlock(blockhash);
    var ret;
    ret, out := Long(outlen, bytes);
  }

  /** `argon2_ctx` with one thread, in any build. */
  method Argon2Ctx(build: Build, c: Context, ty: Argon2Type) returns (status: Status, out: seq<bv8>)
    requires LengthsFit(c)
    ensures status == ValidateInputs(c) && (status == Ok <==> Acceptable(c))
    ensures status == Ok ==> out == Tag(c, ty)
    ensures status != Ok ==> out == []
  {
    hide Fill, Derive, FinalBlock, LastBlock, Hash, H0Input, VariableHash, ToBytes, ToMatrix, FirstBlocksDone, Rfc;
    out := [];
    status := ValidateInputs(c);
    AcceptedIffAcceptable(c);
    if status != Ok {
      return;
    }
    AcceptedGivesValidInstance(c, ty);
    var inst := Derive(c, ty);
    var memory := AllocateMemory(inst.memoryBlocks);
    var h0 := InitialHash(c, ty);
    FillFirstBlocks(inst, memory, h0);
    FirstBlocksSuffice(inst, h0, ToMatrix(inst, Blocks(memory)));
    FillMemoryBlocksSt(build, inst, memory);
    out := Finalize(inst, memory, c.outlen);
  }

  /** With several threads: whatever the memory held besides the first blocks, every schedule has returned after the
      same number of steps, and not before; then the hash of the XOR of the last blocks is the tag. */
  lemma ThreadedRunGivesTag(inst: Instance, h0: seq<bv8>, outlen: u32, m: seq<seq<Block>>, schedule: seq<Argon2Threads.Event>)
    requires Valid(inst) && outlen > 0 && Shaped(inst, m) && FirstBlocksDone(inst, m, h0, inst.lanes)
    requires Argon2Threads.Feasible(Rfc(), inst, Argon2Threads.Initial(inst, m), schedule)
    ensures var end := Argon2Threads.Outcome(Rfc(), inst, Argon2Threads.Initial(inst, m), schedule);
            && |schedule| <= Argon2Termination.Steps(inst)
            && (end.launcher.Returned? <==> |schedule| == Argon2Termination.Steps(inst))
            && (end.launcher.Returned? ==> HashedLast(inst, end.mem, outlen) == TagOf(inst, h0, outlen))
  {
    hide Fill, FinalBlock, LastBlock, VariableHash, ToBytes, FirstBlocksDone, Rfc, Argon2Termination.Steps;
    Argon2Termination.EveryScheduleEnds(Rfc(), inst, m, schedule);
    if Argon2Threads.Outcome(Rfc(), inst, Argon2Threads.Initial(inst, m), schedule).launcher.Returned? {
      Argon2Threads.ThreadedFillIsSequential(Rfc(), inst, m, schedule);
      FirstBlocksSuffice(inst, h0, m);
    }
  }
}
