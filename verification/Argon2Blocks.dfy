/** Blocks of 128 words in memory, and the compression of argon2/ref.c and argon2/opt.c as the one of RFC 9106. */
module Argon2Blocks {
  import opened MachineInts
  import opened Wrappers
  import opened Argon2Matrix
  import opened Blamka
  import opened BlamkaBlock
  import opened BlamkaSimd
  import opened BlamkaAvx

  // ---- the primitives of the RFC ----

  function ValueOf(w: bv64): u64 { w as int }

  /** The word with the value `n` modulo 2^64. */
  function ToWord(n: nat): bv64 { if n == 0 then 0 else ToWord(n - 1) + 1 }

  function WordAt(b: Block, i: nat): u64 { if i < 128 then ValueOf(b[i]) else 0 }

  function WordsBlock(ws: seq<nat>): Block {
    seq(128, k requires 0 <= k < 128 => if k < |ws| then ToWord(ws[k]) else 0)
  }

  /** With G of section 3.5 of RFC 9106 as the compression function. */
  function Rfc(): Primitives<Block> {
    Primitives((prev, ref, old_) => Compress(prev, ref, old_), (b, i) => WordAt(b, i), ws => WordsBlock(ws), (a, b) => Xor(a, b))
  }

  // ---- memory ----

  /** Blocks that do not overlap. */
  ghost predicate Separate(memory: seq<array<bv64>>) {
    && (forall i :: 0 <= i < |memory| ==> memory[i].Length == 128)
    && (forall i, j :: 0 <= i < j < |memory| ==> memory[i] != memory[j])
  }

  ghost function BlockOf(a: array<bv64>): Block
    requires a.Length == 128
    reads a
  {
    a[..]
  }

  /** What the memory holds. */
  ghost function Blocks(memory: seq<array<bv64>>): (s: seq<Block>)
    requires Separate(memory)
    reads memory
    ensures |s| == |memory| && forall i :: 0 <= i < |s| ==> s[i] == memory[i][..]
  {
    seq<Block>(|memory|, i requires 0 <= i < |memory| && memory[i].Length == 128 reads memory => BlockOf(memory[i]))
  }

  // ---- the three builds of the block function ----

  datatype Build = Reference | Sse2 | Ssse3 | Avx2

  /** The array `state` of argon2/opt.c, of 64 or of 32 registers. */
  class Registers {
    const build: Build
    const narrow: array<V2<bv64>>
    const wide: array<V4<bv64>>

    ghost function Repr(): set<object> { {narrow, wide} }

    ghost predicate Valid() {
      narrow.Length == 64 && wide.Length == 32
    }

    ghost function Words(): Block
      requires Valid()
      reads narrow, wide
    {
      if build.Avx2? then Words4(wide[..]) else Words2(narrow[..])
    }

    /** A copy of a block. */
    constructor (build: Build, b: array<bv64>)
      requires b.Length == 128
      ensures Valid() && fresh(narrow) && fresh(wide) && Words() == b[..] && this.build == build
    {
      this.build := build;
      narrow := new V2<bv64>[64](m requires 0 <= m < 64 reads b => V2(b[2 * m], b[2 * m + 1]));
      wide := new V4<bv64>[32](m requires 0 <= m < 32 reads b => V4(b[4 * m], b[4 * m + 1], b[4 * m + 2], b[4 * m + 3]));
      new;
      if build.Avx2? {
        Words4At(wide[..], b[..]);
      } else {
        Words2At(narrow[..], b[..]);
      }
    }

    /** `fill_block`. */
    method FillBlock(ref: array<bv64>, next: array<bv64>, withXor: bool)
      requires Valid() && ref.Length == 128 == next.Length
      modifies narrow, wide, next
      ensures Words() == next[..] == Compress(old(Words()), old(ref[..]), if withXor then Some(old(next[..])) else None)
    {
      hide Compress, Words2, Words4;
      if build.Avx2? {
        FillBlockAvx2(wide, ref, next, withXor);
      } else {
        FillBlockSse(build.Ssse3?, narrow, ref, next, withXor);
      }
    }
  }
}
