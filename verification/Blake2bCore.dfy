/** The BLAKE2b compression function: section 3 of RFC 7693, and `blake2b_compress` of argon2/blake2/blake2b.c. */
module Blake2bCore {
  import opened MachineInts

  const IV: seq<bv64> := [
    0x6a09e667f3bcc908, 0xbb67ae8584caa73b, 0x3c6ef372fe94f82b, 0xa54ff53a5f1d36f1,
    0x510e527fade682d1, 0x9b05688c2b3e6c1f, 0x1f83d9abfb41bd6b, 0x5be0cd19137e2179]

  /** The message schedule of section 2.7 of RFC 7693: ten permutations. */
  function Sigma(): seq<seq<nat>> {
    [[0, 1, 2, 3, 4, 5, 6, 7, 8, 9, 10, 11, 12, 13, 14, 15],
     [14, 10, 4, 8, 9, 15, 13, 6, 1, 12, 0, 2, 11, 7, 5, 3],
     [11, 8, 12, 0, 5, 2, 15, 13, 10, 14, 3, 6, 7, 1, 9, 4],
     [7, 9, 3, 1, 13, 12, 11, 14, 2, 6, 5, 10, 4, 0, 15, 8],
     [9, 0, 5, 7, 2, 4, 10, 15, 14, 1, 11, 12, 6, 8, 3, 13],
     [2, 12, 6, 10, 0, 11, 8, 3, 4, 13, 7, 5, 15, 14, 1, 9],
     [12, 5, 1, 15, 14, 13, 4, 10, 0, 7, 6, 3, 9, 2, 8, 11],
     [13, 11, 7, 14, 12, 1, 3, 9, 5, 0, 15, 4, 8, 6, 2, 10],
     [6, 15, 14, 9, 11, 3, 0, 8, 12, 2, 13, 7, 1, 4, 10, 5],
     [10, 2, 8, 4, 7, 6, 1, 5, 15, 11, 9, 14, 3, 12, 13, 0]]
  }

  /** `blake2b_sigma`: one row per round, twelve in all. */
  function SigmaTable(): seq<seq<nat>> {
    [[0, 1, 2, 3, 4, 5, 6, 7, 8, 9, 10, 11, 12, 13, 14, 15],
     [14, 10, 4, 8, 9, 15, 13, 6, 1, 12, 0, 2, 11, 7, 5, 3],
     [11, 8, 12, 0, 5, 2, 15, 13, 10, 14, 3, 6, 7, 1, 9, 4],
     [7, 9, 3, 1, 13, 12, 11, 14, 2, 6, 5, 10, 4, 0, 15, 8],
     [9, 0, 5, 7, 2, 4, 10, 15, 14, 1, 11, 12, 6, 8, 3, 13],
     [2, 12, 6, 10, 0, 11, 8, 3, 4, 13, 7, 5, 15, 14, 1, 9],
     [12, 5, 1, 15, 14, 13, 4, 10, 0, 7, 6, 3, 9, 2, 8, 11],
     [13, 11, 7, 14, 12, 1, 3, 9, 5, 0, 15, 4, 8, 6, 2, 10],
     [6, 15, 14, 9, 11, 3, 0, 8, 12, 2, 13, 7, 1, 4, 10, 5],
     [10, 2, 8, 4, 7, 6, 1, 5, 15, 11, 9, 14, 3, 12, 13, 0],
     [0, 1, 2, 3, 4, 5, 6, 7, 8, 9, 10, 11, 12, 13, 14, 15],
     [14, 10, 4, 8, 9, 15, 13, 6, 1, 12, 0, 2, 11, 7, 5, 3]]
  }

  lemma SigmaRow(i: nat)
    requires i < 10
    ensures |Sigma()| == 10 && IsRow(Sigma()[i])
  {}

  lemma SigmaTableIsCyclic(r: nat)
    requires r < 12
    ensures |SigmaTable()| == 12 && |Sigma()| == 10
    ensures SigmaTable()[r] == Sigma()[r % 10]
  {}

  function Join8(a: bv8, b: bv8, c: bv8, d: bv8, e: bv8, f: bv8, g: bv8, h: bv8): bv64 {
    (a as bv64) | ((b as bv64) << 8) | ((c as bv64) << 16) | ((d as bv64) << 24) |
    ((e as bv64) << 32) | ((f as bv64) << 40) | ((g as bv64) << 48) | ((h as bv64) << 56)
  }

  /** `load64` and `store64`: little-endian. */
  function Load64(b: seq<bv8>): bv64
    requires |b| == 8
  {
    Join8(b[0], b[1], b[2], b[3], b[4], b[5], b[6], b[7])
  }

  function Store64(w: bv64): (b: seq<bv8>)
    ensures |b| == 8
  {
    [(w & 0xFF) as bv8, ((w >> 8) & 0xFF) as bv8, ((w >> 16) & 0xFF) as bv8, ((w >> 24) & 0xFF) as bv8,
     ((w >> 32) & 0xFF) as bv8, ((w >> 40) & 0xFF) as bv8, ((w >> 48) & 0xFF) as bv8, ((w >> 56) & 0xFF) as bv8]
  }

  function Add(x: bv64, y: bv64): bv64 { x + y }

  function Xor(x: bv64, y: bv64): bv64 { x ^ y }

  /** The mixing function G of section 3.1 of RFC 7693 on the working vector. */
  function Mix(v: seq<bv64>, a: nat, b: nat, c: nat, d: nat, x: bv64, y: bv64): (r: seq<bv64>)
    requires |v| == 16 && a < 16 && b < 16 && c < 16 && d < 16
    ensures |r| == 16
  {
    var v := v[a := Add(Add(v[a], v[b]), x)];
    var v := v[d := Rotr64(Xor(v[d], v[a]), 32)];
    var v := v[c := Add(v[c], v[d])];
    var v := v[b := Rotr64(Xor(v[b], v[c]), 24)];
    var v := v[a := Add(Add(v[a], v[b]), y)];
    var v := v[d := Rotr64(Xor(v[d], v[a]), 16)];
    var v := v[c := Add(v[c], v[d])];
    v[b := Rotr64(Xor(v[b], v[c]), 63)]
  }

  /** A row of the schedule. */
  ghost predicate IsRow(s: seq<nat>) {
    && |s| == 16
    && s[0] < 16 && s[1] < 16 && s[2] < 16 && s[3] < 16 && s[4] < 16 && s[5] < 16 && s[6] < 16 && s[7] < 16
    && s[8] < 16 && s[9] < 16 && s[10] < 16 && s[11] < 16 && s[12] < 16 && s[13] < 16 && s[14] < 16 && s[15] < 16
  }

  /** One round: the four columns, then the four diagonals. */
  ghost function MixColumns(v: seq<bv64>, m: seq<bv64>, s: seq<nat>): (r: seq<bv64>)
    requires |v| == 16 == |m| && IsRow(s)
    ensures |r| == 16
  {
    hide Mix;
    var v := Mix(v, 0, 4, 8, 12, m[s[0]], m[s[1]]);
    var v := Mix(v, 1, 5, 9, 13, m[s[2]], m[s[3]]);
    var v := Mix(v, 2, 6, 10, 14, m[s[4]], m[s[5]]);
    Mix(v, 3, 7, 11, 15, m[s[6]], m[s[7]])
  }

  ghost function MixDiagonals(v: seq<bv64>, m: seq<bv64>, s: seq<nat>): (r: seq<bv64>)
    requires |v| == 16 == |m| && IsRow(s)
    ensures |r| == 16
  {
    hide Mix;
    var v := Mix(v, 0, 5, 10, 15, m[s[8]], m[s[9]]);
    var v := Mix(v, 1, 6, 11, 12, m[s[10]], m[s[11]]);
    var v := Mix(v, 2, 7, 8, 13, m[s[12]], m[s[13]]);
    Mix(v, 3, 4, 9, 14, m[s[14]], m[s[15]])
  }

  /** The first `n` rounds. */
  ghost function Rounds(v: seq<bv64>, m: seq<bv64>, n: nat): (r: seq<bv64>)
    requires |v| == 16 == |m|
    ensures |r| == 16
  {
    hide Sigma, MixColumns, MixDiagonals, IsRow;
    if n == 0 then v
    else
      SigmaRow((n - 1) % 10);
      var s := Sigma()[(n - 1) % 10];
      MixDiagonals(MixColumns(Rounds(v, m, n - 1), m, s), m, s)
  }

  function MessageWords(block: seq<bv8>): (m: seq<bv64>)
    requires |block| == 128
    ensures |m| == 16
  {
    seq(16, i requires 0 <= i < 16 => Load64(block[8 * i..8 * i + 8]))
  }

  /** The low and the high word of the 128-bit offset counter. */
  function Low(t: nat): u64 { t % TWO_64 }

  function High(t: nat): u64 { t / TWO_64 % TWO_64 }

  function ToWord(x: u64): bv64 { x as bv64 }

  function WorkingVector(h: seq<bv64>, t0: u64, t1: u64, f0: bv64, f1: bv64): (v: seq<bv64>)
    requires |h| == 8
    ensures |v| == 16
  {
    h + FixedHalf(t0, t1, f0, f1)
  }

  function FixedHalf(t0: u64, t1: u64, f0: bv64, f1: bv64): (v: seq<bv64>)
    ensures |v| == 8
  {
    [IV[0], IV[1], IV[2], IV[3], Xor(IV[4], ToWord(t0)), Xor(IV[5], ToWord(t1)), Xor(IV[6], f0), Xor(IV[7], f1)]
  }

  function Feed(h: seq<bv64>, v: seq<bv64>): (r: seq<bv64>)
    requires |h| == 8 && |v| == 16
    ensures |r| == 8
  {
    seq(8, i requires 0 <= i < 8 => Xor(Xor(h[i], v[i]), v[i + 8]))
  }

  const ALL_ONES: bv64 := 0xFFFF_FFFF_FFFF_FFFF

  /** The compression function F(h, m, t, f) of section 3.2 of RFC 7693. */
  ghost function F(h: seq<bv64>, block: seq<bv8>, t: nat, last: bool): (r: seq<bv64>)
    requires |h| == 8 && |block| == 128
    ensures |r| == 8
  {
    Feed(h, Rounds(WorkingVector(h, Low(t), High(t), if last then ALL_ONES else 0, 0), MessageWords(block), 12))
  }

  /** The macro G of `blake2b_compress`. */
  method MixInPlace(v: array<bv64>, a: nat, b: nat, c: nat, d: nat, x: bv64, y: bv64)
    requires v.Length == 16 && a < 16 && b < 16 && c < 16 && d < 16
    modifies v
    ensures v[..] == Mix(old(v[..]), a, b, c, d, x, y)
  {
    hide Rotr64, Add, Xor;
    v[a] := Add(Add(v[a], v[b]), x);
    v[d] := Rotr64(Xor(v[d], v[a]), 32);
    v[c] := Add(v[c], v[d]);
    v[b] := Rotr64(Xor(v[b], v[c]), 24);
    v[a] := Add(Add(v[a], v[b]), y);
    v[d] := Rotr64(Xor(v[d], v[a]), 16);
    v[c] := Add(v[c], v[d]);
    v[b] := Rotr64(Xor(v[b], v[c]), 63);
  }

  /** The macro ROUND, with a row of the schedule. */
  method RoundInPlace(v: array<bv64>, m: array<bv64>, s: seq<nat>)
    requires v.Length == 16 == m.Length && v != m && IsRow(s)
    modifies v
    ensures v[..] == MixDiagonals(MixColumns(old(v[..]), m[..], s), m[..], s)
  {
    hide Mix;
    MixInPlace(v, 0, 4, 8, 12, m[s[0]], m[s[1]]);
    MixInPlace(v, 1, 5, 9, 13, m[s[2]], m[s[3]]);
    MixInPlace(v, 2, 6, 10, 14, m[s[4]], m[s[5]]);
    MixInPlace(v, 3, 7, 11, 15, m[s[6]], m[s[7]]);
    assert v[..] == MixColumns(old(v[..]), m[..], s);
    hide MixColumns;
    MixInPlace(v, 0, 5, 10, 15, m[s[8]], m[s[9]]);
    MixInPlace(v, 1, 6, 11, 12, m[s[10]], m[s[11]]);
    MixInPlace(v, 2, 7, 8, 13, m[s[12]], m[s[13]]);
    MixInPlace(v, 3, 4, 9, 14, m[s[14]], m[s[15]]);
  }

  method LoadMessage(block: seq<bv8>) returns (m: array<bv64>)
    requires |block| == 128
    ensures fresh(m) && m.Length == 16 && m[..] == MessageWords(block)
  {
    hide Load64;
    m := new bv64[16];
    for i := 0 to 16
      invariant forall k :: 0 <= k < i ==> m[k] == MessageWords(block)[k]
    {
      m[i] := Load64(block[8 * i..8 * i + 8]);
    }
  }

  method StartVector(h: array<bv64>, t0: u64, t1: u64, f0: bv64, f1: bv64) returns (v: array<bv64>)
    requires h.Length == 8
    ensures fresh(v) && v.Length == 16 && v[..] == WorkingVector(h[..], t0, t1, f0, f1)
  {
    hide FixedHalf;
    v := new bv64[16];
    for i := 0 to 8
      invariant forall k :: 0 <= k < i ==> v[k] == h[k]
    {
      v[i] := h[i];
    }
    var fixed := FixedHalf(t0, t1, f0, f1);
    for i := 0 to 8
      invariant forall k :: 0 <= k < 8 ==> v[k] == h[k]
      invariant forall k :: 0 <= k < i ==> v[k + 8] == fixed[k]
    {
      v[8 + i] := fixed[i];
    }
    assert v[8..] == fixed;
  }

  /** `blake2b_compress` on the chaining words `h`. */
  method Compress(h: array<bv64>, t0: u64, t1: u64, f0: bv64, f1: bv64, block: seq<bv8>)
    requires h.Length == 8 && |block| == 128
    modifies h
    ensures h[..] == Feed(old(h[..]), Rounds(WorkingVector(old(h[..]), t0, t1, f0, f1), MessageWords(block), 12))
  {
    hide MixColumns, MixDiagonals, Sigma, SigmaTable, Xor, IsRow, WorkingVector, MessageWords;
    var m := LoadMessage(block);
    var v := StartVector(h, t0, t1, f0, f1);
    ghost var w := v[..];
    for r := 0 to 12
      invariant v[..] == Rounds(w, m[..], r)
      invariant m[..] == MessageWords(block) && h[..] == old(h[..])
    {
      SigmaTableIsCyclic(r);
      SigmaRow(r % 10);
      RoundInPlace(v, m, SigmaTable()[r]);
    }
    FeedBack(h, v);
  }

  method FeedBack(h: array<bv64>, v: array<bv64>)
    requires h.Length == 8 && v.Length == 16
    modifies h
    ensures h[..] == Feed(old(h[..]), old(v[..]))
  {
    hide Xor;
    for i := 0 to 8
      invariant forall k :: 0 <= k < 8 ==> h[k] == if k < i then Xor(Xor(old(h[k]), v[k]), v[k + 8]) else old(h[k])
    {
      h[i] := Xor(Xor(h[i], v[i]), v[i + 8]);
    }
  }
}
