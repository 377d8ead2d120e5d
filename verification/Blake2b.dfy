/** Streaming BLAKE2b (argon2/blake2/blake2b.c) against the one-shot definition of section 3.3 of RFC 7693. */
module Blake2b {
  import opened MachineInts
  import opened Blake2bCore

  const BLOCKBYTES: nat := 128
  const OUTBYTES: nat := 64
  const KEYBYTES: nat := 64

  // ---- the hash of the RFC ----

  function ByteOf(n: nat): bv8
    requires n < 256
  {
    n as bv8
  }

  function Zeros(n: nat): (z: seq<bv8>)
    ensures |z| == n
  {
    seq(n, i => 0)
  }

  /** h := IV, with the parameter word folded into the first element. */
  function InitialChain(nn: bv8, kk: bv8): (h: seq<bv64>)
    ensures |h| == 8
  {
    IV[0 := Xor(IV[0], 0x01010000 ^ ((kk as bv64) << 8) ^ (nn as bv64))]
  }

  /** The chaining value after the first `n` blocks of the data, none of which is the last. */
  ghost function Chain(start: seq<bv64>, data: seq<bv8>, n: nat): (h: seq<bv64>)
    requires |start| == 8 && 128 * n <= |data|
    ensures |h| == 8
  {
    if n == 0 then start else F(Chain(start, data, n - 1), data[128 * (n - 1)..128 * n], 128 * n, false)
  }

  /** All blocks but the last one, which is never empty unless the data is. */
  function FullBlocks(len: nat): (n: nat)
    ensures 128 * n <= len
  {
    if len == 0 then 0 else (len - 1) / 128
  }

  /** The little-endian bytes of the chaining value. */
  function Bytes(h: seq<bv64>): (b: seq<bv8>)
    requires |h| == 8
    ensures |b| == 64
  {
    Store64(h[0]) + Store64(h[1]) + Store64(h[2]) + Store64(h[3]) + Store64(h[4]) + Store64(h[5]) + Store64(h[6]) + Store64(h[7])
  }

  ghost function Digest(nn: nat, start: seq<bv64>, data: seq<bv8>): (d: seq<bv8>)
    requires |start| == 8 && nn <= 64
    ensures |d| == nn
  {
    var n := FullBlocks(|data|);
    var last := data[128 * n..];
    Bytes(F(Chain(start, data, n), last + Zeros(128 - |last|), |data|, true))[..nn]
  }

  /** The data with the key block in front. */
  function Keyed(key: seq<bv8>, input: seq<bv8>): seq<bv8>
    requires |key| <= 64
  {
    if key == [] then input else key + Zeros(128 - |key|) + input
  }

  /** BLAKE2b with `nn` bytes of output. */
  ghost function Hash(nn: nat, key: seq<bv8>, input: seq<bv8>): (d: seq<bv8>)
    requires nn <= 64 && |key| <= 64
    ensures |d| == nn
  {
    Digest(nn, InitialChain(ByteOf(nn), ByteOf(|key|)), Keyed(key, input))
  }

  // ---- arithmetic of the counter and of the block count ----

  lemma CounterStep(t: nat, inc: nat)
    requires inc < TWO_64
    ensures Wrap64(Low(t) + inc) == Low(t + inc)
    ensures Wrap64(High(t) + (if Wrap64(Low(t) + inc) < inc then 1 else 0)) == High(t + inc)
  {
    var q, r := t / TWO_64, t % TWO_64;
    assert t == q * TWO_64 + r;
    if r + inc < TWO_64 {
      assert (t + inc) / TWO_64 == q && (t + inc) % TWO_64 == r + inc;
    } else {
      assert (t + inc) / TWO_64 == q + 1 && (t + inc) % TWO_64 == r + inc - TWO_64;
    }
  }

  lemma FullBlocksIs(n: nat, len: nat)
    requires 128 * n < len <= 128 * n + 128
    ensures FullBlocks(len) == n
  {}

  lemma {:induction false} ChainOfPrefix(start: seq<bv64>, data: seq<bv8>, more: seq<bv8>, n: nat)
    requires |start| == 8 && 128 * n <= |data|
    ensures Chain(start, data + more, n) == Chain(start, data, n)
  {
    hide F;
    if n > 0 {
      ChainOfPrefix(start, data, more, n - 1);
      assert (data + more)[128 * (n - 1)..128 * n] == data[128 * (n - 1)..128 * n];
    }
  }

  lemma ChainStep(start: seq<bv64>, data: seq<bv8>, n: nat)
    requires |start| == 8 && 128 * n + 128 <= |data|
    ensures Chain(start, data, n + 1) == F(Chain(start, data, n), data[128 * n..128 * n + 128], 128 * n + 128, false)
  {
    hide F;
  }

  lemma Slice(data: seq<bv8>, input: seq<bv8>, pos: nat, n: nat)
    requires pos + n <= |input|
    ensures (data + input)[|data| + pos..|data| + pos + n] == input[pos..pos + n]
  {}

  lemma Join(s: seq<bv8>, lo: nat, mid: nat, hi: nat)
    requires lo <= mid <= hi <= |s|
    ensures s[lo..hi] == s[lo..mid] + s[mid..hi]
  {}

  // ---- the parameter block ----

  /** The packed `blake2b_param` of `blake2b_init` and `blake2b_init_key`. */
  function ParamBlock(outlen: bv8, keylen: bv8): (p: seq<bv8>)
    ensures |p| == 64
  {
    [outlen, keylen, 1, 1] + Zeros(60)
  }

  lemma ParamWords(outlen: bv8, keylen: bv8, i: nat)
    requires i < 8
    ensures Load64(ParamBlock(outlen, keylen)[8 * i..8 * i + 8]) ==
      if i == 0 then 0x01010000 ^ ((keylen as bv64) << 8) ^ (outlen as bv64) else 0
  {
    var w := ParamBlock(outlen, keylen)[8 * i..8 * i + 8];
    if i == 0 {
      assert w == [outlen, keylen, 1, 1, 0, 0, 0, 0];
      FirstParamWord(outlen, keylen);
    } else {
      assert w == [0, 0, 0, 0, 0, 0, 0, 0];
    }
  }

  lemma FirstParamWord(outlen: bv8, keylen: bv8)
    ensures Load64([outlen, keylen, 1, 1, 0, 0, 0, 0]) == 0x01010000 ^ ((keylen as bv64) << 8) ^ (outlen as bv64)
  {}

  lemma XorZero(x: bv64)
    ensures Xor(x, 0) == x
  {}

  class Blake2bState {
    const h: array<bv64>
    const buf: array<bv8>
    var t0: u64
    var t1: u64
    var f0: bv64
    var f1: bv64
    var buflen: nat
    var outlen: nat
    /** The chaining value after initialisation, and everything hashed since. */
    ghost var start: seq<bv64>
    ghost var data: seq<bv8>

    ghost predicate Allocated() { h.Length == 8 && buf.Length == 128 }

    /** The state is a function of the data alone: all blocks but the last 1..128 bytes are compressed, the
        counter holds the number of compressed bytes, the buffer holds the rest. */
    ghost predicate Absorbing()
      reads this, h, buf
    {
      && Allocated() && f0 == 0 && f1 == 0 && |start| == 8 && 1 <= outlen <= 64
      && var n := FullBlocks(|data|);
      && h[..] == Chain(start, data, n)
      && t0 == Low(128 * n) && t1 == High(128 * n)
      && buflen == |data| - 128 * n && buflen <= 128
      && buf[..buflen] == data[128 * n..]
    }

    constructor ()
      ensures Allocated() && fresh(h) && fresh(buf)
    {
      h := new bv64[8];
      buf := new bv8[128];
    }

    /** `blake2b_init_param` for the parameter blocks of this file. */
    method InitParam(outlen: bv8, keylen: bv8, length: nat)
      requires Allocated() && 1 <= length <= 64
      modifies this, h, buf
      ensures Absorbing() && data == [] && this.outlen == length && start == InitialChain(outlen, keylen)
    {
      hide F, Load64, Xor, ParamBlock;
      var p := ParamBlock(outlen, keylen);
      for i := 0 to 8
        invariant forall k :: 0 <= k < i ==> h[k] == InitialChain(outlen, keylen)[k]
      {
        h[i] := Xor(IV[i], Load64(p[8 * i..8 * i + 8]));
        ParamWords(outlen, keylen, i);
        XorZero(IV[i]);
      }
      forall k | 0 <= k < 128 {
        buf[k] := 0;
      }
      t0, t1, f0, f1, buflen := 0, 0, 0, 0, 0;
      this.outlen := length;
      start, data := InitialChain(outlen, keylen), [];
    }

    /** `blake2b_invalidate_state`. */
    method Invalidate()
      requires Allocated()
      modifies this, h, buf
      ensures f0 != 0
    {
      forall k | 0 <= k < 8 {
        h[k] := 0;
      }
      forall k | 0 <= k < 128 {
        buf[k] := 0;
      }
      t0, t1, f1, buflen, outlen := 0, 0, 0, 0, 0;
      f0 := ALL_ONES;
    }

    /** `blake2b_init`. */
    method Init(outlen: nat) returns (ret: int)
      requires Allocated()
      modifies this, h, buf
      ensures ret == if 1 <= outlen <= 64 then 0 else -1
      ensures ret == 0 ==> Absorbing() && data == [] && this.outlen == outlen && start == InitialChain(ByteOf(outlen), ByteOf(0))
      ensures ret != 0 ==> f0 != 0
    {
      hide Absorbing, InitialChain, ByteOf;
      if outlen == 0 || outlen > OUTBYTES {
        Invalidate();
        return -1;
      }
      InitParam(ByteOf(outlen), ByteOf(0), outlen);
      return 0;
    }

    /** `blake2b_init_key`. */
    method InitKey(outlen: nat, key: seq<bv8>) returns (ret: int)
      requires Allocated()
      modifies this, h, buf
      ensures ret == if 1 <= outlen <= 64 && 1 <= |key| <= 64 then 0 else -1
      ensures ret == 0 ==> Absorbing() && data == key + Zeros(128 - |key|) && this.outlen == outlen
                           && start == InitialChain(ByteOf(outlen), ByteOf(|key|))
      ensures ret != 0 ==> f0 != 0
    {
      hide InitialChain, ByteOf, Chain, FullBlocks, Zeros;
      if outlen == 0 || outlen > OUTBYTES || |key| == 0 || |key| > KEYBYTES {
        Invalidate();
        return -1;
      }
      InitParam(ByteOf(outlen), ByteOf(|key|), outlen);
      var block := key + Zeros(128 - |key|);
      ret := Update(block);
    }

    /** `blake2b_increment_counter`. */
    method IncrementCounter(inc: u64)
      modifies this`t0, this`t1
      ensures t0 == Wrap64(old(t0) + inc)
      ensures t1 == Wrap64(old(t1) + if t0 < inc then 1 else 0)
    {
      t0 := Wrap64(t0 + inc);
      t1 := Wrap64(t1 + if t0 < inc then 1 else 0);
    }

    /** In the middle of an update: the first `k` blocks of `all` are compressed and the buffer holds what follows. */
    ghost predicate Consumed(all: seq<bv8>, k: nat)
      reads `t0, `t1, `f0, `f1, `buflen, `start, h, buf
    {
      && Allocated() && f0 == 0 && f1 == 0 && |start| == 8 && buflen <= 128
      && 128 * k + buflen <= |all|
      && h[..] == Chain(start, all, k)
      && t0 == Low(128 * k) && t1 == High(128 * k)
      && buf[..buflen] == all[128 * k..128 * k + buflen]
    }

    /** `blake2b_increment_counter` and `blake2b_compress` on a block that is not the last. */
    method Absorb(block: seq<bv8>, ghost all: seq<bv8>, ghost k: nat)
      requires Consumed(all, k) && buflen == 0 && 128 * k + 128 <= |all| && block == all[128 * k..128 * k + 128]
      modifies h, this`t0, this`t1
      ensures Consumed(all, k + 1)
    {
      hide Low, High, Wrap64, Rounds, WorkingVector, Feed, MessageWords, Chain;
      CounterStep(128 * k, 128);
      ChainStep(start, all, k);
      IncrementCounter(BLOCKBYTES);
      Compress(h, t0, t1, f0, f1, block);
    }

    /** `memcpy(&S->buf[S->buflen], pin, inlen)`. */
    method Store(piece: seq<bv8>, ghost all: seq<bv8>, ghost k: nat)
      requires Consumed(all, k) && buflen + |piece| <= 128
      requires 128 * k + buflen + |piece| <= |all| && piece == all[128 * k + buflen..128 * k + buflen + |piece|]
      modifies buf, this`buflen
      ensures Consumed(all, k) && buflen == old(buflen) + |piece|
    {
      hide Low, High, Chain;
      var at := buflen;
      forall i | 0 <= i < |piece| {
        buf[at + i] := piece[i];
      }
      buflen := buflen + |piece|;
      assert h[..] == old(h[..]);
      assert buf[..at] == old(buf[..at]) && buf[at..buflen] == piece;
      Join(buf[..], 0, at, buflen);
      assert buf[..buflen] == buf[..][0..buflen] && buf[..at] == buf[..][0..at] && buf[at..buflen] == buf[..][at..buflen];
      Join(all, 128 * k, 128 * k + at, 128 * k + buflen);
    }

    lemma BeforeUpdate(input: seq<bv8>)
      requires Absorbing()
      ensures Consumed(data + input, FullBlocks(|data|)) && 128 * FullBlocks(|data|) + buflen == |data|
      ensures Allocated() && f0 == 0 && |start| == 8 && 1 <= outlen <= 64 && buflen <= 128
    {
      hide F, Low, High, Chain;
      ChainOfPrefix(start, data, input, FullBlocks(|data|));
    }

    lemma AfterUpdate(k: nat)
      requires Consumed(data, k) && 128 * k + buflen == |data| && 1 <= buflen && 1 <= outlen <= 64
      ensures Absorbing()
    {
      hide F, Low, High, Chain;
      FullBlocksIs(k, |data|);
    }

    /** `blake2b_update`. An object in memory is shorter than 2^63 bytes, so `buflen + inlen` cannot wrap. */
    method Update(input: seq<bv8>) returns (ret: int)
      requires Allocated() && (Absorbing() || f0 != 0)
      requires |input| < 0x8000_0000_0000_0000
      modifies this, h, buf
      ensures ret == if input != [] && old(f0) != 0 then -1 else 0
      ensures old(f0) == 0 ==> Absorbing() && data == old(data) + input
      ensures old(f0) != 0 ==> f0 == old(f0)
      ensures start == old(start) && outlen == old(outlen)
    {
      hide Low, High, Chain, Consumed, Absorbing, FullBlocks;
      if |input| == 0 {
        assert data + input == data;
        return 0;
      }
      if f0 != 0 {
        return -1;
      }
      BeforeUpdate(input);
      ghost var all := data + input;
      ghost var k := FullBlocks(|data|);
      var pos := 0;
      if buflen + |input| > BLOCKBYTES {
        var fill := BLOCKBYTES - buflen;
        Slice(data, input, 0, fill);
        Complete(input[..fill], all, k);
        k := k + 1;
        pos := fill;
        while |input| - pos > BLOCKBYTES
          invariant fill <= pos < |input| && 128 * k == |data| + pos
          invariant Consumed(all, k) && buflen == 0
          invariant start == old(start) && outlen == old(outlen) && data == old(data)
        {
          Slice(data, input, pos, 128);
          Absorb(input[pos..pos + 128], all, k);
          k := k + 1;
          pos := pos + 128;
        }
      }
      Slice(data, input, pos, |input| - pos);
      Store(input[pos..], all, k);
      data := all;
      AfterUpdate(k);
      return 0;
    }

    /** Complete the current block. */
    method Complete(piece: seq<bv8>, ghost all: seq<bv8>, ghost k: nat)
      requires Consumed(all, k) && buflen + |piece| == 128
      requires 128 * k + 128 <= |all| && piece == all[128 * k + buflen..128 * k + 128]
      modifies h, buf, this`t0, this`t1, this`buflen
      ensures Consumed(all, k + 1) && buflen == 0
    {
      hide F, Low, High, Chain;
      Store(piece, all, k);
      var block := buf[..];
      assert block == buf[..buflen];
      buflen := 0;
      Absorb(block, all, k);
    }

    /** `blake2b_final`: the digest, in a buffer of `space` bytes. Afterwards the state is spent. */
    method Final(space: nat) returns (ret: int, out: seq<bv8>)
      requires Absorbing() || (Allocated() && f0 != 0)
      modifies this, h, buf
      ensures ret == if space < old(outlen) || old(f0) != 0 then -1 else 0
      ensures ret == 0 ==> f0 != 0 && out == Digest(old(outlen), old(start), old(data))
      ensures ret != 0 ==> out == [] && f0 == old(f0)
    {
      hide F, Low, High, Store64;
      out := [];
      if space < outlen {
        return -1, out;
      }
      if f0 != 0 {
        return -1, out;
      }
      ghost var n := FullBlocks(|data|);
      ghost var last := data[128 * n..];
      CounterStep(128 * n, buflen);
      IncrementCounter(buflen);
      f0 := ALL_ONES;
      var from := buflen;
      forall k | from <= k < BLOCKBYTES {
        buf[k] := 0;
      }
      assert buf[..] == last + Zeros(128 - |last|);
      assert h[..] == Chain(start, data, n);
      LastBlock(buf[..], |data|);
      assert h[..] == F(Chain(start, data, n), last + Zeros(128 - |last|), |data|, true);
      out := Bytes(h[..])[..outlen];
      assert out == Digest(outlen, start, data);
      forall k | 0 <= k < 128 {
        buf[k] := 0;
      }
      forall k | 0 <= k < 8 {
        h[k] := 0;
      }
      return 0, out;
    }

    method LastBlock(block: seq<bv8>, ghost total: nat)
      requires Allocated() && |block| == 128 && t0 == Low(total) && t1 == High(total) && f0 == ALL_ONES && f1 == 0
      modifies h
      ensures h[..] == F(old(h[..]), block, total, true)
    {
      hide Low, High, Rounds, WorkingVector, Feed, MessageWords;
      Compress(h, t0, t1, f0, f1, block);
    }
  }

  /** Two states that absorbed the same data after the same initialisation agree in everything that matters,
      however the data was cut into updates. */
  lemma StateIsFunctionOfInput(a: Blake2bState, b: Blake2bState)
    requires a.Absorbing() && b.Absorbing() && a.data == b.data && a.start == b.start
    ensures a.h[..] == b.h[..] && a.t0 == b.t0 && a.t1 == b.t1 && a.buflen == b.buflen
    ensures a.buf[..a.buflen] == b.buf[..b.buflen]
    ensures a.buflen == 0 <==> a.data == []
  {
    hide F, Low, High, Chain;
  }

  /** `blake2b`: the one-shot interface. */
  method OneShot(outlen: nat, space: nat, input: seq<bv8>, key: seq<bv8>) returns (ret: int, out: seq<bv8>)
    requires |input| < 0x8000_0000_0000_0000 && outlen <= space
    ensures ret == if 1 <= outlen <= 64 && |key| <= 64 then 0 else -1
    ensures ret == 0 ==> out == Hash(outlen, key, input)
    ensures ret != 0 ==> out == []
  {
    hide Digest, InitialChain, ByteOf, Chain, FullBlocks, Zeros, Low, High;
    out := [];
    if outlen == 0 || outlen > OUTBYTES {
      return -1, out;
    }
    if |key| > KEYBYTES {
      return -1, out;
    }
    var s := new Blake2bState();
    if |key| > 0 {
      ret := s.InitKey(outlen, key);
    } else {
      ret := s.Init(outlen);
      assert [] + input == input;
    }
    ret := s.Update(input);
    ret, out := s.Final(space);
  }

  // ---- the variable-length hash of Argon2 ----

  /** `store32`: little-endian. */
  function Store32(n: u32): (b: seq<bv8>)
    ensures |b| == 4
  {
    [ByteOf(n % 256), ByteOf(n / 256 % 256), ByteOf(n / 65536 % 256), ByteOf(n / 16777216 % 256)]
  }

  /** V_i of section 3.3 of RFC 9106. */
  ghost function V(length: u32, input: seq<bv8>, i: nat): (v: seq<bv8>)
    requires 1 <= i
    ensures |v| == 64
  {
    if i == 1 then Hash(64, [], Store32(length) + input) else Hash(64, [], V(length, input, i - 1))
  }

  /** W_1 || ... || W_r, the first halves. */
  ghost function FirstHalves(length: u32, input: seq<bv8>, r: nat): (w: seq<bv8>)
    ensures |w| == 32 * r
  {
    if r == 0 then [] else FirstHalves(length, input, r - 1) + V(length, input, r)[..32]
  }

  /** H' of section 3.3 of RFC 9106. */
  ghost function VariableHash(length: u32, input: seq<bv8>): (d: seq<bv8>)
    requires 1 <= length
    ensures |d| == length
  {
    if length <= 64 then Hash(length, [], Store32(length) + input)
    else
      var r := (length + 31) / 32 - 2;
      FirstHalves(length, input, r) + Hash(length - 32 * r, [], V(length, input, r))
  }

  /** The output by position: as long as more than 64 bytes are wanted, the first half of each digest of the chain, and in the
      end a digest of 33 to 64 bytes. */
  lemma VariableHashIs(length: u32, input: seq<bv8>, i: nat)
    requires length > 64 && 1 <= i && 32 * i + 33 <= length
    ensures var d := VariableHash(length, input);
            && d[32 * (i - 1)..32 * i] == V(length, input, i)[..32]
            && (length <= 32 * i + 64 ==> d[32 * i..] == Hash(length - 32 * i, [], V(length, input, i)))
    ensures V(length, input, 1) == Hash(64, [], Store32(length) + input) && V(length, input, i + 1) == Hash(64, [], V(length, input, i))
  {
    hide Hash, Store32;
    var r := (length + 31) / 32 - 2;
    assert i <= r && (length <= 32 * i + 64 ==> i == r);
    HalfAt(length, input, r, i);
    var first := FirstHalves(length, input, r);
    assert VariableHash(length, input)[32 * (i - 1)..32 * i] == first[32 * (i - 1)..32 * i];
  }

  lemma {:induction false} HalfAt(length: u32, input: seq<bv8>, r: nat, i: nat)
    requires 1 <= i <= r
    ensures FirstHalves(length, input, r)[32 * (i - 1)..32 * i] == V(length, input, i)[..32]
    decreases r
  {
    hide V;
    var before, half := FirstHalves(length, input, r - 1), V(length, input, r)[..32];
    assert FirstHalves(length, input, r) == before + half && |before| == 32 * (r - 1);
    if i < r {
      HalfAt(length, input, r - 1, i);
      assert (before + half)[32 * (i - 1)..32 * i] == before[32 * (i - 1)..32 * i];
    } else {
      Behind(before, half);
    }
  }

  lemma Behind<T>(a: seq<T>, b: seq<T>)
    ensures (a + b)[|a|..|a| + |b|] == b
  {}

  /** `blake2b_long`. */
  method Long(outlen: u64, input: seq<bv8>) returns (ret: int, out: seq<bv8>)
    requires |input| < 0x8000_0000_0000_0000
    ensures ret == if 1 <= outlen < TWO_32 then 0 else -1
    ensures ret == 0 ==> out == VariableHash(outlen, input)
    ensures ret != 0 ==> out == []
  {
    hide Hash, Digest, InitialChain, ByteOf, Chain, FullBlocks, Zeros, Low, High, Store32;
    out := [];
    if outlen >= TWO_32 {
      return -1, out;
    }
    var s := new Blake2bState();
    ret := s.Init(if outlen <= OUTBYTES then outlen else OUTBYTES);
    if ret < 0 {
      return ret, out;
    }
    ret := s.Update(Store32(outlen));
    ret := s.Update(input);
    assert [] + Store32(outlen) + input == Store32(outlen) + input;
    if outlen <= OUTBYTES {
      ret, out := s.Final(outlen);
      assert out == Hash(outlen, [], Store32(outlen) + input) by { Unkeyed(outlen, Store32(outlen) + input); }
    } else {
      var buffer;
      ret, buffer := s.Final(OUTBYTES);
      assert buffer == V(outlen, input, 1) by { Unkeyed(64, Store32(outlen) + input); }
      out := buffer[..OUTBYTES / 2];
      assert [] + buffer[..32] == out;
      ghost var i := 1;
      var toproduce := outlen - OUTBYTES / 2;
      while toproduce > OUTBYTES
        invariant 1 <= i && toproduce == outlen - 32 * i && 33 <= toproduce
        invariant ret == 0 && buffer == V(outlen, input, i) && out == FirstHalves(outlen, input, i)
      {
        ret, buffer := OneShot(OUTBYTES, OUTBYTES, buffer, []);
        out := out + buffer[..OUTBYTES / 2];
        toproduce := toproduce - OUTBYTES / 2;
        i := i + 1;
      }
      assert (outlen + 31) / 32 - 2 == i;
      ret, buffer := OneShot(toproduce, OUTBYTES, buffer, []);
      out := out + buffer;
    }
  }

  lemma Unkeyed(nn: nat, input: seq<bv8>)
    requires nn <= 64
    ensures Hash(nn, [], input) == Digest(nn, InitialChain(ByteOf(nn), ByteOf(0)), input)
  {
    hide Digest, InitialChain, ByteOf;
  }
}
