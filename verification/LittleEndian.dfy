/** Numbers as bytes, the least significant byte first. */
module LittleEndian {
  /** The sum of `b[k] * 256^k`. */
  function Value(b: seq<bv8>): nat {
    if b == [] then 0 else b[0] as int + 256 * Value(b[1..])
  }

  lemma ByteIs(x: bv8, y: bv8)
    ensures x as int == y as int <==> x == y
  {}

  /** The bytes of a number are determined by it. */
  lemma {:induction false} ValueIsInjective(a: seq<bv8>, b: seq<bv8>)
    requires |a| == |b| && Value(a) == Value(b)
    ensures a == b
    decreases |a|
  {
    if a != [] {
      assert a[0] as int == b[0] as int && Value(a[1..]) == Value(b[1..]);
      ByteIs(a[0], b[0]);
      ValueIsInjective(a[1..], b[1..]);
      assert a == [a[0]] + a[1..] && b == [b[0]] + b[1..];
    }
  }

  lemma ValueFrom(b: seq<bv8>, k: nat)
    requires k < |b|
    ensures Value(b[k..]) == b[k] as int + 256 * Value(b[k + 1..])
  {
    assert b[k..][1..] == b[k + 1..];
  }

  lemma FourFrom(b: seq<bv8>, k: nat)
    requires k + 4 <= |b|
    ensures Value(b[k..]) ==
      b[k] as int + 0x100 * b[k + 1] as int + 0x1_0000 * b[k + 2] as int + 0x100_0000 * b[k + 3] as int + 0x1_0000_0000 * Value(b[k + 4..])
  {
    hide Value;
    ValueFrom(b, k);
    ValueFrom(b, k + 1);
    ValueFrom(b, k + 2);
    ValueFrom(b, k + 3);
  }

  lemma FourBytes(b: seq<bv8>)
    requires |b| == 4
    ensures Value(b) == b[0] as int + 0x100 * b[1] as int + 0x1_0000 * b[2] as int + 0x100_0000 * b[3] as int
  {
    assert b[0..] == b && Value(b[4..]) == 0;
    hide Value;
    FourFrom(b, 0);
  }

  lemma EightBytes(b: seq<bv8>)
    requires |b| == 8
    ensures Value(b) ==
      b[0] as int + 0x100 * b[1] as int + 0x1_0000 * b[2] as int + 0x100_0000 * b[3] as int + 0x1_0000_0000 * b[4] as int
      + 0x100_0000_0000 * b[5] as int + 0x1_0000_0000_0000 * b[6] as int + 0x100_0000_0000_0000 * b[7] as int
  {
    assert b[0..] == b && Value(b[8..]) == 0;
    hide Value;
    FourFrom(b, 0);
    FourFrom(b, 4);
  }
}
