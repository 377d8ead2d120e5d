/** Fixed-width unsigned integers of the C and C++ sources, and the wrap-around of their arithmetic. */
module MachineInts {
  const TWO_8: int := 0x100
  const TWO_16: int := 0x1_0000
  const TWO_32: int := 0x1_0000_0000
  const TWO_64: int := 0x1_0000_0000_0000_0000

  type u8 = x: int | 0 <= x < TWO_8
  type u16 = x: int | 0 <= x < TWO_16
  type u32 = x: int | 0 <= x < TWO_32
  type u64 = x: int | 0 <= x < TWO_64

  /** Conversion of any integer to a 32-bit unsigned value. */
  function Wrap32(x: int): u32 { x % TWO_32 }

  lemma Unwrapped(x: int)
    requires 0 <= x < TWO_32
    ensures Wrap32(x) == x
  {}

  lemma Unwrapped64(x: int)
    requires 0 <= x < TWO_64
    ensures Wrap64(x) == x
  {}

  /** Conversion of any integer to a 64-bit unsigned value. */
  function Wrap64(x: int): u64 { x % TWO_64 }

  /** `rotr64` of argon2/blake2/blake2-impl.h. */
  function Rotr64(w: bv64, c: nat): bv64
    requires 0 < c < 64
  {
    (w >> c) | (w << (64 - c))
  }
}

/** The few facts about products and quotients of variables that the solver does not find by itself. */
module Nonlinear {
  lemma MulGrows(a: nat, b: nat)
    requires b > 0
    ensures a <= a * b
  {}

  lemma MulMonotonic(a: int, b: int, c: nat)
    requires a <= b
    ensures a * c <= b * c
  {}

  lemma DivBounds(n: nat, d: nat)
    requires d > 0
    ensures n / d * d <= n < n / d * d + d
  {}

  lemma DivAtMost(n: nat, d: nat)
    requires d > 0
    ensures n / d <= n
  {
    DivBounds(n, d);
    MulGrows(n / d, d);
  }

  /** A quotient is recognised by its product. */
  lemma DivIs(q: int, r: nat, d: nat)
    requires r < d
    ensures (q * d + r) / d == q
    ensures (q * d + r) % d == r
  {
    var n := q * d + r;
    var q', r' := n / d, n % d;
    assert n == q' * d + r' && (q - q') * d == r' - r;
    if q < q' {
      MulMonotonic(q - q', -1, d);
    } else if q > q' {
      MulMonotonic(1, q - q', d);
    }
  }

  lemma ModWithinTwo(x: nat, q: nat)
    requires x < 2 * q
    ensures x % q == if x < q then x else x - q
  {
    if x < q {
      DivIs(0, x, q);
    } else {
      DivIs(1, x - q, q);
    }
  }
}
