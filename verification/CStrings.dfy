/** Strings of C and of C++ programs. */
module CStrings {
  /** A byte of a C string: anything but the terminating zero. */
  type Char = c: char | 0 < c as int < 256 witness 'A'

  /** The characters before the terminating zero. */
  type CString = seq<Char>

  /** A byte of a `std::string`, which may be zero. */
  type Byte = c: char | c as int < 256
  type String = seq<Byte>

  /** An 8-bit integer keeps its value as a bit vector. */
  lemma OctetIs(n: int)
    requires 0 <= n < 256
    ensures (n as bv8) as int == n
    ensures n as bv8 < 128 <==> n < 128
  {}

  lemma ByteOfBits(b: bv8)
    ensures (b as int) as bv8 == b
  {}
}
