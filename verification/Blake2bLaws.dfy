/** Properties of the BLAKE2b compression: what the words, the message schedule and the rounds keep apart. */
module Blake2bLaws {
  import opened MachineInts
  import opened Blake2bCore
  import LittleEndian

  // ---- words ----

  lemma JoinedValue(a: bv8, b: bv8, c: bv8, d: bv8, e: bv8, f: bv8, g: bv8, h: bv8)
    ensures ((a as bv64) | ((b as bv64) << 8) | ((c as bv64) << 16) | ((d as bv64) << 24) |
             ((e as bv64) << 32) | ((f as bv64) << 40) | ((g as bv64) << 48) | ((h as bv64) << 56)) as int ==
      a as int + 0x100 * b as int + 0x1_0000 * c as int + 0x100_0000 * d as int + 0x1_0000_0000 * e as int
      + 0x100_0000_0000 * f as int + 0x1_0000_0000_0000 * g as int + 0x100_0000_0000_0000 * h as int
  {}

  lemma Join8Value(a: bv8, b: bv8, c: bv8, d: bv8, e: bv8, f: bv8, g: bv8, h: bv8)
    ensures Join8(a, b, c, d, e, f, g, h) as int ==
      a as int + 0x100 * b as int + 0x1_0000 * c as int + 0x100_0000 * d as int + 0x1_0000_0000 * e as int
      + 0x100_0000_0000 * f as int + 0x1_0000_0000_0000 * g as int + 0x100_0000_0000_0000 * h as int
  {
    JoinedValue(a, b, c, d, e, f, g, h);
    assert Join8(a, b, c, d, e, f, g, h) ==
           (a as bv64) | ((b as bv64) << 8) | ((c as bv64) << 16) | ((d as bv64) << 24) |
           ((e as bv64) << 32) | ((f as bv64) << 40) | ((g as bv64) << 48) | ((h as bv64) << 56);
  }

  /** The value of a loaded word is the sum of `b[k] * 256^k`. */
  lemma Load64Value(b: seq<bv8>)
    requires |b| == 8
    ensures Load64(b) as int == LittleEndian.Value(b)
  {
    Join8Value(b[0], b[1], b[2], b[3], b[4], b[5], b[6], b[7]);
    hide Join8, LittleEndian.Value;
    LittleEndian.EightBytes(b);
  }

  lemma WordBack(a: bv8, b: bv8, c: bv8, d: bv8, e: bv8, f: bv8, g: bv8, h: bv8)
    ensures Store64(Join8(a, b, c, d, e, f, g, h)) == [a, b, c, d, e, f, g, h]
  {}

  lemma LoadBack(b: seq<bv8>)
    requires |b| == 8
    ensures Store64(Load64(b)) == b
  {
    WordBack(b[0], b[1], b[2], b[3], b[4], b[5], b[6], b[7]);
    hide Store64, Join8;
  }

  /** The words of a message determine its block. */
  lemma MessageDeterminesBlock(a: seq<bv8>, b: seq<bv8>)
    requires |a| == 128 == |b| && MessageWords(a) == MessageWords(b)
    ensures a == b
  {
    hide Load64, Store64;
    forall k | 0 <= k < 128
      ensures a[k] == b[k]
    {
      var i := k / 8;
      assert MessageWords(a)[i] == Load64(a[8 * i..8 * i + 8]) && MessageWords(b)[i] == Load64(b[8 * i..8 * i + 8]);
      LoadBack(a[8 * i..8 * i + 8]);
      LoadBack(b[8 * i..8 * i + 8]);
      assert a[k] == a[8 * i..8 * i + 8][k % 8] && b[k] == b[8 * i..8 * i + 8][k % 8];
    }
  }

  // ---- the initial vector ----

  /** `w` holds the first 64 bits behind the point of the square root of `p`, which has the integer part `r`. */
  ghost predicate RootFraction(w: bv64, p: nat, r: nat) {
    var n := r * TWO_64 + w as int;
    r * r <= p < (r + 1) * (r + 1) && n * n <= p * TWO_64 * TWO_64 < (n + 1) * (n + 1)
  }

  /** Section 2.6 of RFC 7693: the square roots of the first eight primes. */
  lemma IvIsRootsOfPrimes()
    ensures |IV| == 8
    ensures RootFraction(IV[0], 2, 1) && RootFraction(IV[1], 3, 1) && RootFraction(IV[2], 5, 2) && RootFraction(IV[3], 7, 2)
    ensures RootFraction(IV[4], 11, 3) && RootFraction(IV[5], 13, 3) && RootFraction(IV[6], 17, 4) && RootFraction(IV[7], 19, 4)
  {}

  // ---- the schedule ----

  ghost predicate Permutation(s: seq<nat>) {
    && |s| == 16
    && (forall j :: 0 <= j < 16 ==> s[j] < 16)
    && (forall j, k :: 0 <= j < k < 16 ==> s[j] != s[k])
    && (forall k: nat :: k < 16 ==> k in s)
  }

  /** Entry `k` of the inverse table `t`. */
  ghost predicate At(s: seq<nat>, t: seq<nat>, k: nat)
    requires |s| == 16 == |t|
  {
    k < 16 && t[k] < 16 && s[k] < 16 && t[s[k]] == k && s[t[k]] == k
  }

  ghost predicate Inverts(s: seq<nat>, t: seq<nat>) {
    && |s| == 16 == |t|
    && At(s, t, 0) && At(s, t, 1) && At(s, t, 2) && At(s, t, 3) && At(s, t, 4) && At(s, t, 5) && At(s, t, 6) && At(s, t, 7)
    && At(s, t, 8) && At(s, t, 9) && At(s, t, 10) && At(s, t, 11) && At(s, t, 12) && At(s, t, 13) && At(s, t, 14) && At(s, t, 15)
  }

  /** Where each number stands in its row. */
  function Inverse(): seq<seq<nat>> {
    [[0, 1, 2, 3, 4, 5, 6, 7, 8, 9, 10, 11, 12, 13, 14, 15],
     [10, 8, 11, 15, 2, 14, 7, 13, 3, 4, 1, 12, 9, 6, 0, 5],
     [3, 13, 5, 10, 15, 4, 11, 12, 1, 14, 8, 0, 2, 7, 9, 6],
     [13, 3, 8, 2, 12, 10, 9, 0, 15, 1, 11, 6, 5, 4, 7, 14],
     [1, 9, 4, 14, 5, 2, 12, 3, 13, 0, 6, 10, 11, 15, 8, 7],
     [4, 14, 0, 7, 8, 11, 2, 10, 6, 15, 3, 5, 1, 9, 13, 12],
     [8, 2, 13, 11, 6, 1, 10, 9, 14, 12, 7, 15, 0, 5, 4, 3],
     [9, 5, 14, 6, 11, 8, 13, 2, 12, 7, 15, 1, 4, 0, 3, 10],
     [6, 12, 9, 5, 13, 15, 0, 11, 7, 3, 14, 4, 8, 10, 2, 1],
     [15, 6, 1, 12, 3, 7, 5, 4, 2, 10, 0, 9, 13, 14, 11, 8]]
  }

  lemma Row0()
    ensures |Sigma()| == 10 == |Inverse()| && Inverts(Sigma()[0], Inverse()[0])
  {}

  lemma Row1()
    ensures |Sigma()| == 10 == |Inverse()| && Inverts(Sigma()[1], Inverse()[1])
  {}

  lemma Row2()
    ensures |Sigma()| == 10 == |Inverse()| && Inverts(Sigma()[2], Inverse()[2])
  {}

  lemma Row3()
    ensures |Sigma()| == 10 == |Inverse()| && Inverts(Sigma()[3], Inverse()[3])
  {}

  lemma Row4()
    ensures |Sigma()| == 10 == |Inverse()| && Inverts(Sigma()[4], Inverse()[4])
  {}

  lemma Row5()
    ensures |Sigma()| == 10 == |Inverse()| && Inverts(Sigma()[5], Inverse()[5])
  {}

  lemma Row6()
    ensures |Sigma()| == 10 == |Inverse()| && Inverts(Sigma()[6], Inverse()[6])
  {}

  lemma Row7()
    ensures |Sigma()| == 10 == |Inverse()| && Inverts(Sigma()[7], Inverse()[7])
  {}

  lemma Row8()
    ensures |Sigma()| == 10 == |Inverse()| && Inverts(Sigma()[8], Inverse()[8])
  {}

  lemma Row9()
    ensures |Sigma()| == 10 == |Inverse()| && Inverts(Sigma()[9], Inverse()[9])
  {}

  lemma Rows(i: nat)
    requires i < 10
    ensures |Sigma()| == 10 == |Inverse()| && Inverts(Sigma()[i], Inverse()[i])
  {
    hide Sigma, Inverse, Inverts;
    match i
    case 0 => Row0();
    case 1 => Row1();
    case 2 => Row2();
    case 3 => Row3();
    case 4 => Row4();
    case 5 => Row5();
    case 6 => Row6();
    case 7 => Row7();
    case 8 => Row8();
    case _ => Row9();
  }

  lemma AtEach(s: seq<nat>, t: seq<nat>, k: nat)
    requires |s| == 16 == |t| && Inverts(s, t) && k < 16
    ensures t[k] < 16 && s[k] < 16 && t[s[k]] == k && s[t[k]] == k
  {}

  lemma InvertedIsPermutation(s: seq<nat>, t: seq<nat>)
    requires |s| == 16 == |t| && Inverts(s, t)
    ensures Permutation(s)
  {
    hide Inverts;
    forall j | 0 <= j < 16
      ensures s[j] < 16
    {
      AtEach(s, t, j);
    }
    forall j, k | 0 <= j < k < 16
      ensures s[j] != s[k]
    {
      AtEach(s, t, j);
      AtEach(s, t, k);
    }
    forall k: nat | k < 16
      ensures k in s
    {
      AtEach(s, t, k);
    }
  }

  /** Every round takes each word of the message exactly once. */
  lemma SigmaIsPermutation(i: nat)
    requires i < 10
    ensures |Sigma()| == 10 && Permutation(Sigma()[i])
  {
    hide Sigma, Inverse, At, Permutation;
    Rows(i);
    InvertedIsPermutation(Sigma()[i], Inverse()[i]);
  }

  // ---- the mixing function ----

  function Sub(x: bv64, y: bv64): bv64 { x - y }

  lemma AddIs(x: bv64, y: bv64)
    ensures Add(x, y) == x + y
  {}

  lemma SubIs(x: bv64, y: bv64)
    ensures Sub(x, y) == x - y
  {}

  lemma Minus(x: bv64, y: bv64)
    ensures Sub(x + y, y) == x
  {}

  lemma Plus(x: bv64, y: bv64)
    ensures Add(x - y, y) == x
  {}

  lemma AddBack(x: bv64, y: bv64)
    ensures Sub(Add(x, y), y) == x && Add(Sub(x, y), y) == x
  {
    hide Add, Sub;
    AddIs(x, y);
    Minus(x, y);
    SubIs(x, y);
    Plus(x, y);
  }

  lemma XorBack(x: bv64, y: bv64)
    ensures Xor(Xor(x, y), y) == x
  {}

  lemma Rotate32(w: bv64)
    ensures Rotr64(w, 32) == (w >> 32) | (w << 32)
    ensures Rotr64((w >> 32) | (w << 32), 32) == w
  {}

  lemma Rotate24(w: bv64)
    ensures Rotr64(w, 24) == (w >> 24) | (w << 40)
    ensures Rotr64((w >> 40) | (w << 24), 24) == w
  {}

  lemma Rotate40(w: bv64)
    ensures Rotr64(w, 40) == (w >> 40) | (w << 24)
    ensures Rotr64((w >> 24) | (w << 40), 40) == w
  {}

  lemma Rotate16(w: bv64)
    ensures Rotr64(w, 16) == (w >> 16) | (w << 48)
    ensures Rotr64((w >> 48) | (w << 16), 16) == w
  {}

  lemma Rotate48(w: bv64)
    ensures Rotr64(w, 48) == (w >> 48) | (w << 16)
    ensures Rotr64((w >> 16) | (w << 48), 48) == w
  {}

  lemma Rotate63(w: bv64)
    ensures Rotr64(w, 63) == (w >> 63) | (w << 1)
    ensures Rotr64((w >> 1) | (w << 63), 63) == w
  {}

  lemma Rotate1(w: bv64)
    ensures Rotr64(w, 1) == (w >> 1) | (w << 63)
    ensures Rotr64((w >> 63) | (w << 1), 1) == w
  {}

  predicate Count(c: nat) { c == 32 || c == 24 || c == 16 || c == 63 }

  /** Rotating on to 64 bits gives back the word. */
  lemma RotateBack(w: bv64, c: nat)
    requires Count(c)
    ensures Rotr64(Rotr64(w, c), 64 - c) == w && Rotr64(Rotr64(w, 64 - c), c) == w
  {
    hide Rotr64;
    if c == 32 {
      Rotate32(w);
    } else if c == 24 {
      Rotate24(w);
      Rotate40(w);
    } else if c == 16 {
      Rotate16(w);
      Rotate48(w);
    } else {
      Rotate63(w);
      Rotate1(w);
    }
  }

  // ---- mixing can be undone ----

  datatype Four = Four(a: bv64, b: bv64, c: bv64, d: bv64)

  function Mixed(q: Four, x: bv64, y: bv64): Four {
    var a1 := Add(Add(q.a, q.b), x);
    var d1 := Rotr64(Xor(q.d, a1), 32);
    var c1 := Add(q.c, d1);
    var b1 := Rotr64(Xor(q.b, c1), 24);
    var a2 := Add(Add(a1, b1), y);
    var d2 := Rotr64(Xor(d1, a2), 16);
    var c2 := Add(c1, d2);
    Four(a2, Rotr64(Xor(b1, c2), 63), c2, d2)
  }

  /** The steps backwards. */
  function Unmixed(q: Four, x: bv64, y: bv64): Four {
    var b1 := Xor(Rotr64(q.b, 1), q.c);
    var c1 := Sub(q.c, q.d);
    var d1 := Xor(Rotr64(q.d, 48), q.a);
    var a1 := Sub(Sub(q.a, y), b1);
    var b0 := Xor(Rotr64(b1, 40), c1);
    var c0 := Sub(c1, d1);
    var d0 := Xor(Rotr64(d1, 32), a1);
    Four(Sub(Sub(a1, x), b0), b0, c0, d0)
  }

  lemma UnmixedMixed(q: Four, x: bv64, y: bv64)
    ensures Unmixed(Mixed(q, x, y), x, y) == q
  {
    hide Add, Sub, Xor, Rotr64;
    var a1 := Add(Add(q.a, q.b), x);
    var d1 := Rotr64(Xor(q.d, a1), 32);
    var c1 := Add(q.c, d1);
    var b1 := Rotr64(Xor(q.b, c1), 24);
    var a2 := Add(Add(a1, b1), y);
    var d2 := Rotr64(Xor(d1, a2), 16);
    var c2 := Add(c1, d2);
    RotateBack(Xor(b1, c2), 63);
    XorBack(b1, c2);
    AddBack(c1, d2);
    RotateBack(Xor(d1, a2), 16);
    XorBack(d1, a2);
    AddBack(Add(a1, b1), y);
    AddBack(a1, b1);
    RotateBack(Xor(q.b, c1), 24);
    XorBack(q.b, c1);
    AddBack(q.c, d1);
    RotateBack(Xor(q.d, a1), 32);
    XorBack(q.d, a1);
    AddBack(Add(q.a, q.b), x);
    AddBack(q.a, q.b);
  }

  lemma MixedUnmixed(q: Four, x: bv64, y: bv64)
    ensures Mixed(Unmixed(q, x, y), x, y) == q
  {
    hide Add, Sub, Xor, Rotr64;
    var b1 := Xor(Rotr64(q.b, 1), q.c);
    var c1 := Sub(q.c, q.d);
    var d1 := Xor(Rotr64(q.d, 48), q.a);
    var a1 := Sub(Sub(q.a, y), b1);
    var b0 := Xor(Rotr64(b1, 40), c1);
    AddBack(Sub(a1, x), b0);
    AddBack(a1, x);
    XorBack(Rotr64(d1, 32), a1);
    RotateBack(d1, 32);
    AddBack(c1, d1);
    XorBack(Rotr64(b1, 40), c1);
    RotateBack(b1, 24);
    AddBack(Sub(q.a, y), b1);
    AddBack(q.a, y);
    XorBack(Rotr64(q.d, 48), q.a);
    RotateBack(q.d, 16);
    AddBack(q.c, q.d);
    XorBack(Rotr64(q.b, 1), q.c);
    RotateBack(q.b, 63);
  }

  predicate Distinct(a: nat, b: nat, c: nat, d: nat) {
    a < 16 && b < 16 && c < 16 && d < 16 && a != b && a != c && a != d && b != c && b != d && c != d
  }

  function Pick(v: seq<bv64>, a: nat, b: nat, c: nat, d: nat): Four
    requires |v| == 16 && Distinct(a, b, c, d)
  {
    Four(v[a], v[b], v[c], v[d])
  }

  function Place(v: seq<bv64>, a: nat, b: nat, c: nat, d: nat, q: Four): (r: seq<bv64>)
    requires |v| == 16 && Distinct(a, b, c, d)
    ensures |r| == 16
  {
    v[a := q.a][b := q.b][c := q.c][d := q.d]
  }

  lemma PlacePick(v: seq<bv64>, a: nat, b: nat, c: nat, d: nat, q: Four, r: Four)
    requires |v| == 16 && Distinct(a, b, c, d)
    ensures Pick(Place(v, a, b, c, d, q), a, b, c, d) == q
    ensures Place(Place(v, a, b, c, d, q), a, b, c, d, r) == Place(v, a, b, c, d, r)
    ensures Place(v, a, b, c, d, Pick(v, a, b, c, d)) == v
  {}

  /** Four updates at distinct places, in the order of the mixing function. */
  lemma Updates(v: seq<bv64>, a: nat, b: nat, c: nat, d: nat, q: Four)
    requires |v| == 16 && Distinct(a, b, c, d)
    ensures v[a := q.a][d := q.d][c := q.c][b := q.b] == Place(v, a, b, c, d, q)
    ensures v[a := q.a][d] == v[d] && v[a := q.a][d := q.d][c] == v[c] && v[a := q.a][d := q.d][c := q.c][b] == v[b]
    ensures v[a := q.a][a] == q.a && v[a := q.a][d := q.d][d] == q.d && v[a := q.a][d := q.d][c := q.c][c] == q.c
    ensures v[a := q.a][d := q.d][a] == q.a
  {}

  function Half(q: Four, x: bv64, c1: nat, c2: nat): Four
    requires 0 < c1 < 64 && 0 < c2 < 64
  {
    var a := Add(Add(q.a, q.b), x);
    var d := Rotr64(Xor(q.d, a), c1);
    var c := Add(q.c, d);
    Four(a, Rotr64(Xor(q.b, c), c2), c, d)
  }

  /** One half of the mixing function on the vector. */
  function HalfMix(v: seq<bv64>, a: nat, b: nat, c: nat, d: nat, x: bv64, c1: nat, c2: nat): (r: seq<bv64>)
    requires |v| == 16 && a < 16 && b < 16 && c < 16 && d < 16 && 0 < c1 < 64 && 0 < c2 < 64
    ensures |r| == 16
  {
    var v := v[a := Add(Add(v[a], v[b]), x)];
    var v := v[d := Rotr64(Xor(v[d], v[a]), c1)];
    var v := v[c := Add(v[c], v[d])];
    v[b := Rotr64(Xor(v[b], v[c]), c2)]
  }

  lemma HalfMixIsHalf(v: seq<bv64>, a: nat, b: nat, c: nat, d: nat, x: bv64, c1: nat, c2: nat)
    requires |v| == 16 && Distinct(a, b, c, d) && 0 < c1 < 64 && 0 < c2 < 64
    ensures HalfMix(v, a, b, c, d, x, c1, c2) == Place(v, a, b, c, d, Half(Pick(v, a, b, c, d), x, c1, c2))
  {
    var q := Half(Pick(v, a, b, c, d), x, c1, c2);
    Updates(v, a, b, c, d, q);
    hide Add, Xor, Rotr64, Place;
  }

  lemma MixIsMixed(v: seq<bv64>, a: nat, b: nat, c: nat, d: nat, x: bv64, y: bv64)
    requires |v| == 16 && Distinct(a, b, c, d)
    ensures Mix(v, a, b, c, d, x, y) == Place(v, a, b, c, d, Mixed(Pick(v, a, b, c, d), x, y))
  {
    hide Add, Xor, Rotr64;
    assert Mix(v, a, b, c, d, x, y) == HalfMix(HalfMix(v, a, b, c, d, x, 32, 24), a, b, c, d, y, 16, 63);
    var q := Pick(v, a, b, c, d);
    assert Mixed(q, x, y) == Half(Half(q, x, 32, 24), y, 16, 63);
    hide Mix, HalfMix, Half, Mixed, Place, Pick;
    HalfMixIsHalf(v, a, b, c, d, x, 32, 24);
    PlacePick(v, a, b, c, d, Half(q, x, 32, 24), Mixed(q, x, y));
    HalfMixIsHalf(Place(v, a, b, c, d, Half(q, x, 32, 24)), a, b, c, d, y, 16, 63);
  }

  function Unmix(v: seq<bv64>, a: nat, b: nat, c: nat, d: nat, x: bv64, y: bv64): (r: seq<bv64>)
    requires |v| == 16 && Distinct(a, b, c, d)
    ensures |r| == 16
  {
    Place(v, a, b, c, d, Unmixed(Pick(v, a, b, c, d), x, y))
  }

  /** The mixing function is a bijection of the working vector, whatever the two words of the message. */
  lemma MixIsBijective(v: seq<bv64>, a: nat, b: nat, c: nat, d: nat, x: bv64, y: bv64)
    requires |v| == 16 && Distinct(a, b, c, d)
    ensures Unmix(Mix(v, a, b, c, d, x, y), a, b, c, d, x, y) == v
    ensures Mix(Unmix(v, a, b, c, d, x, y), a, b, c, d, x, y) == v
  {
    hide Mixed, Unmixed, Pick, Place, Mix;
    var q := Pick(v, a, b, c, d);
    MixIsMixed(v, a, b, c, d, x, y);
    UnmixedMixed(q, x, y);
    PlacePick(v, a, b, c, d, Mixed(q, x, y), q);
    var u := Unmix(v, a, b, c, d, x, y);
    MixIsMixed(u, a, b, c, d, x, y);
    MixedUnmixed(q, x, y);
    PlacePick(v, a, b, c, d, Unmixed(q, x, y), q);
  }

  lemma Front(x: bv64, y: bv64)
    ensures Sub(x + y, x) == y
  {}

  lemma AddCancels(x: bv64, y: bv64, z: bv64)
    requires Add(x, y) == Add(x, z)
    ensures y == z
  {
    hide Add, Sub;
    AddIs(x, y);
    AddIs(x, z);
    Front(x, y);
    Front(x, z);
  }

  lemma XorCancels(x: bv64, y: bv64, z: bv64)
    requires Xor(x, y) == Xor(x, z)
    ensures y == z
  {}

  lemma RotateCancels(x: bv64, y: bv64, c: nat)
    requires Count(c) && Rotr64(x, c) == Rotr64(y, c)
    ensures x == y
  {
    hide Rotr64;
    RotateBack(x, c);
    RotateBack(y, c);
  }

  lemma MixedDeterminesWords(q: Four, x: bv64, y: bv64, x': bv64, y': bv64)
    requires Mixed(q, x, y) == Mixed(q, x', y')
    ensures x == x' && y == y'
  {
    hide Add, Sub, Xor, Rotr64;
    var a1, a1' := Add(Add(q.a, q.b), x), Add(Add(q.a, q.b), x');
    var d1, d1' := Rotr64(Xor(q.d, a1), 32), Rotr64(Xor(q.d, a1'), 32);
    var c1, c1' := Add(q.c, d1), Add(q.c, d1');
    var d2 := Mixed(q, x, y).d;
    AddBack(c1, d2);
    AddBack(c1', d2);
    AddCancels(q.c, d1, d1');
    RotateCancels(Xor(q.d, a1), Xor(q.d, a1'), 32);
    XorCancels(q.d, a1, a1');
    AddCancels(Add(q.a, q.b), x, x');
    AddCancels(Add(a1, Rotr64(Xor(q.b, c1), 24)), y, y');
  }

  /** From the same vector, different words of the message lead to different vectors. */
  lemma MixDeterminesWords(v: seq<bv64>, a: nat, b: nat, c: nat, d: nat, x: bv64, y: bv64, x': bv64, y': bv64)
    requires |v| == 16 && Distinct(a, b, c, d)
    requires Mix(v, a, b, c, d, x, y) == Mix(v, a, b, c, d, x', y')
    ensures x == x' && y == y'
  {
    hide Mixed, Pick, Place, Mix;
    var q := Pick(v, a, b, c, d);
    MixIsMixed(v, a, b, c, d, x, y);
    MixIsMixed(v, a, b, c, d, x', y');
    PlacePick(v, a, b, c, d, Mixed(q, x, y), q);
    PlacePick(v, a, b, c, d, Mixed(q, x', y'), q);
    MixedDeterminesWords(q, x, y, x', y');
  }

  // ---- rounds can be undone ----

  ghost function Uncolumns(v: seq<bv64>, m: seq<bv64>, s: seq<nat>): (r: seq<bv64>)
    requires |v| == 16 == |m| && IsRow(s)
    ensures |r| == 16
  {
    hide Unmix;
    var v := Unmix(v, 3, 7, 11, 15, m[s[6]], m[s[7]]);
    var v := Unmix(v, 2, 6, 10, 14, m[s[4]], m[s[5]]);
    var v := Unmix(v, 1, 5, 9, 13, m[s[2]], m[s[3]]);
    Unmix(v, 0, 4, 8, 12, m[s[0]], m[s[1]])
  }

  ghost function Undiagonals(v: seq<bv64>, m: seq<bv64>, s: seq<nat>): (r: seq<bv64>)
    requires |v| == 16 == |m| && IsRow(s)
    ensures |r| == 16
  {
    hide Unmix;
    var v := Unmix(v, 3, 4, 9, 14, m[s[14]], m[s[15]]);
    var v := Unmix(v, 2, 7, 8, 13, m[s[12]], m[s[13]]);
    var v := Unmix(v, 1, 6, 11, 12, m[s[10]], m[s[11]]);
    Unmix(v, 0, 5, 10, 15, m[s[8]], m[s[9]])
  }

  lemma ColumnsBack(v: seq<bv64>, m: seq<bv64>, s: seq<nat>)
    requires |v| == 16 == |m| && IsRow(s)
    ensures Uncolumns(MixColumns(v, m, s), m, s) == v
  {
    hide Mix, Unmix;
    MixIsBijective(v, 0, 4, 8, 12, m[s[0]], m[s[1]]);
    var v1 := Mix(v, 0, 4, 8, 12, m[s[0]], m[s[1]]);
    MixIsBijective(v1, 1, 5, 9, 13, m[s[2]], m[s[3]]);
    var v2 := Mix(v1, 1, 5, 9, 13, m[s[2]], m[s[3]]);
    MixIsBijective(v2, 2, 6, 10, 14, m[s[4]], m[s[5]]);
    var v3 := Mix(v2, 2, 6, 10, 14, m[s[4]], m[s[5]]);
    MixIsBijective(v3, 3, 7, 11, 15, m[s[6]], m[s[7]]);
  }

  lemma ColumnsForth(v: seq<bv64>, m: seq<bv64>, s: seq<nat>)
    requires |v| == 16 == |m| && IsRow(s)
    ensures MixColumns(Uncolumns(v, m, s), m, s) == v
  {
    hide Mix, Unmix;
    MixIsBijective(v, 3, 7, 11, 15, m[s[6]], m[s[7]]);
    var v1 := Unmix(v, 3, 7, 11, 15, m[s[6]], m[s[7]]);
    MixIsBijective(v1, 2, 6, 10, 14, m[s[4]], m[s[5]]);
    var v2 := Unmix(v1, 2, 6, 10, 14, m[s[4]], m[s[5]]);
    MixIsBijective(v2, 1, 5, 9, 13, m[s[2]], m[s[3]]);
    var v3 := Unmix(v2, 1, 5, 9, 13, m[s[2]], m[s[3]]);
    MixIsBijective(v3, 0, 4, 8, 12, m[s[0]], m[s[1]]);
  }

  lemma DiagonalsBack(v: seq<bv64>, m: seq<bv64>, s: seq<nat>)
    requires |v| == 16 == |m| && IsRow(s)
    ensures Undiagonals(MixDiagonals(v, m, s), m, s) == v
  {
    hide Mix, Unmix;
    MixIsBijective(v, 0, 5, 10, 15, m[s[8]], m[s[9]]);
    var v1 := Mix(v, 0, 5, 10, 15, m[s[8]], m[s[9]]);
    MixIsBijective(v1, 1, 6, 11, 12, m[s[10]], m[s[11]]);
    var v2 := Mix(v1, 1, 6, 11, 12, m[s[10]], m[s[11]]);
    MixIsBijective(v2, 2, 7, 8, 13, m[s[12]], m[s[13]]);
    var v3 := Mix(v2, 2, 7, 8, 13, m[s[12]], m[s[13]]);
    MixIsBijective(v3, 3, 4, 9, 14, m[s[14]], m[s[15]]);
  }

  lemma DiagonalsForth(v: seq<bv64>, m: seq<bv64>, s: seq<nat>)
    requires |v| == 16 == |m| && IsRow(s)
    ensures MixDiagonals(Undiagonals(v, m, s), m, s) == v
  {
    hide Mix, Unmix;
    MixIsBijective(v, 3, 4, 9, 14, m[s[14]], m[s[15]]);
    var v1 := Unmix(v, 3, 4, 9, 14, m[s[14]], m[s[15]]);
    MixIsBijective(v1, 2, 7, 8, 13, m[s[12]], m[s[13]]);
    var v2 := Unmix(v1, 2, 7, 8, 13, m[s[12]], m[s[13]]);
    MixIsBijective(v2, 1, 6, 11, 12, m[s[10]], m[s[11]]);
    var v3 := Unmix(v2, 1, 6, 11, 12, m[s[10]], m[s[11]]);
    MixIsBijective(v3, 0, 5, 10, 15, m[s[8]], m[s[9]]);
  }

  ghost function Unrounds(v: seq<bv64>, m: seq<bv64>, n: nat): (r: seq<bv64>)
    requires |v| == 16 == |m|
    ensures |r| == 16
    decreases n
  {
    hide Sigma, Uncolumns, Undiagonals, IsRow;
    if n == 0 then v
    else
      SigmaRow((n - 1) % 10);
      var s := Sigma()[(n - 1) % 10];
      Unrounds(Uncolumns(Undiagonals(v, m, s), m, s), m, n - 1)
  }

  /** For a fixed message, the rounds are a bijection of the working vector: no two vectors are ever merged. */
  lemma {:induction false} RoundsAreBijective(v: seq<bv64>, m: seq<bv64>, n: nat)
    requires |v| == 16 == |m|
    ensures Unrounds(Rounds(v, m, n), m, n) == v
    ensures Rounds(Unrounds(v, m, n), m, n) == v
    decreases n
  {
    hide Sigma, MixColumns, MixDiagonals, Uncolumns, Undiagonals, IsRow;
    if n > 0 {
      SigmaRow((n - 1) % 10);
      var s := Sigma()[(n - 1) % 10];
      var w := Rounds(v, m, n - 1);
      RoundsAreBijective(v, m, n - 1);
      ColumnsBack(w, m, s);
      DiagonalsBack(MixColumns(w, m, s), m, s);
      var u := Undiagonals(v, m, s);
      RoundsAreBijective(Uncolumns(u, m, s), m, n - 1);
      ColumnsForth(u, m, s);
      DiagonalsForth(v, m, s);
    }
  }

  // ---- what the rounds start from ----

  lemma FixedHalfKeepsApart(t0: u64, t1: u64, f0: bv64, f1: bv64, t0': u64, t1': u64, f0': bv64, f1': bv64)
    requires FixedHalf(t0, t1, f0, f1) == FixedHalf(t0', t1', f0', f1')
    ensures ToWord(t0) == ToWord(t0') && ToWord(t1) == ToWord(t1') && f0 == f0' && f1 == f1'
  {
    hide Xor, ToWord;
    var v, w := FixedHalf(t0, t1, f0, f1), FixedHalf(t0', t1', f0', f1');
    assert v[4] == w[4] && v[5] == w[5] && v[6] == w[6] && v[7] == w[7];
    XorCancels(IV[4], ToWord(t0), ToWord(t0'));
    XorCancels(IV[5], ToWord(t1), ToWord(t1'));
    XorCancels(IV[6], f0, f0');
    XorCancels(IV[7], f1, f1');
  }

  lemma VectorKeepsApart(h: seq<bv64>, t0: u64, t1: u64, f0: bv64, f1: bv64, h': seq<bv64>, t0': u64, t1': u64, f0': bv64, f1': bv64)
    requires |h| == 8 == |h'| && WorkingVector(h, t0, t1, f0, f1) == WorkingVector(h', t0', t1', f0', f1')
    ensures h == h' && ToWord(t0) == ToWord(t0') && ToWord(t1) == ToWord(t1') && f0 == f0' && f1 == f1'
  {
    hide FixedHalf, ToWord;
    var v, w := WorkingVector(h, t0, t1, f0, f1), WorkingVector(h', t0', t1', f0', f1');
    assert v[..8] == h && w[..8] == h' && v[8..] == FixedHalf(t0, t1, f0, f1) && w[8..] == FixedHalf(t0', t1', f0', f1');
    FixedHalfKeepsApart(t0, t1, f0, f1, t0', t1', f0', f1');
  }

  /** The flag is not the same for the last block as for the others. */
  lemma FlagsDiffer()
    ensures ALL_ONES != 0
  {}

  /** Behind all rounds the working vector still tells chaining values, counters, and the flag of the last block. */
  lemma RoundsKeepApart(m: seq<bv64>, h: seq<bv64>, t: nat, f0: bv64, h': seq<bv64>, t': nat, f0': bv64)
    requires |m| == 16 && |h| == 8 == |h'|
    requires Rounds(WorkingVector(h, Low(t), High(t), f0, 0), m, 12) == Rounds(WorkingVector(h', Low(t'), High(t'), f0', 0), m, 12)
    ensures h == h' && ToWord(Low(t)) == ToWord(Low(t')) && ToWord(High(t)) == ToWord(High(t')) && f0 == f0'
    ensures ALL_ONES != 0
  {
    FlagsDiffer();
    hide Rounds, WorkingVector, ToWord, Low, High;
    var v, w := WorkingVector(h, Low(t), High(t), f0, 0), WorkingVector(h', Low(t'), High(t'), f0', 0);
    RoundsAreBijective(v, m, 12);
    RoundsAreBijective(w, m, 12);
    VectorKeepsApart(h, Low(t), High(t), f0, 0, h', Low(t'), High(t'), f0', 0);
  }
}
