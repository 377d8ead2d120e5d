/** The encoded hash strings of argon2/encoding.c: `$argon2<T>$v=<n>$m=<n>,t=<n>,p=<n>$<salt>$<output>`. */
module Argon2Encoding {
  import opened MachineInts
  import opened CStrings
  import opened Wrappers
  import opened Argon2Params
  import opened Argon2Prehash
  import Base64
  import D = Decimal

  /** 64-bit `unsigned long`. */
  const ULONG_MAX: nat := TWO_64 - 1
  const UINT32_MAX: nat := TWO_32 - 1

  // ---- decimal numbers ----

  function DigitRun(s: CString): (n: nat)
    ensures n <= |s| && D.AllDigits(s[..n])
    ensures n < |s| ==> !D.IsDigit(s[n])
  {
    if s != [] && D.IsDigit(s[0]) then 1 + DigitRun(s[1..]) else 0
  }

  /** A minimal numeral that fits an `unsigned long`, and the rest of the string. */
  function DecodeDecimal(s: CString): Option<(nat, CString)> {
    var n := DigitRun(s);
    if D.Minimal(s[..n]) && D.Value(s[..n]) <= ULONG_MAX then Some((D.Value(s[..n]), s[n..])) else None
  }

  lemma {:induction false} DigitRunIs(s: CString, n: nat)
    requires n <= |s| && D.AllDigits(s[..n]) && (n < |s| ==> !D.IsDigit(s[n]))
    ensures DigitRun(s) == n
    decreases n
  {
    if n > 0 {
      assert s[..n][0] == s[0];
      assert s[1..][..n - 1] == s[..n][1..];
      DigitRunIs(s[1..], n - 1);
    }
  }

  /** `decode_decimal`. */
  method ReadDecimal(str: CString) returns (r: Option<(nat, CString)>)
    ensures r == DecodeDecimal(str)
  {
    ghost var n := DigitRun(str);
    var acc: nat, i := 0, 0;
    while i < |str| && D.IsDigit(str[i])
      invariant 0 <= i <= n && D.AllDigits(str[..i]) && acc == D.Value(str[..i]) <= ULONG_MAX
    {
      hide DigitRun;
      var c := D.DigitValue(str[i]);
      NextDecimal(str, i);
      if acc > ULONG_MAX / 10 {
        return None;
      }
      acc := acc * 10;
      if c > ULONG_MAX - acc {
        return None;
      }
      acc := acc + c;
      i := i + 1;
    }
    DigitRunIs(str, i);
    if i == 0 || (str[0] == '0' && i != 1) {
      return None;
    }
    return Some((acc, str[i..]));
  }

  lemma NextDecimal(str: CString, i: nat)
    requires i < |str| && D.IsDigit(str[i]) && i <= DigitRun(str) && D.AllDigits(str[..i])
    ensures i < DigitRun(str)
    ensures D.AllDigits(str[..i + 1]) && D.Value(str[..i + 1]) == 10 * D.Value(str[..i]) + D.DigitValue(str[i])
    ensures D.Value(str[..i + 1]) > ULONG_MAX ==> DecodeDecimal(str).None?
  {
    hide D.Value, D.DigitValue, D.AllDigits, D.IsDigit, DecodeDecimal;
    D.ValueSnoc(str[..i], str[i]);
    assert str[..i + 1] == str[..i] + [str[i]];
    InRun(str, i);
    if D.Value(str[..i + 1]) > ULONG_MAX {
      TooLarge(str, i + 1);
    }
  }

  lemma InRun(str: CString, i: nat)
    requires i < |str| && D.IsDigit(str[i]) && i <= DigitRun(str)
    ensures i < DigitRun(str)
  {}

  /** A prefix that is too large is refused with the whole numeral. */
  lemma TooLarge(str: CString, i: nat)
    requires i <= DigitRun(str) && D.AllDigits(str[..i]) && D.Value(str[..i]) > ULONG_MAX
    ensures DecodeDecimal(str).None?
  {
    hide D.Value, D.AllDigits, D.Minimal, DigitRun;
    var n := DigitRun(str);
    D.ValueGrows(str[..n], i);
    assert str[..n][..i] == str[..i];
  }

  // ---- the format ----

  datatype Fields = Fields(version: u32, mCost: u32, tCost: u32, lanes: u32, salt: seq<bv8>, out: seq<bv8>)

  /** `argon2_type2string(type, 0)`. */
  function TypeString(ty: Argon2Type): CString {
    match ty case Argon2d => "argon2d" case Argon2i => "argon2i" case Argon2id => "argon2id"
  }

  /** The string without the part up to the version. */
  function PrintedCosts(f: Fields): CString {
    "$m=" + (D.Digits(f.mCost) + (",t=" + (D.Digits(f.tCost) + (",p=" + (D.Digits(f.lanes)
    + ("$" + (Base64.Encode(f.salt) + ("$" + (Base64.Encode(f.out) + [])))))))))
  }

  function Printed(f: Fields, ty: Argon2Type): CString {
    "$" + (TypeString(ty) + ("$v=" + (D.Digits(f.version) + PrintedCosts(f))))
  }

  lemma SmallNumerals()
    ensures D.Digits(2) == "2" && D.Digits(4) == "4" && D.Digits(19) == "19" && D.Digits(65536) == "65536"
  {
    assert D.Digits(6) == "6" && D.Digits(65) == "65" && D.Digits(655) == "655" && D.Digits(6553) == "6553";
  }

  lemma TailOfExample(a: CString, b: CString)
    ensures "4" + ("$" + (a + ("$" + (b + [])))) == "4$" + a + "$" + b
  {}

  lemma CostsOfExample(x: CString, y: CString)
    requires x == "4$" + y
    ensures "$m=" + ("65536" + (",t=" + ("2" + (",p=" + x)))) == "$m=65536,t=2,p=4$" + y
  {
    assert "$m=" + "65536" == "$m=65536" && ",t=" + "2" == ",t=2";
    assert "$m=65536" + ",t=2" + ",p=" + "4$" == "$m=65536,t=2,p=4$";
  }

  lemma HeadOfExample(x: CString, y: CString)
    requires x == "$m=65536,t=2,p=4$" + y
    ensures "$" + ("argon2id" + ("$v=" + ("19" + x))) == "$argon2id$v=19$m=65536,t=2,p=4$" + y
  {
    assert "$" + "argon2id" + "$v=" + "19" == "$argon2id$v=19";
    assert "$argon2id$v=19" + "$m=65536,t=2,p=4$" == "$argon2id$v=19$m=65536,t=2,p=4$";
  }

  /** The format `$argon2<T>$v=<num>$m=<num>,t=<num>,p=<num>$<bin>$<bin>` for numbers as they are used. */
  lemma PrintedExample(salt: seq<bv8>, out: seq<bv8>)
    ensures Printed(Fields(19, 65536, 2, 4, salt, out), Argon2id) ==
            "$argon2id$v=19$m=65536,t=2,p=4$" + (Base64.Encode(salt) + ("$" + Base64.Encode(out)))
  {
    SmallNumerals();
    hide D.Digits, Base64.Encode;
    var a, b: CString := Base64.Encode(salt), Base64.Encode(out);
    var y: CString := a + ("$" + b);
    var x: CString := "4" + ("$" + (a + ("$" + (b + []))));
    TailOfExample(a, b);
    assert "4$" + a + "$" + b == "4$" + y;
    CostsOfExample(x, y);
    HeadOfExample("$m=" + ("65536" + (",t=" + ("2" + (",p=" + x)))), y);
  }

  function Expect(s: CString, prefix: CString): Option<CString> {
    if prefix <= s then Some(s[|prefix|..]) else None
  }

  /** `DECIMAL_U32`. */
  function Number32(s: CString): Option<(u32, CString)> {
    var (v, s) :- DecodeDecimal(s);
    if v > UINT32_MAX then None else Some((v, s))
  }

  /** The optional version. */
  function Version(s: CString): Option<(u32, CString)> {
    match Expect(s, "$v=") case None => Some((VERSION_10, s)) case Some(r) => Number32(r)
  }

  /** `BIN`. */
  function Binary(s: CString, capacity: u32): (r: Option<(seq<bv8>, CString)>)
    ensures r.Some? ==> |r.value.0| <= capacity
  {
    var (b, e) :- Base64.Decode(s, 0, capacity);
    Some((b, s[e..]))
  }

  function ParseCosts(s: CString, version: u32, saltCap: u32, outCap: u32): (r: Option<(Fields, CString)>)
    ensures r.Some? ==> |r.value.0.salt| <= saltCap && |r.value.0.out| <= outCap
  {
    var s :- Expect(s, "$m=");
    var (m, s) :- Number32(s);
    var s :- Expect(s, ",t=");
    var (t, s) :- Number32(s);
    var s :- Expect(s, ",p=");
    var (lanes, s) :- Number32(s);
    var s :- Expect(s, "$");
    var (salt, s) :- Binary(s, saltCap);
    var s :- Expect(s, "$");
    var (out, s) :- Binary(s, outCap);
    Some((Fields(version, m, t, lanes, salt, out), s))
  }

  function Parse(str: CString, ty: Argon2Type, saltCap: u32, outCap: u32): (r: Option<(Fields, CString)>)
    ensures r.Some? ==> |r.value.0.salt| <= saltCap && |r.value.0.out| <= outCap
  {
    var s :- Expect(str, "$");
    var s :- Expect(s, TypeString(ty));
    var (version, s) :- Version(s);
    ParseCosts(s, version, saltCap, outCap)
  }

  // ---- parsing inverts printing ----

  lemma ExpectFits(prefix: CString, rest: CString)
    ensures Expect(prefix + rest, prefix) == Some(rest)
  {}

  lemma NumberFits(n: u32, rest: CString)
    requires rest == [] || !D.IsDigit(rest[0])
    ensures Number32(D.Digits(n) + rest) == Some((n, rest))
  {
    var s := D.Digits(n) + rest;
    var k := |D.Digits(n)|;
    assert s[..k] == D.Digits(n) && s[k..] == rest;
    DigitRunIs(s, k);
    D.ValueOfDigits(n);
  }

  lemma DollarEnds()
    ensures !Base64.IsDigit('$') && !D.IsDigit('$') && !D.IsDigit(',')
  {
    Base64.DecodedIs('$');
  }

  lemma BinaryFits(b: seq<bv8>, rest: CString, capacity: u32)
    requires |b| <= capacity && (rest == [] || rest[0] == '$')
    ensures Binary(Base64.Encode(b) + rest, capacity) == Some((b, rest))
  {
    hide Base64.Encode, Base64.Decode;
    DollarEnds();
    var s := Base64.Encode(b) + rest;
    var k := |Base64.Encode(b)|;
    assert s[0..k] == Base64.Encode(b) && s[k..] == rest;
    Base64.DecodeEncode(b, s, 0, capacity);
  }

  lemma ParsePrintedCosts(f: Fields, saltCap: u32, outCap: u32)
    requires |f.salt| <= saltCap && |f.out| <= outCap
    ensures ParseCosts(PrintedCosts(f), f.version, saltCap, outCap) == Some((f, []))
  {
    hide D.Digits, Base64.Encode, Expect, Number32, Binary;
    DollarEnds();
    var s9: CString := Base64.Encode(f.out) + [];
    BinaryFits(f.out, [], outCap);
    var s8: CString := "$" + s9;
    ExpectFits("$", s9);
    var s7: CString := Base64.Encode(f.salt) + s8;
    BinaryFits(f.salt, s8, saltCap);
    var s6: CString := "$" + s7;
    ExpectFits("$", s7);
    var s5: CString := D.Digits(f.lanes) + s6;
    NumberFits(f.lanes, s6);
    var s4: CString := ",p=" + s5;
    ExpectFits(",p=", s5);
    var s3: CString := D.Digits(f.tCost) + s4;
    NumberFits(f.tCost, s4);
    var s2: CString := ",t=" + s3;
    ExpectFits(",t=", s3);
    NumberFits(f.mCost, s2);
    ExpectFits("$m=", D.Digits(f.mCost) + s2);
  }

  /** What is printed is parsed back, whatever the parameters, if the buffers are large enough. */
  lemma ParsePrinted(f: Fields, ty: Argon2Type, saltCap: u32, outCap: u32)
    requires |f.salt| <= saltCap && |f.out| <= outCap
    ensures Parse(Printed(f, ty), ty, saltCap, outCap) == Some((f, []))
  {
    hide D.Digits, Expect, Number32, Binary, ParseCosts;
    DollarEnds();
    var s2: CString := PrintedCosts(f);
    ParsePrintedCosts(f, saltCap, outCap);
    NumberFits(f.version, s2);
    hide PrintedCosts;
    var s1: CString := D.Digits(f.version) + s2;
    ExpectFits("$v=", s1);
    ExpectFits(TypeString(ty), "$v=" + s1);
    ExpectFits("$", TypeString(ty) + ("$v=" + s1));
  }

  // ---- printing inverts parsing ----

  predicate SevenBit(s: CString) {
    forall k :: 0 <= k < |s| ==> s[k] as int < 128
  }

  lemma ExpectTakes(s: CString, prefix: CString)
    requires Expect(s, prefix).Some?
    ensures s == prefix + Expect(s, prefix).value
  {}

  lemma NumberTakes(s: CString)
    requires Number32(s).Some?
    ensures s == D.Digits(Number32(s).value.0) + Number32(s).value.1
  {
    var n := DigitRun(s);
    D.DigitsOfValue(s[..n]);
  }

  lemma BinaryTakes(s: CString, capacity: u32)
    requires Binary(s, capacity).Some? && SevenBit(s)
    ensures s == Base64.Encode(Binary(s, capacity).value.0) + Binary(s, capacity).value.1
    ensures |Binary(s, capacity).value.0| <= capacity
  {
    hide Base64.Encode;
    Base64.EncodeDecode(s, 0, capacity);
  }

  lemma TailOf(a: CString, b: CString)
    ensures SevenBit(a + b) ==> SevenBit(b)
  {
    assert (a + b)[|a|..] == b;
  }

  lemma PrintedParsedCosts(s: CString, version: u32, saltCap: u32, outCap: u32)
    requires SevenBit(s) && ParseCosts(s, version, saltCap, outCap).Some?
    ensures var (f, rest) := ParseCosts(s, version, saltCap, outCap).value;
            f.version == version && |f.salt| <= saltCap && |f.out| <= outCap && (rest == [] ==> s == PrintedCosts(f))
  {
    hide D.Digits, Base64.Encode, Expect, Number32, Binary, SevenBit;
    var s1 := Expect(s, "$m=").value;
    ExpectTakes(s, "$m=");
    var s2 := Number32(s1).value.1;
    NumberTakes(s1);
    var s3 := Expect(s2, ",t=").value;
    ExpectTakes(s2, ",t=");
    var s4 := Number32(s3).value.1;
    NumberTakes(s3);
    var s5 := Expect(s4, ",p=").value;
    ExpectTakes(s4, ",p=");
    var s6 := Number32(s5).value.1;
    NumberTakes(s5);
    var s7 := Expect(s6, "$").value;
    ExpectTakes(s6, "$");
    TailOf("$m=", s1);
    TailOf(D.Digits(Number32(s1).value.0), s2);
    TailOf(",t=", s3);
    TailOf(D.Digits(Number32(s3).value.0), s4);
    TailOf(",p=", s5);
    TailOf(D.Digits(Number32(s5).value.0), s6);
    TailOf("$", s7);
    var s8 := Binary(s7, saltCap).value.1;
    BinaryTakes(s7, saltCap);
    TailOf(Base64.Encode(Binary(s7, saltCap).value.0), s8);
    var s9 := Expect(s8, "$").value;
    ExpectTakes(s8, "$");
    TailOf("$", s9);
    BinaryTakes(s9, outCap);
  }

  lemma SevenBitConcat(a: CString, b: CString)
    requires SevenBit(a) && SevenBit(b)
    ensures SevenBit(a + b)
  {}

  lemma CostsAreSevenBit(f: Fields)
    ensures SevenBit(PrintedCosts(f))
  {
    DigitsAreSevenBit(f.mCost);
    DigitsAreSevenBit(f.tCost);
    DigitsAreSevenBit(f.lanes);
    LettersAreSevenBit(Base64.Sextets(f.salt));
    LettersAreSevenBit(Base64.Sextets(f.out));
    assert SevenBit("$m=") && SevenBit(",t=") && SevenBit(",p=") && SevenBit("$") && SevenBit([]);
    hide D.Digits, Base64.Letters, Base64.Sextets, SevenBit;
    var s9: CString := Base64.Encode(f.out) + [];
    SevenBitConcat(Base64.Encode(f.out), []);
    SevenBitConcat("$", s9);
    var s8: CString := "$" + s9;
    SevenBitConcat(Base64.Encode(f.salt), s8);
    var s7: CString := Base64.Encode(f.salt) + s8;
    SevenBitConcat("$", s7);
    var s6: CString := "$" + s7;
    SevenBitConcat(D.Digits(f.lanes), s6);
    var s5: CString := D.Digits(f.lanes) + s6;
    SevenBitConcat(",p=", s5);
    var s4: CString := ",p=" + s5;
    SevenBitConcat(D.Digits(f.tCost), s4);
    var s3: CString := D.Digits(f.tCost) + s4;
    SevenBitConcat(",t=", s3);
    var s2: CString := ",t=" + s3;
    SevenBitConcat(D.Digits(f.mCost), s2);
    SevenBitConcat("$m=", D.Digits(f.mCost) + s2);
  }

  lemma PrintedIsSevenBit(f: Fields, ty: Argon2Type)
    ensures SevenBit(Printed(f, ty))
  {
    CostsAreSevenBit(f);
    DigitsAreSevenBit(f.version);
    assert SevenBit("$v=") && SevenBit("$") && SevenBit(TypeString(ty));
    hide D.Digits, SevenBit, PrintedCosts, TypeString;
    var s1: CString := D.Digits(f.version) + PrintedCosts(f);
    SevenBitConcat(D.Digits(f.version), PrintedCosts(f));
    SevenBitConcat("$v=", s1);
    SevenBitConcat(TypeString(ty), "$v=" + s1);
    SevenBitConcat("$", TypeString(ty) + ("$v=" + s1));
  }

  lemma DigitsAreSevenBit(n: nat)
    ensures SevenBit(D.Digits(n))
  {
    hide D.Digits;
    assert forall k :: 0 <= k < |D.Digits(n)| ==> D.IsDigit(D.Digits(n)[k]);
  }

  lemma LettersAreSevenBit(d: seq<Base64.Sextet>)
    ensures SevenBit(Base64.Letters(d))
  {
    forall k | 0 <= k < |d|
      ensures Base64.Letters(d)[k] as int < 128
    {
      Base64.LetterDecodes(d[k]);
    }
  }

  /** The version is written out. */
  predicate ExplicitVersion(str: CString, ty: Argon2Type) {
    "$" + (TypeString(ty) + "$v=") <= str
  }

  /** What follows the type. */
  function AfterType(str: CString, ty: Argon2Type): CString
    requires 1 + |TypeString(ty)| <= |str|
  {
    str[1 + |TypeString(ty)|..]
  }

  lemma StartsWithDollar(s: CString, saltCap: u32, outCap: u32)
    requires Version(s).Some? && ParseCosts(Version(s).value.1, Version(s).value.0, saltCap, outCap).Some?
    ensures s != [] && s[0] == '$'
  {
    hide Number32, Binary;
    assert "$v=" <= s || "$m=" <= s;
  }

  lemma HeadIs(str: CString, ty: Argon2Type, saltCap: u32, outCap: u32)
    requires Parse(str, ty, saltCap, outCap).Some?
    ensures 1 + |TypeString(ty)| <= |str|
    ensures var s := AfterType(str, ty);
            && str == "$" + (TypeString(ty) + s)
            && s != [] && s[0] == '$'
            && Version(s).Some?
            && Parse(str, ty, saltCap, outCap) == ParseCosts(Version(s).value.1, Version(s).value.0, saltCap, outCap)
            && (ExplicitVersion(str, ty) <==> "$v=" <= s)
  {
    hide Version, ParseCosts, TypeString;
    var s1 := Expect(str, "$").value;
    ExpectTakes(str, "$");
    var s2 := Expect(s1, TypeString(ty)).value;
    ExpectTakes(s1, TypeString(ty));
    var n := 1 + |TypeString(ty)|;
    assert s2 == AfterType(str, ty);
    StartsWithDollar(s2, saltCap, outCap);
    if "$v=" <= s2 {
      assert s2 == "$v=" + s2[3..];
      assert str == ("$" + (TypeString(ty) + "$v=")) + s2[3..];
    }
    if ExplicitVersion(str, ty) {
      assert str[..n + 3] == "$" + (TypeString(ty) + "$v=");
      assert str[..n + 3][n..] == "$v=";
      assert s2[..3] == str[..n + 3][n..];
    }
  }

  /** A whole string that parses prints again as itself if and only if it gives the version explicitly and
      holds no negative `char`. */
  lemma PrintedParsed(str: CString, ty: Argon2Type, saltCap: u32, outCap: u32)
    requires Parse(str, ty, saltCap, outCap).Some? && Parse(str, ty, saltCap, outCap).value.1 == []
    ensures var f := Parse(str, ty, saltCap, outCap).value.0;
            Printed(f, ty) == str <==> SevenBit(str) && ExplicitVersion(str, ty)
  {
    var f := Parse(str, ty, saltCap, outCap).value.0;
    PrintedIsSevenBit(f, ty);
    HeadIs(str, ty, saltCap, outCap);
    hide D.Digits, SevenBit, Parse, TypeString, ParseCosts, PrintedCosts, Number32, AfterType;
    if SevenBit(str) && ExplicitVersion(str, ty) {
      hide ExplicitVersion;
      var s2 := AfterType(str, ty);
      TailOf("$", TypeString(ty) + s2);
      TailOf(TypeString(ty), s2);
      ExpectTakes(s2, "$v=");
      var s3 := Expect(s2, "$v=").value;
      TailOf("$v=", s3);
      NumberTakes(s3);
      hide Expect;
      var (v, s4) := Number32(s3).value;
      TailOf(D.Digits(v), s4);
      PrintedParsedCosts(s4, v, saltCap, outCap);
    } else if Printed(f, ty) == str {
      PrintedIsExplicit(f, ty);
    }
  }

  lemma PrintedIsExplicit(f: Fields, ty: Argon2Type)
    ensures ExplicitVersion(Printed(f, ty), ty)
  {
    hide D.Digits, PrintedCosts, TypeString;
    var s := D.Digits(f.version) + PrintedCosts(f);
    assert "$" + (TypeString(ty) + ("$v=" + s)) == ("$" + (TypeString(ty) + "$v=")) + s;
  }

  /** The type can be read off characters 7 and 8. */
  lemma TypeIsRead(str: CString, ty: Argon2Type, saltCap: u32, outCap: u32)
    requires Parse(str, ty, saltCap, outCap).Some?
    ensures |str| > 8
    ensures str[7] == 'd' <==> ty == Argon2d
    ensures str[8] == 'd' <==> ty == Argon2id
  {
    HeadIs(str, ty, saltCap, outCap);
    hide Parse, ExplicitVersion, Version, ParseCosts;
  }

  /** A string of one type is no string of another. */
  lemma OtherTypeFails(str: CString, ty: Argon2Type, ty': Argon2Type, saltCap: u32, outCap: u32, saltCap': u32, outCap': u32)
    requires Parse(str, ty, saltCap, outCap).Some? && ty != ty'
    ensures Parse(str, ty', saltCap', outCap').None?
  {
    hide Parse;
    TypeIsRead(str, ty, saltCap, outCap);
    if Parse(str, ty', saltCap', outCap').Some? {
      TypeIsRead(str, ty', saltCap', outCap');
    }
  }

  // ---- encode_string and decode_string on contexts ----

  ghost predicate BuffersFit(c: Context) {
    LengthsFit(c) && (c.out.To? ==> c.outlen <= |c.out.bytes|)
  }

  /** What a context contributes to its string. */
  function FieldsOf(c: Context): Fields
    requires (c.salt.To? ==> c.saltlen <= |c.salt.bytes|) && (c.out.To? ==> c.outlen <= |c.out.bytes|)
  {
    Fields(c.version, c.mCost, c.tCost, c.lanes, Field(c.salt, c.saltlen), Field(c.out, c.outlen))
  }

  /** The context that `decode_string` fills in: threads as many as lanes, no secret, no associated data. */
  function ContextOf(f: Fields, pwd: Pointer, pwdlen: u32): Context
    requires |f.salt| <= UINT32_MAX && |f.out| <= UINT32_MAX
  {
    Context(To(f.out), |f.out|, pwd, pwdlen, To(f.salt), |f.salt|, Null, 0, Null, 0,
            f.tCost, f.mCost, f.lanes, f.lanes, f.version, false, false)
  }

  /** The returned status: the format first, then the parameters, then that nothing follows. */
  function DecodeStatus(str: CString, ty: Argon2Type, saltCap: u32, outCap: u32, pwd: Pointer, pwdlen: u32): Status {
    match Parse(str, ty, saltCap, outCap)
    case None => DecodingFail
    case Some((f, rest)) =>
      var status := ValidateInputs(ContextOf(f, pwd, pwdlen));
      if status != Ok then status else if rest == [] then Ok else DecodingFail
  }

  /** `decode_string` inverts `encode_string` on every valid context, for any password and any buffers that are
      large enough. */
  lemma DecodeInvertsEncode(c: Context, ty: Argon2Type, saltCap: u32, outCap: u32, pwd: Pointer, pwdlen: u32)
    requires ValidateInputs(c) == Ok && BuffersFit(c)
    requires c.saltlen <= saltCap && c.outlen <= outCap && (pwd.Null? ==> pwdlen == 0)
    ensures var str := Printed(FieldsOf(c), ty);
            && Parse(str, ty, saltCap, outCap) == Some((FieldsOf(c), []))
            && DecodeStatus(str, ty, saltCap, outCap, pwd, pwdlen) == Ok
    ensures forall ty' :: ty' != ty ==>
      DecodeStatus(Printed(FieldsOf(c), ty), ty', saltCap, outCap, pwd, pwdlen) == DecodingFail
  {
    var f := FieldsOf(c);
    AcceptedIffAcceptable(c);
    AcceptedIffAcceptable(ContextOf(f, pwd, pwdlen));
    hide Parse, Printed, ValidateInputs;
    ParsePrinted(f, ty, saltCap, outCap);
    forall ty' | ty' != ty
      ensures DecodeStatus(Printed(f, ty), ty', saltCap, outCap, pwd, pwdlen) == DecodingFail
    {
      OtherTypeFails(Printed(f, ty), ty, ty', saltCap, outCap, saltCap, outCap);
    }
  }

  lemma FieldsBack(f: Fields, pwd: Pointer, pwdlen: u32)
    requires |f.salt| <= UINT32_MAX && |f.out| <= UINT32_MAX
    ensures FieldsOf(ContextOf(f, pwd, pwdlen)) == f
  {
    assert f.salt[..|f.salt|] == f.salt && f.out[..|f.out|] == f.out;
  }

  /** An accepted string is the encoding of the context it is decoded to, if and only if it has a version and
      is 7-bit. */
  lemma EncodeInvertsDecode(str: CString, ty: Argon2Type, saltCap: u32, outCap: u32, pwd: Pointer, pwdlen: u32)
    requires DecodeStatus(str, ty, saltCap, outCap, pwd, pwdlen) == Ok
    ensures var c := ContextOf(Parse(str, ty, saltCap, outCap).value.0, pwd, pwdlen);
            && ValidateInputs(c) == Ok
            && (Printed(FieldsOf(c), ty) == str <==> SevenBit(str) && ExplicitVersion(str, ty))
  {
    var f := Parse(str, ty, saltCap, outCap).value.0;
    FieldsBack(f, pwd, pwdlen);
    hide Parse, Printed, ValidateInputs, FieldsOf, ContextOf, SevenBit, ExplicitVersion;
    PrintedParsed(str, ty, saltCap, outCap);
  }

  // ---- the functions of the source ----

  /** `SS`: the string and a terminating zero, if both fit the `dstLen - at` characters left. */
  method Append(dst: array<char>, at: nat, dstLen: nat, s: CString, ghost rest: CString, ghost whole: CString) returns (r: Option<nat>)
    requires at <= dstLen <= dst.Length && whole == dst[..at] + (s + rest)
    modifies dst
    ensures r.Some? ==> r.value == at + |s| < dstLen && whole == dst[..r.value] + rest && dst[r.value] == 0 as char
    ensures r.None? ==> |whole| >= dstLen
    ensures dst[dstLen..] == old(dst[dstLen..])
  {
    if |s| >= dstLen - at {
      return None;
    }
    forall k | 0 <= k < |s| {
      dst[at + k] := s[k];
    }
    dst[at + |s|] := 0 as char;
    assert dst[..at + |s|] == old(dst[..at]) + s;
    return Some(at + |s|);
  }

  /** `SX`: the numeral fits the 30 characters of the temporary buffer. */
  method AppendNumber(dst: array<char>, at: nat, dstLen: nat, n: u32, ghost rest: CString, ghost whole: CString) returns (r: Option<nat>)
    requires at <= dstLen <= dst.Length && whole == dst[..at] + (D.Digits(n) + rest)
    modifies dst
    ensures r.Some? ==> r.value == at + |D.Digits(n)| < dstLen && whole == dst[..r.value] + rest && dst[r.value] == 0 as char
    ensures r.None? ==> |whole| >= dstLen
    ensures dst[dstLen..] == old(dst[dstLen..])
  {
    NumeralFits(n);
    hide D.Digits;
    r := Append(dst, at, dstLen, D.Digits(n), rest, whole);
  }

  lemma NumeralFits(n: u32)
    ensures |D.Digits(n)| <= 10
  {
    D.DigitsLength(n, 10);
    assert D.Power10(5) == 100000 by {
      assert D.Power10(3) == 1000;
    }
    assert D.Power10(10) == 10000000000 by {
      assert D.Power10(8) == 100000000 by {
        assert D.Power10(6) == 1000000;
      }
    }
  }

  /** `SB`. */
  method AppendBinary(dst: array<char>, at: nat, dstLen: nat, b: seq<bv8>, ghost rest: CString, ghost whole: CString) returns (r: Option<nat>)
    requires at <= dstLen <= dst.Length && whole == dst[..at] + (Base64.Encode(b) + rest)
    modifies dst
    ensures r.Some? ==>
      r.value == at + |Base64.Encode(b)| < dstLen && whole == dst[..r.value] + rest && dst[r.value] == 0 as char
    ensures r.None? ==> |whole| >= dstLen
    ensures dst[dstLen..] == old(dst[dstLen..])
  {
    hide Base64.Encode, Base64.Length;
    ghost var s := dst[..];
    ghost var e := Base64.Encode(b);
    var olen := Base64.ToBase64(dst, at, dstLen - at, b);
    if olen.None? {
      return None;
    }
    assert dst[..] == s[..at] + e + [0 as char] + s[at + |e| + 1..];
    assert dst[..at + |e|] == s[..at] + e;
    return Some(at + olen.value);
  }

  method EncodeCosts(dst: array<char>, start: nat, dstLen: nat, f: Fields, ghost whole: CString) returns (r: Option<nat>)
    requires start <= dstLen <= dst.Length && whole == dst[..start] + PrintedCosts(f)
    modifies dst
    ensures r.Some? ==> r.value == |whole| < dstLen && dst[..|whole|] == whole && dst[|whole|] == 0 as char
    ensures r.None? ==> |whole| >= dstLen
    ensures dst[dstLen..] == old(dst[dstLen..])
  {
    hide D.Digits, Base64.Encode, Base64.Length;
    ghost var s9: CString := Base64.Encode(f.out) + [];
    ghost var s8: CString := "$" + s9;
    ghost var s7: CString := Base64.Encode(f.salt) + s8;
    ghost var s6: CString := "$" + s7;
    ghost var s5: CString := D.Digits(f.lanes) + s6;
    ghost var s4: CString := ",p=" + s5;
    ghost var s3: CString := D.Digits(f.tCost) + s4;
    ghost var s2: CString := ",t=" + s3;
    ghost var s1: CString := D.Digits(f.mCost) + s2;
    var at :- Append(dst, start, dstLen, "$m=", s1, whole);
    at :- AppendNumber(dst, at, dstLen, f.mCost, s2, whole);
    at :- Append(dst, at, dstLen, ",t=", s3, whole);
    at :- AppendNumber(dst, at, dstLen, f.tCost, s4, whole);
    at :- Append(dst, at, dstLen, ",p=", s5, whole);
    at :- AppendNumber(dst, at, dstLen, f.lanes, s6, whole);
    at :- Append(dst, at, dstLen, "$", s7, whole);
    at :- AppendBinary(dst, at, dstLen, f.salt, s8, whole);
    at :- Append(dst, at, dstLen, "$", s9, whole);
    at :- AppendBinary(dst, at, dstLen, f.out, [], whole);
    return Some(at);
  }

  method EncodeFields(dst: array<char>, dstLen: nat, f: Fields, ty: Argon2Type) returns (r: Option<nat>)
    requires dstLen <= dst.Length
    modifies dst
    ensures var str := Printed(f, ty);
            && r == (if |str| < dstLen then Some(|str|) else None)
            && (r.Some? ==> dst[..|str|] == str && dst[|str|] == 0 as char)
    ensures dst[dstLen..] == old(dst[dstLen..])
  {
    hide D.Digits, PrintedCosts;
    ghost var whole := Printed(f, ty);
    ghost var s1: CString := D.Digits(f.version) + PrintedCosts(f);
    assert whole == dst[..0] + ("$" + (TypeString(ty) + ("$v=" + s1)));
    hide Printed, TypeString;
    var at :- Append(dst, 0, dstLen, "$", TypeString(ty) + ("$v=" + s1), whole);
    at :- Append(dst, at, dstLen, TypeString(ty), "$v=" + s1, whole);
    at :- Append(dst, at, dstLen, "$v=", s1, whole);
    at :- AppendNumber(dst, at, dstLen, f.version, PrintedCosts(f), whole);
    at :- EncodeCosts(dst, at, dstLen, f, whole);
    return Some(at);
  }

  /** The result of `encode_string`. */
  function EncodeStatus(c: Context, ty: Argon2Type, dstLen: nat): Status
    requires BuffersFit(c)
  {
    if ValidateInputs(c) != Ok then ValidateInputs(c)
    else if |Printed(FieldsOf(c), ty)| < dstLen then Ok
    else EncodingFail
  }

  /** `encode_string`: it succeeds exactly if the string and its terminating zero fit the buffer. */
  method EncodeString(dst: array<char>, dstLen: nat, c: Context, ty: Argon2Type) returns (status: Status)
    requires dstLen <= dst.Length && BuffersFit(c)
    modifies dst
    ensures var str := Printed(FieldsOf(c), ty);
            && status == EncodeStatus(c, ty, dstLen)
            && (status == Ok ==> |str| < dstLen && dst[..|str|] == str && dst[|str|] == 0 as char)
    ensures dst[dstLen..] == old(dst[dstLen..])
  {
    hide Printed, ValidateInputs;
    status := ValidateInputs(c);
    if status != Ok {
      return;
    }
    var r := EncodeFields(dst, dstLen, FieldsOf(c), ty);
    status := if r.Some? then Ok else EncodingFail;
  }

  method ReadNumber32(s: CString) returns (r: Option<(u32, CString)>)
    ensures r == Number32(s)
  {
    hide DecodeDecimal;
    var t :- ReadDecimal(s);
    if t.0 > UINT32_MAX {
      return None;
    }
    return Some((t.0, t.1));
  }

  /** `BIN`: the bytes are in the buffer. */
  method ReadBinary(dst: array<bv8>, capacity: u32, s: CString) returns (r: Option<(u32, CString)>)
    requires capacity <= dst.Length
    modifies dst
    ensures r.Some? <==> Binary(s, capacity).Some?
    ensures r.Some? ==> r.value.0 <= capacity && Binary(s, capacity).value == (dst[..r.value.0], r.value.1)
    ensures dst[capacity..] == old(dst[capacity..])
  {
    hide Base64.Decode;
    var t :- Base64.FromBase64(dst, capacity, s, 0);
    return Some((t.0, s[t.1..]));
  }

  method ReadCosts(salt: array<bv8>, saltCap: u32, out: array<bv8>, outCap: u32, str: CString, version: u32)
    returns (r: Option<(Fields, CString)>)
    requires salt != out && saltCap <= salt.Length && outCap <= out.Length
    modifies salt, out
    ensures r == ParseCosts(str, version, saltCap, outCap)
    ensures r.Some? ==> salt[..|r.value.0.salt|] == r.value.0.salt && out[..|r.value.0.out|] == r.value.0.out
    ensures salt[saltCap..] == old(salt[saltCap..]) && out[outCap..] == old(out[outCap..])
  {
    hide Expect, Number32, Binary;
    var s :- Expect(str, "$m=");
    var m :- ReadNumber32(s);
    s :- Expect(m.1, ",t=");
    var t :- ReadNumber32(s);
    s :- Expect(t.1, ",p=");
    var lanes :- ReadNumber32(s);
    s :- Expect(lanes.1, "$");
    var n :- ReadBinary(salt, saltCap, s);
    s :- Expect(n.1, "$");
    var k :- ReadBinary(out, outCap, s);
    return Some((Fields(version, m.0, t.0, lanes.0, salt[..n.0], out[..k.0]), k.1));
  }

  method ReadFields(salt: array<bv8>, saltCap: u32, out: array<bv8>, outCap: u32, str: CString, ty: Argon2Type)
    returns (r: Option<(Fields, CString)>)
    requires salt != out && saltCap <= salt.Length && outCap <= out.Length
    modifies salt, out
    ensures r == Parse(str, ty, saltCap, outCap)
    ensures r.Some? ==> salt[..|r.value.0.salt|] == r.value.0.salt && out[..|r.value.0.out|] == r.value.0.out
    ensures salt[saltCap..] == old(salt[saltCap..]) && out[outCap..] == old(out[outCap..])
  {
    hide TypeString, Number32, ParseCosts;
    var s :- Expect(str, "$");
    s :- Expect(s, TypeString(ty));
    var version := VERSION_10;
    if "$v=" <= s {
      var t :- ReadNumber32(s[3..]);
      version, s := t.0, t.1;
    }
    r := ReadCosts(salt, saltCap, out, outCap, s, version);
  }

  /** `decode_string`: `saltCap` and `outCap` are the sizes of the buffers. The context holds what the buffers
      hold. */
  method DecodeString(salt: array<bv8>, saltCap: u32, out: array<bv8>, outCap: u32, pwd: Pointer, pwdlen: u32, str: CString, ty: Argon2Type)
    returns (status: Status, c: Option<Context>)
    requires salt != out && saltCap <= salt.Length && outCap <= out.Length
    modifies salt, out
    ensures status == DecodeStatus(str, ty, saltCap, outCap, pwd, pwdlen)
    ensures status == Ok ==>
      && c == Some(ContextOf(Parse(str, ty, saltCap, outCap).value.0, pwd, pwdlen))
      && c.value.salt == To(salt[..c.value.saltlen]) && c.value.out == To(out[..c.value.outlen])
    ensures salt[saltCap..] == old(salt[saltCap..]) && out[outCap..] == old(out[outCap..])
  {
    hide Parse, ValidateInputs;
    var r := ReadFields(salt, saltCap, out, outCap, str, ty);
    if r.None? {
      return DecodingFail, None;
    }
    c := Some(ContextOf(r.value.0, pwd, pwdlen));
    status := ValidateInputs(c.value);
    if status == Ok && r.value.1 != [] {
      status := DecodingFail;
    }
  }

  // ---- the length of the string ----

  /** `numlen`. */
  method NumLen(num: u32) returns (len: nat)
    ensures len == |D.Digits(num)|
  {
    len := 1;
    var n := num;
    while n >= 10
      invariant len + |D.Digits(n)| == 1 + |D.Digits(num)|
    {
      len := len + 1;
      n := n / 10;
    }
  }

  /** Separators, type, numerals, Base64 parts and the terminating zero, with two digits for the version. */
  function EncodedLenOf(tCost: u32, mCost: u32, parallelism: u32, saltlen: u32, hashlen: u32, ty: Argon2Type): nat {
    |"$$v=$m=,t=,p=$$"| + |TypeString(ty)| + |D.Digits(tCost)| + |D.Digits(mCost)| + |D.Digits(parallelism)|
    + Base64.Length(saltlen) + Base64.Length(hashlen) + 2 + 1
  }

  /** `argon2_encodedlen`; it takes the length of the newest version number for granted. */
  method EncodedLen(tCost: u32, mCost: u32, parallelism: u32, saltlen: u32, hashlen: u32, ty: Argon2Type) returns (n: nat)
    ensures n == EncodedLenOf(tCost, mCost, parallelism, saltlen, hashlen, ty)
  {
    hide D.Digits, Base64.Length;
    var t := NumLen(tCost);
    var m := NumLen(mCost);
    var p := NumLen(parallelism);
    var v := NumLen(VERSION_13);
    TwoDigits(VERSION_13);
    n := |"$$v=$m=,t=,p=$$"| + |TypeString(ty)| + t + m + p + Base64.B64Len(saltlen) + Base64.B64Len(hashlen) + v + 1;
  }

  lemma TwoDigits(n: nat)
    ensures |D.Digits(n)| == 2 <==> 10 <= n < 100
    ensures |D.Digits(n)| <= 2 <==> n < 100
  {
    D.DigitsLength(n, 1);
    D.DigitsLength(n, 2);
    assert D.Power10(1) == 10 && D.Power10(2) == 100;
  }

  /** A buffer of `argon2_encodedlen` characters is large enough if and only if the version is below 100; it is just
      large enough if and only if the version has two digits. */
  lemma EncodedLenIsTight(f: Fields, ty: Argon2Type)
    requires |f.salt| <= UINT32_MAX && |f.out| <= UINT32_MAX
    ensures |Printed(f, ty)| + 1 == EncodedLenOf(f.tCost, f.mCost, f.lanes, |f.salt|, |f.out|, ty) <==> 10 <= f.version < 100
    ensures |Printed(f, ty)| < EncodedLenOf(f.tCost, f.mCost, f.lanes, |f.salt|, |f.out|, ty) <==> f.version < 100
  {
    hide D.Digits, Base64.Length;
    TwoDigits(f.version);
  }

  /** So `encode_string` into a buffer of that length succeeds for an accepted context if and only if its version is
      below 100; no check of the parameters looks at the version. */
  lemma EncodedLenSuffices(c: Context, ty: Argon2Type)
    requires BuffersFit(c) && ValidateInputs(c) == Ok
    ensures var len := EncodedLenOf(c.tCost, c.mCost, c.lanes, c.saltlen, c.outlen, ty);
            EncodeStatus(c, ty, len) == if c.version < 100 then Ok else EncodingFail
    ensures forall v: u32 :: ValidateInputs(c.(version := v)) == Ok
  {
    AcceptedIffAcceptable(c);
    hide Printed, EncodedLenOf;
    EncodedLenIsTight(FieldsOf(c), ty);
  }

  /** A context of version 100 that is accepted, and whose string does not fit. */
  lemma VersionOneHundred(ty: Argon2Type)
    ensures var salt, out := seq(8, _ => 0), seq(4, _ => 0);
            var c := Context(To(out), 4, To([]), 0, To(salt), 8, Null, 0, Null, 0, 1, 8, 1, 1, 100, false, false);
            ValidateInputs(c) == Ok && EncodeStatus(c, ty, EncodedLenOf(1, 8, 1, 8, 4, ty)) == EncodingFail
  {
    hide EncodedLenOf, EncodeStatus;
    EncodedLenSuffices(Context(To(seq(4, _ => 0)), 4, To([]), 0, To(seq(8, _ => 0)), 8, Null, 0, Null, 0, 1, 8, 1, 1, 100, false, false), ty);
  }
}
