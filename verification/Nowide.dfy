/** Converting whole texts: nowide/convert.hpp, nowide/encoding_utf.hpp and nowide/stackstring.hpp. */
module Nowide {
  import opened Wrappers
  import opened Utf

  // ---- lengths ----

  lemma {:induction false} EncodeAllConcat(e: Encoding, a: seq<Unit>, b: seq<Unit>)
    ensures EncodeAll(e, a + b) == EncodeAll(e, a) + EncodeAll(e, b)
    decreases |a|
  {
    hide Encode;
    if a == [] {
      assert a + b == b;
    } else {
      EncodeAllConcat(e, a[1..], b);
      assert (a + b)[1..] == a[1..] + b;
    }
  }

  lemma EncodeOne(e: Encoding, c: Unit)
    ensures EncodeAll(e, [c]) == Encode(e, c)
  {
    hide Encode;
    assert EncodeAll(e, [c]) == Encode(e, c) + EncodeAll(e, []);
  }

  function SizeOf(e: Encoding): nat {
    match e case Utf8 => 1 case Utf16 => 2 case Utf32 => 4
  }

  /** `get_space`: for `n` units of one size, the units of another size. */
  function GetSpace(insize: nat, outsize: nat, n: nat): nat {
    if insize <= outsize then n
    else if insize == 2 && outsize == 1 then 3 * n
    else if insize == 4 && outsize == 1 then 4 * n
    else 2 * n
  }

  /** The space is always enough. */
  lemma {:induction false} SpaceSuffices(input: Encoding, output: Encoding, cps: seq<Unit>)
    ensures |EncodeAll(output, cps)| <= GetSpace(SizeOf(input), SizeOf(output), |EncodeAll(input, cps)|)
    decreases |cps|
  {
    if cps != [] {
      SpaceSuffices(input, output, cps[1..]);
    }
  }

  // ---- basic_convert ----

  /** What is read so far, and what remains to be read. */
  ghost predicate ReadSoFar(e: Encoding, source: seq<Unit>, pos: nat, cps: seq<Unit>) {
    pos <= |source| &&
    CodePoints(e, source) == match CodePoints(e, source[pos..]) case None => None case Some(rest) => Some(cps + rest)
  }

  lemma ReadNothing(e: Encoding, source: seq<Unit>)
    ensures ReadSoFar(e, source, 0, [])
  {
    hide Decode;
    assert source[0..] == source;
    match CodePoints(e, source)
    case None =>
    case Some(rest) => assert [] + rest == rest;
  }

  lemma ReadOne(e: Encoding, source: seq<Unit>, pos: nat, cps: seq<Unit>)
    requires ReadSoFar(e, source, pos, cps) && pos < |source|
    ensures var (c, n) := Decode(e, source[pos..]);
            if c == ILLEGAL || c == INCOMPLETE then CodePoints(e, source) == None
            else ReadSoFar(e, source, pos + n, cps + [c])
  {
    hide Decode;
    var (c, n) := Decode(e, source[pos..]);
    assert source[pos..][n..] == source[pos + n..];
    if !(c == ILLEGAL || c == INCOMPLETE) {
      match CodePoints(e, source[pos + n..])
      case None =>
      case Some(rest) => assert cps + ([c] + rest) == cps + [c] + rest;
    }
  }

  /** The result fits `size` units with its terminating zero. */
  ghost predicate Convertible(input: Encoding, output: Encoding, source: seq<Unit>, size: nat) {
    CodePoints(input, source).Some? && |EncodeAll(output, CodePoints(input, source).value)| < size
  }

  lemma DoesNotFit(input: Encoding, output: Encoding, source: seq<Unit>, pos: nat, cps: seq<Unit>, size: nat)
    requires ReadSoFar(input, source, pos, cps) && |EncodeAll(output, cps)| >= size
    ensures !Convertible(input, output, source, size)
  {
    hide Decode, Encode;
    if Convertible(input, output, source, size) {
      EncodeAllConcat(output, cps, CodePoints(input, source[pos..]).value);
    }
  }

  /** `basic_convert`: it succeeds exactly if the source is well-formed and the buffer is large enough. */
  method BasicConvert(input: Encoding, output: Encoding, buffer: array<Unit>, size: nat, source: seq<Unit>) returns (ok: bool)
    requires size <= buffer.Length
    modifies buffer
    ensures ok <==> Convertible(input, output, source, size)
    ensures ok ==> var r := EncodeAll(output, CodePoints(input, source).value); buffer[..|r| + 1] == r + [0]
    ensures buffer[size..] == old(buffer[size..])
  {
    hide Decode, Encode, CodePoints, EncodeAll, ReadSoFar, Convertible;
    if size == 0 {
      NoSpace(input, output, source);
      return false;
    }
    var bufferSize: nat := size - 1;
    var pos: nat, at: nat := 0, 0;
    ghost var cps: seq<Unit> := [];
    ReadNothing(input, source);
    Empty(output);
    ok := true;
    while pos != |source|
      invariant 0 <= pos <= |source| && at + bufferSize == size - 1
      invariant ReadSoFar(input, source, pos, cps) && buffer[..at] == EncodeAll(output, cps)
      invariant buffer[size..] == old(buffer[size..])
      decreases |source| - pos
    {
      ReadOne(input, source, pos, cps);
      var (c, n) := Decode(input, source[pos..]);
      pos := pos + n;
      if c == ILLEGAL || c == INCOMPLETE {
        NotWellFormed(input, output, source, size);
        buffer[at] := 0;
        return false;
      }
      var width := Width(output, c);
      EncodeAllConcat(output, cps, [c]);
      EncodeOne(output, c);
      cps := cps + [c];
      if bufferSize < width {
        DoesNotFit(input, output, source, pos, cps, size);
        buffer[at] := 0;
        return false;
      }
      var units := Encode(output, c);
      forall k | 0 <= k < width {
        buffer[at + k] := units[k];
      }
      assert buffer[..at + width] == buffer[..at] + buffer[at..at + width];
      at := at + width;
      bufferSize := bufferSize - width;
    }
    AllRead(input, output, source, cps, size);
    buffer[at] := 0;
  }

  lemma NoSpace(input: Encoding, output: Encoding, source: seq<Unit>)
    ensures !Convertible(input, output, source, 0)
  {}

  lemma NotWellFormed(input: Encoding, output: Encoding, source: seq<Unit>, size: nat)
    requires CodePoints(input, source) == None
    ensures !Convertible(input, output, source, size)
  {}

  lemma Empty(e: Encoding)
    ensures EncodeAll(e, []) == []
  {}

  lemma AllRead(input: Encoding, output: Encoding, source: seq<Unit>, cps: seq<Unit>, size: nat)
    requires ReadSoFar(input, source, |source|, cps) && |EncodeAll(output, cps)| < size
    ensures Convertible(input, output, source, size) && CodePoints(input, source) == Some(cps)
  {
    assert source[|source|..] == [];
    assert CodePoints(input, []) == Some([]);
    assert cps + [] == cps;
  }

  // ---- utf_to_utf ----

  datatype Policy = Skip | Stop

  /** The code points that `skip` keeps. */
  function Salvaged(e: Encoding, s: seq<Unit>): seq<Unit>
    decreases |s|
  {
    if s == [] then [] else
      var (c, n) := Decode(e, s);
      (if c == ILLEGAL || c == INCOMPLETE then [] else [c]) + Salvaged(e, s[n..])
  }

  /** The result; nothing if `conversion_error` is thrown. */
  ghost function Transcoded(input: Encoding, output: Encoding, source: seq<Unit>, how: Policy): Option<seq<Unit>> {
    if how == Stop && CodePoints(input, source).None? then None else Some(EncodeAll(output, Salvaged(input, source)))
  }

  ghost predicate SavedSoFar(e: Encoding, source: seq<Unit>, pos: nat, cps: seq<Unit>) {
    pos <= |source| && Salvaged(e, source) == cps + Salvaged(e, source[pos..])
  }

  lemma SavedNothing(e: Encoding, source: seq<Unit>)
    ensures SavedSoFar(e, source, 0, [])
  {
    hide Salvaged;
    assert source[0..] == source;
  }

  lemma SaveOne(e: Encoding, source: seq<Unit>, pos: nat, cps: seq<Unit>)
    requires SavedSoFar(e, source, pos, cps) && pos < |source|
    ensures var (c, n) := Decode(e, source[pos..]);
            SavedSoFar(e, source, pos + n, cps + if c == ILLEGAL || c == INCOMPLETE then [] else [c])
  {
    hide Decode;
    var (c, n) := Decode(e, source[pos..]);
    assert source[pos..][n..] == source[pos + n..];
  }

  lemma SavedAll(e: Encoding, source: seq<Unit>, cps: seq<Unit>)
    requires SavedSoFar(e, source, |source|, cps)
    ensures Salvaged(e, source) == cps
  {
    assert source[|source|..] == [];
  }

  /** `utf_to_utf`. */
  method UtfToUtf(input: Encoding, output: Encoding, source: seq<Unit>, how: Policy) returns (r: Option<seq<Unit>>)
    ensures r == Transcoded(input, output, source, how)
  {
    hide Decode, Encode, CodePoints, EncodeAll, ReadSoFar, SavedSoFar, Salvaged;
    var result := [];
    var pos: nat := 0;
    ghost var cps: seq<Unit> := [];
    Empty(output);
    ReadNothing(input, source);
    SavedNothing(input, source);
    while pos != |source|
      invariant pos <= |source|
      invariant how == Stop ==> ReadSoFar(input, source, pos, cps)
      invariant SavedSoFar(input, source, pos, cps) && result == EncodeAll(output, cps)
      decreases |source| - pos
    {
      SaveOne(input, source, pos, cps);
      if how == Stop {
        ReadOne(input, source, pos, cps);
      }
      var (c, n) := Decode(input, source[pos..]);
      pos := pos + n;
      if c == ILLEGAL || c == INCOMPLETE {
        if how == Stop {
          return None;
        }
        assert cps + [] == cps;
      } else {
        EncodeAllConcat(output, cps, [c]);
        EncodeOne(output, c);
        result := result + Encode(output, c);
        cps := cps + [c];
      }
    }
    SavedAll(input, source, cps);
    if how == Stop {
      Finished(input, source, cps);
    }
    return Some(result);
  }

  lemma Finished(e: Encoding, source: seq<Unit>, cps: seq<Unit>)
    requires ReadSoFar(e, source, |source|, cps)
    ensures CodePoints(e, source) == Some(cps)
  {
    assert source[|source|..] == [];
    assert cps + [] == cps;
  }

  lemma {:induction false} SalvagedIsValid(e: Encoding, s: seq<Unit>)
    requires Sized(e, s)
    ensures AllValid(Salvaged(e, s))
    decreases |s|
  {
    hide Decode, Encode, Char, Valid;
    if s != [] {
      DecodeAccepts(e, s, 0);
      var (c, n) := Decode(e, s);
      SalvagedIsValid(e, s[n..]);
    }
  }

  lemma {:induction false} SalvagedOfWellFormed(e: Encoding, s: seq<Unit>)
    requires CodePoints(e, s).Some?
    ensures Salvaged(e, s) == CodePoints(e, s).value
    decreases |s|
  {
    hide Decode;
    if s != [] {
      SalvagedOfWellFormed(e, s[Decode(e, s).1..]);
    }
  }

  /** Whatever the input, the result of `skip` is well-formed; and nothing of a well-formed input is lost. */
  lemma SkipIsWellFormed(input: Encoding, output: Encoding, source: seq<Unit>)
    requires Sized(input, source)
    ensures var r := Transcoded(input, output, source, Skip);
            && r.Some? && Sized(output, r.value) && CodePoints(output, r.value) == Some(Salvaged(input, source))
            && (CodePoints(input, source).Some? ==> Salvaged(input, source) == CodePoints(input, source).value)
  {
    hide Salvaged, CodePoints, EncodeAll, Sized;
    SalvagedIsValid(input, source);
    EncodeAllSized(output, Salvaged(input, source));
    CodePointsOfEncoding(output, Salvaged(input, source));
    if CodePoints(input, source).Some? {
      SalvagedOfWellFormed(input, source);
    }
  }

  /** The text is an encoding of code points. */
  ghost predicate WellFormed(e: Encoding, s: seq<Unit>) {
    exists cps :: AllValid(cps) && EncodeAll(e, cps) == s
  }

  /** `narrow` and `widen` of strings use the default policy `skip` and so return a value for every text; the
      exception they are documented to throw would, with `stop`, be thrown exactly for ill-formed text. */
  lemma StringFormsNeverThrow(input: Encoding, output: Encoding, source: seq<Unit>)
    requires Sized(input, source)
    ensures Transcoded(input, output, source, Skip).Some?
    ensures Transcoded(input, output, source, Stop)
            == if WellFormed(input, source) then Transcoded(input, output, source, Skip) else None
  {
    hide Salvaged, CodePoints, EncodeAll, Sized;
    if CodePoints(input, source).Some? {
      EncodeCodePoints(input, source);
      assert WellFormed(input, source);
    } else if WellFormed(input, source) {
      var cps :| AllValid(cps) && EncodeAll(input, cps) == source;
      CodePointsOfEncoding(input, cps);
      assert false;
    }
  }

  /** Narrowing what was widened gives back the text if and only if it is well-formed, under either policy and
      for either size of wide characters. */
  lemma ThereAndBack(narrow: Encoding, wide: Encoding, text: seq<Unit>, how: Policy)
    requires Sized(narrow, text)
    ensures var w := Transcoded(narrow, wide, text, how);
            CodePoints(narrow, text).Some? <==> w.Some? && Transcoded(wide, narrow, w.value, how) == Some(text)
  {
    hide Salvaged, CodePoints, EncodeAll, Sized;
    var cps := Salvaged(narrow, text);
    SkipIsWellFormed(narrow, wide, text);
    var w := EncodeAll(wide, cps);
    SalvagedOfWellFormed(wide, w);
    if CodePoints(narrow, text).Some? {
      EncodeCodePoints(narrow, text);
    } else if EncodeAll(narrow, cps) == text {
      SalvagedIsValid(narrow, text);
      CodePointsOfEncoding(narrow, cps);
    }
  }

  /** `skip` drops more than what is illegal: the unit that shows that a sequence is broken is consumed with it,
      so a letter behind a lone lead byte is lost. */
  lemma SkipSwallowsALetter()
    ensures Transcoded(Utf8, Utf16, [0xC3, 0x41, 0x42], Skip) == Some([0x42])
  {
    var s: seq<Unit> := [0xC3, 0x41, 0x42];
    assert TrailLength(0xC3) == 1 && !IsTrail(0x41);
    assert Trail(s, 1, LeadBits(0xC3, 1), 1) == (ILLEGAL, 2);
    assert Decode(Utf8, s) == (ILLEGAL, 2);
    assert s[2..] == [0x42];
    assert Decode(Utf8, [0x42]) == (0x42, 1);
    var t: seq<Unit> := [0x42];
    assert t[1..] == [];
    assert Salvaged(Utf8, t) == t + Salvaged(Utf8, []);
    assert Salvaged(Utf8, s) == [] + Salvaged(Utf8, t);
    EncodeOne(Utf16, 0x42);
  }

  // ---- basic_stackstring ----

  /** A converted string: in a buffer of fixed size, or in memory of its own if that is too small. */
  class StackString {
    const input: Encoding
    const output: Encoding
    var buffer: array<Unit>
    var memBuffer: array?<Unit>

    ghost predicate Valid()
      reads this
    {
      buffer.Length > 0 && memBuffer != buffer && (memBuffer != null ==> memBuffer.Length > 0)
    }

    constructor (input: Encoding, output: Encoding, bufferSize: nat)
      requires bufferSize > 0
      ensures Valid() && memBuffer == null && fresh(buffer) && buffer.Length == bufferSize
      ensures this.input == input && this.output == output
    {
      this.input, this.output := input, output;
      buffer := new Unit[bufferSize];
      memBuffer := null;
    }

    /** `c_str`. */
    function CStr(): (s: array<Unit>)
      requires Valid()
      reads this
      ensures s.Length > 0
    {
      if memBuffer != null then memBuffer else buffer
    }

    method Clear()
      requires Valid()
      modifies this`memBuffer, buffer
      ensures Valid() && memBuffer == null && buffer[0] == 0
      ensures buffer[1..] == old(buffer[1..])
    {
      memBuffer := null;
      buffer[0] := 0;
    }

    /** `convert`: it fails only on text that is not well-formed, and then leaves the empty string. */
    method Convert(source: seq<Unit>) returns (ok: bool)
      requires Valid() && Sized(input, source)
      modifies this`memBuffer, buffer
      ensures Valid() && (memBuffer != null ==> fresh(memBuffer))
      ensures ok <==> CodePoints(input, source).Some?
      ensures ok ==> var r := EncodeAll(output, CodePoints(input, source).value);
                     |r| < CStr().Length && CStr()[..|r| + 1] == r + [0]
      ensures !ok ==> CStr()[0] == 0 && memBuffer == null
    {
      Clear();
      RoomForAll(input, output, source);
      hide CodePoints, EncodeAll;
      var space := GetSpace(SizeOf(input), SizeOf(output), |source|) + 1;
      if space <= buffer.Length {
        ok := BasicConvert(input, output, buffer, buffer.Length, source);
        if !ok {
          Clear();
        }
      } else {
        memBuffer := new Unit[space];
        ok := BasicConvert(input, output, memBuffer, space, source);
        if !ok {
          Clear();
        }
      }
    }

    /** `swap`: the pointers change places, the buffers are exchanged unit by unit. */
    method Swap(other: StackString)
      requires Valid() && other.Valid() && buffer.Length == other.buffer.Length && buffer != other.buffer
      requires memBuffer != other.buffer && other.memBuffer != buffer
      modifies this`memBuffer, other`memBuffer, buffer, other.buffer
      ensures Valid() && other.Valid()
      ensures memBuffer == old(other.memBuffer) && other.memBuffer == old(memBuffer)
      ensures buffer[..] == old(other.buffer[..]) && other.buffer[..] == old(buffer[..])
      ensures CStr()[..] == old(other.CStr()[..]) && other.CStr()[..] == old(CStr()[..])
    {
      memBuffer, other.memBuffer := other.memBuffer, memBuffer;
      for i := 0 to buffer.Length
        invariant memBuffer == old(other.memBuffer) && other.memBuffer == old(memBuffer)
        invariant forall k :: 0 <= k < i ==> buffer[k] == old(other.buffer[k]) && other.buffer[k] == old(buffer[k])
        invariant forall k :: i <= k < buffer.Length ==> buffer[k] == old(buffer[k]) && other.buffer[k] == old(other.buffer[k])
      {
        buffer[i], other.buffer[i] := other.buffer[i], buffer[i];
      }
    }
  }

  lemma RoomForAll(input: Encoding, output: Encoding, source: seq<Unit>)
    requires Sized(input, source)
    ensures forall size :: size > GetSpace(SizeOf(input), SizeOf(output), |source|) ==>
      (Convertible(input, output, source, size) <==> CodePoints(input, source).Some?)
  {
    if CodePoints(input, source).Some? {
      EncodeCodePoints(input, source);
      SpaceSuffices(input, output, CodePoints(input, source).value);
    }
  }
}
