/** What `skip` loses (nowide/encoding_errors.hpp, nowide/encoding_utf.hpp): `decode` consumes the unit that shows a
    sequence to be broken together with the sequence. */
module NowideSkip {
  import opened Wrappers
  import opened Utf
  import opened Nowide

  /** How many trailing bytes, up to `k`, stand from position `i` on. */
  function Trails(s: seq<Unit>, i: nat, k: nat): (n: nat)
    requires i <= |s|
    ensures n <= k && i + n <= |s| && forall j :: i <= j < i + n ==> IsTrail(s[j])
    ensures n < k && i + n < |s| ==> !IsTrail(s[i + n])
    decreases k
  {
    if k == 0 || i == |s| || !IsTrail(s[i]) then 0 else 1 + Trails(s, i + 1, k - 1)
  }

  /** The length of a truncated sequence that the text starts with and that another unit follows: a lead byte with
      fewer trailing bytes than it announces, or a high surrogate without its low one. */
  function Truncated(e: Encoding, s: seq<Unit>): (r: Option<nat>)
    ensures r.Some? ==> 0 < r.value < |s|
  {
    match e
    case Utf8 =>
      if s == [] || TrailLength(s[0]) <= 0 then None else
        var n := 1 + Trails(s, 1, TrailLength(s[0]));
        if n <= TrailLength(s[0]) && n < |s| then Some(n) else None
    case Utf16 => if |s| > 1 && FirstSurrogate(s[0]) && !SecondSurrogate(s[1]) then Some(1) else None
    case Utf32 => None
  }

  predicate Faulty(c: Unit) { c == ILLEGAL || c == INCOMPLETE }

  /** The units of the next sequence, without the one that shows it to be broken. */
  function Extent(e: Encoding, s: seq<Unit>): (n: nat)
    requires s != []
    ensures 0 < n <= |s|
  {
    match Truncated(e, s) case Some(i) => i case None => Decode(e, s).1
  }

  /** The resynchronising reading: what is illegal is skipped, and reading resumes at the unit at fault. */
  function Resynced(e: Encoding, s: seq<Unit>): seq<Unit>
    decreases |s|
  {
    if s == [] then [] else
      (if Faulty(Decode(e, s).0) then [] else [Decode(e, s).0]) + Resynced(e, s[Extent(e, s)..])
  }

  /** The text starts with a character of the encoding. */
  ghost predicate Begins(e: Encoding, s: seq<Unit>) {
    exists k :: 0 <= k <= |s| && Char(e, s[..k])
  }

  ghost predicate BreaksACharacter(e: Encoding, s: seq<Unit>) {
    Truncated(e, s).Some? && Begins(e, s[Truncated(e, s).value..])
  }

  /** On its way through the text, `decode` meets a truncated sequence directly before a character. */
  ghost predicate LosesACharacter(e: Encoding, s: seq<Unit>)
    decreases |s|
  {
    s != [] && (BreaksACharacter(e, s) || LosesACharacter(e, s[Decode(e, s).1..]))
  }

  // ---- one step ----

  lemma {:induction false} TrailStops(s: seq<Unit>, i: nat, c: Unit, k: nat)
    requires i <= |s|
    ensures var n := Trails(s, i, k);
            var r := Trail(s, i, c, k);
            && r.1 == i + n + (if n < k && i + n < |s| then 1 else 0)
            && (n < k ==> r.0 == if i + n < |s| then ILLEGAL else INCOMPLETE)
    decreases k
  {
    hide Join, IsTrail;
    if k > 0 && i < |s| && IsTrail(s[i]) {
      TrailStops(s, i + 1, Join(c, s[i]), k - 1);
    }
  }

  /** The unit behind a truncated sequence is consumed with it. */
  lemma TruncatedIsIllegal(e: Encoding, s: seq<Unit>)
    requires Truncated(e, s).Some?
    ensures Decode(e, s) == (ILLEGAL, Truncated(e, s).value + 1)
  {
    hide Trail, Trails, LeadBits, IsTrail;
    if e == Utf8 {
      TrailStops(s, 1, LeadBits(s[0], TrailLength(s[0])), TrailLength(s[0]));
      SpecialsStay(TrailLength(s[0]));
    }
  }

  /** Units that can only continue a sequence. */
  predicate Straggler(e: Encoding, u: Unit) {
    match e case Utf8 => IsTrail(u) case Utf16 => SecondSurrogate(u) case Utf32 => false
  }

  /** Behind the first unit of a sequence there are stragglers only. */
  lemma StragglersFollow(e: Encoding, s: seq<Unit>)
    requires s != []
    ensures forall j :: 1 <= j < Extent(e, s) ==> Straggler(e, s[j])
  {
    hide Trail, LeadBits, IsTrail, Trails, Checked;
    if e == Utf8 && TrailLength(s[0]) > 0 {
      TrailStops(s, 1, LeadBits(s[0], TrailLength(s[0])), TrailLength(s[0]));
    }
  }

  lemma StragglerIsIllegal(e: Encoding, s: seq<Unit>)
    requires s != [] && Fits(e, s[0]) && Straggler(e, s[0])
    ensures Decode(e, s) == (ILLEGAL, 1) && Truncated(e, s) == None
  {}

  lemma {:induction false} StragglersAreSkipped(e: Encoding, s: seq<Unit>, m: nat)
    requires m <= |s| && Sized(e, s) && forall j :: 0 <= j < m ==> Straggler(e, s[j])
    ensures Salvaged(e, s) == Salvaged(e, s[m..]) && LosesACharacter(e, s) == LosesACharacter(e, s[m..])
    decreases m
  {
    hide Decode, Straggler, Fits, Begins, Truncated;
    if m == 0 {
      assert s[0..] == s;
    } else {
      StragglerIsIllegal(e, s);
      StragglersAreSkipped(e, s[1..], m - 1);
      assert s[1..][m - 1..] == s[m..];
    }
  }

  lemma BeginsIffDecoded(e: Encoding, s: seq<Unit>)
    requires Sized(e, s) && s != []
    ensures Begins(e, s) <==> !Faulty(Decode(e, s).0)
  {
    DecodeAccepts(e, s, 0);
    assert !Valid(ILLEGAL) && !Valid(INCOMPLETE);
    hide Decode, Char, Encode, Valid;
    forall k | 0 <= k <= |s| && Char(e, s[..k])
      ensures Valid(Decode(e, s).0)
    {
      DecodeAccepts(e, s, k);
    }
  }

  // ---- whole texts ----

  /** Without a loss, `skip` reads as the resynchronising reading does; with one it keeps fewer code points. */
  lemma {:induction false} LossIsExact(e: Encoding, s: seq<Unit>)
    requires Sized(e, s)
    ensures if LosesACharacter(e, s) then |Salvaged(e, s)| < |Resynced(e, s)| else Salvaged(e, s) == Resynced(e, s)
    decreases |s|
  {
    hide Decode, Begins, Truncated, Fits, Straggler;
    if s != [] {
      if Truncated(e, s).Some? {
        TruncatedIsIllegal(e, s);
        Behind(e, s, Truncated(e, s).value);
        var u := s[Truncated(e, s).value..];
        LossIsExact(e, u[Extent(e, u)..]);
      } else {
        LossIsExact(e, s[Decode(e, s).1..]);
      }
    }
  }

  /** Both readings behind a truncated sequence of `i` units: one resumes at `u`, the other one unit later. */
  lemma Behind(e: Encoding, s: seq<Unit>, i: nat)
    requires 0 < i < |s| && Sized(e, s)
    ensures var u := s[i..];
            var rest := u[Extent(e, u)..];
            && s[i + 1..] == u[1..]
            && Salvaged(e, u[1..]) == Salvaged(e, rest) && LosesACharacter(e, u[1..]) == LosesACharacter(e, rest)
            && Resynced(e, u) == (if Begins(e, u) then [Decode(e, u).0] else []) + Resynced(e, rest)
  {
    hide Decode, Begins, Extent, Fits, Salvaged, LosesACharacter, Straggler, Faulty;
    var u := s[i..];
    BeginsIffDecoded(e, u);
    StragglersFollow(e, u);
    StragglersAreSkipped(e, u[1..], Extent(e, u) - 1);
    assert u[1..][Extent(e, u) - 1..] == u[Extent(e, u)..];
  }

  lemma {:induction false} ResyncedIsValid(e: Encoding, s: seq<Unit>)
    requires Sized(e, s)
    ensures AllValid(Resynced(e, s))
    decreases |s|
  {
    hide Decode, Encode, Char, Valid, Extent;
    if s != [] {
      DecodeAccepts(e, s, 0);
      ResyncedIsValid(e, s[Extent(e, s)..]);
    }
  }

  /** For every text, `skip` gives what the resynchronising reading gives if and only if it meets no truncated
      sequence directly before a character. */
  lemma SkipIsResyncedIff(input: Encoding, output: Encoding, source: seq<Unit>)
    requires Sized(input, source)
    ensures Transcoded(input, output, source, Skip) == Some(EncodeAll(output, Resynced(input, source)))
            <==> !LosesACharacter(input, source)
    ensures |Salvaged(input, source)| <= |Resynced(input, source)|
  {
    hide Salvaged, Resynced, EncodeAll, Sized, LosesACharacter, CodePoints;
    LossIsExact(input, source);
    SalvagedIsValid(input, source);
    ResyncedIsValid(input, source);
    CodePointsOfEncoding(output, Salvaged(input, source));
    CodePointsOfEncoding(output, Resynced(input, source));
  }

  /** A loss shows in the text, so a text without a truncated sequence directly before a character loses nothing. */
  lemma {:induction false} LossShows(e: Encoding, s: seq<Unit>)
    requires LosesACharacter(e, s)
    ensures exists p :: 0 <= p <= |s| && BreaksACharacter(e, s[p..])
    decreases |s|
  {
    hide Decode, BreaksACharacter;
    if BreaksACharacter(e, s) {
      assert s[0..] == s;
    } else {
      var n := Decode(e, s).1;
      LossShows(e, s[n..]);
      var p :| 0 <= p <= |s[n..]| && BreaksACharacter(e, s[n..][p..]);
      assert s[n..][p..] == s[n + p..];
    }
  }

  /** The way `decode` takes through the text matters: a lead byte that was itself consumed with a broken sequence
      breaks nothing, so here the letter is kept by either reading. */
  lemma TwoLeadsCancel()
    ensures var s := [0xC3, 0xC3, 0x41];
            BreaksACharacter(Utf8, s[1..]) && !LosesACharacter(Utf8, s) && Salvaged(Utf8, s) == [0x41] == Resynced(Utf8, s)
  {
    var s: seq<Unit> := [0xC3, 0xC3, 0x41];
    var t: seq<Unit> := s[1..];
    var l: seq<Unit> := [0x41];
    assert s[2..] == l && t[1..] == l && t == [0xC3, 0x41] && l[1..] == [] && l[..1] == l;
    assert Truncated(Utf8, s) == Some(1) && Truncated(Utf8, t) == Some(1) && Truncated(Utf8, l) == None;
    TruncatedIsIllegal(Utf8, s);
    BeginsIffDecoded(Utf8, t);
    TruncatedIsIllegal(Utf8, t);
    assert Decode(Utf8, l) == (0x41, 1) && Char(Utf8, l[..1]);
    hide Decode, Truncated, Char;
    assert Salvaged(Utf8, l) == l + Salvaged(Utf8, []);
    assert !LosesACharacter(Utf8, l);
    LossIsExact(Utf8, s);
  }
}
