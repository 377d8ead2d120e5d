/** Comments are white space where the reader skips them (jsoncpp/jsoncpp.cpp). */
module JsonComments {
  import opened CStrings
  import opened Wrappers
  import opened JsonValue
  import opened JsonSyntax

  // ---- what comments are ----

  predicate LineEnd(e: String) { e == "\n" || e == "\r\n" || e == "\r" }

  predicate OneLine(s: String) { forall i :: 0 <= i < |s| ==> s[i] != '\n' && s[i] != '\r' }

  /** `*` and `/` stand next to each other. */
  predicate ClosesAt(s: String, i: nat) { i + 1 < |s| && s[i] == '*' && s[i + 1] == '/' }

  /** Two slashes, a line, and its end. */
  ghost predicate LineComment(g: String) {
    exists i :: 2 <= i < |g| && g[0] == '/' == g[1] && OneLine(g[2..i]) && LineEnd(g[i..])
  }

  /** Everything up to the first closing behind the opening. */
  predicate BlockComment(g: String) {
    && |g| >= 4 && g[0] == '/' && g[1] == '*' && ClosesAt(g, |g| - 2)
    && forall i :: 2 <= i < |g| - 2 ==> !ClosesAt(g, i)
  }

  /** White space, and comments where they may stand. */
  ghost predicate Gap(g: String, comments: bool)
    decreases |g|
  {
    || g == []
    || (IsSpace(g[0]) && Gap(g[1..], comments))
    || (comments && exists k :: 0 < k <= |g| && (LineComment(g[..k]) || BlockComment(g[..k])) && Gap(g[k..], comments))
  }

  // ---- where the reader sees their ends ----

  lemma {:induction false} LineEnds(line: String, e: String, r: String)
    requires OneLine(line) && LineEnd(e)
    ensures CppStyleEnd(line + (e + r)) == |line| + |e| + if e == "\r" && r != [] && r[0] == '\n' then 1 else 0
    decreases |line|
  {
    var s := line + (e + r);
    if line == [] {
      assert s == e + r && s[0] == e[0];
      assert |e| == 2 ==> s[1] == e[1];
      assert |e| == 1 && r != [] ==> s[1] == r[0];
    } else {
      assert s[0] == line[0] && s[1..] == line[1..] + (e + r);
      LineEnds(line[1..], e, r);
    }
  }

  lemma {:induction false} OpenLine(line: String)
    requires OneLine(line)
    ensures CppStyleEnd(line) == |line|
    decreases |line|
  {
    if line != [] {
      OpenLine(line[1..]);
    }
  }

  /** The first closing ends the comment. */
  lemma {:induction false} BlockEnds(b: String, r: String)
    requires |b| >= 2 && ClosesAt(b, |b| - 2) && forall i :: 0 <= i < |b| - 2 ==> !ClosesAt(b, i)
    ensures CStyleEnd(b + r) == (true, |b|)
    decreases |b|
  {
    var s := b + r;
    assert s[0] == b[0] && s[1] == b[1];
    if |b| > 2 {
      assert !ClosesAt(b, 0);
      assert s[1..] == b[1..] + r;
      assert forall i :: 0 <= i < |b[1..]| - 2 ==> ClosesAt(b[1..], i) == ClosesAt(b, i + 1);
      BlockEnds(b[1..], r);
    }
  }

  /** A token that starts with a slash. */
  lemma SlashToken(s: String, f: Features)
    requires s != [] && s[0] == '/'
    ensures var (ok, n) := CommentEnd(s[1..]);
            ReadToken(s, f) == Token(if ok then Comment else Error, s[..1 + n], s[1 + n..])
  {
    hide CommentEnd;
    assert Skip(s) == s;
  }

  lemma {:induction false} SkipIdempotent(s: String)
    ensures Skip(Skip(s)) == Skip(s)
  {}

  lemma SkipsOne(s: String, f: Features)
    requires s != [] && IsSpace(s[0])
    ensures ReadToken(s, f) == ReadToken(s[1..], f) && PastComments(s, f) == PastComments(s[1..], f)
  {}

  lemma LineCommentEnds(g: String, r: String, i: nat)
    requires 2 <= i < |g| && g[0] == '/' == g[1] && OneLine(g[2..i]) && LineEnd(g[i..])
    ensures (g + r)[0] == '/' && (g + r)[1..] != []
    ensures CommentEnd((g + r)[1..]) == (true, |g| - 1 + if g[i..] == "\r" && r != [] && r[0] == '\n' then 1 else 0)
  {
    hide OneLine, LineEnd;
    var s, line, e := g + r, g[2..i], g[i..];
    LineEnds(line, e, r);
    hide CppStyleEnd;
    assert s[1..][0] == '/' && s[1..][1..] == line + (e + r);
  }

  lemma Behind<T>(a: seq<T>, b: seq<T>, j: nat)
    requires j <= |b|
    ensures (a + b)[|a| + j..] == b[j..] && b[0..] == b
  {}

  lemma LineCommentToken(g: String, r: String, f: Features)
    requires LineComment(g)
    ensures ReadToken(g + r, f).ty == Comment && PastComments(g + r, f) == PastComments(r, f)
  {
    var i :| 2 <= i < |g| && g[0] == '/' == g[1] && OneLine(g[2..i]) && LineEnd(g[i..]);
    hide OneLine, ReadToken, LineEnd, LineComment, CommentEnd;
    var s := g + r;
    LineCommentEnds(g, r, i);
    SlashToken(s, f);
    OneMoreComment(s, f);
    hide PastComments;
    var n := CommentEnd(s[1..]).1;
    if n == |g| - 1 {
      Behind(g, r, 0);
    } else {
      Behind(g, r, 1);
      SkipsOne(r, f);
    }
  }

  lemma OneMoreComment(s: String, f: Features)
    requires ReadToken(s, f).ty == Comment
    ensures PastComments(s, f) == PastComments(ReadToken(s, f).rest, f)
  {}

  lemma BlockCommentToken(g: String, r: String, f: Features)
    requires BlockComment(g)
    ensures ReadToken(g + r, f).ty == Comment && PastComments(g + r, f) == PastComments(r, f)
  {
    var s, b := g + r, g[2..];
    assert s[1..][1..] == b + r;
    assert forall i :: 0 <= i < |b| - 1 ==> ClosesAt(b, i) == ClosesAt(g, i + 2);
    BlockEnds(b, r);
    hide CStyleEnd, ReadToken, ClosesAt;
    SlashToken(s, f);
    assert s[1..][0] == '*';
    assert CommentEnd(s[1..]) == (true, 1 + |b|);
    assert s[1 + (1 + |b|)..] == r;
  }

  /** With comments allowed, the next token is that behind a `//` comment: a line without line feeds and carriage returns,
      and any of the three line ends. */
  lemma LineCommentIsSkipped(line: String, e: String, r: String, f: Features)
    requires f.allowComments && OneLine(line) && LineEnd(e)
    ensures NextToken("//" + line + e + r, f) == NextToken(r, f)
  {
    var g: String := "//" + line + e;
    var i := 2 + |line|;
    assert g[2..i] == line && g[i..] == e;
    hide OneLine, LineEnd, PastComments;
    assert LineComment(g);
    LineCommentToken(g, r, f);
  }

  /** And that behind a C-style comment, up to its first closing. */
  lemma BlockCommentIsSkipped(body: String, r: String, f: Features)
    requires f.allowComments && forall i :: 0 <= i < |body| ==> !ClosesAt(body + "*/", i)
    ensures NextToken("/*" + body + "*/" + r, f) == NextToken(r, f)
  {
    var g: String := "/*" + body + "*/";
    var b: String := body + "*/";
    assert forall i :: 0 <= i < |b| ==> g[i + 2] == b[i];
    assert forall i :: 0 <= i <= |body| ==> ClosesAt(g, i + 2) == ClosesAt(b, i);
    assert ClosesAt(b, |body|);
    assert forall i :: 2 <= i < |g| - 2 ==> ClosesAt(g, i) == ClosesAt(b, i - 2);
    hide PastComments, ClosesAt;
    assert BlockComment(g);
    BlockCommentToken(g, r, f);
  }

  /** A gap is no token, and no part of one. */
  lemma {:induction false} GapIsSkipped(g: String, comments: bool, r: String, f: Features)
    requires Gap(g, comments)
    ensures PastComments(g + r, f) == PastComments(r, f)
    ensures f.allowComments ==> NextToken(g + r, f) == NextToken(r, f)
    ensures Skip(g + r) == Skip(r) || (comments && Skip(g + r) != [] && Skip(g + r)[0] == '/')
    decreases |g|
  {
    hide ReadToken, PastComments, LineComment, BlockComment;
    if g == [] {
      assert g + r == r;
    } else if IsSpace(g[0]) && Gap(g[1..], comments) {
      assert (g + r)[1..] == g[1..] + r;
      SkipsOne(g + r, f);
      GapIsSkipped(g[1..], comments, r, f);
    } else {
      var k :| 0 < k <= |g| && (LineComment(g[..k]) || BlockComment(g[..k])) && Gap(g[k..], comments);
      GapIsSkipped(g[k..], comments, r, f);
      assert g + r == g[..k] + (g[k..] + r);
      StartsWithSlash(g[..k]);
      if LineComment(g[..k]) {
        LineCommentToken(g[..k], g[k..] + r, f);
      } else {
        BlockCommentToken(g[..k], g[k..] + r, f);
      }
      assert (g + r)[0] == g[..k][0];
    }
  }

  lemma StartsWithSlash(g: String)
    requires LineComment(g) || BlockComment(g)
    ensures g != [] && g[0] == '/'
  {}

  // ---- texts that consist of given lexemes, white space and comments ----

  /** Whether comments may stand in front of a lexeme: they must be allowed, and stand neither in front of a colon, nor between a
      bracket or comma and the bracket that closes the array. */
  predicate MayComment(l: String, after: bool, f: Features) { f.allowComments && l != ":" && !(l == "]" && after) }

  /** A bracket that opens an array, or a comma. */
  predicate Opens(l: String) { l == "[" || l == "," }

  /** White space and comments up to the end of the text, where a line needs no end. */
  ghost predicate LastGap(s: String, comments: bool) {
    exists k :: 0 <= k <= |s| && Gap(s[..k], comments) &&
                (k == |s| || (comments && k + 2 <= |s| && s[k] == '/' == s[k + 1] && OneLine(s[k + 2..])))
  }

  /** Behind a gap of `k` characters stands the lexeme `l`. */
  ghost predicate FirstAt(s: String, k: nat, l: String, comments: bool) {
    l != [] && k + |l| <= |s| && Gap(s[..k], comments) && s[k..k + |l|] == l
  }

  /** `s` consists of the lexemes `ls` in order, with white space around them, and with comments where the reader skips them
      if they are allowed; `after` tells whether a bracket that opens an array, or a comma, stands before the text. */
  ghost predicate Loose(s: String, ls: seq<String>, after: bool, f: Features)
    decreases |ls|
  {
    if ls == [] then LastGap(s, f.allowComments)
    else exists k: nat :: FirstAt(s, k, ls[0], MayComment(ls[0], after, f))
                     && Loose(s[k + |ls[0]|..], ls[1..], Opens(ls[0]), f)
  }

  lemma {:induction false} SkipSplit(s: String) returns (k: nat)
    ensures k <= |s| && s[k..] == Skip(s)
    ensures Gap(s[..k], false) && Gap(s[..k], true)
    decreases |s|
  {
    if s != [] && IsSpace(s[0]) {
      k := SkipSplit(s[1..]);
      k := k + 1;
      assert s[..k][1..] == s[1..][..k - 1] && s[k..] == s[1..][k - 1..];
    } else {
      k := 0;
    }
  }

  /** White space is all right everywhere. */
  lemma {:induction false} SpellsIsLoose(s: String, ls: seq<String>, after: bool, f: Features)
    requires Spells(s, ls)
    ensures Loose(s, ls, after, f)
    decreases |ls|
  {
    var k := SkipSplit(s);
    if ls == [] {
      SkipNothing(s);
      assert s[..k] == s;
    } else {
      hide Skip, Gap, Spells, Opens, MayComment;
      SpellsFront(s, ls);
      TailAt(s, k, |ls[0]|);
      assert FirstAt(s, k, ls[0], MayComment(ls[0], after, f));
      SpellsIsLoose(s[k + |ls[0]|..], ls[1..], Opens(ls[0]), f);
    }
  }

  lemma SpellsFront(s: String, ls: seq<String>)
    requires ls != [] && Spells(s, ls)
    ensures ls[0] != [] && ls[0] <= Skip(s) && Spells(Skip(s)[|ls[0]|..], ls[1..])
  {}

  lemma Unfold(s: String, ls: seq<String>, after: bool, f: Features) returns (k: nat)
    requires ls != [] && Loose(s, ls, after, f)
    ensures FirstAt(s, k, ls[0], MayComment(ls[0], after, f)) && Loose(s[k + |ls[0]|..], ls[1..], Opens(ls[0]), f)
  {
    hide Gap, MayComment, Opens;
    k :| FirstAt(s, k, ls[0], MayComment(ls[0], after, f)) && Loose(s[k + |ls[0]|..], ls[1..], Opens(ls[0]), f);
  }

  lemma TailAt<T>(s: seq<T>, k: nat, n: nat)
    requires k <= |s| && n <= |s[k..]|
    ensures s[k..][n..] == s[k + n..] && s[k..][..n] == s[k..k + n]
  {}

  lemma SplitAt<T>(s: seq<T>, k: nat, n: nat)
    requires k + n <= |s|
    ensures s == s[..k] + (s[k..k + n] + s[k + n..])
  {}

  lemma FrontGap(s: String, l: String, ls: seq<String>, after: bool, f: Features) returns (k: nat, r: String)
    requires Loose(s, [l] + ls, after, f)
    ensures k <= |s| && Gap(s[..k], MayComment(l, after, f)) && s == s[..k] + (l + r)
    ensures l != [] && Loose(r, ls, Opens(l), f)
  {
    hide Loose, Gap, MayComment, Opens;
    var all := [l] + ls;
    k := Unfold(s, all, after, f);
    assert all[0] == l && all[1..] == ls;
    r := s[k + |l|..];
    SplitAt(s, k, |l|);
  }

  lemma SameSkip(s: String, t: String, f: Features)
    requires Skip(s) == Skip(t)
    ensures ReadToken(s, f) == ReadToken(t, f) && NextToken(s, f) == NextToken(t, f)
  {}

  /** The text starts with its first lexeme, behind a gap. */
  lemma LooseHead(s: String, l: String, ls: seq<String>, after: bool, f: Features) returns (r: String)
    requires Loose(s, [l] + ls, after, f)
    ensures l != [] && Loose(r, ls, Opens(l), f)
    ensures PastComments(s, f) == PastComments(l + r, f) && NextToken(s, f) == NextToken(l + r, f)
    ensures l == ":" ==> ReadToken(s, f) == ReadToken(l + r, f)
    ensures Skip(s) == Skip(l + r) || (MayComment(l, after, f) && Skip(s) != [] && Skip(s)[0] == '/')
  {
    hide Loose, Gap, PastComments, Skip, NextToken, ReadToken;
    var k;
    k, r := FrontGap(s, l, ls, after, f);
    GapIsSkipped(s[..k], MayComment(l, after, f), l + r, f);
    if Skip(s) == Skip(l + r) {
      SameSkip(s, l + r, f);
    }
  }

  /** A line comment without an end. */
  lemma OpenCommentToken(u: String, f: Features)
    requires |u| >= 2 && u[0] == '/' == u[1] && OneLine(u[2..])
    ensures PastComments(u, f) == Token(EndOfStream, [], [])
  {
    assert u[1..][1..] == u[2..];
    OpenLine(u[2..]);
    hide OneLine, CppStyleEnd, ReadToken, PastComments;
    SlashToken(u, f);
    assert CommentEnd(u[1..]) == (true, |u| - 1);
    assert u[1 + (|u| - 1)..] == [];
    OneMoreComment(u, f);
    EmptyText(f);
  }

  lemma LastGapIs(s: String, comments: bool) returns (k: nat)
    requires LastGap(s, comments)
    ensures k <= |s| && Gap(s[..k], comments) && s == s[..k] + s[k..]
    ensures k == |s| || (comments && |s[k..]| >= 2 && s[k..][0] == '/' == s[k..][1] && OneLine(s[k..][2..]))
  {
    hide Gap, OneLine;
    k :| 0 <= k <= |s| && Gap(s[..k], comments) && (k == |s| || (comments && k + 2 <= |s| && s[k] == '/' == s[k + 1] && OneLine(s[k + 2..])));
    if k < |s| {
      Behind(s[..k], s[k..], 2);
      assert s[k..][2..] == s[k + 2..];
    }
  }

  /** Behind the last lexeme there is no token. */
  lemma NothingFollows(s: String, f: Features)
    requires LastGap(s, f.allowComments)
    ensures NextToken(s, f) == Token(EndOfStream, [], [])
  {
    var k := LastGapIs(s, f.allowComments);
    hide Gap, LastGap, PastComments, ReadToken, Skip, OneLine;
    GapIsSkipped(s[..k], f.allowComments, s[k..], f);
    EmptyText(f);
    if k < |s| {
      OpenCommentToken(s[k..], f);
    } else {
      assert s[k..] == [];
      if !f.allowComments {
        SameSkip(s, [], f);
      }
    }
  }

  lemma EmptyText(f: Features)
    ensures Skip([]) == [] && ReadToken([], f) == PastComments([], f) == NextToken([], f) == Token(EndOfStream, [], [])
  {}

  lemma {:induction false} GapStarts(g: String, comments: bool)
    requires Gap(g, comments) && g != []
    ensures IsSpace(g[0]) || g[0] == '/'
  {
    if !IsSpace(g[0]) {
      var k :| 0 < k <= |g| && (LineComment(g[..k]) || BlockComment(g[..k])) && Gap(g[k..], comments);
      hide LineComment, BlockComment, Gap;
      StartsWithSlash(g[..k]);
      assert g[..k][0] == g[0];
    }
  }

  /** What a text of lexemes starts with. */
  lemma LooseStarts(s: String, ls: seq<String>, after: bool, f: Features)
    requires Loose(s, ls, after, f)
    ensures s == [] || IsSpace(s[0]) || s[0] == '/' || (ls != [] && ls[0] != [] && s[0] == ls[0][0])
  {
    if ls == [] {
      var k :| 0 <= k <= |s| && Gap(s[..k], f.allowComments) &&
               (k == |s| || (f.allowComments && k + 2 <= |s| && s[k] == '/' == s[k + 1] && OneLine(s[k + 2..])));
      hide Gap, OneLine;
      if k > 0 {
        GapStarts(s[..k], f.allowComments);
      }
    } else {
      var k := Unfold(s, ls, after, f);
      hide Loose, Gap, MayComment;
      if k > 0 {
        GapStarts(s[..k], MayComment(ls[0], after, f));
      } else {
        assert s[0] == s[0..0 + |ls[0]|][0];
      }
    }
  }

  lemma {:induction false} GapWithComments(g: String)
    requires Gap(g, false)
    ensures Gap(g, true)
    decreases |g|
  {
    if g != [] {
      GapWithComments(g[1..]);
    }
  }

  /** Wherever the text stands, comments may stand in it that may stand behind an opening bracket. */
  lemma Anywhere(s: String, ls: seq<String>, after: bool, f: Features)
    requires Loose(s, ls, after, f)
    ensures Loose(s, ls, false, f)
  {
    if ls != [] && after {
      var k := Unfold(s, ls, after, f);
      if ls[0] == "]" && f.allowComments {
        GapWithComments(s[..k]);
      }
      hide Gap;
      assert FirstAt(s, k, ls[0], MayComment(ls[0], false, f));
    }
  }

  /** A lexeme at the very beginning. */
  lemma AtFront(l: String, r: String, ls: seq<String>, after: bool, f: Features)
    requires l != [] && Loose(r, ls, Opens(l), f)
    ensures Loose(l + r, [l] + ls, after, f)
  {
    var s := l + r;
    assert s[..0] == [] && s[0..0 + |l|] == l && s[0 + |l|..] == r;
    assert ([l] + ls)[0] == l && ([l] + ls)[1..] == ls;
    assert FirstAt(s, 0, ([l] + ls)[0], MayComment(l, after, f));
  }
}
