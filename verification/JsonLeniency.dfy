/** Where the reader accepts more than the format that it documents. */
module JsonLeniency {
  import opened CStrings
  import opened Wrappers
  import opened JsonValue
  import opened JsonSyntax
  import opened JsonComments
  import opened JsonGrammar
  import JsonNumber
  import JsonText

  // ---- comments ----

  /** The closing of a C-style comment occurs in the text. */
  ghost predicate Closed(s: String) {
    exists i :: 0 <= i < |s| - 1 && s[i] == '*' && s[i + 1] == '/'
  }

  /** A C-style comment is accepted if and only if it is closed, or its very last character, which must be the
      last one of the text, is a slash. */
  lemma {:induction false} CommentIsAccepted(s: String)
    ensures CStyleEnd(s).0 <==> Closed(s) || (s != [] && s[|s| - 1] == '/')
    decreases |s|
  {
    if |s| >= 2 && !(s[0] == '*' && s[1] == '/') {
      CommentIsAccepted(s[1..]);
      if Closed(s) {
        var i :| 0 <= i < |s| - 1 && s[i] == '*' && s[i + 1] == '/';
        assert s[1..][i - 1] == '*' && s[1..][i - 1 + 1] == '/';
      }
      if Closed(s[1..]) {
        var i :| 0 <= i < |s[1..]| - 1 && s[1..][i] == '*' && s[1..][i + 1] == '/';
        assert s[i + 1] == '*' && s[i + 1 + 1] == '/';
      }
    }
  }

  /** So a lone opening with a slash counts as a whole comment at the end of the text. */
  lemma OpenCommentIsAccepted(f: Features)
    ensures ReadToken("/*/", f) == Token(Comment, "/*/", [])
  {
    var s: String := "/*/";
    assert Skip(s) == s;
    assert s[1..] == "*/" && s[1..][1..] == "/";
    assert CStyleEnd("/") == (true, 1);
  }

  /** With single quotes switched off, a token that starts with one is a comment if and only if a slash in its place
      would open an accepted one; otherwise it is an error. */
  lemma SingleQuoteOpensComment(s: String, f: Features)
    requires !f.allowSingleQuotes && Skip(s) != [] && Skip(s)[0] == '\''
    ensures var t := ReadToken(s, f);
            var r := Skip(s)[1..];
            && t.ty == (if r != [] && (r[0] == '/' || (r[0] == '*' && (Closed(r[1..]) || (r[1..] != [] && r[|r| - 1] == '/'))))
                        then Comment else Error)
            && t.ty == ReadToken("/" + r, f).ty && t.rest == ReadToken("/" + r, f).rest
  {
    var r := Skip(s)[1..];
    hide Skip, Closed, Classify, CommentEnd, ReadToken;
    var slash: String := "/" + r;
    TokenOf(s, f);
    TokenOf(slash, f);
    SlashIsNoSpace(slash, r);
    QuoteAsSlash(r, f);
    CommentEnds(r);
  }

  lemma TokenOf(s: String, f: Features)
    requires Skip(s) != []
    ensures var (ty, n) := Classify(Skip(s)[0], Skip(s)[1..], f);
            ReadToken(s, f).ty == ty && ReadToken(s, f).rest == Skip(s)[1..][n..]
  {
    hide Skip, Classify;
    var (ty, n) := Classify(Skip(s)[0], Skip(s)[1..], f);
    assert Skip(s)[1..][n..] == Skip(s)[1 + n..];
  }

  lemma SlashIsNoSpace(s: String, r: String)
    requires s == "/" + r
    ensures Skip(s) == s && s[0] == '/' && s[1..] == r
  {}

  lemma QuoteAsSlash(r: String, f: Features)
    requires !f.allowSingleQuotes
    ensures Classify('\'', r, f) == Classify('/', r, f) == (OrError(CommentEnd(r).0, Comment), CommentEnd(r).1)
  {
    hide CommentEnd;
  }

  lemma CommentEnds(r: String)
    ensures CommentEnd(r).0 <==> r != [] && (r[0] == '/' || (r[0] == '*' && (Closed(r[1..]) || (r[1..] != [] && r[|r| - 1] == '/'))))
  {
    hide Closed, CStyleEnd;
    if r != [] {
      CommentIsAccepted(r[1..]);
    }
  }

  lemma QuoteOpensComment(f: Features)
    requires !f.allowSingleQuotes
    ensures ReadToken("'**/", f) == Token(Comment, "'**/", [])
  {
    var s: String := "'**/";
    assert Skip(s) == s && s[1..] == "**/" && s[1..][1..] == "*/";
    assert CommentEnd(s[1..]) == (true, 3);
  }

  // ---- comments where none are skipped ----

  /** Behind an opening bracket, or a comma, a comment hides the bracket that closes the array: although comments are
      allowed, the array is accepted only where dropped nulls are, and then has one null more. */
  lemma BracketBehindComment(g: String, r: String, depth: nat, f: Features, x: Doubles, done: seq<Value>)
    requires f.allowComments && Gap(g, true) && Skip(g + ("]" + r)) != Skip("]" + r) && depth + 1 <= f.stackLimit
    ensures var o := ReadElems(g + ("]" + r), depth, f, x, done);
            if f.allowDroppedNullPlaceholders then o == Done(true, Arr(done + [Null]), r) else o.Done? && !o.ok
  {
    var s, u: String := g + ("]" + r), "]" + r;
    hide Gap, PastComments, NextToken, Skip, Recover, ReadToken;
    GapIsSkipped(g, true, u, f);
    SkipsNothing("]", r);
    SeparatorToken(u, ']', r, f);
    hide ReadValue;
    ValueDropped(s, ']', r, depth + 1, f, x, Null);
    ReadBehindSpace(s, depth + 1, f, x, Null);
  }

  /** In front of a colon no comment is skipped. */
  lemma ColonBehindComment(g: String, r: String, depth: nat, f: Features, x: Doubles, members: seq<Member>, n: String)
    requires LineComment(g) || BlockComment(g)
    ensures var o := ReadMember(g + r, depth, f, x, members, n); o.Done? && !o.ok
  {
    hide LineComment, BlockComment, ReadToken, PastComments, ReadValue, Recover;
    if LineComment(g) {
      LineCommentToken(g, r, f);
    } else {
      BlockCommentToken(g, r, f);
    }
  }

  // ---- numbers ----

  lemma BareMinusRead(f: Features, x: Doubles, root: Value)
    requires f.stackLimit >= 1
    ensures ReadValue("-", 1, f, x, root) == Done(true, Int(0), []) && PastBom("-", f) == "-"
  {
    var s: String := "-";
    assert BOM[0] != s[0];
    BareMinusToken(f);
    JsonNumber.IntegersAre(s);
    hide NextToken, JsonNumber.DecodeNumber, ReadMembers, ReadElems;
  }

  /** A bare minus (`JsonNumber.IntegersAre`) is a whole document. */
  lemma BareMinusIsZero(f: Features, x: Doubles, root: Value)
    requires f.stackLimit >= 1 && !f.strictRoot
    ensures Parse("-", f, x, root) == Done(true, Int(0), [])
  {
    EmptyText(f);
    hide NextToken, ReadValue, PastBom;
    BareMinusRead(f, x, root);
  }

  lemma BareMinusToken(f: Features)
    ensures NextToken("-", f) == Token(Number, "-", [])
  {
    var s: String := "-";
    assert Skip(s) == s && s[1..] == [] && s[..1] == s;
    assert Classify('-', [], f) == (Number, 0);
    hide Classify, Skip;
    assert ReadToken(s, f) == Token(Number, s, []);
    hide ReadToken;
    NotAComment(s, f);
  }

  // ---- trailing commas ----

  /** The name of the last field is empty. */
  predicate LastNameEmpty(fs: seq<Field>)
    requires fs != []
  {
    StringValue(fs[|fs| - 1].name) == Some([])
  }

  ghost predicate AcceptedIff(o: Outcome, u: Option<Value>, ls: seq<String>, f: Features, condition: bool) {
    if u.Some? && condition then o.Done? && o.ok && o.v == u.value && Loose(o.rest, ls, false, f) else o.Done? ==> !o.ok
  }

  /** The end of the object behind a comma. */
  lemma EndBehindComma(s: String, ls: seq<String>, depth: nat, f: Features, x: Doubles, m: seq<Member>, n: String)
    requires Loose(s, ["}"] + ls, false, f)
    ensures AcceptedIff(ReadMembers(s, depth, f, x, m, n), Some(Obj(m)), ls, f, f.allowTrailingCommas || n == [])
  {
    hide Loose, ReadToken, PastComments, Recover;
    var r := BehindValue(s, '}', ls, f);
  }

  lemma LastIsFirst(fs: seq<Field>)
    requires fs != []
    ensures LastNameEmpty(fs) <==> if |fs| == 1 then StringValue(fs[0].name) == Some([]) else LastNameEmpty(fs[1..])
  {
    hide StringValue;
  }

  lemma CommaTail(fs: seq<Field>, ls: seq<String>)
    requires fs != []
    ensures var tail := [","] + (["}"] + ls);
            && Follow(tail) && tail != [] && (AllLexical(fs) ==> AllLexical(fs[1..]))
            && MoreFields(fs, tail) == if |fs| == 1 then tail else [","] + (FieldsLexemes(fs[1..]) + tail)
  {
    hide FieldsLexemes, Lexical, IsQuoted;
  }

  lemma LastWithComma(o: Outcome, all: Outcome, fd: Field, ls: seq<String>, depth: nat, f: Features, x: Doubles, done: seq<Member>)
    requires LeadsTo(o, all, fd, depth, f, x, done) && NameFits(fd, f, done)
    requires o.Done? && o.ok && Loose(o.rest, [","] + (["}"] + ls), false, f)
    ensures var n := StringValue(fd.name).value;
            AcceptedIff(all, Some(Obj(Put(done, n, o.v))), ls, f, f.allowTrailingCommas || n == [])
  {
    hide Loose, ReadMembers, Put, StringValue, Get, LeadsTo;
    var n := StringValue(fd.name).value;
    var r := NextField(o, all, fd, ["}"] + ls, depth, f, x, done);
    EndBehindComma(r, ls, depth, f, x, Put(done, n, o.v), n);
  }

  /** Where the first field is refused, so are all. */
  lemma FirstRefused(fs: seq<Field>, o: Outcome, all: Outcome, tail: seq<String>, ls: seq<String>, depth: nat, f: Features,
                     x: Doubles, done: seq<Member>)
    requires fs != [] && LeadsTo(o, all, fs[0], depth, f, x, done)
    requires ReadsAs(o, Seen(fs[0].tree, f, x), tail, f, depth + Nesting(fs[0].tree, f) <= f.stackLimit)
    requires !(NameFits(fs[0], f, done) && o.Done? && o.ok)
    ensures AcceptedIff(all, ObjectSeen(fs, f, x, done), ls, f,
                        depth + FieldsNesting(fs, f) <= f.stackLimit && (f.allowTrailingCommas || LastNameEmpty(fs)))
  {
    FieldsSeen(fs, f, x, done);
    hide Loose, Nesting, Seen, ObjectSeen, FieldsNesting, StringValue, NameFits, LeadsTo, LastNameEmpty, Put;
    NoLead(o, all, fs[0], depth, f, x, done);
  }

  /** A field that is accepted. */
  lemma FirstAccepted(o: Outcome, t: Tree, tail: seq<String>, depth: nat, f: Features, x: Doubles)
    requires ReadsAs(o, Seen(t, f, x), tail, f, depth + Nesting(t, f) <= f.stackLimit) && o.Done? && o.ok
    ensures Seen(t, f, x) == Some(o.v) && Loose(o.rest, tail, false, f) && depth + Nesting(t, f) <= f.stackLimit
  {
    hide Loose, Seen, Nesting;
  }

  /** What is said of the fields from the second on, of all. */
  lemma MoreAccepted(fs: seq<Field>, v: Value, all: Outcome, ls: seq<String>, depth: nat, f: Features, x: Doubles, done: seq<Member>)
    requires |fs| > 1 && NameFits(fs[0], f, done)
    requires Seen(fs[0].tree, f, x) == Some(v) && depth + Nesting(fs[0].tree, f) <= f.stackLimit
    requires AcceptedIff(all, ObjectSeen(fs[1..], f, x, Put(done, StringValue(fs[0].name).value, v)), ls, f,
                         depth + FieldsNesting(fs[1..], f) <= f.stackLimit && (f.allowTrailingCommas || LastNameEmpty(fs[1..])))
    ensures AcceptedIff(all, ObjectSeen(fs, f, x, done), ls, f,
                        depth + FieldsNesting(fs, f) <= f.stackLimit && (f.allowTrailingCommas || LastNameEmpty(fs)))
  {
    LastIsFirst(fs);
    FieldsSeen(fs, f, x, done);
    hide Nesting, Seen, Put, ObjectSeen, FieldsNesting, StringValue, AcceptedIff, LastNameEmpty;
  }

  lemma OneAccepted(fs: seq<Field>, v: Value, all: Outcome, ls: seq<String>, depth: nat, f: Features, x: Doubles, done: seq<Member>)
    requires |fs| == 1 && NameFits(fs[0], f, done)
    requires Seen(fs[0].tree, f, x) == Some(v) && depth + Nesting(fs[0].tree, f) <= f.stackLimit
    requires var n := StringValue(fs[0].name).value;
             AcceptedIff(all, Some(Obj(Put(done, n, v))), ls, f, f.allowTrailingCommas || n == [])
    ensures AcceptedIff(all, ObjectSeen(fs, f, x, done), ls, f,
                        depth + FieldsNesting(fs, f) <= f.stackLimit && (f.allowTrailingCommas || LastNameEmpty(fs)))
  {
    LastIsFirst(fs);
    FieldsSeen(fs, f, x, done);
    hide Nesting, Seen, Put, ObjectSeen, FieldsNesting, StringValue, AcceptedIff, LastNameEmpty;
  }

  lemma {:induction false} FieldsWithComma(fs: seq<Field>, s: String, ls: seq<String>, depth: nat, f: Features, x: Doubles,
                                           done: seq<Member>, name: String)
    requires fs != [] && AllLexical(fs) && Loose(s, FieldsLexemes(fs) + ([","] + (["}"] + ls)), false, f)
    ensures AcceptedIff(ReadMembers(s, depth, f, x, done, name), ObjectSeen(fs, f, x, done), ls, f,
                        depth + FieldsNesting(fs, f) <= f.stackLimit && (f.allowTrailingCommas || LastNameEmpty(fs)))
    decreases |fs|
  {
    var tail := [","] + (["}"] + ls);
    CommaTail(fs, ls);
    hide Loose, FieldsLexemes, ReadToken, Nesting, Seen, ReadMembers, Put, Get, Lexical, Follow, ObjectSeen, FieldsNesting, ReadValue,
      StringValue, LeadsTo, MoreFields, AllLexical, LastNameEmpty, AcceptedIff, ReadsAs;
    var all := ReadMembers(s, depth, f, x, done, name);
    var o := FirstField(fs, s, tail, depth, f, x, done, name);
    if NameFits(fs[0], f, done) && o.Done? && o.ok {
      FirstAccepted(o, fs[0].tree, MoreFields(fs, tail), depth, f, x);
      if |fs| == 1 {
        LastWithComma(o, all, fs[0], ls, depth, f, x, done);
        OneAccepted(fs, o.v, all, ls, depth, f, x, done);
      } else {
        var n := StringValue(fs[0].name).value;
        var r := NextField(o, all, fs[0], FieldsLexemes(fs[1..]) + tail, depth, f, x, done);
        FieldsWithComma(fs[1..], r, ls, depth, f, x, Put(done, n, o.v), n);
        MoreAccepted(fs, o.v, all, ls, depth, f, x, done);
      }
    } else {
      FirstRefused(fs, o, all, MoreFields(fs, tail), ls, depth, f, x, done);
    }
  }

  lemma ObjectIsRead(doc: String, ls: seq<String>, f: Features, x: Doubles, root: Value) returns (r: String)
    requires Loose(doc, ["{"] + ls, false, f)
    ensures Loose(r, ls, false, f)
    ensures Parse(doc, f, x, root) == if f.stackLimit == 0 then Thrown else Finish(ReadMembers(r, 1, f, x, [], []), f)
  {
    NoBom(doc, ["{"] + ls, f);
    hide Loose, ReadMembers, NextToken, ReadToken, PastComments, Skip, PastBom, Finish;
    r := LooseHead(doc, "{", ls, false, f);
    SkipsNothing("{", r);
    PunctToken("{" + r, '{', r, ObjectBegin, f);
    NotAComment("{" + r, f);
  }

  /** Nothing behind an object: `parse` leaves the outcome as it is. */
  lemma FinishKeeps(o: Outcome, f: Features)
    ensures Finish(o, f).Done? && Finish(o, f).ok ==> o.Done? && o.ok
    ensures o.Done? && o.ok && o.v.Obj? && Loose(o.rest, [], false, f) ==> Finish(o, f) == Done(true, o.v, [])
  {
    hide NextToken, Loose;
    if o.Done? && Loose(o.rest, [], false, f) {
      NothingLeft(o.rest, f);
    }
  }

  /** Fields with a comma behind the last one: what can be read without that comma, within the stack limit, is accepted
      with it if and only if that is allowed or the last name is empty. */
  ghost predicate CommaAccepted(fs: seq<Field>, f: Features, x: Doubles)
    requires fs != []
  {
    && 1 + FieldsNesting(fs, f) <= f.stackLimit
    && NamesReadable(fs) && TreesSeen(fs, f, x) && (f.rejectDupKeys ==> NamesNew(fs, []))
    && (f.allowTrailingCommas || LastNameEmpty(fs))
  }

  /** An object of any length that is spelled with a comma behind its last field: unless it is too deep, has a part that
      cannot be read, or repeats a name where that is refused, it is accepted if and only if that is allowed or its
      last name is empty. */
  lemma TrailingCommaAcceptedIff(fs: seq<Field>, doc: String, f: Features, x: Doubles, root: Value)
    requires fs != [] && AllLexical(fs)
    requires Loose(doc, ["{"] + (FieldsLexemes(fs) + [",", "}"]), false, f)
    ensures AcceptedIff(Parse(doc, f, x, root), ObjectSeen(fs, f, x, []), [], f, CommaAccepted(fs, f, x))
  {
    assert Loose([], [], false, f);
    ObjectSeenIff(fs, f, x, []);
    hide Loose, AllLexical, FieldsLexemes, ReadMembers, NextToken, Parse, SeenFields, NamesReadable, TreesSeen, NamesNew, LastNameEmpty,
      FieldsNesting;
    assert [","] + (["}"] + []) == [",", "}"];
    var r := ObjectIsRead(doc, FieldsLexemes(fs) + [",", "}"], f, x, root);
    FieldsWithComma(fs, r, [], 1, f, x, [], []);
    FinishKeeps(ReadMembers(r, 1, f, x, [], []), f);
    hide Finish;
  }

  const EMPTY_NAME: Field := Field("\"\"", Literal("null"))

  lemma EmptyNameSeen(f: Features, x: Doubles)
    ensures AllLexical([EMPTY_NAME]) && LastNameEmpty([EMPTY_NAME])
    ensures ObjectSeen([EMPTY_NAME], f, x, []) == Some(Obj([Member([], Null)])) && FieldsNesting([EMPTY_NAME], f) == 1
  {
    var quoted: String := "\"\"";
    assert quoted[1..] == "\"" && JsonText.StringEnd("\"", '"') == (true, 1);
    assert quoted[1..1] == [] && JsonText.DecodeBody([]) == Some([]);
    assert StringValue(quoted) == Some([]);
    assert Put([], [], Null) == [Member([], Null)] && Get([], []) == None;
    assert Seen(Literal("null"), f, x) == Some(Null);
    hide StringValue, Seen, Put, Get, SeenFields;
    FieldsSeen([EMPTY_NAME], f, x, []);
  }

  /** So this is an object, although no feature allows the comma. */
  lemma CommaBehindEmptyName(f: Features, x: Doubles, root: Value)
    requires f.stackLimit >= 2
    ensures var o := Parse("{\"\":null,}", f, x, root);
            o.Done? && o.ok && o.v == Obj([Member([], Null)])
  {
    var doc: String := "{\"\":null,}";
    var fs := [EMPTY_NAME];
    EmptyNameSeen(f, x);
    EmptyNameSpelled(doc);
    ObjectSeenIff(fs, f, x, []);
    hide Parse, Loose, FieldsLexemes, ObjectSeen, NamesReadable, TreesSeen, NamesNew, AllLexical, LastNameEmpty, FieldsNesting;
    hide Loose;
    SpellsIsLoose(doc, ["{"] + (FieldsLexemes(fs) + [",", "}"]), false, f);
    TrailingCommaAcceptedIff(fs, doc, f, x, root);
  }

  lemma OneLexeme(s: String, l: String, r: String, ls: seq<String>, ms: seq<String>)
    requires s == l + r && l != [] && !IsSpace(l[0]) && Spells(r, ls) && ms == [l] + ls
    ensures Spells(s, ms)
  {
    assert Skip(s) == s && s[..|l|] == l && s[|l|..] == r;
    assert ms[1..] == ls;
    hide Spells, Skip;
    SpellsFirst(s, ms);
  }

  lemma NullCommaSpelled()
    ensures Spells("null,}", ["null", ",", "}"])
  {
    assert Spells([], []);
    hide Spells;
    OneLexeme("}", "}", [], [], ["}"]);
    OneLexeme(",}", ",", "}", ["}"], [",", "}"]);
    OneLexeme("null,}", "null", ",}", [",", "}"], ["null", ",", "}"]);
  }

  lemma EmptyNameLexemes()
    ensures FieldsLexemes([EMPTY_NAME]) == ["\"\"", ":", "null"]
  {
    assert FieldsLexemes([EMPTY_NAME]) == FieldLexemes(EMPTY_NAME) == ["\"\"", ":"] + Lexemes(Literal("null"));
  }

  lemma EmptyNameSpelled(doc: String)
    requires doc == "{\"\":null,}"
    ensures Spells(doc, ["{"] + (FieldsLexemes([EMPTY_NAME]) + [",", "}"]))
  {
    EmptyNameLexemes();
    hide Spells, FieldsLexemes;
    NullCommaSpelled();
    var colon: seq<String> := [":", "null", ",", "}"];
    var quoted: seq<String> := ["\"\""] + colon;
    OneLexeme(":null,}", ":", "null,}", ["null", ",", "}"], colon);
    OneLexeme("\"\":null,}", "\"\"", ":null,}", colon, quoted);
    OneLexeme(doc, "{", "\"\":null,}", quoted, ["{"] + quoted);
    assert quoted == ["\"\"", ":", "null"] + [",", "}"];
  }
}
