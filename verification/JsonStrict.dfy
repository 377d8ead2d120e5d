/** The converse of JsonRfc: what a strict reader accepts is a text of RFC 8259, unless it has a token that is no JSON
    token, or a bracket right behind a comma. */
module JsonStrict {
  import opened CStrings
  import opened Wrappers
  import opened JsonValue
  import opened JsonSyntax
  import opened JsonComments
  import opened JsonGrammar
  import opened JsonRfc
  import opened JsonRfcStrings
  import D = Decimal
  import JsonText

  // ---- texts of JSON tokens ----

  ghost predicate JsonToken(t: Token) {
    match t.ty
    case ObjectBegin => true
    case ObjectEnd => true
    case ArrayBegin => true
    case ArrayEnd => true
    case ArraySeparator => true
    case MemberSeparator => true
    case True => true
    case False => true
    case NullToken => true
    case Number => RfcNumber(t.text)
    case StringToken => RfcString(t.text)
    case _ => false
  }

  predicate Closes(ty: TokenType) { ty == ObjectEnd || ty == ArrayEnd }

  /** The text consists of JSON tokens, and no bracket is closed right behind a comma; `comma` tells whether one stands
      before the text. */
  ghost predicate Clean(s: String, f: Features, comma: bool)
    decreases |s|
  {
    var t := ReadToken(s, f);
    if t.ty == EndOfStream then Skip(s) == []
    else JsonToken(t) && !(comma && Closes(t.ty)) && Clean(t.rest, f, t.ty == ArraySeparator)
  }

  /** The features under which numbers are no names, nulls are not dropped, and nothing may follow the value. */
  predicate Strict(f: Features) {
    !f.allowNumericKeys && !f.allowDroppedNullPlaceholders && f.failIfExtra
  }

  // ---- consuming lexemes ----

  /** `ls` are the first lexemes of `s`, and `rest` is what remains behind the last one. */
  ghost predicate Consumes(s: String, ls: seq<String>, rest: String)
    decreases |ls|
  {
    if ls == [] then s == rest else
      var u := Skip(s);
      ls[0] != [] && ls[0] <= u && Consumes(u[|ls[0]|..], ls[1..], rest)
  }

  lemma {:induction false} ConsumesMore(s: String, a: seq<String>, m: String, b: seq<String>, rest: String)
    requires Consumes(s, a, m) && Consumes(m, b, rest)
    ensures Consumes(s, a + b, rest)
    decreases |a|
  {
    hide Skip;
    if a == [] {
      assert a + b == b;
    } else {
      ConsumesMore(Skip(s)[|a[0]|..], a[1..], m, b, rest);
      assert (a + b)[0] == a[0] && (a + b)[1..] == a[1..] + b;
    }
  }

  lemma {:induction false} ConsumesAll(s: String, ls: seq<String>, rest: String)
    requires Consumes(s, ls, rest) && AllSpaces(rest)
    ensures Spells(s, ls)
    decreases |ls|
  {
    hide Skip;
    if ls != [] {
      ConsumesAll(Skip(s)[|ls[0]|..], ls[1..], rest);
    }
  }

  lemma ConsumesSkipped(s: String, ls: seq<String>, rest: String)
    requires ls != [] && Consumes(Skip(s), ls, rest)
    ensures Consumes(s, ls, rest)
  {
    assert Skip(Skip(s)) == Skip(s);
  }

  /** The text of the tokens that have one only. */
  function FixedText(ty: TokenType): Option<String> {
    match ty
    case ObjectBegin => Some("{")
    case ObjectEnd => Some("}")
    case ArrayBegin => Some("[")
    case ArrayEnd => Some("]")
    case ArraySeparator => Some(",")
    case MemberSeparator => Some(":")
    case True => Some("true")
    case False => Some("false")
    case NullToken => Some("null")
    case _ => None
  }

  /** A token is one lexeme. */
  lemma TokenIsLexeme(s: String, f: Features)
    requires ReadToken(s, f).ty != EndOfStream
    ensures Consumes(s, [ReadToken(s, f).text], ReadToken(s, f).rest)
  {
    hide Skip, NumberLength, CommentEnd, JsonText.StringEnd;
    var t := ReadToken(s, f);
    assert t.text <= Skip(s) && Skip(s)[|t.text|..] == t.rest;
    assert [t.text][1..] == [];
  }

  lemma TokenHasText(s: String, f: Features)
    ensures var t := ReadToken(s, f); FixedText(t.ty).Some? ==> t.text == FixedText(t.ty).value
  {
    hide Skip, NumberLength, CommentEnd, JsonText.StringEnd;
    var u := Skip(s);
    if u != [] {
      ClassifiedText(u[0], u[1..], f);
      var (ty, n) := Classify(u[0], u[1..], f);
      hide Classify;
      assert u[..1 + n] == [u[0]] + u[1..][..n];
    }
  }

  lemma ClassifiedText(c: Byte, s: String, f: Features)
    ensures var (ty, n) := Classify(c, s, f); FixedText(ty).Some? ==> [c] + s[..n] == FixedText(ty).value
  {
    hide NumberLength, CommentEnd, JsonText.StringEnd;
  }

  /** The next token of a clean text, and the text behind it. */
  lemma CleanToken(s: String, f: Features, comma: bool) returns (t: Token)
    requires Clean(s, f, comma)
    ensures t == ReadToken(s, f) == NextToken(s, f) == PastComments(s, f)
    ensures t.ty != EndOfStream ==>
      && JsonToken(t) && !(comma && Closes(t.ty)) && Clean(t.rest, f, t.ty == ArraySeparator) && Consumes(s, [t.text], t.rest)
      && (FixedText(t.ty).Some? ==> t.text == FixedText(t.ty).value)
    ensures t.ty == EndOfStream ==> Skip(s) == []
  {
    t := ReadToken(s, f);
    TokenHasText(s, f);
    if t.ty != EndOfStream {
      TokenIsLexeme(s, f);
    }
    hide ReadToken, Consumes, Skip;
    NotAComment(s, f);
  }

  lemma CleanSkipped(s: String, f: Features, comma: bool)
    requires Clean(s, f, comma)
    ensures Clean(Skip(s), f, comma)
  {
    hide Skip, ReadToken, JsonToken, Closes;
    SkipIdempotent(s);
    SameSkip(Skip(s), s, f);
  }

  // ---- what is accepted is a syntax tree ----

  /** A token that is no bracket, comma or colon is a tree by itself. */
  lemma LeafTree(tok: Token) returns (t: Tree)
    requires JsonToken(tok) && !Closes(tok.ty) && tok.ty != ObjectBegin && tok.ty != ArrayBegin
    requires tok.ty != ArraySeparator && tok.ty != MemberSeparator
    requires FixedText(tok.ty).Some? ==> tok.text == FixedText(tok.ty).value
    ensures RfcTree(t) && Lexemes(t) == [tok.text]
  {
    hide RfcNumber, RfcString;
    t := if tok.ty == Number then Numeral(tok.text) else if tok.ty == StringToken then Quoted(tok.text) else Literal(tok.text);
  }

  lemma ArrayTree(s: String, m: String, ts: seq<Tree>, rest: String)
    requires Consumes(s, ["["], m) && Consumes(m, ItemLexemes(ts) + ["]"], rest)
    requires forall i :: 0 <= i < |ts| ==> RfcTree(ts[i])
    ensures RfcTree(Items(ts)) && Consumes(s, Lexemes(Items(ts)), rest)
  {
    hide Consumes, ItemLexemes;
    BracketsAround(s, "[", m, ItemLexemes(ts), "]", rest);
  }

  lemma ObjectTree(s: String, m: String, fs: seq<Field>, rest: String)
    requires Consumes(s, ["{"], m) && Consumes(m, FieldsLexemes(fs) + ["}"], rest)
    requires FieldsAreRfc(fs)
    ensures RfcTree(Fields(fs)) && Consumes(s, Lexemes(Fields(fs)), rest)
  {
    hide Consumes, FieldsLexemes, RfcString;
    BracketsAround(s, "{", m, FieldsLexemes(fs), "}", rest);
  }

  /** What a value that was read starts with. */
  lemma ValueIsRead(s: String, depth: nat, f: Features, x: Doubles, old_: Value)
    requires Strict(f) && ReadValue(s, depth, f, x, old_).Done? && ReadValue(s, depth, f, x, old_).ok
    ensures var tok := NextToken(s, f);
            var o := ReadValue(s, depth, f, x, old_);
            if tok.ty == ObjectBegin then o == ReadMembers(tok.rest, depth, f, x, [], [])
            else if tok.ty == ArrayBegin then o == ReadElems(tok.rest, depth, f, x, [])
            else o.rest == tok.rest && !Closes(tok.ty) && tok.ty != ArraySeparator && tok.ty != MemberSeparator && tok.ty != EndOfStream
  {
    hide NextToken, NumberValue, StringValue, ReadMembers, ReadElems;
  }

  /** The tree of a value that was read. */
  lemma {:induction false} ValueIsRfc(s: String, depth: nat, f: Features, x: Doubles, old_: Value, comma: bool)
    returns (t: Tree)
    requires Strict(f) && Clean(s, f, comma)
    requires ReadValue(s, depth, f, x, old_).Done? && ReadValue(s, depth, f, x, old_).ok
    ensures var rest := ReadValue(s, depth, f, x, old_).rest;
            RfcTree(t) && Consumes(s, Lexemes(t), rest) && Clean(rest, f, false)
    decreases |s|, 0
  {
    hide Clean, ReadToken, NextToken, PastComments, ReadMembers, ReadElems, ReadValue, Consumes, RfcTree, RfcString, Lexemes, JsonToken,
      ItemLexemes, FieldsLexemes;
    var tok := CleanToken(s, f, comma);
    ValueIsRead(s, depth, f, x, old_);
    if tok.ty == ObjectBegin {
      var fs := MembersAreRfc(tok.rest, depth, f, x, [], [], false);
      t := Fields(fs);
      ObjectTree(s, tok.rest, fs, ReadValue(s, depth, f, x, old_).rest);
    } else if tok.ty == ArrayBegin {
      var ts := ElemsAreRfc(tok.rest, depth, f, x, [], false);
      t := Items(ts);
      ArrayTree(s, tok.rest, ts, ReadValue(s, depth, f, x, old_).rest);
    } else {
      t := LeafTree(tok);
    }
  }

  lemma BracketsAround(s: String, a: String, m: String, ls: seq<String>, b: String, rest: String)
    requires Consumes(s, [a], m) && Consumes(m, ls + [b], rest)
    ensures Consumes(s, [a] + ls + [b], rest)
  {
    ConsumesMore(s, [a], m, ls + [b], rest);
    assert [a] + (ls + [b]) == [a] + ls + [b];
  }

  lemma {:induction false} ElemsAreRfc(s: String, depth: nat, f: Features, x: Doubles, elems: seq<Value>, comma: bool)
    returns (ts: seq<Tree>)
    requires Strict(f) && Clean(s, f, comma)
    requires comma <==> elems != []
    requires ReadElems(s, depth, f, x, elems).Done? && ReadElems(s, depth, f, x, elems).ok
    ensures var rest := ReadElems(s, depth, f, x, elems).rest;
            && (forall i :: 0 <= i < |ts| ==> RfcTree(ts[i]))
            && Consumes(s, ItemLexemes(ts) + ["]"], rest) && Clean(rest, f, false)
    ensures ts == [] ==> elems == []
    decreases |s|, 2
  {
    hide Clean, ReadToken, NextToken, PastComments, Skip, ReadValue, Consumes, Lexemes, ItemLexemes, RfcTree, ReadElems, JsonToken, ClosesArray;
    if ClosesArray(s, f, elems) {
      ts := [];
      CloseIsRfc(s, depth, f, x, elems, comma);
    } else {
      CleanSkipped(s, f, comma);
      ElemIsRead(s, depth, f, x, elems);
      var t := ValueIsRfc(Skip(s), depth + 1, f, x, Null, comma);
      TreeHasLexemes(t);
      var o := ReadValue(Skip(s), depth + 1, f, x, Null);
      var tok := CleanToken(o.rest, f, false);
      if tok.ty == ArraySeparator {
        var more := ElemsAreRfc(tok.rest, depth, f, x, elems + [o.v], true);
        ts := [t] + more;
        ItemAndMore(s, t, o.rest, more, tok.rest, ReadElems(tok.rest, depth, f, x, elems + [o.v]).rest);
      } else {
        ts := [t];
        LastItem(s, t, o.rest, tok.rest);
      }
    }
  }

  lemma TreeHasLexemes(t: Tree)
    requires RfcTree(t)
    ensures Lexemes(t) != []
  {}

  lemma CloseIsRfc(s: String, depth: nat, f: Features, x: Doubles, elems: seq<Value>, comma: bool)
    requires Clean(s, f, comma) && ClosesArray(s, f, elems)
    requires comma <==> elems != []
    ensures var o := ReadElems(s, depth, f, x, elems);
            elems == [] && o.Done? && Consumes(s, ItemLexemes([]) + ["]"], o.rest) && Clean(o.rest, f, false)
  {
    var tok := CleanToken(s, f, comma);
    assert tok.ty == ArrayEnd && tok.rest == Skip(s)[1..];
    assert ItemLexemes([]) + ["]"] == ["]"];
  }

  lemma ElemIsRead(s: String, depth: nat, f: Features, x: Doubles, elems: seq<Value>)
    requires !ClosesArray(s, f, elems) && ReadElems(s, depth, f, x, elems).Done? && ReadElems(s, depth, f, x, elems).ok
    ensures var o := ReadValue(Skip(s), depth + 1, f, x, Null);
            && o.Done? && o.ok
            && var tok := PastComments(o.rest, f);
               if tok.ty == ArraySeparator then ReadElems(s, depth, f, x, elems) == ReadElems(tok.rest, depth, f, x, elems + [o.v])
               else tok.ty == ArrayEnd && ReadElems(s, depth, f, x, elems).rest == tok.rest
  {
    hide ReadValue, PastComments, Skip, Recover;
  }

  lemma ItemAndMore(s: String, t: Tree, m: String, more: seq<Tree>, r: String, rest: String)
    requires Lexemes(t) != [] && more != []
    requires Consumes(Skip(s), Lexemes(t), m) && Consumes(m, [","], r) && Consumes(r, ItemLexemes(more) + ["]"], rest)
    ensures Consumes(s, ItemLexemes([t] + more) + ["]"], rest)
  {
    hide Consumes, Skip;
    ConsumesSkipped(s, Lexemes(t), m);
    ConsumesMore(s, Lexemes(t), m, [","], r);
    ConsumesMore(s, Lexemes(t) + [","], r, ItemLexemes(more) + ["]"], rest);
    assert ([t] + more)[1..] == more && ([t] + more)[0] == t;
    assert Lexemes(t) + [","] + (ItemLexemes(more) + ["]"]) == Lexemes(t) + [","] + ItemLexemes(more) + ["]"];
  }

  lemma LastItem(s: String, t: Tree, m: String, rest: String)
    requires Lexemes(t) != [] && Consumes(Skip(s), Lexemes(t), m) && Consumes(m, ["]"], rest)
    ensures Consumes(s, ItemLexemes([t]) + ["]"], rest)
  {
    hide Consumes, Skip;
    ConsumesSkipped(s, Lexemes(t), m);
    ConsumesMore(s, Lexemes(t), m, ["]"], rest);
  }

  /** A name, its colon and its value. */
  lemma {:induction false} FieldIsRfc(s: String, q: Token, depth: nat, f: Features, x: Doubles, old_: Value) returns (fd: Field)
    requires Strict(f) && Clean(q.rest, f, false) && Consumes(s, [q.text], q.rest)
    requires var colon := ReadToken(q.rest, f);
             var o := ReadValue(colon.rest, depth, f, x, old_);
             colon.ty == MemberSeparator && o.Done? && o.ok
    ensures var rest := ReadValue(ReadToken(q.rest, f).rest, depth, f, x, old_).rest;
            fd.name == q.text && RfcTree(fd.tree) && Consumes(s, FieldLexemes(fd), rest) && Clean(rest, f, false)
    decreases |q.rest|, 0
  {
    hide Clean, ReadToken, NextToken, PastComments, ReadValue, Consumes, Lexemes, FieldLexemes, RfcTree, JsonToken;
    var colon := CleanToken(q.rest, f, false);
    var t := ValueIsRfc(colon.rest, depth, f, x, old_, false);
    fd := Field(q.text, t);
    FieldIsConsumed(s, fd, q.rest, colon.rest, ReadValue(colon.rest, depth, f, x, old_).rest);
  }

  ghost predicate FieldsAreRfc(fs: seq<Field>) {
    forall i :: 0 <= i < |fs| ==> RfcString(fs[i].name) && RfcTree(fs[i].tree)
  }

  lemma OneMoreField(fd: Field, more: seq<Field>)
    requires RfcString(fd.name) && RfcTree(fd.tree) && FieldsAreRfc(more)
    ensures FieldsAreRfc([fd] + more)
  {
    hide RfcString, RfcTree;
  }

  lemma {:induction false} MembersAreRfc(s: String, depth: nat, f: Features, x: Doubles, members: seq<Member>, name: String, comma: bool)
    returns (fs: seq<Field>)
    requires Strict(f) && Clean(s, f, comma)
    requires ReadMembers(s, depth, f, x, members, name).Done? && ReadMembers(s, depth, f, x, members, name).ok
    ensures var rest := ReadMembers(s, depth, f, x, members, name).rest;
            FieldsAreRfc(fs) && Consumes(s, FieldsLexemes(fs) + ["}"], rest) && Clean(rest, f, false)
    ensures comma ==> fs != []
    decreases |s|, 1
  {
    hide Clean, ReadToken, PastComments, NextToken, ReadValue, Consumes, FieldLexemes, FieldsLexemes, FieldsAreRfc, RfcTree, RfcString, ReadMembers,
      StringValue, Put, Existing;
    var tok := CleanToken(s, f, comma);
    MemberIsRead(s, depth, f, x, members, name);
    NoFieldLexemes();
    if tok.ty == ObjectEnd {
      fs := [];
    } else {
      var n := StringValue(tok.text).value;
      var o := ReadValue(ReadToken(tok.rest, f).rest, depth + 1, f, x, Existing(members, n));
      var fd := FieldIsRfc(s, tok, depth + 1, f, x, Existing(members, n));
      var sep := CleanToken(o.rest, f, false);
      var rest := ReadMembers(s, depth, f, x, members, name).rest;
      OneMoreField(fd, []);
      if sep.ty == ArraySeparator {
        var more := MembersAreRfc(sep.rest, depth, f, x, Put(members, n, o.v), n, true);
        fs := [fd] + more;
        OneMoreField(fd, more);
        FieldAndMore(s, fd, o.rest, more, sep.rest, rest);
      } else {
        fs := [fd];
        assert [fd] + [] == fs;
        FieldAndEnd(s, fd, o.rest, sep.rest);
      }
    }
  }

  lemma NoFieldLexemes()
    ensures FieldsLexemes([]) + ["}"] == ["}"] && FieldsAreRfc([])
  {}

  /** One pass of the loop over the members, in a text without comments at these places. */
  lemma MemberIsRead(s: String, depth: nat, f: Features, x: Doubles, members: seq<Member>, name: String)
    requires !f.allowNumericKeys && ReadMembers(s, depth, f, x, members, name).Done? && ReadMembers(s, depth, f, x, members, name).ok
    ensures var tok := PastComments(s, f);
            var all := ReadMembers(s, depth, f, x, members, name);
            if tok.ty == ObjectEnd then all.rest == tok.rest else
              && tok.ty == StringToken && StringValue(tok.text).Some?
              && var n := StringValue(tok.text).value;
                 var colon := ReadToken(tok.rest, f);
                 && colon.ty == MemberSeparator
                 && var o := ReadValue(colon.rest, depth + 1, f, x, Existing(members, n));
                    && o.Done? && o.ok
                    && var comma := ReadToken(o.rest, f);
                       && (comma.ty == ArraySeparator ==> all == ReadMembers(comma.rest, depth, f, x, Put(members, n, o.v), n))
                       && (comma.ty != ArraySeparator && comma.ty != Comment ==> comma.ty == ObjectEnd && all.rest == comma.rest)
  {
    hide ReadValue, PastComments, ReadToken, Skip, Recover, StringValue, NumberValue, Put, Get, Existing;
  }

  lemma FieldIsConsumed(s: String, fd: Field, a: String, b: String, rest: String)
    requires Consumes(s, [fd.name], a) && Consumes(a, [":"], b) && Consumes(b, Lexemes(fd.tree), rest)
    ensures Consumes(s, FieldLexemes(fd), rest)
  {
    hide Consumes, Lexemes;
    ConsumesMore(s, [fd.name], a, [":"], b);
    ConsumesMore(s, [fd.name] + [":"], b, Lexemes(fd.tree), rest);
    assert [fd.name] + [":"] == [fd.name, ":"];
  }

  lemma FieldAndMore(s: String, fd: Field, m: String, more: seq<Field>, r: String, rest: String)
    requires more != [] && Consumes(s, FieldLexemes(fd), m) && Consumes(m, [","], r) && Consumes(r, FieldsLexemes(more) + ["}"], rest)
    ensures Consumes(s, FieldsLexemes([fd] + more) + ["}"], rest)
  {
    hide Consumes, FieldLexemes;
    ConsumesMore(s, FieldLexemes(fd), m, [","], r);
    ConsumesMore(s, FieldLexemes(fd) + [","], r, FieldsLexemes(more) + ["}"], rest);
    assert ([fd] + more)[1..] == more && ([fd] + more)[0] == fd;
    assert FieldLexemes(fd) + [","] + (FieldsLexemes(more) + ["}"]) == FieldLexemes(fd) + [","] + FieldsLexemes(more) + ["}"];
  }

  lemma FieldAndEnd(s: String, fd: Field, m: String, rest: String)
    requires Consumes(s, FieldLexemes(fd), m) && Consumes(m, ["}"], rest)
    ensures Consumes(s, FieldsLexemes([fd]) + ["}"], rest)
  {
    hide Consumes, FieldLexemes;
    ConsumesMore(s, FieldLexemes(fd), m, ["}"], rest);
  }

  // ---- a syntax tree is spelled in JSON tokens ----

  predicate Punctuation(l: String) { l == "{" || l == "}" || l == "[" || l == "]" || l == "," || l == ":" }

  predicate CloseLexeme(l: String) { l == "}" || l == "]" }

  ghost predicate JsonLexeme(l: String) { Punctuation(l) || IsLiteral(l) || RfcNumber(l) || RfcString(l) }

  /** The lexemes of JSON, no bracket closed right behind a comma, and numbers apart from what follows. */
  ghost predicate Tidy(ls: seq<String>, comma: bool)
    decreases |ls|
  {
    ls == [] ||
    (JsonLexeme(ls[0]) && !(comma && CloseLexeme(ls[0])) && (RfcNumber(ls[0]) ==> Follow(ls[1..])) && Tidy(ls[1..], ls[0] == ","))
  }

  lemma PunctuationToken(s: String, l: String, r: String, f: Features)
    requires Punctuation(l) && Skip(s) == l + r
    ensures var t := ReadToken(s, f);
            t.rest == r && t.ty != EndOfStream && JsonToken(t) && (Closes(t.ty) <==> CloseLexeme(l)) && (t.ty == ArraySeparator <==> l == ",")
  {
    hide Skip;
    PunctToken(s, l[0], r, Classify(l[0], r, f).0, f);
  }

  /** A lexeme of JSON is one token. */
  lemma LexemeToken(s: String, l: String, ls: seq<String>, f: Features)
    requires Spells(s, [l] + ls) && JsonLexeme(l) && (RfcNumber(l) ==> Follow(ls))
    ensures var t := ReadToken(s, f);
            && t.ty != EndOfStream && JsonToken(t) && Spells(t.rest, ls)
            && (Closes(t.ty) <==> CloseLexeme(l)) && (t.ty == ArraySeparator <==> l == ",")
  {
    hide Spells, Loose, Skip, Follow, RfcNumber, RfcString, ReadToken, IsNumeral, IsQuoted;
    var r := SpellsHead(s, l, ls);
    if Punctuation(l) {
      PunctuationToken(s, l, r, f);
    } else if IsLiteral(l) {
      WordToken(s, l, r, f);
    } else if RfcNumber(l) {
      NumberIsNumeral(l);
      SpellsIsLoose(r, ls, false, f);
      FollowTerminates(r, ls, f);
      NumeralToken(s, l, r, f);
    } else {
      StringIsQuoted(l);
      QuotedToken(s, l, r, f);
    }
  }

  lemma {:induction false} TidyIsClean(s: String, ls: seq<String>, f: Features, comma: bool)
    requires Spells(s, ls) && Tidy(ls, comma)
    ensures Clean(s, f, comma)
    decreases |ls|
  {
    if ls == [] {
      SkipNothing(s);
    } else {
      hide Spells, Skip, JsonLexeme, JsonToken, Follow, RfcNumber, ReadToken;
      assert [ls[0]] + ls[1..] == ls;
      LexemeToken(s, ls[0], ls[1..], f);
      TidyIsClean(ReadToken(s, f).rest, ls[1..], f, ls[0] == ",");
    }
  }

  /** A lexeme of its own before tidy ones. */
  lemma TidyCons(l: String, ls: seq<String>, comma: bool)
    requires JsonLexeme(l) && !(comma && CloseLexeme(l)) && (RfcNumber(l) ==> Follow(ls)) && Tidy(ls, l == ",")
    ensures Tidy([l] + ls, comma)
  {
    hide JsonLexeme, Follow, RfcNumber;
    assert ([l] + ls)[0] == l && ([l] + ls)[1..] == ls;
  }

  lemma TidyPunctuation(l: String, ls: seq<String>, comma: bool)
    requires Punctuation(l) && !(comma && CloseLexeme(l)) && Tidy(ls, l == ",")
    ensures Tidy([l] + ls, comma)
  {
    hide Tidy, RfcNumber, RfcString;
    if RfcNumber(l) {
      NumberIsNumeral(l);
    }
    TidyCons(l, ls, comma);
  }

  lemma TidyLeaf(t: Tree, ls: seq<String>, comma: bool)
    requires RfcTree(t) && !t.Items? && !t.Fields? && Follow(ls) && Tidy(ls, false)
    ensures Tidy(Lexemes(t) + ls, comma)
  {
    hide Tidy, Follow, RfcNumber, RfcString;
    if t.Quoted? {
      TidyName(t.text, ls, comma);
    } else {
      if t.Numeral? {
        NumberIsNumeral(t.text);
      }
      TidyCons(t.text, ls, comma);
    }
  }

  lemma {:induction false} TidyTree(t: Tree, ls: seq<String>, comma: bool)
    requires RfcTree(t) && Follow(ls) && Tidy(ls, false)
    ensures Tidy(Lexemes(t) + ls, comma)
    decreases t, 0
  {
    hide Tidy, RfcNumber, RfcString, FieldsLexemes, ItemLexemes, JsonLexeme;
    match t
    case Items(ts) =>
      TidyPunctuation("]", ls, false);
      TidyItems(ts, ["]"] + ls, false);
      TidyPunctuation("[", ItemLexemes(ts) + (["]"] + ls), comma);
      assert ["["] + (ItemLexemes(ts) + (["]"] + ls)) == Lexemes(t) + ls;
    case Fields(fs) =>
      TidyPunctuation("}", ls, false);
      TidyFields(fs, ["}"] + ls, false);
      TidyPunctuation("{", FieldsLexemes(fs) + (["}"] + ls), comma);
      assert ["{"] + (FieldsLexemes(fs) + (["}"] + ls)) == Lexemes(t) + ls;
    case _ => TidyLeaf(t, ls, comma);
  }

  lemma {:induction false} TidyItems(ts: seq<Tree>, ls: seq<String>, comma: bool)
    requires (forall i :: 0 <= i < |ts| ==> RfcTree(ts[i])) && Follow(ls) && Tidy(ls, false) && (comma ==> ts != [])
    ensures Tidy(ItemLexemes(ts) + ls, comma)
    decreases ts, 1
  {
    hide Tidy, Lexemes, RfcTree, JsonLexeme;
    if ts == [] {
      assert ItemLexemes(ts) + ls == ls;
    } else if |ts| == 1 {
      TidyTree(ts[0], ls, comma);
    } else {
      var more := ItemLexemes(ts[1..]) + ls;
      TidyItems(ts[1..], ls, true);
      TidyPunctuation(",", more, false);
      TidyTree(ts[0], [","] + more, comma);
      assert Lexemes(ts[0]) + ([","] + more) == ItemLexemes(ts) + ls;
    }
  }

  lemma {:induction false} TidyFields(fs: seq<Field>, ls: seq<String>, comma: bool)
    requires FieldsAreRfc(fs) && Follow(ls) && Tidy(ls, false) && (comma ==> fs != [])
    ensures Tidy(FieldsLexemes(fs) + ls, comma)
    decreases fs, 1
  {
    hide Tidy, Lexemes, RfcTree, RfcString, JsonLexeme, FieldLexemes;
    if fs == [] {
      assert FieldsLexemes(fs) + ls == ls;
    } else if |fs| == 1 {
      TidyField(fs[0], ls, comma);
    } else {
      var more := FieldsLexemes(fs[1..]) + ls;
      TidyFields(fs[1..], ls, true);
      TidyPunctuation(",", more, false);
      TidyField(fs[0], [","] + more, comma);
      assert FieldLexemes(fs[0]) + ([","] + more) == FieldsLexemes(fs) + ls;
    }
  }

  lemma {:induction false} TidyField(fd: Field, ls: seq<String>, comma: bool)
    requires RfcString(fd.name) && RfcTree(fd.tree) && Follow(ls) && Tidy(ls, false)
    ensures Tidy(FieldLexemes(fd) + ls, comma)
    decreases fd, 1
  {
    hide Tidy, Lexemes, RfcTree, JsonLexeme, Follow;
    TidyTree(fd.tree, ls, false);
    TidyPunctuation(":", Lexemes(fd.tree) + ls, false);
    TidyName(fd.name, [":"] + (Lexemes(fd.tree) + ls), comma);
    assert [fd.name] + ([":"] + (Lexemes(fd.tree) + ls)) == FieldLexemes(fd) + ls;
  }

  lemma TidyName(l: String, ls: seq<String>, comma: bool)
    requires RfcString(l) && Tidy(ls, false)
    ensures Tidy([l] + ls, comma)
  {
    hide Tidy, RfcNumber, Follow;
    if RfcNumber(l) {
      NumberIsNumeral(l);
    }
    TidyCons(l, ls, comma);
  }

  // ---- documents ----

  lemma CleanEnd(s: String, f: Features)
    requires Clean(s, f, false) && NextToken(s, f).ty == EndOfStream
    ensures AllSpaces(s)
  {
    var t := CleanToken(s, f, false);
    hide ReadToken, Clean;
    SkippedAll(s);
  }

  lemma {:induction false} SkippedAll(s: String)
    requires Skip(s) == []
    ensures AllSpaces(s)
    decreases |s|
  {
    if s != [] {
      SkippedAll(s[1..]);
    }
  }

  /** A byte order mark is no JSON token. */
  lemma CleanHasNoBom(doc: String, f: Features)
    requires Clean(doc, f, false)
    ensures PastBom(doc, f) == doc
  {
    BomIsNoToken(doc, f);
    hide ReadToken;
  }

  lemma BomIsNoToken(doc: String, f: Features)
    ensures BOM <= doc ==> ReadToken(doc, f).ty == Error
  {
    if BOM <= doc {
      assert Skip(doc) == doc;
    }
  }

  /** Of the texts that consist of JSON tokens, with no bracket closed right behind a comma, a strict reader accepts those
      of RFC 8259 only. */
  lemma CleanIsRfc(doc: String, f: Features, x: Doubles, root: Value) returns (t: Tree)
    requires Strict(f) && Clean(doc, f, false) && Parse(doc, f, x, root).Done? && Parse(doc, f, x, root).ok
    ensures RfcTree(t) && Spells(doc, Lexemes(t))
  {
    CleanHasNoBom(doc, f);
    hide Clean, PastBom, ReadValue, NextToken, Consumes, Spells, Lexemes, RfcTree;
    t := ValueIsRfc(doc, 1, f, x, root, false);
    var rest := ReadValue(doc, 1, f, x, root).rest;
    CleanEnd(rest, f);
    ConsumesAll(doc, Lexemes(t), rest);
  }

  /** The texts of RFC 8259 consist of JSON tokens, and close no bracket right behind a comma. */
  lemma RfcIsClean(doc: String, t: Tree, f: Features)
    requires RfcTree(t) && Spells(doc, Lexemes(t))
    ensures Clean(doc, f, false)
  {
    hide Clean, Lexemes, RfcTree, Spells;
    TidyTree(t, [], false);
    assert Lexemes(t) + [] == Lexemes(t);
    hide Tidy;
    TidyIsClean(doc, Lexemes(t), f, false);
  }

  /** A text of RFC 8259 whose strings and numbers the reader knows, within its limits. */
  ghost predicate RfcText(doc: String, t: Tree, f: Features, x: Doubles) {
    && RfcTree(t) && Spells(doc, Lexemes(t)) && Acceptable(t, f, x) && Nesting(t, f) <= f.stackLimit
    && (f.strictRoot ==> t.Items? || t.Fields?)
  }

  /** Without the features that extend the grammar, the texts that are accepted and consist of JSON tokens, with no bracket
      closed right behind a comma, are the texts of RFC 8259 that can be read. */
  lemma StrictIffRfc(doc: String, f: Features, x: Doubles, root: Value)
    requires Strict(f)
    ensures var o := Parse(doc, f, x, root);
            o.Done? && o.ok && Clean(doc, f, false) <==> exists t :: RfcText(doc, t, f, x)
  {
    hide Clean, PastBom, ReadValue, NextToken, Spells, Lexemes, RfcTree, Acceptable, Nesting, Parse, Seen;
    var o := Parse(doc, f, x, root);
    if o.Done? && o.ok && Clean(doc, f, false) {
      var t := CleanIsRfc(doc, f, x, root);
      RfcTextAcceptedIff(t, doc, f, x, root);
      assert RfcText(doc, t, f, x);
    }
    if t :| RfcText(doc, t, f, x) {
      RfcTextAcceptedIff(t, doc, f, x, root);
      RfcIsClean(doc, t, f);
    }
  }
}
