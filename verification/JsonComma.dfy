/** The member loop as it is documented, against the loop of `OurReader::readObject` (jsoncpp/jsoncpp.cpp), which
    takes any token behind a comment for a comma. */
module JsonComma {
  import opened CStrings
  import opened Wrappers
  import opened JsonValue
  import opened JsonSyntax
  import JsonText

  // ---- the documented reading ----

  /** `readValue` with the documented loop for objects. */
  ghost function DocValue(s: String, depth: nat, f: Features, x: Doubles, old_: Value): (o: Outcome)
    ensures o.Done? ==> |o.rest| <= |s|
    decreases |s|, 0
  {
    if depth > f.stackLimit then Thrown else
      var t := NextToken(s, f);
      match t.ty
      case ObjectBegin => DocMembers(t.rest, depth, f, x, [], [])
      case ArrayBegin => DocElems(t.rest, depth, f, x, [])
      case _ => ReadValue(s, depth, f, x, old_)
  }

  ghost function DocElems(s: String, depth: nat, f: Features, x: Doubles, elems: seq<Value>): (o: Outcome)
    ensures o.Done? ==> |o.rest| <= |s|
    decreases |s|, 2
  {
    if ClosesArray(s, f, elems) then Done(true, Arr(elems), Skip(s)[1..]) else DocElem(Skip(s), depth, f, x, elems)
  }

  ghost function DocElem(s: String, depth: nat, f: Features, x: Doubles, elems: seq<Value>): (o: Outcome)
    ensures o.Done? ==> |o.rest| <= |s|
    decreases |s|, 1
  {
    match DocValue(s, depth + 1, f, x, Null)
    case Thrown => Thrown
    case Done(ok, v, r) =>
      if !ok then Done(false, Arr(elems + [v]), Recover(r, ArrayEnd, f)) else
        var t := PastComments(r, f);
        if t.ty == ArraySeparator then DocElems(t.rest, depth, f, x, elems + [v])
        else if t.ty == ArrayEnd then Done(true, Arr(elems + [v]), t.rest)
        else Done(false, Arr(elems + [v]), Recover(t.rest, ArrayEnd, f))
  }

  ghost function DocMembers(s: String, depth: nat, f: Features, x: Doubles, members: seq<Member>, name: String): (o: Outcome)
    ensures o.Done? ==> |o.rest| <= |s|
    decreases |s|, 1
  {
    var t := PastComments(s, f);
    if t.ty == ObjectEnd && (name == [] || f.allowTrailingCommas) then Done(true, Obj(members), t.rest) else
      match NameOf(t, f, x)
      case None => Done(false, Obj(members), Recover(t.rest, ObjectEnd, f))
      case Some(n) =>
        if |n| >= NAME_LIMIT then Thrown
        else if f.rejectDupKeys && Get(members, n).Some? then Done(false, Obj(members), Recover(t.rest, ObjectEnd, f))
        else DocMember(t.rest, depth, f, x, members, n)
  }

  /** Behind a value there may be comments; then the object ends or a comma must follow. */
  ghost function DocMember(s: String, depth: nat, f: Features, x: Doubles, members: seq<Member>, n: String): (o: Outcome)
    ensures o.Done? ==> |o.rest| <= |s|
    decreases |s|, 2
  {
    var colon := ReadToken(s, f);
    if colon.ty != MemberSeparator then Done(false, Obj(members), Recover(colon.rest, ObjectEnd, f)) else
      match DocValue(colon.rest, depth + 1, f, x, Existing(members, n))
      case Thrown => Thrown
      case Done(ok, v, r) =>
        var m := Put(members, n, v);
        if !ok then Done(false, Obj(m), Recover(r, ObjectEnd, f)) else
          var t := PastComments(r, f);
          if t.ty == ObjectEnd then Done(true, Obj(m), t.rest)
          else if t.ty == ArraySeparator then DocMembers(t.rest, depth, f, x, m, n)
          else Done(false, Obj(m), Recover(t.rest, ObjectEnd, f))
  }

  // ---- where a comma may be missing ----

  /** Directly behind a value stands a comment, and the next token that is none neither is a comma nor ends the
      object. */
  predicate NoCommaBehindComment(r: String, f: Features) {
    ReadToken(r, f).ty == Comment && PastComments(r, f).ty != ArraySeparator && PastComments(r, f).ty != ObjectEnd
  }

  /** On its way through the value, the reader meets that behind the value of a member. */
  ghost predicate JunkInValue(s: String, depth: nat, f: Features, x: Doubles)
    decreases |s|, 0
  {
    depth <= f.stackLimit &&
      var t := NextToken(s, f);
      || (t.ty == ObjectBegin && JunkInMembers(t.rest, depth, f, x, [], []))
      || (t.ty == ArrayBegin && JunkInElems(t.rest, depth, f, x, []))
  }

  ghost predicate JunkInElems(s: String, depth: nat, f: Features, x: Doubles, elems: seq<Value>)
    decreases |s|, 2
  {
    !ClosesArray(s, f, elems) && JunkInElem(Skip(s), depth, f, x, elems)
  }

  ghost predicate JunkInElem(s: String, depth: nat, f: Features, x: Doubles, elems: seq<Value>)
    decreases |s|, 1
  {
    || JunkInValue(s, depth + 1, f, x)
    || match ReadValue(s, depth + 1, f, x, Null)
       case Thrown => false
       case Done(ok, v, r) =>
         var t := PastComments(r, f);
         ok && t.ty == ArraySeparator && JunkInElems(t.rest, depth, f, x, elems + [v])
  }

  ghost predicate JunkInMembers(s: String, depth: nat, f: Features, x: Doubles, members: seq<Member>, name: String)
    decreases |s|, 1
  {
    var t := PastComments(s, f);
    !(t.ty == ObjectEnd && (name == [] || f.allowTrailingCommas)) &&
      match NameOf(t, f, x)
      case None => false
      case Some(n) =>
        |n| < NAME_LIMIT && !(f.rejectDupKeys && Get(members, n).Some?) && JunkInMember(t.rest, depth, f, x, members, n)
  }

  ghost predicate JunkInMember(s: String, depth: nat, f: Features, x: Doubles, members: seq<Member>, n: String)
    decreases |s|, 2
  {
    var colon := ReadToken(s, f);
    colon.ty == MemberSeparator && (
      || JunkInValue(colon.rest, depth + 1, f, x)
      || match ReadValue(colon.rest, depth + 1, f, x, Existing(members, n))
         case Thrown => false
         case Done(ok, v, r) =>
           var t := PastComments(r, f);
           ok && ( || NoCommaBehindComment(r, f)
                   || (t.ty == ArraySeparator && JunkInMembers(t.rest, depth, f, x, Put(members, n, v), n))))
  }

  /** What the reader makes of a text, against the documented outcome: without junk the same, with junk a failure. */
  ghost predicate Documented(o: Outcome, d: Outcome, junk: bool) {
    if junk then d.Done? && !d.ok else d == o
  }

  lemma {:induction false} ValueAgrees(s: String, depth: nat, f: Features, x: Doubles, old_: Value)
    ensures Documented(ReadValue(s, depth, f, x, old_), DocValue(s, depth, f, x, old_), JunkInValue(s, depth, f, x))
    decreases |s|, 0
  {
    hide ReadMembers, DocMembers, ReadElems, DocElems, JunkInMembers, JunkInElems, NextToken;
    if depth <= f.stackLimit {
      var t := NextToken(s, f);
      if t.ty == ObjectBegin {
        MembersAgree(t.rest, depth, f, x, [], []);
      } else if t.ty == ArrayBegin {
        ElemsAgree(t.rest, depth, f, x, []);
      }
    }
  }

  lemma {:induction false} ElemsAgree(s: String, depth: nat, f: Features, x: Doubles, elems: seq<Value>)
    ensures Documented(ReadElems(s, depth, f, x, elems), DocElems(s, depth, f, x, elems), JunkInElems(s, depth, f, x, elems))
    decreases |s|, 2
  {
    hide ReadElem, DocElem, JunkInElem, Skip;
    if !ClosesArray(s, f, elems) {
      ElemAgrees(Skip(s), depth, f, x, elems);
    }
  }

  lemma {:induction false} ElemAgrees(s: String, depth: nat, f: Features, x: Doubles, elems: seq<Value>)
    ensures Documented(ReadElem(s, depth, f, x, elems), DocElem(s, depth, f, x, elems), JunkInElem(s, depth, f, x, elems))
    decreases |s|, 1
  {
    hide ReadValue, DocValue, JunkInValue, ReadElems, DocElems, JunkInElems, PastComments, Recover;
    ValueAgrees(s, depth + 1, f, x, Null);
    var o := ReadValue(s, depth + 1, f, x, Null);
    if o.Done? && o.ok {
      var t := PastComments(o.rest, f);
      if t.ty == ArraySeparator {
        ElemsAgree(t.rest, depth, f, x, elems + [o.v]);
      }
    }
  }

  lemma {:induction false} MembersAgree(s: String, depth: nat, f: Features, x: Doubles, members: seq<Member>, name: String)
    ensures Documented(ReadMembers(s, depth, f, x, members, name), DocMembers(s, depth, f, x, members, name),
                       JunkInMembers(s, depth, f, x, members, name))
    decreases |s|, 1
  {
    hide ReadMember, DocMember, JunkInMember, PastComments, Recover, Get, StringValue, NumberValue, KeyText;
    var t := PastComments(s, f);
    if NameOf(t, f, x).Some? && t.ty != EndOfStream {
      MemberAgrees(t.rest, depth, f, x, members, NameOf(t, f, x).value);
    }
  }

  lemma {:induction false} MemberAgrees(s: String, depth: nat, f: Features, x: Doubles, members: seq<Member>, n: String)
    ensures Documented(ReadMember(s, depth, f, x, members, n), DocMember(s, depth, f, x, members, n),
                       JunkInMember(s, depth, f, x, members, n))
    decreases |s|, 2
  {
    hide ReadValue, DocValue, JunkInValue, ReadMembers, DocMembers, JunkInMembers, ReadToken, Recover, Put, Existing;
    var colon := ReadToken(s, f);
    if colon.ty == MemberSeparator {
      ValueAgrees(colon.rest, depth + 1, f, x, Existing(members, n));
      var o := ReadValue(colon.rest, depth + 1, f, x, Existing(members, n));
      if o.Done? && o.ok {
        var t := PastComments(o.rest, f);
        if t.ty == ArraySeparator {
          MembersAgree(t.rest, depth, f, x, Put(members, n, o.v), n);
        }
      }
    }
  }

  // ---- whole documents ----

  ghost function DocParse(doc: String, f: Features, x: Doubles, root: Value): Outcome {
    Finish(DocValue(PastBom(doc, f), 1, f, x, root), f)
  }

  ghost predicate JunkInDocument(doc: String, f: Features, x: Doubles) {
    JunkInValue(PastBom(doc, f), 1, f, x)
  }

  /** For every text and all features: a text is documented as acceptable if and only if the reader accepts it
      without junk for a comma; and without junk the two agree in everything. */
  lemma AcceptedAsDocumentedIff(doc: String, f: Features, x: Doubles, root: Value)
    ensures var o := Parse(doc, f, x, root);
            var d := DocParse(doc, f, x, root);
            && (d.Done? && d.ok <==> o.Done? && o.ok && !JunkInDocument(doc, f, x))
            && (!JunkInDocument(doc, f, x) ==> o == d)
  {
    hide ReadValue, DocValue, JunkInValue, PastBom, NextToken;
    ValueAgrees(PastBom(doc, f), 1, f, x, root);
  }

  /** Whether comments are allowed makes no difference to the tokens that the loop looks at. */
  lemma {:induction false} CommentsPassWhetherAllowedOrNot(r: String, f: Features, allowed: bool)
    ensures var g := f.(allowComments := allowed);
            && ReadToken(r, g) == ReadToken(r, f) && PastComments(r, g) == PastComments(r, f)
            && NoCommaBehindComment(r, g) == NoCommaBehindComment(r, f)
    decreases |r|
  {
    hide Skip, NumberLength, CommentEnd, JsonText.StringEnd;
    var t := ReadToken(r, f);
    assert ReadToken(r, f.(allowComments := allowed)) == t;
    hide ReadToken;
    if t.ty == Comment {
      CommentsPassWhetherAllowedOrNot(t.rest, f, allowed);
    }
  }

  // ---- a document that is read with junk for a comma ----

  lemma TokenIs(s: String, l: String, r: String, ty: TokenType, f: Features)
    requires s == l + r && l != [] && !IsSpace(l[0]) && Classify(l[0], l[1..] + r, f) == (ty, |l| - 1)
    ensures ReadToken(s, f) == Token(ty, l, r)
    ensures ty != Comment ==> NextToken(s, f) == PastComments(s, f) == Token(ty, l, r)
  {
    hide Classify;
    assert Skip(s) == s;
    assert s[1..] == l[1..] + r && s[..|l|] == l && s[|l|..] == r;
  }

  lemma NullValue(s: String, r: String, depth: nat, f: Features, x: Doubles, old_: Value)
    requires s == "null" + r && depth <= f.stackLimit
    ensures ReadValue(s, depth, f, x, old_) == DocValue(s, depth, f, x, old_) == Done(true, Null, r)
    ensures !JunkInValue(s, depth, f, x)
  {
    assert "ull" <= "ull" + r;
    TokenIs(s, "null", r, NullToken, f);
    hide NextToken;
  }

  lemma OneLetterName(c: Byte, r: String, f: Features, x: Doubles)
    requires c != '"' && c != '\\'
    ensures var s := ['"', c, '"'] + r;
            PastComments(s, f) == Token(StringToken, ['"', c, '"'], r) && NameOf(PastComments(s, f), f, x) == Some([c])
  {
    var l: String := ['"', c, '"'];
    var s := l + r;
    assert (l[1..] + r)[1..] == "\"" + r;
    assert JsonText.StringEnd("\"" + r, '"') == (true, 1);
    assert JsonText.StringEnd(l[1..] + r, '"') == (true, 2);
    TokenIs(s, l, r, StringToken, f);
    assert l[1..2] == [c];
    var body: String := [c];
    assert body[1..] == [] && JsonText.DecodeStep(body) == Some((body, 1));
    assert JsonText.DecodeBody([]) == Some([]);
    assert body + [] == body;
  }

  /** A member with a name of one letter and the value null. */
  function MemberText(c: Byte, r: String): String { ['"', c, '"'] + (":" + ("null" + r)) }

  /** One pass of the loops over the members: a name of one letter, a null, and what stands behind it. */
  lemma NullMember(c: Byte, r: String, depth: nat, f: Features, x: Doubles, members: seq<Member>, name: String)
    requires c != '"' && c != '\\' && depth < f.stackLimit && Get(members, [c]) == None
    ensures var s := MemberText(c, r);
            var m := Put(members, [c], Null);
            && (ReadToken(r, f).ty == ObjectEnd ==>
                  ReadMembers(s, depth, f, x, members, name) == Done(true, Obj(m), ReadToken(r, f).rest))
            && (NoCommaBehindComment(r, f) ==>
                  && ReadMembers(s, depth, f, x, members, name) == ReadMembers(PastComments(r, f).rest, depth, f, x, m, [c])
                  && DocMembers(s, depth, f, x, members, name) == Done(false, Obj(m), Recover(PastComments(r, f).rest, ObjectEnd, f))
                  && JunkInMembers(s, depth, f, x, members, name))
  {
    hide Get, Put, ReadToken, PastComments, ReadValue, DocValue, JunkInValue, NameOf, Recover;
    OneLetterName(c, ":" + ("null" + r), f, x);
    TokenIs(":" + ("null" + r), ":", "null" + r, MemberSeparator, f);
    NullValue("null" + r, r, depth + 1, f, x, Null);
    PastCommentsStep(r, f);
  }

  lemma PastCommentsStep(r: String, f: Features)
    ensures ReadToken(r, f).ty == Comment ==> PastComments(r, f) == PastComments(ReadToken(r, f).rest, f)
  {
    hide ReadToken;
  }

  const A: Member := Member("a", Null)
  const B: Member := Member("b", Null)

  lemma TwoNames()
    ensures Get([], "a") == None && Put([], "a", Null) == [A]
    ensures Get([A], "b") == None && Put([A], "b", Null) == [A, B]
  {}

  /** A comment, and an invalid token. */
  lemma JunkBehindComment(r: String, f: Features)
    ensures NoCommaBehindComment("/**/" + ("@" + r), f) && PastComments("/**/" + ("@" + r), f) == Token(Error, "@", r)
  {
    TokenIs("@" + r, "@", r, Error, f);
    hide ReadToken, PastComments;
    CommentToken("@" + r, f);
    PastCommentsStep("/**/" + ("@" + r), f);
  }

  lemma CommentToken(r: String, f: Features)
    ensures ReadToken("/**/" + r, f) == Token(Comment, "/**/", r)
  {
    var t: String := "**/" + r;
    assert t[1..] == "*/" + r;
    assert CommentEnd(t) == (true, 3);
    TokenIs("/**/" + r, "/**/", r, Comment, f);
  }

  lemma ObjectWith(members: String, f: Features, x: Doubles, root: Value)
    requires f.stackLimit >= 1
    ensures var doc := "{" + members;
            && Parse(doc, f, x, root) == Finish(ReadMembers(members, 1, f, x, [], []), f)
            && DocParse(doc, f, x, root) == Finish(DocMembers(members, 1, f, x, [], []), f)
            && JunkInDocument(doc, f, x) == JunkInMembers(members, 1, f, x, [], [])
  {
    var doc: String := "{" + members;
    assert BOM[0] != doc[0];
    TokenIs(doc, "{", members, ObjectBegin, f);
    hide ReadMembers, DocMembers, JunkInMembers, ReadToken, NextToken, PastComments;
  }

  lemma FinishedObject(m: seq<Member>, ok: bool, f: Features)
    ensures Finish(Done(ok, Obj(m), []), f) == Done(ok, Obj(m), [])
  {}

  /** Behind a comment the reader takes any token for the comma between two members, even one that is an error
      by itself: this document is read as if a comma stood in the place of the `@`. */
  lemma JunkForComma(f: Features, x: Doubles, root: Value)
    requires f.stackLimit >= 2
    ensures var doc := "{\"a\":null/**/@\"b\":null}";
            Parse(doc, f, x, root) == Done(true, Obj([A, B]), []) && JunkInDocument(doc, f, x)
  {
    var last: String := MemberText('b', "}");
    var r: String := "/**/" + ("@" + last);
    assert "{\"a\":null/**/@\"b\":null}" == "{" + MemberText('a', r);
    hide MemberText, Get, Put, ReadMembers, JunkInMembers, DocMembers, PastComments, Finish, Parse, JunkInDocument;
    TokenIs("}", "}", [], ObjectEnd, f);
    hide ReadToken, NoCommaBehindComment;
    TwoNames();
    JunkBehindComment(last, f);
    NullMember('b', "}", 1, f, x, [A], "a");
    NullMember('a', r, 1, f, x, [], []);
    ObjectWith(MemberText('a', r), f, x, root);
    FinishedObject([A, B], true, f);
  }

  /** On texts that are refused anyway, junk may make no difference: this one fails alike under both readings. */
  lemma JunkMayFailAlike(f: Features, x: Doubles, root: Value)
    requires f.stackLimit >= 2 && !f.allowTrailingCommas
    ensures var doc := "{\"a\":null/**/@}";
            JunkInDocument(doc, f, x) && Parse(doc, f, x, root) == DocParse(doc, f, x, root) == Done(false, Obj([A]), [])
  {
    var r: String := "/**/" + ("@" + "}");
    assert "{\"a\":null/**/@}" == "{" + MemberText('a', r);
    JunkFails(f, x);
    hide MemberText, ReadMembers, DocMembers, JunkInMembers, Finish, Parse, JunkInDocument, DocParse;
    ObjectWith(MemberText('a', r), f, x, root);
    FinishedObject([A], false, f);
  }

  lemma JunkFails(f: Features, x: Doubles)
    requires f.stackLimit >= 2 && !f.allowTrailingCommas
    ensures var s := MemberText('a', "/**/" + ("@" + "}"));
            && JunkInMembers(s, 1, f, x, [], [])
            && ReadMembers(s, 1, f, x, [], []) == DocMembers(s, 1, f, x, [], []) == Done(false, Obj([A]), [])
  {
    hide MemberText;
    TwoNames();
    TokenIs("}", "}", [], ObjectEnd, f);
    assert Recover("}", ObjectEnd, f) == [] == Recover([], ObjectEnd, f);
    hide ReadToken, NoCommaBehindComment, PastComments, Recover;
    JunkBehindComment("}", f);
    assert ReadMembers("}", 1, f, x, [A], "a") == Done(false, Obj([A]), []);
    hide ReadMembers, DocMembers, JunkInMembers, Get, Put;
    NullMember('a', "/**/" + ("@" + "}"), 1, f, x, [], []);
  }
}
