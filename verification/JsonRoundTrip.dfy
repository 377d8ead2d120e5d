/** Reading what was printed: when a text that spells the lexemes of a tree is read as that tree. */
module JsonRoundTrip {
  import opened CStrings
  import opened Wrappers
  import opened JsonValue
  import opened JsonSyntax
  import opened JsonComments
  import opened JsonGrammar
  import D = Decimal
  import JsonNumber
  import JsonText

  // ---- printed trees as syntax trees ----

  function Syntax(v: Value, w: Style): Tree {
    match v
    case Null => if w.dropNulls then Nothing else Literal("null")
    case Bool(b) => Literal(if b then "true" else "false")
    case Int(n) => Numeral(JsonNumber.IntText(n))
    case UInt(n) => Numeral(JsonNumber.IntText(n))
    case Real(bits) => Numeral(w.realText(bits))
    case Str(s) => Quoted(JsonText.Quote(s, w.emitUtf8))
    case Arr(elems) => Items(SyntaxItems(elems, w))
    case Obj(members) => Fields(SyntaxFields(members, w))
  }

  function SyntaxItems(elems: seq<Value>, w: Style): (ts: seq<Tree>)
    ensures |ts| == |elems|
  {
    if elems == [] then [] else [Syntax(elems[0], w)] + SyntaxItems(elems[1..], w)
  }

  function SyntaxFields(members: seq<Member>, w: Style): (fs: seq<Field>)
    ensures |fs| == |members|
  {
    if members == [] then []
    else [Field(JsonText.Quote(members[0].name, w.emitUtf8), Syntax(members[0].value, w))] + SyntaxFields(members[1..], w)
  }

  lemma {:induction false} LexIsLexemes(v: Value, w: Style)
    ensures Lex(v, w) == Lexemes(Syntax(v, w))
    decreases v, 1
  {
    hide JsonText.Quote, JsonNumber.IntText;
    match v
    case Arr(elems) => LexElemsAre(elems, w);
    case Obj(members) => LexMembersAre(members, w);
    case _ =>
  }

  lemma {:induction false} LexElemsAre(elems: seq<Value>, w: Style)
    ensures LexElems(elems, w) == ItemLexemes(SyntaxItems(elems, w))
    decreases elems, 0
  {
    hide Lex, Syntax, Lexemes;
    if elems != [] {
      LexIsLexemes(elems[0], w);
      LexElemsAre(elems[1..], w);
      assert SyntaxItems(elems, w)[1..] == SyntaxItems(elems[1..], w);
    }
  }

  lemma {:induction false} LexMembersAre(members: seq<Member>, w: Style)
    ensures LexMembers(members, w) == FieldsLexemes(SyntaxFields(members, w))
    decreases members, 0
  {
    hide Lex, Syntax, Lexemes, JsonText.Quote;
    if members != [] {
      LexIsLexemes(members[0].value, w);
      LexMembersAre(members[1..], w);
      assert SyntaxFields(members, w)[1..] == SyntaxFields(members[1..], w);
    }
  }

  // ---- single tokens ----

  lemma {:induction false} CountAll(d: String)
    requires D.AllDigits(d)
    ensures CountDigits(d) == |d|
    decreases |d|
  {
    if d != [] {
      CountAll(d[1..]);
    }
  }

  lemma NumberAll(d: String)
    requires D.AllDigits(d)
    ensures NumberLength(d) == |d|
  {
    CountAll(d);
    hide CountDigits;
    assert d[|d|..] == [];
  }

  lemma IntegerToken(n: int, x: Doubles)
    requires JsonNumber.MIN_INT <= n <= JsonNumber.MAX_UINT
    ensures IsNumeral(JsonNumber.IntText(n)) && JsonNumber.IntText(n) != []
    ensures NumberValue(JsonNumber.IntText(n), x) == Some(if n <= JsonNumber.MAX_INT then Int(n) else UInt(n))
  {
    hide D.Digits, NumberLength, JsonNumber.DecodeNumber;
    JsonNumber.IntegerRoundTrip(n);
    var l := JsonNumber.IntText(n);
    if n < 0 {
      assert l[1..] == D.Digits(-n) && l[0] == '-';
      NumberAll(D.Digits(-n));
    } else {
      assert D.IsDigit(l[0]) && D.AllDigits(l[1..]);
      NumberAll(l[1..]);
    }
  }

  lemma StringToken(t: String, w: Style)
    requires w.emitUtf8 || JsonText.ValidUtf8(t)
    ensures IsQuoted(JsonText.Quote(t, w.emitUtf8)) && StringValue(JsonText.Quote(t, w.emitUtf8)) == Some(t)
  {
    hide JsonText.Escape, JsonText.ValidUtf8, JsonText.StringEnd, JsonText.DecodeBody;
    JsonText.QuoteRoundTrip(t, w.emitUtf8, []);
    var l := JsonText.Quote(t, w.emitUtf8);
    assert l[1..] + [] == l[1..];
  }

  lemma {:induction false} SyntaxIsLexical(v: Value, w: Style)
    requires Printable(v, w)
    ensures Lexical(Syntax(v, w))
    decreases v, 1
  {
    hide IsNumeral, IsQuoted, JsonText.Quote, JsonNumber.IntText, JsonText.ValidUtf8, NumberValue, StringValue;
    match v
    case Int(n) => IntegerToken(n, Doubles(_ => None, _ => []));
    case UInt(n) => IntegerToken(n, Doubles(_ => None, _ => []));
    case Str(s) => StringToken(s, w);
    case Arr(elems) => ItemsAreLexical(elems, w);
    case Obj(members) => PrintableObject(v, w); FieldsAreLexical(members, w);
    case _ =>
  }

  lemma {:induction false} ItemsAreLexical(elems: seq<Value>, w: Style)
    requires forall i :: 0 <= i < |elems| ==> Printable(elems[i], w)
    ensures forall i :: 0 <= i < |elems| ==> Lexical(SyntaxItems(elems, w)[i])
    decreases elems, 0
  {
    hide Printable, Lexical, Syntax;
    if elems != [] {
      SyntaxIsLexical(elems[0], w);
      ItemsAreLexical(elems[1..], w);
    }
  }

  ghost predicate PrintableMembers(members: seq<Member>, w: Style) {
    forall i :: 0 <= i < |members| ==>
      Printable(members[i].value, w) && |members[i].name| < NAME_LIMIT
      && (w.emitUtf8 || JsonText.ValidUtf8(members[i].name))
  }

  lemma PrintableObject(v: Value, w: Style)
    requires v.Obj? && Printable(v, w)
    ensures PrintableMembers(v.members, w) && Sorted([] + v.members)
  {
    assert [] + v.members == v.members;
  }

  lemma PrintableFirst(members: seq<Member>, w: Style)
    requires members != [] && PrintableMembers(members, w)
    ensures Printable(members[0].value, w) && |members[0].name| < NAME_LIMIT
    ensures w.emitUtf8 || JsonText.ValidUtf8(members[0].name)
    ensures PrintableMembers(members[1..], w)
  {
    hide Printable;
  }

  lemma {:induction false} FieldsAreLexical(members: seq<Member>, w: Style)
    requires PrintableMembers(members, w)
    ensures AllLexical(SyntaxFields(members, w))
    decreases members, 0
  {
    hide Printable, PrintableMembers, Lexical, IsQuoted, Syntax, JsonText.Quote, JsonText.ValidUtf8, StringValue;
    if members != [] {
      PrintableFirst(members, w);
      StringToken(members[0].name, w);
      SyntaxIsLexical(members[0].value, w);
      FieldsAreLexical(members[1..], w);
    }
  }

  // ---- which trees survive ----

  ghost predicate HasNull(v: Value) {
    match v
    case Null => true
    case Arr(elems) => exists i :: 0 <= i < |elems| && HasNull(elems[i])
    case Obj(members) => exists i :: 0 <= i < |members| && HasNull(members[i].value)
    case _ => false
  }

  /** Some array consists of a single null. */
  ghost predicate HasLoneNull(v: Value) {
    match v
    case Arr(elems) => elems == [Null] || exists i :: 0 <= i < |elems| && HasLoneNull(elems[i])
    case Obj(members) => exists i :: 0 <= i < |members| && HasLoneNull(members[i].value)
    case _ => false
  }

  /** If nulls are dropped: what the reader can put back depends on whether it accepts dropped nulls. */
  ghost predicate Kept(v: Value, w: Style, f: Features) {
    w.dropNulls ==> if f.allowDroppedNullPlaceholders then !HasLoneNull(v) else !HasNull(v)
  }

  ghost predicate Survives(v: Value, w: Style, f: Features) {
    Kept(v, w, f) && (w.dropNulls ==> !v.Null?)
  }

  lemma KeptArray(elems: seq<Value>, w: Style, f: Features)
    ensures Kept(Arr(elems), w, f) <==>
      !(w.dropNulls && elems == [Null]) && forall i :: 0 <= i < |elems| ==> Kept(elems[i], w, f)
  {
    if elems == [Null] {
      assert HasNull(elems[0]);
    }
  }

  lemma KeptObject(members: seq<Member>, w: Style, f: Features)
    ensures Kept(Obj(members), w, f) <==> forall i :: 0 <= i < |members| ==> Kept(members[i].value, w, f)
  {}

  /** The reader sees the tree in what is printed if and only if it is kept. */
  lemma {:induction false} SeenIffKept(v: Value, w: Style, f: Features, x: Doubles)
    requires Printable(v, w)
    ensures Seen(Syntax(v, w), f, x) == Some(Norm(v)) <==> Kept(v, w, f)
    ensures Kept(v, w, f) ==> Nesting(Syntax(v, w), f) == Depth(v)
    decreases v, 1
  {
    hide NumberValue, StringValue, JsonText.Quote, JsonNumber.IntText, JsonText.ValidUtf8, IsNumeral, IsQuoted;
    match v
    case Int(n) => IntegerToken(n, x);
    case UInt(n) => IntegerToken(n, x);
    case Str(s) => StringToken(s, w);
    case Arr(elems) => ArraySeenIff(elems, w, f, x);
    case Obj(members) => PrintableObject(v, w); ObjectSeenIff(members, w, f, x);
    case _ =>
  }

  lemma {:induction false} ArraySeenIff(elems: seq<Value>, w: Style, f: Features, x: Doubles)
    requires forall i :: 0 <= i < |elems| ==> Printable(elems[i], w)
    ensures Seen(Syntax(Arr(elems), w), f, x) == Some(Norm(Arr(elems))) <==> Kept(Arr(elems), w, f)
    ensures Kept(Arr(elems), w, f) ==> Nesting(Syntax(Arr(elems), w), f) == Depth(Arr(elems))
    decreases elems, 3
  {
    KeptArray(elems, w, f);
    hide Printable, Kept, SeenItems, SyntaxItems, NormElems, ElemsDepth, ItemsNesting;
    ItemsSeenIff(elems, w, f, x, true);
  }

  /** Elements that are kept; a single null is lost where the bracket behind it ends the array. */
  ghost predicate ElemsKept(elems: seq<Value>, w: Style, f: Features, first: bool) {
    !(first && w.dropNulls && elems == [Null]) && forall i :: 0 <= i < |elems| ==> Kept(elems[i], w, f)
  }

  lemma NullIsKept(w: Style, f: Features)
    ensures Kept(Null, w, f) <==> !w.dropNulls || f.allowDroppedNullPlaceholders
  {}

  lemma ElemsKeptFirst(elems: seq<Value>, w: Style, f: Features, first: bool)
    requires elems != []
    ensures ElemsKept(elems, w, f, first) <==>
      !(first && w.dropNulls && elems == [Null]) && Kept(elems[0], w, f) && ElemsKept(elems[1..], w, f, false)
  {
    hide Kept;
    assert forall i :: 1 <= i < |elems| ==> elems[i] == elems[1..][i - 1];
  }

  lemma OnlyNullIsNothing(v: Value, w: Style)
    ensures Syntax(v, w) == Nothing <==> v.Null? && w.dropNulls
  {}

  lemma {:induction false} ItemsSeenIff(elems: seq<Value>, w: Style, f: Features, x: Doubles, first: bool)
    requires forall i :: 0 <= i < |elems| ==> Printable(elems[i], w)
    ensures SeenItems(SyntaxItems(elems, w), f, x, first) == Some(NormElems(elems)) <==> ElemsKept(elems, w, f, first)
    ensures ElemsKept(elems, w, f, first) ==> ItemsNesting(SyntaxItems(elems, w), f, first) == ElemsDepth(elems)
    decreases elems, 2
  {
    hide Printable, Kept, Seen, Syntax, Norm, Depth, Nesting;
    if elems != [] {
      var ts := SyntaxItems(elems, w);
      assert ts[0] == Syntax(elems[0], w) && ts[1..] == SyntaxItems(elems[1..], w);
      ElemsKeptFirst(elems, w, f, first);
      OnlyNullIsNothing(elems[0], w);
      hide ElemsKept;
      if Closing(ts, f, first) {
        NullIsKept(w, f);
        assert elems[0] == Null && elems == [Null];
      } else {
        SeenIffKept(elems[0], w, f, x);
        ItemsSeenIff(elems[1..], w, f, x, false);
        ConsIsInjective(Seen(ts[0], f, x), SeenItems(ts[1..], f, x, false), Norm(elems[0]), NormElems(elems[1..]));
      }
    }
  }

  lemma ConsIsInjective<T>(v: Option<T>, rest: Option<seq<T>>, n: T, ns: seq<T>)
    ensures v.Some? && rest.Some? ==> ([v.value] + rest.value == [n] + ns <==> v.value == n && rest.value == ns)
  {
    if v.Some? && rest.Some? && [v.value] + rest.value == [n] + ns {
      assert ([v.value] + rest.value)[0] == n && ([v.value] + rest.value)[1..] == ns;
    }
  }

  // ---- members ----

  /** The members read so far and those to come stay in order. */
  lemma StillSorted(done: seq<Member>, members: seq<Member>, v: Value)
    requires members != [] && Sorted(done + members)
    ensures Sorted(done + [Member(members[0].name, v)] + members[1..])
    ensures Put(done, members[0].name, v) == done + [Member(members[0].name, v)]
    ensures Get(done, members[0].name) == None
  {
    hide Less;
    var a := done + members;
    var b := done + [Member(members[0].name, v)] + members[1..];
    assert |a| == |b|;
    assert forall i :: 0 <= i < |a| ==> a[i].name == b[i].name;
    assert forall i :: 0 <= i <= |done| ==> (done + [Member(members[0].name, v)])[i].name == a[i].name;
    PutLast(done, Member(members[0].name, v));
  }

  lemma {:induction false} ObjectSeenIff(members: seq<Member>, w: Style, f: Features, x: Doubles)
    requires PrintableMembers(members, w) && Sorted([] + members)
    ensures Seen(Syntax(Obj(members), w), f, x) == Some(Norm(Obj(members))) <==> Kept(Obj(members), w, f)
    ensures Kept(Obj(members), w, f) ==> Nesting(Syntax(Obj(members), w), f) == Depth(Obj(members))
    decreases members, 3
  {
    KeptObject(members, w, f);
    hide Printable, PrintableMembers, Kept, SeenFields, SyntaxFields, NormMembers, MembersDepth, FieldsNesting, Sorted;
    assert Syntax(Obj(members), w) == Fields(SyntaxFields(members, w)) && Norm(Obj(members)) == Obj(NormMembers(members));
    assert Depth(Obj(members)) == 1 + MembersDepth(members);
    hide Syntax, Norm, Depth;
    FieldsSeenIff(members, w, f, x, []);
    assert [] + NormMembers(members) == NormMembers(members);
  }

  ghost predicate MembersKept(members: seq<Member>, w: Style, f: Features) {
    forall i :: 0 <= i < |members| ==> Kept(members[i].value, w, f)
  }

  lemma MembersKeptFirst(members: seq<Member>, w: Style, f: Features)
    requires members != []
    ensures MembersKept(members, w, f) <==> Kept(members[0].value, w, f) && MembersKept(members[1..], w, f)
  {
    hide Kept;
    assert forall i :: 1 <= i < |members| ==> members[i] == members[1..][i - 1];
  }

  /** One field of a printed object: its value, if there is one, goes behind the others. */
  lemma FieldSeen(members: seq<Member>, w: Style, f: Features, x: Doubles, done: seq<Member>)
    requires members != [] && PrintableMembers(members, w) && Sorted(done + members)
    ensures var fs := SyntaxFields(members, w);
            var v := Seen(Syntax(members[0].value, w), f, x);
            && SeenFields(fs, f, x, done) ==
               (if v.None? then None
                else SeenFields(SyntaxFields(members[1..], w), f, x, done + [Member(members[0].name, v.value)]))
            && FieldsNesting(fs, f) == Max(Nesting(Syntax(members[0].value, w), f), FieldsNesting(SyntaxFields(members[1..], w), f))
  {
    hide Printable, PrintableMembers, Sorted, Seen, Syntax, Nesting, Get, Put, StringValue, JsonText.Quote, JsonText.ValidUtf8, IsQuoted;
    var fs := SyntaxFields(members, w);
    assert fs[1..] == SyntaxFields(members[1..], w);
    PrintableFirst(members, w);
    StringToken(members[0].name, w);
    var v := Seen(Syntax(members[0].value, w), f, x);
    if v.Some? {
      StillSorted(done, members, v.value);
    } else {
      StillSorted(done, members, Null);
    }
  }

  /** The members read first stay where they are. */
  lemma {:induction false} DoneStays(members: seq<Member>, w: Style, f: Features, x: Doubles, done: seq<Member>)
    requires PrintableMembers(members, w) && Sorted(done + members)
    ensures var u := SeenFields(SyntaxFields(members, w), f, x, done); u.Some? ==> done <= u.value
    decreases |members|
  {
    hide Printable, PrintableMembers, Sorted, Seen, Syntax;
    if members != [] {
      FieldSeen(members, w, f, x, done);
      hide SeenFields, SyntaxFields;
      var v := Seen(Syntax(members[0].value, w), f, x);
      if v.Some? {
        PrintableFirst(members, w);
        StillSorted(done, members, v.value);
        DoneStays(members[1..], w, f, x, done + [Member(members[0].name, v.value)]);
      }
    }
  }

  lemma {:induction false} FieldsSeenIff(members: seq<Member>, w: Style, f: Features, x: Doubles, done: seq<Member>)
    requires PrintableMembers(members, w) && Sorted(done + members)
    ensures SeenFields(SyntaxFields(members, w), f, x, done) == Some(done + NormMembers(members)) <==> MembersKept(members, w, f)
    ensures MembersKept(members, w, f) ==> FieldsNesting(SyntaxFields(members, w), f) == MembersDepth(members)
    decreases members, 2
  {
    hide Printable, PrintableMembers, Sorted, Kept, Seen, Syntax, Norm, Depth, Nesting;
    if members == [] {
      assert done + NormMembers(members) == done;
    } else {
      MembersKeptFirst(members, w, f);
      FieldSeen(members, w, f, x, done);
      PrintableFirst(members, w);
      SeenIffKept(members[0].value, w, f, x);
      hide SeenFields, SyntaxFields, MembersKept;
      var v := Seen(Syntax(members[0].value, w), f, x);
      if v.Some? {
        var m := Member(members[0].name, v.value);
        StillSorted(done, members, v.value);
        DoneStays(members[1..], w, f, x, done + [m]);
        FieldsSeenIff(members[1..], w, f, x, done + [m]);
        Placed(done, m, Norm(members[0].value), NormMembers(members[1..]), SeenFields(SyntaxFields(members[1..], w), f, x, done + [m]));
      }
    }
  }

  lemma Placed(done: seq<Member>, m: Member, n: Value, ns: seq<Member>, u: Option<seq<Member>>)
    ensures done + [m] + ns == done + ([m] + ns)
    ensures u.Some? && done + [m] <= u.value && u.value == done + ([Member(m.name, n)] + ns) ==> m.value == n
  {
    if u.Some? && done + [m] <= u.value && u.value == done + ([Member(m.name, n)] + ns) {
      assert u.value[|done|] == m;
    }
  }

  // ---- whole documents ----

  /** Whatever the features, the white space and the comments: a printed tree is read back in normal form if and only if it survives
      the dropping of nulls; then the exception is thrown if it is deeper than the stack limit, and a scalar is refused
      where only containers are allowed. */
  lemma ParsesPrinted(v: Value, w: Style, doc: String, f: Features, x: Doubles, root: Value)
    requires Printable(v, w) && Loose(doc, Lex(v, w), false, f)
    ensures var o := Parse(doc, f, x, root);
            if Survives(v, w, f) then
              o == if Depth(v) > f.stackLimit then Thrown else Done(v.Arr? || v.Obj? || !f.strictRoot, Norm(v), [])
            else o.Done? && o.ok ==> o.v != Norm(v)
  {
    LexIsLexemes(v, w);
    SyntaxIsLexical(v, w);
    SeenIffKept(v, w, f, x);
    OnlyNullIsNothing(v, w);
    hide Loose, Printable, Lex, Lexemes, Lexical, Parse, Depth, Nesting, Seen, Syntax, Kept;
    ParsesTree(Syntax(v, w), doc, f, x, root);
  }

  /** White space and comments make no difference to what is accepted. */
  lemma SameOutcome(v: Value, w: Style, a: String, b: String, f: Features, x: Doubles, root: Value)
    requires Printable(v, w) && Loose(a, Lex(v, w), false, f) && Loose(b, Lex(v, w), false, f)
    ensures Parse(a, f, x, root).Done? && Parse(a, f, x, root).ok ==> Parse(b, f, x, root) == Parse(a, f, x, root)
  {
    LexIsLexemes(v, w);
    SyntaxIsLexical(v, w);
    hide Loose, Printable, Lex, Lexemes, Lexical, Parse, Nesting, Seen, Syntax;
    ParsesTree(Syntax(v, w), a, f, x, root);
    ParsesTree(Syntax(v, w), b, f, x, root);
  }
}
