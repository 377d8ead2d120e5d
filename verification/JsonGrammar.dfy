/** What the reader makes of a text, by its lexemes: texts that spell a syntax tree (jsoncpp/jsoncpp.cpp). */
module JsonGrammar {
  import opened CStrings
  import opened Wrappers
  import opened JsonValue
  import opened JsonSyntax
  import opened JsonComments
  import D = Decimal
  import JsonNumber
  import JsonText

  // ---- syntax trees ----

  /** `Nothing` is the place of a dropped null; names keep their quotes. */
  datatype Tree =
    | Nothing
    | Literal(text: String)
    | Numeral(text: String)
    | Quoted(text: String)
    | Items(items: seq<Tree>)
    | Fields(fields: seq<Field>)

  datatype Field = Field(name: String, tree: Tree)

  function Lexemes(t: Tree): seq<String> {
    match t
    case Nothing => []
    case Literal(l) => [l]
    case Numeral(l) => [l]
    case Quoted(l) => [l]
    case Items(ts) => ["["] + ItemLexemes(ts) + ["]"]
    case Fields(fs) => ["{"] + FieldsLexemes(fs) + ["}"]
  }

  function ItemLexemes(ts: seq<Tree>): seq<String> {
    if ts == [] then []
    else if |ts| == 1 then Lexemes(ts[0])
    else Lexemes(ts[0]) + [","] + ItemLexemes(ts[1..])
  }

  function FieldLexemes(fd: Field): seq<String> { [fd.name, ":"] + Lexemes(fd.tree) }

  function FieldsLexemes(fs: seq<Field>): seq<String> {
    if fs == [] then []
    else if |fs| == 1 then FieldLexemes(fs[0])
    else FieldLexemes(fs[0]) + [","] + FieldsLexemes(fs[1..])
  }

  /** One number token by itself. */
  predicate IsNumeral(l: String) {
    l != [] && (l[0] == '-' || D.IsDigit(l[0])) && NumberLength(l[1..]) == |l| - 1
  }

  /** One string token by itself. */
  predicate IsQuoted(l: String) {
    |l| >= 2 && l[0] == '"' && JsonText.StringEnd(l[1..], '"') == (true, |l| - 1)
  }

  predicate IsLiteral(l: String) { l == "null" || l == "true" || l == "false" }

  ghost predicate Lexical(t: Tree) {
    match t
    case Nothing => true
    case Literal(l) => IsLiteral(l)
    case Numeral(l) => IsNumeral(l)
    case Quoted(l) => IsQuoted(l)
    case Items(ts) => forall i :: 0 <= i < |ts| ==> Lexical(ts[i])
    case Fields(fs) => forall i :: 0 <= i < |fs| ==> IsQuoted(fs[i].name) && Lexical(fs[i].tree)
  }

  ghost predicate AllLexical(fs: seq<Field>) {
    forall i :: 0 <= i < |fs| ==> IsQuoted(fs[i].name) && Lexical(fs[i].tree)
  }

  // ---- what the reader sees in them ----

  /** A bracket behind nothing ends the array: at its beginning, or where trailing commas are allowed. */
  predicate Closing(ts: seq<Tree>, f: Features, first: bool) {
    ts == [Nothing] && (first || (f.allowTrailingCommas && !f.allowDroppedNullPlaceholders))
  }

  /** The value that is read, if the reading succeeds. */
  function Seen(t: Tree, f: Features, x: Doubles): Option<Value>
    decreases t
  {
    match t
    case Nothing => if f.allowDroppedNullPlaceholders then Some(Null) else None
    case Literal(l) => Some(if l == "null" then Null else Bool(l == "true"))
    case Numeral(l) => if l == [] then None else NumberValue(l, x)
    case Quoted(l) =>
      var s :- StringValue(l);
      Some(Str(s))
    case Items(ts) =>
      var elems :- SeenItems(ts, f, x, true);
      Some(Arr(elems))
    case Fields(fs) =>
      var members :- SeenFields(fs, f, x, []);
      Some(Obj(members))
  }

  function SeenItems(ts: seq<Tree>, f: Features, x: Doubles, first: bool): Option<seq<Value>>
    decreases ts
  {
    if ts == [] || Closing(ts, f, first) then Some([]) else
      var v :- Seen(ts[0], f, x);
      var rest :- SeenItems(ts[1..], f, x, false);
      Some([v] + rest)
  }

  /** Fields are put in one after the other. */
  function SeenFields(fs: seq<Field>, f: Features, x: Doubles, done: seq<Member>): Option<seq<Member>>
    decreases fs
  {
    if fs == [] then Some(done) else
      var n :- StringValue(fs[0].name);
      if |n| >= NAME_LIMIT || (f.rejectDupKeys && Get(done, n).Some?) then None else
        var v :- Seen(fs[0].tree, f, x);
        SeenFields(fs[1..], f, x, Put(done, n, v))
  }

  /** How many values are being read at a time. */
  function Nesting(t: Tree, f: Features): (d: nat)
    ensures d >= 1
    decreases t
  {
    match t
    case Items(ts) => 1 + ItemsNesting(ts, f, true)
    case Fields(fs) => 1 + FieldsNesting(fs, f)
    case _ => 1
  }

  function ItemsNesting(ts: seq<Tree>, f: Features, first: bool): nat
    decreases ts
  {
    if ts == [] || Closing(ts, f, first) then 0 else Max(Nesting(ts[0], f), ItemsNesting(ts[1..], f, false))
  }

  function FieldsNesting(fs: seq<Field>, f: Features): nat
    decreases fs
  {
    if fs == [] then 0 else Max(Nesting(fs[0].tree, f), FieldsNesting(fs[1..], f))
  }

  // ---- single tokens ----

  lemma Drop<T>(a: seq<T>, b: seq<T>)
    ensures (a + b)[..|a|] == a && (a + b)[|a|..] == b
  {}

  /** The text starts with its first lexeme, behind white space. */
  lemma SpellsHead(s: String, l: String, ls: seq<String>) returns (r: String)
    requires Spells(s, [l] + ls)
    ensures l != [] && Skip(s) == l + r && Spells(r, ls)
  {
    r := Skip(s)[|l|..];
    assert ([l] + ls)[1..] == ls;
    assert ([l] + ls)[0] == l;
  }

  /** A token of one character. */
  lemma PunctToken(s: String, c: Byte, r: String, ty: TokenType, f: Features)
    requires Skip(s) == [c] + r && Classify(c, r, f) == (ty, 0)
    ensures ReadToken(s, f) == Token(ty, [c], r)
  {
    hide Classify, Skip;
    Drop([c], r);
  }

  lemma LongToken(s: String, l: String, r: String, ty: TokenType, f: Features)
    requires l != [] && Skip(s) == l + r && Classify(l[0], l[1..] + r, f) == (ty, |l| - 1)
    ensures ReadToken(s, f) == Token(ty, l, r)
  {
    hide Classify, Skip;
    Drop(l, r);
    assert (l + r)[0] == l[0] && (l + r)[1..] == l[1..] + r;
  }

  lemma WordToken(s: String, l: String, r: String, f: Features)
    requires Skip(s) == l + r && IsLiteral(l)
    ensures ReadToken(s, f) == Token(if l == "null" then NullToken else if l == "true" then True else False, l, r)
  {
    hide Skip;
    Drop(l[1..], r);
    var ty := if l == "null" then NullToken else if l == "true" then True else False;
    assert Classify(l[0], l[1..] + r, f) == (ty, |l| - 1);
    LongToken(s, l, r, ty, f);
  }

  /** Characters that end a number. */
  predicate Terminated(r: String) {
    r == [] || IsSpace(r[0]) || r[0] == ',' || r[0] == ']' || r[0] == '}' || r[0] == '/'
  }

  lemma {:induction false} DigitsStop(a: String, r: String)
    requires Terminated(r)
    ensures CountDigits(a + r) == CountDigits(a)
    decreases |a|
  {
    if a == [] {
      assert a + r == r;
    } else {
      assert (a + r)[1..] == a[1..] + r;
      DigitsStop(a[1..], r);
    }
  }

  lemma FractionStops(a: String, r: String)
    requires Terminated(r)
    ensures FractionLength(a + r) == FractionLength(a)
  {
    hide CountDigits;
    if a == [] {
      assert a + r == r && (r != [] ==> r[0] != '.');
    } else {
      assert (a + r)[0] == a[0] && (a + r)[1..] == a[1..] + r;
      DigitsStop(a[1..], r);
    }
  }

  lemma ExponentStops(a: String, r: String)
    requires Terminated(r)
    ensures ExponentLength(a + r) == ExponentLength(a)
  {
    hide CountDigits;
    if a == [] {
      assert a + r == r && (r != [] ==> r[0] != 'e' && r[0] != 'E');
    } else {
      var k := if |a| > 1 && (a[1] == '+' || a[1] == '-') then 2 else 1;
      assert (a + r)[0] == a[0] && (a + r)[k..] == a[k..] + r;
      assert |a| > 1 ==> (a + r)[1] == a[1];
      assert |a| == 1 && r != [] ==> (a + r)[1] == r[0];
      DigitsStop(a[k..], r);
    }
  }

  lemma NumberStops(a: String, r: String)
    requires Terminated(r)
    ensures NumberLength(a + r) == NumberLength(a)
  {
    hide CountDigits, FractionLength, ExponentLength, Terminated;
    DigitsStop(a, r);
    var d := CountDigits(a);
    assert (a + r)[d..] == a[d..] + r;
    FractionStops(a[d..], r);
    var b := d + FractionLength(a[d..]);
    assert (a + r)[b..] == a[b..] + r;
    ExponentStops(a[b..], r);
  }

  lemma NumeralToken(s: String, l: String, r: String, f: Features)
    requires Skip(s) == l + r && IsNumeral(l) && Terminated(r)
    ensures ReadToken(s, f) == Token(Number, l, r)
  {
    hide Skip, NumberLength;
    NumberStops(l[1..], r);
    NoInfinity(l[1..], r);
    assert Classify(l[0], l[1..] + r, f) == (Number, |l| - 1);
    hide Terminated;
    LongToken(s, l, r, Number, f);
  }

  lemma NoInfinity(a: String, r: String)
    requires NumberLength(a) == |a| && Terminated(r)
    ensures a + r == [] || (a + r)[0] != 'I'
  {
    if a != [] {
      assert (a + r)[0] == a[0];
    } else {
      assert a + r == r;
    }
  }

  lemma {:induction false} StringStops(a: String, r: String)
    requires JsonText.StringEnd(a, '"').0
    ensures JsonText.StringEnd(a + r, '"') == JsonText.StringEnd(a, '"')
    decreases |a|
  {
    if a[0] == '\\' {
      if |a| > 1 {
        assert (a + r)[2..] == a[2..] + r;
        StringStops(a[2..], r);
      }
    } else if a[0] != '"' {
      assert (a + r)[1..] == a[1..] + r;
      StringStops(a[1..], r);
    }
  }

  lemma QuotedToken(s: String, l: String, r: String, f: Features)
    requires Skip(s) == l + r && IsQuoted(l)
    ensures ReadToken(s, f) == Token(StringToken, l, r)
  {
    hide Skip, JsonText.StringEnd;
    StringStops(l[1..], r);
    assert Classify('"', l[1..] + r, f) == (StringToken, |l| - 1);
    LongToken(s, l, r, StringToken, f);
  }

  // ---- what may follow a value ----

  ghost predicate Follow(ls: seq<String>) {
    ls == [] || ls[0] == "," || ls[0] == "]" || ls[0] == "}"
  }

  lemma FollowTerminates(r: String, ls: seq<String>, f: Features)
    requires Loose(r, ls, false, f) && Follow(ls)
    ensures Terminated(r)
  {
    hide Loose;
    LooseStarts(r, ls, false, f);
  }

  lemma NotAComment(s: String, f: Features)
    requires ReadToken(s, f).ty != Comment
    ensures NextToken(s, f) == ReadToken(s, f) == PastComments(s, f)
  {}

  lemma SeparatorToken(s: String, c: Byte, r: String, f: Features)
    requires Skip(s) == [c] + r && (c == ',' || c == ']' || c == '}' || c == ':')
    ensures ReadToken(s, f) == PastComments(s, f) == NextToken(s, f) ==
      Token(if c == ',' then ArraySeparator else if c == ']' then ArrayEnd else if c == '}' then ObjectEnd else MemberSeparator, [c], r)
  {
    hide Skip;
    PunctToken(s, c, r, Classify(c, r, f).0, f);
    hide ReadToken;
    NotAComment(s, f);
  }

  /** The token behind a value. */
  lemma BehindValue(s: String, c: Byte, ls: seq<String>, f: Features) returns (r: String)
    requires Loose(s, [[c]] + ls, false, f) && (c == ',' || c == '}' || c == ']')
    ensures PastComments(s, f) == Token(if c == ',' then ArraySeparator else if c == ']' then ArrayEnd else ObjectEnd, [c], r)
    ensures Loose(r, ls, false, f) && (c == ',' ==> Loose(r, ls, true, f))
  {
    hide Loose, Skip, ReadToken, PastComments;
    r := LooseHead(s, [c], ls, false, f);
    SkipsNothing([c], r);
    SeparatorToken([c] + r, c, r, f);
    Anywhere(r, ls, Opens([c]), f);
  }

  lemma SkipsNothing(l: String, r: String)
    requires l != [] && !IsSpace(l[0])
    ensures Skip(l + r) == l + r
  {}

  // ---- values ----

  /** The value `u` with the lexemes `ls` left, or the exception if the limit is too low; failure, or the exception,
      if there is no value. */
  ghost predicate ReadsAs(o: Outcome, u: Option<Value>, ls: seq<String>, f: Features, fits: bool) {
    match u
    case None => o.Done? ==> !o.ok
    case Some(v) => if fits then o.Done? && o.ok && o.v == v && Loose(o.rest, ls, false, f) else o.Thrown?
  }

  lemma LeafStarts(t: Tree)
    requires (t.Literal? || t.Numeral? || t.Quoted?) && Lexical(t)
    ensures t.text != [] && !IsSpace(t.text[0])
  {
    hide NumberLength, JsonText.StringEnd;
  }

  lemma QuotedStarts(l: String)
    requires IsQuoted(l)
    ensures l != [] && !IsSpace(l[0])
  {}

  /** The type of the token that is a whole tree. */
  function LeafType(t: Tree): TokenType {
    match t
    case Numeral(_) => Number
    case Quoted(_) => StringToken
    case Literal(l) => if l == "null" then NullToken else if l == "true" then True else False
    case _ => Error
  }

  lemma LeafToken(t: Tree, s: String, ls: seq<String>, f: Features) returns (r: String)
    requires (t.Literal? || t.Numeral? || t.Quoted?) && Lexical(t) && Loose(s, [t.text] + ls, false, f) && Follow(ls)
    ensures NextToken(s, f) == Token(LeafType(t), t.text, r) && Loose(r, ls, false, f)
  {
    hide Loose, Skip, Classify, Follow, IsNumeral, IsQuoted, NextToken, PastComments, ReadToken;
    r := LooseHead(s, t.text, ls, false, f);
    LeafStarts(t);
    SkipsNothing(t.text, r);
    Anywhere(r, ls, Opens(t.text), f);
    var u := t.text + r;
    if t.Numeral? {
      FollowTerminates(r, ls, f);
      NumeralToken(u, t.text, r, f);
    } else if t.Quoted? {
      QuotedToken(u, t.text, r, f);
    } else {
      WordToken(u, t.text, r, f);
    }
    NotAComment(u, f);
  }

  lemma ReadsLeaf(t: Tree, s: String, ls: seq<String>, depth: nat, f: Features, x: Doubles, old_: Value)
    requires (t.Literal? || t.Numeral? || t.Quoted?) && Lexical(t) && Loose(s, Lexemes(t) + ls, false, f) && Follow(ls)
    ensures ReadsAs(ReadValue(s, depth, f, x, old_), Seen(t, f, x), ls, f, depth <= f.stackLimit)
  {
    hide Loose, NumberValue, StringValue, Follow, IsNumeral, IsQuoted, NextToken;
    var r := LeafToken(t, s, ls, f);
  }

  /** Where a value was dropped, the token behind is read, and given back if that is allowed. */
  lemma ValueDropped(s: String, c: Byte, r: String, depth: nat, f: Features, x: Doubles, old_: Value)
    requires NextToken(s, f) == Token(if c == ',' then ArraySeparator else if c == ']' then ArrayEnd else ObjectEnd, [c], r)
    ensures ReadValue(s, depth, f, x, old_) ==
      if depth > f.stackLimit then Thrown
      else if f.allowDroppedNullPlaceholders then Done(true, Null, [c] + r)
      else Done(false, old_, r)
  {
    hide NextToken;
  }

  lemma ReadsNothing(s: String, ls: seq<String>, depth: nat, f: Features, x: Doubles, old_: Value)
    requires Loose(s, ls, false, f) && Follow(ls) && ls != []
    ensures ReadsAs(ReadValue(s, depth, f, x, old_), Seen(Nothing, f, x), ls, f, depth <= f.stackLimit)
  {
    var c := ls[0][0];
    assert ls == [[c]] + ls[1..] && (c == ',' || c == ']' || c == '}');
    hide Loose, Follow, NextToken, ReadValue;
    var r := FollowHead(s, c, ls[1..], f);
    ValueDropped(s, c, r, depth, f, x, old_);
  }

  lemma FollowHead(s: String, c: Byte, ls: seq<String>, f: Features) returns (r: String)
    requires Loose(s, [[c]] + ls, false, f) && (c == ',' || c == ']' || c == '}')
    ensures NextToken(s, f) == Token(if c == ',' then ArraySeparator else if c == ']' then ArrayEnd else ObjectEnd, [c], r)
    ensures Loose([c] + r, [[c]] + ls, false, f)
  {
    hide Loose, Skip, NextToken, ReadToken, PastComments;
    r := LooseHead(s, [c], ls, false, f);
    SkipsNothing([c], r);
    SeparatorToken([c] + r, c, r, f);
    AtFront([c], r, ls, false, f);
  }

  /** A text that spells a syntax tree is read as the value seen in it, with the cursor just behind; if and only if the
      nesting exceeds the limit the exception is thrown. */
  lemma {:induction false} ReadsTree(t: Tree, s: String, ls: seq<String>, depth: nat, f: Features, x: Doubles, old_: Value)
    requires Lexical(t) && Loose(s, Lexemes(t) + ls, false, f) && Follow(ls) && (t.Nothing? ==> ls != [])
    ensures ReadsAs(ReadValue(s, depth, f, x, old_), Seen(t, f, x), ls, f, depth + Nesting(t, f) <= f.stackLimit + 1)
    decreases t
  {
    if t.Items? {
      ReadsArray(t, s, ls, depth, f, x, old_);
    } else if t.Fields? {
      ReadsObject(t, s, ls, depth, f, x, old_);
    } else if t.Nothing? {
      assert Lexemes(t) + ls == ls;
      ReadsNothing(s, ls, depth, f, x, old_);
    } else {
      ReadsLeaf(t, s, ls, depth, f, x, old_);
    }
  }

  /** A value that starts with a bracket. */
  lemma OpeningHead(s: String, c: Byte, ls: seq<String>, depth: nat, f: Features, x: Doubles, old_: Value) returns (r: String)
    requires Loose(s, [[c]] + ls, false, f) && (c == '[' || c == '{')
    ensures Loose(r, ls, false, f) && (c == '[' ==> Loose(r, ls, true, f))
    ensures ReadValue(s, depth, f, x, old_) ==
      if depth > f.stackLimit then Thrown
      else if c == '[' then ReadElems(r, depth, f, x, [])
      else ReadMembers(r, depth, f, x, [], [])
  {
    hide Loose, Skip, NextToken, ReadToken, PastComments, ReadElems, ReadMembers;
    r := LooseHead(s, [c], ls, false, f);
    SkipsNothing([c], r);
    PunctToken([c] + r, c, r, if c == '[' then ArrayBegin else ObjectBegin, f);
    NotAComment([c] + r, f);
    Anywhere(r, ls, Opens([c]), f);
  }

  // ---- arrays ----

  /** The array of the elements read so far and those seen in `ts`. */
  function ArraySeen(ts: seq<Tree>, f: Features, x: Doubles, done: seq<Value>): Option<Value> {
    match SeenItems(ts, f, x, done == []) case None => None case Some(vs) => Some(Arr(done + vs))
  }

  lemma {:induction false} ReadsArray(t: Tree, s: String, ls: seq<String>, depth: nat, f: Features, x: Doubles, old_: Value)
    requires t.Items? && Lexical(t) && Loose(s, Lexemes(t) + ls, false, f)
    ensures ReadsAs(ReadValue(s, depth, f, x, old_), Seen(t, f, x), ls, f, depth + Nesting(t, f) <= f.stackLimit + 1)
    decreases t, 0
  {
    hide Loose, Skip, ItemLexemes, SeenItems, ItemsNesting, ReadElems, ReadToken, NextToken;
    var rest := ItemLexemes(t.items) + (["]"] + ls);
    assert Lexemes(t) + ls == ["["] + rest;
    var r := OpeningHead(s, '[', rest, depth, f, x, old_);
    hide ReadValue;
    if t.items == [] {
      NoItems(r, ls, depth, f, x);
    } else if depth <= f.stackLimit {
      ReadsItems(t.items, r, ls, depth, f, x, []);
    }
    WholeArray(t, f, x);
  }

  lemma WholeArray(t: Tree, f: Features, x: Doubles)
    requires t.Items?
    ensures Seen(t, f, x) == ArraySeen(t.items, f, x, [])
  {
    hide SeenItems;
    var u := SeenItems(t.items, f, x, true);
    assert u.Some? ==> [] + u.value == u.value;
  }

  lemma NoItems(s: String, ls: seq<String>, depth: nat, f: Features, x: Doubles)
    requires Loose(s, ItemLexemes([]) + (["]"] + ls), true, f)
    ensures ReadElems(s, depth, f, x, []).Done? && ReadElems(s, depth, f, x, []).ok && ReadElems(s, depth, f, x, []).v == Arr([])
    ensures Loose(ReadElems(s, depth, f, x, []).rest, ls, false, f)
    ensures SeenItems([], f, x, true) == Some([]) && ItemsNesting([], f, true) == 0
  {
    assert ItemLexemes([]) + (["]"] + ls) == ["]"] + ls;
    Closes(s, ls, depth, f, x, []);
  }

  /** The closing bracket where it ends the array. */
  lemma Closes(s: String, ls: seq<String>, depth: nat, f: Features, x: Doubles, done: seq<Value>)
    requires Loose(s, ["]"] + ls, true, f) && (done == [] || (f.allowTrailingCommas && !f.allowDroppedNullPlaceholders))
    ensures var o := ReadElems(s, depth, f, x, done);
            o.Done? && o.ok && o.v == Arr(done) && Loose(o.rest, ls, false, f)
  {
    hide Loose, Skip;
    var r := LooseHead(s, "]", ls, true, f);
    SkipsNothing("]", r);
    Drop("]", r);
  }

  /** The lexemes behind the first item of an array. */
  ghost function MoreItems(ts: seq<Tree>, ls: seq<String>): seq<String>
    requires ts != []
  {
    if |ts| == 1 then ["]"] + ls else [","] + (ItemLexemes(ts[1..]) + (["]"] + ls))
  }

  lemma ItemsUnfold(ts: seq<Tree>)
    requires ts != []
    ensures ItemLexemes(ts) == if |ts| == 1 then Lexemes(ts[0]) else Lexemes(ts[0]) + [","] + ItemLexemes(ts[1..])
  {
    hide Lexemes;
  }

  lemma Reassociate<T>(a: seq<T>, b: seq<T>, c: seq<T>, d: seq<T>)
    ensures a + b + c + d == a + (b + (c + d))
  {}

  lemma ItemsSplit(ts: seq<Tree>, ls: seq<String>)
    requires ts != []
    ensures ItemLexemes(ts) + (["]"] + ls) == Lexemes(ts[0]) + MoreItems(ts, ls)
    ensures Follow(MoreItems(ts, ls)) && MoreItems(ts, ls) != []
  {
    ItemsUnfold(ts);
    hide Lexemes, ItemLexemes;
    if |ts| > 1 {
      Reassociate(Lexemes(ts[0]), [","], ItemLexemes(ts[1..]), ["]"] + ls);
    }
  }

  /** Nothing but a closing bracket starts like one. */
  lemma LexemesStart(t: Tree)
    requires Lexical(t) && !t.Nothing?
    ensures Lexemes(t) != [] && Lexemes(t)[0] != [] && Lexemes(t)[0][0] != ']' && Lexemes(t)[0][0] as int < 128 && !IsSpace(Lexemes(t)[0][0])
  {
    hide NumberLength, JsonText.StringEnd;
  }

  lemma FirstItem(ts: seq<Tree>, s: String, ls: seq<String>, f: Features)
    requires ts != [] && Lexical(ts[0]) && Loose(s, ItemLexemes(ts) + (["]"] + ls), true, f)
    ensures Skip(s) != [] && (Skip(s)[0] == ']' ==> ts == [Nothing])
    ensures Loose(s, Lexemes(ts[0]) + MoreItems(ts, ls), false, f)
  {
    hide Loose, Skip, Lexical, Lexemes, ItemLexemes, Follow, IsSpace;
    ItemsSplit(ts, ls);
    var all := Lexemes(ts[0]) + MoreItems(ts, ls);
    Anywhere(s, all, true, f);
    if ts[0].Nothing? {
      NoLexemes(MoreItems(ts, ls));
      PlainPunctuation();
    } else {
      LexemesStart(ts[0]);
    }
    assert all[0] != [] && !IsSpace(all[0][0]);
    assert all == [all[0]] + all[1..];
    var r := LooseHead(s, all[0], all[1..], true, f);
    SkipsNothing(all[0], r);
  }

  lemma PlainPunctuation()
    ensures !IsSpace(',') && !IsSpace(']')
  {}

  lemma NoLexemes(ls: seq<String>)
    ensures Lexemes(Nothing) + ls == ls
  {}

  lemma BehindItem(ts: seq<Tree>, s: String, ls: seq<String>, f: Features) returns (r: String)
    requires ts != [] && Loose(s, MoreItems(ts, ls), false, f)
    ensures PastComments(s, f).rest == r
    ensures if |ts| == 1 then PastComments(s, f).ty == ArrayEnd && Loose(r, ls, false, f)
            else PastComments(s, f).ty == ArraySeparator && Loose(r, ItemLexemes(ts[1..]) + (["]"] + ls), true, f)
  {
    hide Loose, ReadToken, PastComments, ItemLexemes;
    if |ts| == 1 {
      r := BehindValue(s, ']', ls, f);
    } else {
      r := BehindValue(s, ',', ItemLexemes(ts[1..]) + (["]"] + ls), f);
    }
  }

  /** One pass of the loop of `readArray`. */
  lemma ElemsStep(s: String, depth: nat, f: Features, x: Doubles, done: seq<Value>)
    requires Skip(s) != [] && !(Skip(s)[0] == ']' && (done == [] || (f.allowTrailingCommas && !f.allowDroppedNullPlaceholders)))
    ensures var o := ReadValue(Skip(s), depth + 1, f, x, Null);
            && (o.Thrown? ==> ReadElems(s, depth, f, x, done) == Thrown)
            && (o.Done? && !o.ok ==> ReadElems(s, depth, f, x, done).Done? && !ReadElems(s, depth, f, x, done).ok)
            && (o.Done? && o.ok ==>
                  var t := PastComments(o.rest, f);
                  && (t.ty == ArraySeparator ==> ReadElems(s, depth, f, x, done) == ReadElems(t.rest, depth, f, x, done + [o.v]))
                  && (t.ty == ArrayEnd ==> ReadElems(s, depth, f, x, done) == Done(true, Arr(done + [o.v]), t.rest)))
  {
    hide Skip, ReadValue, PastComments, Recover;
  }

  lemma SeenCloses(ts: seq<Tree>, f: Features, x: Doubles, done: seq<Value>)
    requires Closing(ts, f, done == [])
    ensures ArraySeen(ts, f, x, done) == Some(Arr(done)) && ItemsNesting(ts, f, done == []) == 0
  {
    assert done + [] == done;
  }

  lemma SeenUnfolds(ts: seq<Tree>, f: Features, x: Doubles, done: seq<Value>)
    requires ts != [] && !Closing(ts, f, done == [])
    ensures Seen(ts[0], f, x).None? ==> ArraySeen(ts, f, x, done) == None
    ensures Seen(ts[0], f, x).Some? ==>
      var more := done + [Seen(ts[0], f, x).value];
      more != [] && ArraySeen(ts, f, x, done) == if |ts| == 1 then Some(Arr(more)) else ArraySeen(ts[1..], f, x, more)
    ensures ItemsNesting(ts, f, done == []) ==
            if |ts| == 1 then Nesting(ts[0], f) else Max(Nesting(ts[0], f), ItemsNesting(ts[1..], f, false))
  {
    hide Seen, Nesting, Closing;
    if Seen(ts[0], f, x).Some? {
      var v := Seen(ts[0], f, x).value;
      var rest := SeenItems(ts[1..], f, x, false);
      assert rest.Some? ==> done + [v] + rest.value == done + ([v] + rest.value);
      assert |ts| == 1 ==> rest == Some([]) && done + ([v] + []) == done + [v];
    }
  }

  lemma {:induction false} ReadsItems(ts: seq<Tree>, s: String, ls: seq<String>, depth: nat, f: Features, x: Doubles, done: seq<Value>)
    requires ts != [] && (forall i :: 0 <= i < |ts| ==> Lexical(ts[i])) && depth <= f.stackLimit
    requires Loose(s, ItemLexemes(ts) + (["]"] + ls), true, f)
    ensures ReadsAs(ReadElems(s, depth, f, x, done), ArraySeen(ts, f, x, done), ls, f,
                    depth + ItemsNesting(ts, f, done == []) <= f.stackLimit)
    decreases ts, 1
  {
    hide Loose, Skip, Lexical, Lexemes, ItemLexemes, ReadValue, PastComments, MoreItems, ReadElems, ArraySeen, ItemsNesting, Seen, Nesting;
    if Closing(ts, f, done == []) {
      SeenCloses(ts, f, x, done);
      ClosesItems(ts, s, ls, depth, f, x, done);
    } else {
      FirstItem(ts, s, ls, f);
      SeenUnfolds(ts, f, x, done);
      ReadsItem(ts, s, ls, depth, f, x);
      ElemsStep(s, depth, f, x, done);
      hide Closing;
      var o := ReadValue(Skip(s), depth + 1, f, x, Null);
      if o.Done? && o.ok {
        var r := BehindItem(ts, o.rest, ls, f);
        if |ts| > 1 {
          ReadsItems(ts[1..], r, ls, depth, f, x, done + [o.v]);
        }
      }
    }
  }

  lemma ClosesItems(ts: seq<Tree>, s: String, ls: seq<String>, depth: nat, f: Features, x: Doubles, done: seq<Value>)
    requires Closing(ts, f, done == []) && Loose(s, ItemLexemes(ts) + (["]"] + ls), true, f)
    ensures ReadsAs(ReadElems(s, depth, f, x, done), Some(Arr(done)), ls, f, true)
  {
    assert ItemLexemes(ts) + (["]"] + ls) == ["]"] + ls;
    hide Loose, ReadElems;
    Closes(s, ls, depth, f, x, done);
  }

  lemma SameToken(s: String, t: String, depth: nat, f: Features, x: Doubles, old_: Value)
    requires NextToken(s, f) == NextToken(t, f)
    ensures ReadValue(s, depth, f, x, old_) == ReadValue(t, depth, f, x, old_)
  {
    hide NextToken, ReadMembers, ReadElems, NumberValue, StringValue, Scalar;
  }

  lemma ReadBehindSpace(s: String, depth: nat, f: Features, x: Doubles, old_: Value)
    ensures ReadValue(Skip(s), depth, f, x, old_) == ReadValue(s, depth, f, x, old_)
  {
    hide Skip, NextToken, ReadValue;
    SkipIdempotent(s);
    SameSkip(Skip(s), s, f);
    SameToken(Skip(s), s, depth, f, x, old_);
  }

  lemma {:induction false} ReadsItem(ts: seq<Tree>, s: String, ls: seq<String>, depth: nat, f: Features, x: Doubles)
    requires ts != [] && Lexical(ts[0]) && Loose(s, Lexemes(ts[0]) + MoreItems(ts, ls), false, f)
    ensures ReadsAs(ReadValue(Skip(s), depth + 1, f, x, Null), Seen(ts[0], f, x), MoreItems(ts, ls), f,
                    depth + Nesting(ts[0], f) <= f.stackLimit)
    decreases ts, 0
  {
    hide Loose, Skip, Lexical, Lexemes, ItemLexemes, ReadValue, Follow, Seen, Nesting;
    ItemsSplit(ts, ls);
    ReadsTree(ts[0], s, MoreItems(ts, ls), depth + 1, f, x, Null);
    ReadBehindSpace(s, depth + 1, f, x, Null);
  }

  // ---- objects ----

  function ObjectSeen(fs: seq<Field>, f: Features, x: Doubles, done: seq<Member>): Option<Value> {
    match SeenFields(fs, f, x, done) case None => None case Some(ms) => Some(Obj(ms))
  }

  lemma {:induction false} ReadsObject(t: Tree, s: String, ls: seq<String>, depth: nat, f: Features, x: Doubles, old_: Value)
    requires t.Fields? && Lexical(t) && Loose(s, Lexemes(t) + ls, false, f)
    ensures ReadsAs(ReadValue(s, depth, f, x, old_), Seen(t, f, x), ls, f, depth + Nesting(t, f) <= f.stackLimit + 1)
    decreases t, 0
  {
    assert AllLexical(t.fields);
    hide Loose, Skip, FieldsLexemes, ObjectSeen, FieldsNesting, ReadMembers, ReadToken, NextToken, AllLexical;
    WholeObject(t, f, x);
    var rest := FieldsLexemes(t.fields) + (["}"] + ls);
    assert Lexemes(t) + ls == ["{"] + rest;
    var r := OpeningHead(s, '{', rest, depth, f, x, old_);
    hide ReadValue;
    if t.fields == [] {
      NoFields(r, ls, depth, f, x);
    } else {
      ReadsFields(t.fields, r, ls, depth, f, x, [], []);
    }
  }

  lemma WholeObject(t: Tree, f: Features, x: Doubles)
    requires t.Fields?
    ensures Seen(t, f, x) == ObjectSeen(t.fields, f, x, [])
  {
    hide SeenFields;
  }

  lemma NoFields(s: String, ls: seq<String>, depth: nat, f: Features, x: Doubles)
    requires Loose(s, FieldsLexemes([]) + (["}"] + ls), false, f)
    ensures ReadsAs(ReadMembers(s, depth, f, x, [], []), ObjectSeen([], f, x, []), ls, f, true) && FieldsNesting([], f) == 0
  {
    assert FieldsLexemes([]) + (["}"] + ls) == ["}"] + ls;
    hide Loose, ReadToken, PastComments;
    var r := BehindValue(s, '}', ls, f);
  }

  /** The lexemes behind the first of some fields, with `tail` behind the last one. */
  ghost function MoreFields(fs: seq<Field>, tail: seq<String>): seq<String>
    requires fs != []
  {
    if |fs| == 1 then tail else [","] + (FieldsLexemes(fs[1..]) + tail)
  }

  lemma FieldsUnfold(fs: seq<Field>)
    requires fs != []
    ensures FieldsLexemes(fs) == if |fs| == 1 then FieldLexemes(fs[0]) else FieldLexemes(fs[0]) + [","] + FieldsLexemes(fs[1..])
  {
    hide FieldLexemes;
  }

  lemma FieldsSplit(fs: seq<Field>, tail: seq<String>)
    requires fs != [] && Follow(tail) && tail != []
    ensures FieldsLexemes(fs) + tail == [fs[0].name] + ([":"] + (Lexemes(fs[0].tree) + MoreFields(fs, tail)))
    ensures Follow(MoreFields(fs, tail)) && MoreFields(fs, tail) != []
  {
    FieldsUnfold(fs);
    hide Lexemes, FieldsLexemes;
    if |fs| > 1 {
      hide FieldLexemes;
      Reassociate(FieldLexemes(fs[0]), [","], FieldsLexemes(fs[1..]), tail);
    }
    FieldSplit(fs[0], MoreFields(fs, tail));
  }

  lemma FieldSplit(fd: Field, more: seq<String>)
    ensures FieldLexemes(fd) + more == [fd.name] + ([":"] + (Lexemes(fd.tree) + more))
  {
    hide Lexemes;
  }

  /** The name and the colon. */
  lemma NameAndColon(fs: seq<Field>, s: String, tail: seq<String>, f: Features) returns (r0: String, r1: String)
    requires fs != [] && AllLexical(fs) && Follow(tail) && tail != [] && Loose(s, FieldsLexemes(fs) + tail, false, f)
    ensures PastComments(s, f) == Token(StringToken, fs[0].name, r0)
    ensures ReadToken(r0, f).ty == MemberSeparator && ReadToken(r0, f).rest == r1
    ensures Loose(r1, Lexemes(fs[0].tree) + MoreFields(fs, tail), false, f)
  {
    hide Loose, Skip, Lexical, Lexemes, FieldsLexemes, ReadToken, PastComments, MoreFields, Follow, IsQuoted;
    FieldsSplit(fs, tail);
    var value := Lexemes(fs[0].tree) + MoreFields(fs, tail);
    r0 := LooseHead(s, fs[0].name, [":"] + value, false, f);
    QuotedStarts(fs[0].name);
    SkipsNothing(fs[0].name, r0);
    QuotedToken(fs[0].name + r0, fs[0].name, r0, f);
    NotAComment(fs[0].name + r0, f);
    r1 := LooseHead(r0, ":", value, Opens(fs[0].name), f);
    SkipsNothing(":", r1);
    SeparatorToken(":" + r1, ':', r1, f);
  }

  /** The name of a field can be put in. */
  ghost predicate NameFits(fd: Field, f: Features, done: seq<Member>) {
    match StringValue(fd.name)
    case None => false
    case Some(n) => |n| < NAME_LIMIT && !(f.rejectDupKeys && Get(done, n).Some?)
  }

  lemma BehindComment(r: String, f: Features)
    ensures PastComments(r, f) == if ReadToken(r, f).ty == Comment then PastComments(ReadToken(r, f).rest, f) else ReadToken(r, f)
  {}

  /** One pass of the loop of `readObject`. */
  lemma MembersStep(s: String, depth: nat, f: Features, x: Doubles, done: seq<Member>, name: String, q: String, r0: String, r1: String)
    requires PastComments(s, f) == Token(StringToken, q, r0)
    requires ReadToken(r0, f).ty == MemberSeparator && ReadToken(r0, f).rest == r1
    ensures var all := ReadMembers(s, depth, f, x, done, name);
            if !NameFits(Field(q, Nothing), f, done) then all.Done? ==> !all.ok else
              var n := StringValue(q).value;
              var o := ReadValue(r1, depth + 1, f, x, Existing(done, n));
              && (o.Thrown? ==> all == Thrown)
              && (o.Done? && !o.ok ==> all.Done? && !all.ok)
              && (o.Done? && o.ok ==>
                    var t := PastComments(o.rest, f);
                    var m := Put(done, n, o.v);
                    && (t.ty == ArraySeparator ==> all == ReadMembers(t.rest, depth, f, x, m, n))
                    && (t.ty == ObjectEnd ==> all == Done(true, Obj(m), t.rest)))
  {
    if NameFits(Field(q, Nothing), f, done) {
      var o := ReadValue(r1, depth + 1, f, x, Existing(done, StringValue(q).value));
      if o.Done? {
        BehindComment(o.rest, f);
      }
    }
    hide Skip, ReadValue, PastComments, Recover, ReadToken, StringValue, Put, Get, Existing;
  }

  /** The outcome `o` of the first field leads to the outcome `all`. */
  ghost predicate LeadsTo(o: Outcome, all: Outcome, fd: Field, depth: nat, f: Features, x: Doubles, done: seq<Member>) {
    if !NameFits(fd, f, done) then all.Done? ==> !all.ok else
      var n := StringValue(fd.name).value;
      && (o.Thrown? ==> all == Thrown)
      && (o.Done? && !o.ok ==> all.Done? && !all.ok)
      && (o.Done? && o.ok ==>
            var t := PastComments(o.rest, f);
            var m := Put(done, n, o.v);
            && (t.ty == ArraySeparator ==> all == ReadMembers(t.rest, depth, f, x, m, n))
            && (t.ty == ObjectEnd ==> all == Done(true, Obj(m), t.rest)))
  }

  /** The first of some fields is read, into whatever members there are. */
  lemma {:induction false} FirstField(fs: seq<Field>, s: String, tail: seq<String>, depth: nat, f: Features, x: Doubles,
                                      done: seq<Member>, name: String) returns (o: Outcome)
    requires fs != [] && AllLexical(fs) && Follow(tail) && tail != [] && Loose(s, FieldsLexemes(fs) + tail, false, f)
    ensures ReadsAs(o, Seen(fs[0].tree, f, x), MoreFields(fs, tail), f, depth + Nesting(fs[0].tree, f) <= f.stackLimit)
    ensures LeadsTo(o, ReadMembers(s, depth, f, x, done, name), fs[0], depth, f, x, done)
    decreases fs, 0
  {
    hide Loose, Skip, Lexical, Lexemes, FieldsLexemes, ReadValue, ReadToken, Nesting, Seen, PastComments, StringValue, Put, Get, Follow,
      MoreFields, ReadMembers, Existing, IsQuoted;
    FieldsSplit(fs, tail);
    var r0, r1 := NameAndColon(fs, s, tail, f);
    var old_ := if NameFits(fs[0], f, done) then Existing(done, StringValue(fs[0].name).value) else Null;
    ReadsTree(fs[0].tree, r1, MoreFields(fs, tail), depth + 1, f, x, old_);
    MembersStep(s, depth, f, x, done, name, fs[0].name, r0, r1);
    o := ReadValue(r1, depth + 1, f, x, old_);
  }

  lemma FieldsSeen(fs: seq<Field>, f: Features, x: Doubles, done: seq<Member>)
    requires fs != []
    ensures !NameFits(fs[0], f, done) || Seen(fs[0].tree, f, x).None? ==> ObjectSeen(fs, f, x, done) == None
    ensures NameFits(fs[0], f, done) && Seen(fs[0].tree, f, x).Some? ==>
      var m := Put(done, StringValue(fs[0].name).value, Seen(fs[0].tree, f, x).value);
      ObjectSeen(fs, f, x, done) == if |fs| == 1 then Some(Obj(m)) else ObjectSeen(fs[1..], f, x, m)
    ensures FieldsNesting(fs, f) == if |fs| == 1 then Nesting(fs[0].tree, f) else Max(Nesting(fs[0].tree, f), FieldsNesting(fs[1..], f))
  {
    hide Seen, Nesting, StringValue, Get, Put;
    if NameFits(fs[0], f, done) && Seen(fs[0].tree, f, x).Some? {
      var m := Put(done, StringValue(fs[0].name).value, Seen(fs[0].tree, f, x).value);
      assert SeenFields(fs, f, x, done) == SeenFields(fs[1..], f, x, m);
    }
  }

  /** The last field ends the object. */
  lemma LastField(o: Outcome, all: Outcome, fd: Field, ls: seq<String>, depth: nat, f: Features, x: Doubles, done: seq<Member>)
    requires LeadsTo(o, all, fd, depth, f, x, done) && NameFits(fd, f, done)
    requires o.Done? && o.ok && Loose(o.rest, ["}"] + ls, false, f)
    ensures all.Done? && all.ok && all.v == Obj(Put(done, StringValue(fd.name).value, o.v)) && Loose(all.rest, ls, false, f)
  {
    hide Loose, ReadToken, PastComments, ReadMembers, Put, StringValue, Get;
    var r := BehindValue(o.rest, '}', ls, f);
  }

  lemma NextField(o: Outcome, all: Outcome, fd: Field, ls: seq<String>, depth: nat, f: Features, x: Doubles, done: seq<Member>) returns (r: String)
    requires LeadsTo(o, all, fd, depth, f, x, done) && NameFits(fd, f, done)
    requires o.Done? && o.ok && Loose(o.rest, [","] + ls, false, f)
    ensures var n := StringValue(fd.name).value;
            Loose(r, ls, false, f) && all == ReadMembers(r, depth, f, x, Put(done, n, o.v), n)
  {
    hide Loose, ReadToken, PastComments, ReadMembers, Put, StringValue, Get;
    r := BehindValue(o.rest, ',', ls, f);
  }

  lemma NoLead(o: Outcome, all: Outcome, fd: Field, depth: nat, f: Features, x: Doubles, done: seq<Member>)
    requires LeadsTo(o, all, fd, depth, f, x, done)
    ensures !NameFits(fd, f, done) || (o.Done? && !o.ok) ==> (all.Done? ==> !all.ok)
    ensures NameFits(fd, f, done) && o.Thrown? ==> all == Thrown
  {
    hide ReadToken, ReadMembers, Put, StringValue, Get;
  }

  lemma MoreFieldsAre(fs: seq<Field>, ls: seq<String>)
    requires fs != []
    ensures |fs| == 1 ==> MoreFields(fs, ["}"] + ls) == ["}"] + ls
    ensures |fs| > 1 ==> MoreFields(fs, ["}"] + ls) == [","] + (FieldsLexemes(fs[1..]) + (["}"] + ls))
    ensures AllLexical(fs) ==> AllLexical(fs[1..])
    ensures Follow(["}"] + ls)
  {
    hide FieldsLexemes, Lexical, IsQuoted;
  }

  lemma {:induction false} ReadsFields(fs: seq<Field>, s: String, ls: seq<String>, depth: nat, f: Features, x: Doubles,
                                       done: seq<Member>, name: String)
    requires fs != [] && AllLexical(fs) && Loose(s, FieldsLexemes(fs) + (["}"] + ls), false, f)
    ensures ReadsAs(ReadMembers(s, depth, f, x, done, name), ObjectSeen(fs, f, x, done), ls, f, depth + FieldsNesting(fs, f) <= f.stackLimit)
    decreases fs, 1
  {
    MoreFieldsAre(fs, ls);
    FieldsSeen(fs, f, x, done);
    hide Loose, FieldsLexemes, ReadToken, Nesting, Seen, ReadMembers, Put, Get, Lexemes, Lexical, Skip, Follow, PastComments, ObjectSeen,
      FieldsNesting, ReadValue, StringValue, NameFits, IsQuoted, LeadsTo, MoreFields, AllLexical;
    var all := ReadMembers(s, depth, f, x, done, name);
    var o := FirstField(fs, s, ["}"] + ls, depth, f, x, done, name);
    NoLead(o, all, fs[0], depth, f, x, done);
    if NameFits(fs[0], f, done) && o.Done? && o.ok {
      if |fs| == 1 {
        LastField(o, all, fs[0], ls, depth, f, x, done);
      } else {
        var r := NextField(o, all, fs[0], FieldsLexemes(fs[1..]) + (["}"] + ls), depth, f, x, done);
        var n := StringValue(fs[0].name).value;
        ReadsFields(fs[1..], r, ls, depth, f, x, Put(done, n, o.v), n);
      }
    }
  }

  // ---- when fields make an object ----

  lemma {:induction false} GetPut(m: seq<Member>, n: String, v: Value, k: String)
    ensures Get(Put(m, n, v), k) == if k == n then Some(v) else Get(m, k)
    decreases |m|
  {
    if m != [] {
      LessIsIrreflexive(n);
      GetPut(m[1..], n, v, k);
    }
  }

  ghost predicate NamesReadable(fs: seq<Field>) {
    forall i :: 0 <= i < |fs| ==> StringValue(fs[i].name).Some? && |StringValue(fs[i].name).value| < NAME_LIMIT
  }

  ghost predicate IsNew(fd: Field, done: seq<Member>) {
    StringValue(fd.name).Some? ==> Get(done, StringValue(fd.name).value) == None
  }

  /** The names are distinct and none of them is there already. */
  ghost predicate NamesNew(fs: seq<Field>, done: seq<Member>) {
    && (forall i, j :: 0 <= i < j < |fs| ==> StringValue(fs[i].name) != StringValue(fs[j].name))
    && (forall i :: 0 <= i < |fs| ==> IsNew(fs[i], done))
  }

  lemma FirstIsNew(fs: seq<Field>, done: seq<Member>, n: String, v: Value)
    requires fs != [] && StringValue(fs[0].name) == Some(n)
    ensures NamesNew(fs, done) <==> Get(done, n) == None && NamesNew(fs[1..], Put(done, n, v))
  {
    hide Get, Put, StringValue;
    var rest := fs[1..];
    forall k: nat | k < |rest|
      ensures IsNew(rest[k], Put(done, n, v)) <==> StringValue(rest[k].name) != Some(n) && IsNew(rest[k], done)
    {
      if StringValue(rest[k].name).Some? {
        GetPut(done, n, v, StringValue(rest[k].name).value);
      }
    }
    assert forall k :: 0 <= k < |rest| ==> rest[k] == fs[k + 1];
    if Get(done, n) == None && NamesNew(rest, Put(done, n, v)) {
      forall i, j | 0 <= i < j < |fs|
        ensures StringValue(fs[i].name) != StringValue(fs[j].name)
      {
        assert fs[j] == rest[j - 1];
      }
      assert forall k :: 1 <= k < |fs| ==> fs[k] == rest[k - 1];
      assert IsNew(fs[0], done);
    }
    if NamesNew(fs, done) {
      assert IsNew(fs[0], done);
    }
  }

  /** All trees have values. */
  ghost predicate TreesSeen(fs: seq<Field>, f: Features, x: Doubles) {
    forall i :: 0 <= i < |fs| ==> Seen(fs[i].tree, f, x).Some?
  }

  lemma FieldConditions(fs: seq<Field>, f: Features, x: Doubles)
    requires fs != []
    ensures NamesReadable(fs) <==>
      StringValue(fs[0].name).Some? && |StringValue(fs[0].name).value| < NAME_LIMIT && NamesReadable(fs[1..])
    ensures TreesSeen(fs, f, x) <==> Seen(fs[0].tree, f, x).Some? && TreesSeen(fs[1..], f, x)
  {
    hide StringValue, Seen;
    assert forall k :: 1 <= k < |fs| ==> fs[k] == fs[1..][k - 1];
  }

  /** Fields make an object if and only if their trees have values and their names can be read, are short, and are
      new where that is demanded. */
  lemma {:induction false} ObjectSeenIff(fs: seq<Field>, f: Features, x: Doubles, done: seq<Member>)
    ensures ObjectSeen(fs, f, x, done).Some? <==>
      NamesReadable(fs) && TreesSeen(fs, f, x) && (f.rejectDupKeys ==> NamesNew(fs, done))
    decreases |fs|
  {
    if fs != [] {
      FieldConditions(fs, f, x);
      FieldsSeen(fs, f, x, done);
      hide ObjectSeen, NamesReadable, TreesSeen, NamesNew, Seen, StringValue, Put, Get;
      if StringValue(fs[0].name).Some? && Seen(fs[0].tree, f, x).Some? {
        var n, v := StringValue(fs[0].name).value, Seen(fs[0].tree, f, x).value;
        FirstIsNew(fs, done, n, v);
        ObjectSeenIff(fs[1..], f, x, Put(done, n, v));
        if |fs| == 1 {
          NoFieldConditions(fs[1..], f, x, Put(done, n, v));
        }
      }
    }
  }

  lemma NoFieldConditions(fs: seq<Field>, f: Features, x: Doubles, done: seq<Member>)
    requires fs == []
    ensures NamesReadable(fs) && TreesSeen(fs, f, x) && NamesNew(fs, done)
  {}

  // ---- whole documents ----

  /** No text of lexemes starts with a byte order mark. */
  lemma NoBom(doc: String, ls: seq<String>, f: Features)
    requires Loose(doc, ls, false, f) && (ls != [] ==> ls[0] != [] && ls[0][0] as int < 128)
    ensures PastBom(doc, f) == doc
  {
    hide Loose;
    LooseStarts(doc, ls, false, f);
  }

  lemma NothingLeft(s: String, f: Features)
    requires Loose(s, [], false, f)
    ensures NextToken(s, f) == Token(EndOfStream, [], [])
  {
    NothingFollows(s, f);
  }

  /** The value of a whole document: nothing is not one. */
  function SeenRoot(t: Tree, f: Features, x: Doubles): Option<Value> {
    if t.Nothing? then None else Seen(t, f, x)
  }

  /** Whatever the features and the white space, a text that spells a syntax tree is parsed as the value seen in it,
      or fails if there is none. */
  lemma ParsesTree(t: Tree, doc: String, f: Features, x: Doubles, root: Value)
    requires Lexical(t) && Loose(doc, Lexemes(t), false, f)
    ensures var o := Parse(doc, f, x, root);
            match SeenRoot(t, f, x)
            case None => o.Done? ==> !o.ok
            case Some(v) =>
              o == if Nesting(t, f) > f.stackLimit then Thrown else Done(v.Arr? || v.Obj? || !f.strictRoot, v, [])
  {
    if !t.Nothing? {
      LexemesStart(t);
    }
    NoBom(doc, Lexemes(t), f);
    assert Lexemes(t) + [] == Lexemes(t);
    if t.Nothing? {
      EmptyDocument(doc, f, x, root);
    } else {
      hide Loose, Lexical, Lexemes, ReadValue, NextToken, Nesting, Seen, PastBom;
      ReadsTree(t, doc, [], 1, f, x, root);
      var o := ReadValue(doc, 1, f, x, root);
      if o.Done? && o.ok {
        NothingLeft(o.rest, f);
      }
    }
  }

  lemma EmptyDocument(doc: String, f: Features, x: Doubles, root: Value)
    requires Loose(doc, [], false, f) && PastBom(doc, f) == doc
    ensures var o := Parse(doc, f, x, root); o.Done? ==> !o.ok
  {
    NothingLeft(doc, f);
    hide NextToken, PastBom, Loose;
  }

  /** Texts that spell the same tree are parsed alike, whatever white space there is, and whatever comments where the
      reader skips them: one is accepted if and only if the other is, with the same value. */
  lemma SpelledAlike(t: Tree, a: String, b: String, f: Features, x: Doubles, root: Value)
    requires Lexical(t) && Loose(a, Lexemes(t), false, f) && Loose(b, Lexemes(t), false, f)
    ensures var o, o' := Parse(a, f, x, root), Parse(b, f, x, root);
            (SeenRoot(t, f, x).Some? || (o.Done? && o.ok) || (o'.Done? && o'.ok)) ==> o == o'
  {
    hide Loose, Lexical, Lexemes, Parse, Nesting, Seen;
    ParsesTree(t, a, f, x, root);
    ParsesTree(t, b, f, x, root);
  }
}
