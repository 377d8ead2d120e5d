/** What the features of the reader change (jsoncpp/jsoncpp.cpp). */
module JsonFeatures {
  import opened CStrings
  import opened Wrappers
  import opened JsonValue
  import opened JsonSyntax
  import opened JsonComments
  import opened JsonGrammar
  import opened JsonRfcStrings
  import JsonNumber
  import JsonRoundTrip
  import JsonText

  // ---- skipBom ----

  lemma BomToken(doc: String, f: Features)
    ensures var t := ReadToken(BOM + doc, f); t.ty == Error
  {
    var s := BOM + doc;
    assert s[0] == BOM[0] && Skip(s) == s;
  }

  /** A byte order mark in front of the text is skipped, or makes it fail. */
  lemma BomIsSkipped(doc: String, f: Features, x: Doubles, root: Value)
    requires !(BOM <= doc)
    ensures if f.skipBom then Parse(BOM + doc, f, x, root) == Parse(doc, f, x, root)
            else var o := Parse(BOM + doc, f, x, root); o.Done? ==> !o.ok
  {
    var s := BOM + doc;
    hide ReadToken, PastComments, ReadMembers, ReadElems;
    if f.skipBom {
      assert BOM <= s && s[3..] == doc;
      assert PastBom(s, f) == doc == PastBom(doc, f);
      hide ReadValue, Finish;
    } else {
      BomToken(doc, f);
      NotAComment(s, f);
    }
  }

  // ---- failIfExtra ----

  lemma NoBomBefore(t: Tree, ls: seq<String>, doc: String, f: Features)
    requires Lexical(t) && !t.Nothing? && Loose(doc, Lexemes(t) + ls, false, f)
    ensures PastBom(doc, f) == doc
  {
    LexemesStart(t);
    hide Loose, Lexical, Lexemes, PastBom;
    assert (Lexemes(t) + ls)[0] == Lexemes(t)[0];
    NoBom(doc, Lexemes(t) + ls, f);
  }

  /** `parse` behind a value that more text follows. */
  lemma ExtraBehind(o: Outcome, u: Option<Value>, ls: seq<String>, f: Features, fits: bool)
    requires ReadsAs(o, u, ls, f, fits) && Follow(ls) && ls != []
    ensures var p := Finish(o, f);
            p.Done? && p.ok <==> !f.failIfExtra && u.Some? && fits && (f.strictRoot ==> u.value.Arr? || u.value.Obj?)
    ensures var p := Finish(o, f); p.Done? && p.ok ==> u == Some(p.v)
  {
    var c := ls[0][0];
    assert ls == [[c]] + ls[1..] && (c == ',' || c == ']' || c == '}');
    hide Loose, NextToken, Follow;
    if o.Done? && o.ok {
      var r := FollowHead(o.rest, c, ls[1..], f);
    }
  }

  /** Behind the value of a document may stand more: a comma or a closing bracket to begin with. It makes the document fail if
      that is demanded, and is not looked at otherwise. */
  lemma ExtraText(t: Tree, ls: seq<String>, doc: String, f: Features, x: Doubles, root: Value)
    requires Lexical(t) && !t.Nothing? && Follow(ls) && ls != [] && Loose(doc, Lexemes(t) + ls, false, f)
    ensures var o := Parse(doc, f, x, root);
            o.Done? && o.ok <==> !f.failIfExtra && Seen(t, f, x).Some? && Nesting(t, f) <= f.stackLimit
                                 && (f.strictRoot ==> Seen(t, f, x).value.Arr? || Seen(t, f, x).value.Obj?)
    ensures var o := Parse(doc, f, x, root); o.Done? && o.ok ==> Seen(t, f, x) == Some(o.v)
  {
    hide Loose, Lexical, Lexemes, ReadValue, NextToken, Nesting, Seen, PastBom, Follow, Finish, ReadsAs;
    NoBomBefore(t, ls, doc, f);
    ReadsTree(t, doc, ls, 1, f, x, root);
    ExtraBehind(ReadValue(doc, 1, f, x, root), Seen(t, f, x), ls, f, 1 + Nesting(t, f) <= f.stackLimit + 1);
  }

  // ---- allowSpecialFloats ----

  /** The names of the values that are no numbers, and their bits: the exponent is all ones, behind the sign. */
  predicate SpecialBits(l: String, bits: bv64) {
    || (l == "NaN" && bits == 0x7FF8_0000_0000_0000)
    || ((l == "Infinity" || l == "+Infinity") && bits == 0x7FF0_0000_0000_0000)
    || (l == "-Infinity" && bits == 0xFFF0_0000_0000_0000)
  }

  lemma SpecialToken(l: String, bits: bv64, r: String, f: Features)
    requires SpecialBits(l, bits)
    ensures var t := NextToken(l + r, f);
            if f.allowSpecialFloats then
              t.rest == r && (if bits == 0x7FF8_0000_0000_0000 then t.ty == NaN else if bits == 0x7FF0_0000_0000_0000 then t.ty == PosInf else t.ty == NegInf)
            else t.ty == Error
  {
    var s := l + r;
    assert s[0] == l[0] && s[1..] == l[1..] + r;
    assert Skip(s) == s;
    if l == "-Infinity" || l == "+Infinity" {
      assert s[1..][0] == 'I' && s[1..][1..] == "nfinity" + r;
    }
    hide Skip;
    if f.allowSpecialFloats {
      assert s[|l|..] == r;
    }
    NotAComment(s, f);
  }

  lemma SpecialFloats(l: String, bits: bv64, r: String, depth: nat, f: Features, x: Doubles, old_: Value)
    requires SpecialBits(l, bits) && depth <= f.stackLimit
    ensures var o := ReadValue(l + r, depth, f, x, old_);
            if f.allowSpecialFloats then o == Done(true, Real(bits), r) else o.Done? && !o.ok
  {
    SpecialToken(l, bits, r, f);
    hide NextToken, ReadMembers, ReadElems;
  }

  // ---- allowNumericKeys ----

  /** A name that is an integer is its decimal text, if numbers may be names. */
  lemma NumericNames(n: int, r: String, f: Features, x: Doubles)
    requires JsonNumber.MIN_INT <= n <= JsonNumber.MAX_UINT
    ensures var l := JsonNumber.IntText(n);
            NameOf(Token(Number, l, r), f, x) == if f.allowNumericKeys then Some(l) else None
  {
    JsonRoundTrip.IntegerToken(n, x);
    hide JsonNumber.IntText, NumberValue, IsNumeral;
  }

  // ---- allowSingleQuotes ----

  lemma {:induction false} SingleEnd(a: String, r: String)
    requires forall i :: 0 <= i < |a| ==> a[i] != '\'' && a[i] != '\\'
    ensures JsonText.StringEnd(a + ("'" + r), '\'') == (true, |a| + 1)
    decreases |a|
  {
    var s := a + ("'" + r);
    if a == [] {
      assert s == "'" + r;
    } else {
      assert s[0] == a[0] && s[1..] == a[1..] + ("'" + r);
      SingleEnd(a[1..], r);
    }
  }

  lemma {:induction false} CutAtQuote(a: String, b: String)
    requires JsonText.Ordinary(a) && (b == [] || b[0] == '"')
    ensures Readable(a + b) && Meaning(a + b) == a
    decreases |a|
  {
    if a == [] {
      assert a + b == b;
    } else {
      assert (a + b)[0] == a[0] && (a + b)[1..] == a[1..] + b;
      CutAtQuote(a[1..], b);
      assert [a[0]] + a[1..] == a;
    }
  }

  /** A string between single quotes is one token; but a double quote in it cuts off the rest of its value. */
  lemma SingleQuoted(a: String, b: String, r: String, f: Features)
    requires f.allowSingleQuotes && JsonText.Ordinary(a) && (b == [] || b[0] == '"')
    requires forall i :: 0 <= i < |a + b| ==> (a + b)[i] != '\'' && (a + b)[i] != '\\'
    ensures var l := "'" + (a + b) + "'";
            NextToken(l + r, f) == Token(StringToken, l, r) && StringValue(l) == Some(a)
  {
    var l: String := "'" + (a + b) + "'";
    var s := l + r;
    assert Skip(s) == s && s[0] == '\'' && s[1..] == (a + b) + ("'" + r);
    SingleEnd(a + b, r);
    assert l[1..|l| - 1] == a + b;
    DecodedAsMeant(a + b);
    CutAtQuote(a, b);
    hide JsonText.StringEnd, JsonText.DecodeBody, Readable, Meaning, Skip;
    assert s[..|l|] == l && s[|l|..] == r;
    assert Classify('\'', s[1..], f) == (StringToken, |l| - 1);
    hide Classify;
    NotAComment(s, f);
  }
}
