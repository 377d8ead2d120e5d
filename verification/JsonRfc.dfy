/** The reader against the grammar of RFC 8259: which JSON texts it accepts. */
module JsonRfc {
  import opened CStrings
  import opened Wrappers
  import opened JsonValue
  import opened JsonSyntax
  import opened JsonComments
  import opened JsonGrammar
  import opened JsonRfcStrings
  import D = Decimal
  import JsonNumber
  import JsonText
  import Utf

  // ---- section 6: numbers ----

  predicate Fraction(s: String) { s == [] || (s[0] == '.' && |s| > 1 && D.AllDigits(s[1..])) }

  predicate Exponent(s: String) {
    s == [] || ((s[0] == 'e' || s[0] == 'E') && |s| > 1 &&
                var d := if s[1] == '+' || s[1] == '-' then s[2..] else s[1..];
                d != [] && D.AllDigits(d))
  }

  /** A minus, an integer without leading zeros, a fraction, an exponent. */
  ghost predicate NumberOf(l: String, minus: String, whole: String, fraction: String, exponent: String) {
    && l == minus + (whole + (fraction + exponent))
    && (minus == [] || minus == "-") && D.Minimal(whole) && D.AllDigits(whole) && Fraction(fraction) && Exponent(exponent)
  }

  ghost predicate RfcNumber(l: String) {
    exists minus, whole, fraction, exponent :: NumberOf(l, minus, whole, fraction, exponent)
  }

  // ---- section 2: texts ----

  ghost predicate RfcTree(t: Tree) {
    match t
    case Nothing => false
    case Literal(l) => IsLiteral(l)
    case Numeral(l) => RfcNumber(l)
    case Quoted(l) => RfcString(l)
    case Items(ts) => forall i :: 0 <= i < |ts| ==> RfcTree(ts[i])
    case Fields(fs) => forall i :: 0 <= i < |fs| ==> RfcString(fs[i].name) && RfcTree(fs[i].tree)
  }

  // ---- numbers are tokens ----

  lemma {:induction false} DigitsThen(d: String, r: String)
    requires D.AllDigits(d) && (r == [] || !D.IsDigit(r[0]))
    ensures CountDigits(d + r) == |d|
    decreases |d|
  {
    if d == [] {
      assert d + r == r;
    } else {
      assert (d + r)[0] == d[0] && (d + r)[1..] == d[1..] + r;
      DigitsThen(d[1..], r);
    }
  }

  lemma ExponentIs(s: String)
    requires Exponent(s)
    ensures ExponentLength(s) == |s|
  {
    if s != [] {
      var d := if s[1] == '+' || s[1] == '-' then s[2..] else s[1..];
      DigitsThen(d, []);
      assert d + [] == d;
    }
  }

  lemma FractionThen(s: String, r: String)
    requires Fraction(s) && Exponent(r)
    ensures FractionLength(s + r) == |s|
  {
    hide CountDigits;
    if s == [] {
      assert s + r == r;
    } else {
      assert (s + r)[0] == s[0] && (s + r)[1..] == s[1..] + r;
      DigitsThen(s[1..], r);
    }
  }

  /** Digits are not followed by more digits. */
  lemma NoDigit(fraction: String, exponent: String)
    requires Fraction(fraction) && Exponent(exponent)
    ensures var r := fraction + exponent; r == [] || !D.IsDigit(r[0])
  {
    if fraction == [] {
      assert fraction + exponent == exponent;
    } else {
      assert (fraction + exponent)[0] == fraction[0];
    }
  }

  lemma NumberIs(d: String, fraction: String, exponent: String)
    requires D.AllDigits(d) && Fraction(fraction) && Exponent(exponent)
    ensures NumberLength(d + (fraction + exponent)) == |d| + |fraction| + |exponent|
  {
    hide CountDigits, FractionLength, ExponentLength, Fraction, Exponent;
    var r := fraction + exponent;
    NoDigit(fraction, exponent);
    DigitsThen(d, r);
    FractionThen(fraction, exponent);
    ExponentIs(exponent);
    Drop(d, r);
    assert (d + r)[|d| + |fraction|..] == exponent;
  }

  lemma Unsigned(whole: String, r: String, l: String)
    requires D.Minimal(whole) && D.AllDigits(whole) && l == whole + r
    ensures l != [] && D.IsDigit(l[0]) && l != "-" && D.AllDigits(whole[1..]) && l[1..] == whole[1..] + r
  {}

  lemma Negative(whole: String, r: String, l: String)
    requires D.Minimal(whole) && l == "-" + (whole + r)
    ensures l[0] == '-' && l != "-" && l[1..] == whole + r
  {}

  lemma NumberIsNumeral(l: String)
    requires RfcNumber(l)
    ensures IsNumeral(l) && l != "-"
  {
    var minus, whole, fraction, exponent :| NumberOf(l, minus, whole, fraction, exponent);
    var r := fraction + exponent;
    if minus == [] {
      assert minus + (whole + r) == whole + r;
      hide NumberLength, Fraction, Exponent, D.Minimal, D.AllDigits;
      Unsigned(whole, r, l);
      NumberIs(whole[1..], fraction, exponent);
    } else {
      hide NumberLength, Fraction, Exponent, D.Minimal, D.AllDigits;
      Negative(whole, r, l);
      NumberIs(whole, fraction, exponent);
    }
  }

  // ---- which texts are accepted ----

  function Inner(l: String): String { if |l| < 2 then [] else l[1..|l| - 1] }

  /** The digits are those of an integer of 64 bits. */
  predicate Integer64(negative: bool, digits: String) {
    digits != [] && D.AllDigits(digits) && D.Value(digits) <= if negative then 0x8000_0000_0000_0000 else 0xFFFF_FFFF_FFFF_FFFF
  }

  /** The number is an integer of 64 bits, or the C++ library reads it. */
  predicate NumberReadable(l: String, x: Doubles)
    requires l != []
  {
    (if l[0] == '-' then Integer64(true, l[1..]) else Integer64(false, l)) || x.fromText(l).Some?
  }

  /** Names that can be decoded and are short, and distinct where that is demanded. */
  ghost predicate NamesAcceptable(fs: seq<Field>, f: Features) {
    && (forall i :: 0 <= i < |fs| ==> Paired(Inner(fs[i].name)) && |Meaning(Inner(fs[i].name))| < NAME_LIMIT)
    && (f.rejectDupKeys ==> forall i, j :: 0 <= i < j < |fs| ==> Meaning(Inner(fs[i].name)) != Meaning(Inner(fs[j].name)))
  }

  ghost predicate Acceptable(t: Tree, f: Features, x: Doubles) {
    match t
    case Nothing => false
    case Literal(_) => true
    case Numeral(l) => l != [] && NumberReadable(l, x)
    case Quoted(l) => Paired(Inner(l))
    case Items(ts) => forall i :: 0 <= i < |ts| ==> Acceptable(ts[i], f, x)
    case Fields(fs) => NamesAcceptable(fs, f) && forall i :: 0 <= i < |fs| ==> Acceptable(fs[i].tree, f, x)
  }

  // ---- what they mean ----

  function MeantNumber(l: String, x: Doubles): Value
    requires l != []
  {
    if l[0] == '-' && Integer64(true, l[1..]) then Int(0 - D.Value(l[1..]))
    else if l[0] != '-' && Integer64(false, l) then
      if D.Value(l) <= 0x7FFF_FFFF_FFFF_FFFF then Int(D.Value(l)) else UInt(D.Value(l))
    else match x.fromText(l) case Some(bits) => Real(bits) case None => Null
  }

  /** The value of a syntax tree. A name that occurs again replaces the value it had. */
  function Meant(t: Tree, x: Doubles): Value
    decreases t
  {
    match t
    case Nothing => Null
    case Literal(l) => if l == "true" then Bool(true) else if l == "false" then Bool(false) else Null
    case Numeral(l) => if l == [] then Null else MeantNumber(l, x)
    case Quoted(l) => Str(Meaning(Inner(l)))
    case Items(ts) => Arr(MeantItems(ts, x))
    case Fields(fs) => Obj(MeantFields(fs, x, []))
  }

  function MeantItems(ts: seq<Tree>, x: Doubles): seq<Value>
    decreases ts
  {
    if ts == [] then [] else [Meant(ts[0], x)] + MeantItems(ts[1..], x)
  }

  function MeantFields(fs: seq<Field>, x: Doubles, done: seq<Member>): seq<Member>
    decreases fs
  {
    if fs == [] then done
    else MeantFields(fs[1..], x, Put(done, Meaning(Inner(fs[0].name)), Meant(fs[0].tree, x)))
  }

  lemma NumberSeen(l: String, x: Doubles)
    requires RfcNumber(l)
    ensures l != [] && NumberValue(l, x) == if NumberReadable(l, x) then Some(MeantNumber(l, x)) else None
  {
    hide RfcNumber, D.Value, NumberLength;
    NumberIsNumeral(l);
    assert l[0] == '-' ==> l[1..] != [] by {
      assert l[0] == '-' && l[1..] == [] ==> l == "-";
    }
  }

  lemma StringSeen(l: String)
    requires RfcString(l)
    ensures StringValue(l) == if Paired(Inner(l)) then Some(Meaning(Inner(l))) else None
  {
    hide RfcChars, JsonText.DecodeBody, Paired, Readable, Meaning;
    DecodedAsMeant(l[1..|l| - 1]);
    ReadableIffPaired(l[1..|l| - 1]);
  }

  lemma {:induction false} RfcIsLexical(t: Tree)
    requires RfcTree(t)
    ensures Lexical(t)
    decreases t
  {
    hide RfcNumber, RfcString, IsNumeral, IsQuoted;
    match t
    case Numeral(l) => NumberIsNumeral(l);
    case Quoted(l) => StringIsQuoted(l);
    case Items(ts) =>
      forall i | 0 <= i < |ts|
        ensures Lexical(ts[i])
      {
        RfcIsLexical(ts[i]);
      }
    case Fields(fs) =>
      forall i | 0 <= i < |fs|
        ensures IsQuoted(fs[i].name) && Lexical(fs[i].tree)
      {
        StringIsQuoted(fs[i].name);
        RfcIsLexical(fs[i].tree);
      }
    case _ =>
  }

  /** The value of the tree, if it is acceptable. */
  ghost predicate SeenAsMeant(t: Tree, f: Features, x: Doubles) {
    Seen(t, f, x) == if Acceptable(t, f, x) then Some(Meant(t, x)) else None
  }

  lemma {:induction false} SeenIsMeant(t: Tree, f: Features, x: Doubles)
    requires RfcTree(t)
    ensures SeenAsMeant(t, f, x)
    decreases t
  {
    hide RfcNumber, RfcString, NumberValue, StringValue, NumberReadable, MeantNumber, Paired, Meaning, Inner, SeenItems, SeenFields,
      MeantItems, MeantFields, NamesAcceptable;
    match t
    case Numeral(l) => NumberSeen(l, x);
    case Quoted(l) => StringSeen(l);
    case Items(ts) =>
      forall i | 0 <= i < |ts|
        ensures SeenAsMeant(ts[i], f, x)
      {
        SeenIsMeant(ts[i], f, x);
      }
      ItemsSeen(ts, f, x, true);
    case Fields(fs) =>
      forall i | 0 <= i < |fs|
        ensures SeenAsMeant(fs[i].tree, f, x)
      {
        SeenIsMeant(fs[i].tree, f, x);
      }
      FieldsSeenIff(fs, f, x);
    case _ =>
  }

  lemma {:induction false} ItemsSeen(ts: seq<Tree>, f: Features, x: Doubles, first: bool)
    requires forall i :: 0 <= i < |ts| ==> SeenAsMeant(ts[i], f, x) && !ts[i].Nothing?
    ensures SeenItems(ts, f, x, first) ==
      if forall i :: 0 <= i < |ts| ==> Acceptable(ts[i], f, x) then Some(MeantItems(ts, x)) else None
    decreases |ts|
  {
    hide Seen, Acceptable, Meant;
    if ts != [] {
      ItemsSeen(ts[1..], f, x, false);
      assert forall i :: 1 <= i < |ts| ==> ts[i] == ts[1..][i - 1];
      assert SeenAsMeant(ts[0], f, x);
    }
  }

  lemma FieldsSeenIff(fs: seq<Field>, f: Features, x: Doubles)
    requires forall i :: 0 <= i < |fs| ==> RfcString(fs[i].name) && SeenAsMeant(fs[i].tree, f, x)
    ensures SeenFields(fs, f, x, []) ==
      if NamesAcceptable(fs, f) && forall i :: 0 <= i < |fs| ==> Acceptable(fs[i].tree, f, x) then Some(MeantFields(fs, x, [])) else None
  {
    hide RfcString, Seen, Acceptable, Meant, SeenFields, MeantFields, NamesAcceptable, NamesReadable, NamesNew;
    ObjectSeenIff(fs, f, x, []);
    NamesIff(fs, f);
    assert TreesSeen(fs, f, x) <==> forall i :: 0 <= i < |fs| ==> Acceptable(fs[i].tree, f, x) by {
      assert forall i :: 0 <= i < |fs| ==> SeenAsMeant(fs[i].tree, f, x);
    }
    hide TreesSeen;
    if SeenFields(fs, f, x, []).Some? {
      FieldsSeenAre(fs, f, x, []);
    }
  }

  lemma {:induction false} FieldsSeenAre(fs: seq<Field>, f: Features, x: Doubles, done: seq<Member>)
    requires forall i :: 0 <= i < |fs| ==> RfcString(fs[i].name) && SeenAsMeant(fs[i].tree, f, x)
    requires SeenFields(fs, f, x, done).Some?
    ensures SeenFields(fs, f, x, done) == Some(MeantFields(fs, x, done))
    decreases |fs|
  {
    hide RfcString, Seen, Acceptable, Meant, StringValue, Meaning, Inner, Paired, Put, Get;
    if fs != [] {
      StringSeen(fs[0].name);
      assert SeenAsMeant(fs[0].tree, f, x);
      FieldsSeenAre(fs[1..], f, x, Put(done, Meaning(Inner(fs[0].name)), Meant(fs[0].tree, x)));
    }
  }

  lemma NamesIff(fs: seq<Field>, f: Features)
    requires forall i :: 0 <= i < |fs| ==> RfcString(fs[i].name)
    ensures NamesAcceptable(fs, f) <==> NamesReadable(fs) && (f.rejectDupKeys ==> NamesNew(fs, []))
  {
    hide RfcString, Paired, StringValue, Inner, Meaning;
    forall i | 0 <= i < |fs|
      ensures StringValue(fs[i].name) == if Paired(Inner(fs[i].name)) then Some(Meaning(Inner(fs[i].name))) else None
      ensures IsNew(fs[i], [])
    {
      StringSeen(fs[i].name);
    }
  }

  /** Every JSON text of RFC 8259, with any features: it is accepted if and only if escapes of high surrogates are followed by
      escapes, the C++ library reads the numbers that are no 64-bit integers, names are short and are not repeated
      where that is refused, the nesting is within the stack limit, and a scalar is not refused as the root. It then
      has the value that is put together from those of its parts. */
  lemma RfcTextAcceptedIff(t: Tree, doc: String, f: Features, x: Doubles, root: Value)
    requires RfcTree(t) && Spells(doc, Lexemes(t))
    ensures var o := Parse(doc, f, x, root);
            && (o.Done? && o.ok <==>
                  Acceptable(t, f, x) && Nesting(t, f) <= f.stackLimit && (t.Items? || t.Fields? || !f.strictRoot))
            && (o.Done? && o.ok ==> o.v == Meant(t, x) && o.rest == [])
  {
    RfcIsLexical(t);
    SeenIsMeant(t, f, x);
    ContainersAreSeen(t, f, x);
    assert !t.Nothing?;
    hide Spells, Loose, RfcTree, Lexical, Lexemes, Acceptable, Nesting, Seen, Parse, Meant;
    SpellsIsLoose(doc, Lexemes(t), false, f);
    ParsesTree(t, doc, f, x, root);
  }

  lemma ContainersAreSeen(t: Tree, f: Features, x: Doubles)
    ensures Seen(t, f, x).Some? ==> (Seen(t, f, x).value.Arr? <==> t.Items?) && (Seen(t, f, x).value.Obj? <==> t.Fields?)
  {
    hide StringValue, SeenItems, SeenFields, JsonNumber.DecodeNumber;
  }

  lemma HexD800()
    ensures UnicodeEscape("\\uD800") && IsHigh("D800")
  {
    assert JsonText.HexValue('D') == Some(13) && JsonText.HexValue('8') == Some(8) && JsonText.HexValue('0') == Some(0);
    hide JsonText.HexValue;
    assert JsonText.Join4(13, 8, 0, 0) == 0xD800;
  }

  const LONE_SURROGATE: String := "\"\\uD800\""

  lemma LoneSurrogate()
    ensures RfcString(LONE_SURROGATE) && !Paired(Inner(LONE_SURROGATE)) && Spells(LONE_SURROGATE, [LONE_SURROGATE])
  {
    var e: String := "\\uD800";
    HexD800();
    OneWord(LONE_SURROGATE);
    assert LONE_SURROGATE[1..7] == e && e[2..6] == "D800" && e[..6] == e && e[6..] == [];
    hide UnicodeEscape, IsHigh, Spells;
    assert RfcChars([]) && RfcChar(e[..6]) && RfcChars(e[6..]);
    assert RfcChars(e) && !Paired(e);
  }

  /** A JSON text that is always refused: the escape of a high surrogate by itself. */
  lemma LoneSurrogateIsRefused(f: Features, x: Doubles, root: Value)
    ensures RfcTree(Quoted(LONE_SURROGATE)) && Spells(LONE_SURROGATE, Lexemes(Quoted(LONE_SURROGATE)))
    ensures var o := Parse(LONE_SURROGATE, f, x, root); o.Done? ==> !o.ok
  {
    LoneSurrogate();
    hide RfcString, Spells, Parse, Paired, Inner;
    RfcTextAcceptedIff(Quoted(LONE_SURROGATE), LONE_SURROGATE, f, x, root);
  }

  lemma OneWord(l: String)
    requires l != [] && !IsSpace(l[0])
    ensures Spells(l, [l])
  {
    assert Skip(l) == l && l[..|l|] == l && l[|l|..] == [];
    assert [l][1..] == [];
  }
}
