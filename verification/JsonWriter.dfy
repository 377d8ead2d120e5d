/** The writers of jsoncpp/jsoncpp.cpp: FastWriter, and BuiltStyledStreamWriter for trees without comments. Both
    spell the lexemes of the tree; the layout is nothing but white space. */
module JsonWriter {
  import opened MachineInts
  import opened CStrings
  import opened Wrappers
  import opened JsonValue
  import D = Decimal
  import JsonNumber
  import JsonText

  // ---- texts and lexemes ----

  /** A text that is one lexeme. */
  predicate Word(s: String) { s != [] && !IsSpace(s[0]) }

  lemma WordSpells(s: String)
    requires Word(s)
    ensures Spells(s, [s])
  {
    assert Skip(s) == s;
    assert s[|s|..] == [];
  }

  lemma SpacesSpell(s: String)
    requires AllSpaces(s)
    ensures Spells(s, [])
  {}

  ghost predicate RealsAreWords(w: Style) {
    forall bits :: Word(w.realText(bits))
  }

  /** The text of a scalar; `nullSymbol_` of the styled writer is empty if nulls are dropped. */
  function ScalarText(v: Value, w: Style): String {
    match v
    case Null => if w.dropNulls then [] else "null"
    case Bool(b) => if b then "true" else "false"
    case Int(n) => JsonNumber.IntText(n)
    case UInt(n) => JsonNumber.IntText(n)
    case Real(bits) => w.realText(bits)
    case Str(s) => JsonText.Quote(s, w.emitUtf8)
    case _ => []
  }

  /** The text of a scalar is one word, or nothing for a dropped null. */
  lemma ScalarSpells(v: Value, w: Style)
    requires !v.Arr? && !v.Obj? && RealsAreWords(w)
    ensures Spells(ScalarText(v, w), Lex(v, w))
  {
    SpacesSpell([]);
    hide JsonText.Escape, D.Digits, Spells;
    if v.Int? || v.UInt? {
      assert D.IsDigit(D.Digits(if v.n < 0 then -v.n else v.n)[0]);
    }
    var l := ScalarText(v, w);
    if v.Null? && w.dropNulls {
      assert l == [] && Lex(v, w) == [];
    } else {
      assert Word(l);
      WordSpells(l);
      assert Lex(v, w) == [l];
    }
  }

  // ---- FastWriter ----

  datatype FastOptions = FastOptions(yaml: bool, omitLineFeed: bool)

  function Colon(o: FastOptions): String { if o.yaml then ": " else ":" }

  function FastText(v: Value, o: FastOptions, w: Style): String {
    match v
    case Arr(elems) => "[" + FastElems(elems, o, w) + "]"
    case Obj(members) => "{" + FastMembers(members, o, w) + "}"
    case _ => ScalarText(v, w)
  }

  function FastElems(elems: seq<Value>, o: FastOptions, w: Style): String {
    if elems == [] then []
    else if |elems| == 1 then FastText(elems[0], o, w)
    else FastText(elems[0], o, w) + "," + FastElems(elems[1..], o, w)
  }

  function FastMember(m: Member, o: FastOptions, w: Style): String {
    JsonText.Quote(m.name, w.emitUtf8) + Colon(o) + FastText(m.value, o, w)
  }

  function FastMembers(members: seq<Member>, o: FastOptions, w: Style): String {
    if members == [] then []
    else if |members| == 1 then FastMember(members[0], o, w)
    else FastMember(members[0], o, w) + "," + FastMembers(members[1..], o, w)
  }

  /** What FastWriter prints spells the lexemes of the tree. */
  lemma {:induction false} FastSpells(v: Value, o: FastOptions, w: Style)
    requires RealsAreWords(w)
    ensures Spells(FastText(v, o, w), Lex(v, w))
    decreases v, 1
  {
    hide Spells, JsonText.Quote, JsonNumber.IntText, RealsAreWords;
    if v.Arr? {
      WordSpells("[");
      FastElemsSpell(v.elems, o, w);
      WordSpells("]");
      hide LexElems, FastElems;
      SpellsConcat("[", ["["], FastElems(v.elems, o, w), LexElems(v.elems, w));
      SpellsConcat("[" + FastElems(v.elems, o, w), ["["] + LexElems(v.elems, w), "]", ["]"]);
    } else if v.Obj? {
      WordSpells("{");
      FastMembersSpell(v.members, o, w);
      WordSpells("}");
      hide LexMembers, FastMembers;
      SpellsConcat("{", ["{"], FastMembers(v.members, o, w), LexMembers(v.members, w));
      SpellsConcat("{" + FastMembers(v.members, o, w), ["{"] + LexMembers(v.members, w), "}", ["}"]);
    } else {
      ScalarSpells(v, w);
    }
  }

  lemma {:induction false} FastElemsSpell(elems: seq<Value>, o: FastOptions, w: Style)
    requires RealsAreWords(w)
    ensures Spells(FastElems(elems, o, w), LexElems(elems, w))
    decreases elems, 0
  {
    hide Spells, Lex, FastText, RealsAreWords;
    if elems == [] {
      SpacesSpell([]);
    } else {
      FastSpells(elems[0], o, w);
      if |elems| > 1 {
        FastElemsSpell(elems[1..], o, w);
        WordSpells(",");
        var a, la := FastText(elems[0], o, w), Lex(elems[0], w);
        SpellsConcat(a, la, ",", [","]);
        SpellsConcat(a + ",", la + [","], FastElems(elems[1..], o, w), LexElems(elems[1..], w));
      }
    }
  }

  lemma ColonSpells(o: FastOptions)
    ensures Spells(Colon(o), [":"])
  {
    WordSpells(":");
    SpacesSpell(" ");
    hide Spells;
    if o.yaml {
      SpellsConcat(":", [":"], " ", []);
      assert [":"] + [] == [":"] && ":" + " " == ": ";
    }
  }

  lemma QuoteSpells(s: String, emitUtf8: bool)
    ensures Spells(JsonText.Quote(s, emitUtf8), [JsonText.Quote(s, emitUtf8)])
  {
    hide JsonText.Escape, Spells;
    WordSpells(JsonText.Quote(s, emitUtf8));
  }

  lemma {:induction false} FastMemberSpells(m: Member, o: FastOptions, w: Style)
    requires RealsAreWords(w)
    ensures Spells(FastMember(m, o, w), LexMember(m, w))
    decreases m, 2
  {
    hide Spells, Lex, FastText, RealsAreWords;
    FastSpells(m.value, o, w);
    QuoteSpells(m.name, w.emitUtf8);
    ColonSpells(o);
    hide JsonText.Quote, Colon;
    var q := JsonText.Quote(m.name, w.emitUtf8);
    SpellsConcat(q, [q], Colon(o), [":"]);
    assert [q] + [":"] == [q, ":"];
    SpellsConcat(q + Colon(o), [q, ":"], FastText(m.value, o, w), Lex(m.value, w));
  }

  lemma {:induction false} FastMembersSpell(members: seq<Member>, o: FastOptions, w: Style)
    requires RealsAreWords(w)
    ensures Spells(FastMembers(members, o, w), LexMembers(members, w))
    decreases members, 0
  {
    hide Spells, LexMember, FastMember, RealsAreWords;
    if members == [] {
      SpacesSpell([]);
    } else {
      FastMemberSpells(members[0], o, w);
      if |members| > 1 {
        FastMembersSpell(members[1..], o, w);
        WordSpells(",");
        var a, la := FastMember(members[0], o, w), LexMember(members[0], w);
        SpellsConcat(a, la, ",", [","]);
        SpellsConcat(a + ",", la + [","], FastMembers(members[1..], o, w), LexMembers(members[1..], w));
      }
    }
  }

  lemma FastElemsFrom(elems: seq<Value>, i: nat, o: FastOptions, w: Style)
    requires i < |elems|
    ensures FastElems(elems[i..], o, w) ==
            FastText(elems[i], o, w) + if i + 1 < |elems| then "," + FastElems(elems[i + 1..], o, w) else []
  {
    hide FastText;
    assert elems[i..][1..] == elems[i + 1..];
  }

  lemma FastMembersFrom(members: seq<Member>, i: nat, o: FastOptions, w: Style)
    requires i < |members|
    ensures FastMembers(members[i..], o, w) ==
            FastMember(members[i], o, w) + if i + 1 < |members| then "," + FastMembers(members[i + 1..], o, w) else []
  {
    hide FastMember;
    assert members[i..][1..] == members[i + 1..];
  }

  lemma Regroup<T>(a: seq<T>, b: seq<T>, c: seq<T>, d: seq<T>)
    ensures a + (b + (c + d)) == a + b + c + d
    ensures a + (b + []) == a + b + [] + []
  {}

  class FastWriter {
    const options: FastOptions
    const w: Style
    var document: String

    constructor (options: FastOptions, realText: bv64 -> String, dropNullPlaceholders: bool)
      ensures this.options == options && w == Style(false, realText, dropNullPlaceholders)
    {
      this.options, w := options, Style(false, realText, dropNullPlaceholders);
      document := [];
    }

    /** `write`. */
    method Write(root: Value) returns (r: String)
      requires !w.emitUtf8
      modifies this
      ensures r == document == FastText(root, options, w) + if options.omitLineFeed then [] else "\n"
    {
      document := [];
      WriteValue(root);
      if !options.omitLineFeed {
        document := document + "\n";
      }
      return document;
    }

    method WriteValue(v: Value)
      modifies this
      ensures document == old(document) + FastText(v, options, w)
      decreases v, 1
    {
      hide JsonText.Quote, JsonNumber.IntText, FastElems, FastMembers;
      match v
      case Arr(elems) => WriteElems(elems);
      case Obj(members) => WriteMembers(members);
      case Null => if !w.dropNulls {
        document := document + "null";
      }
      case _ => document := document + ScalarText(v, w);
    }

    method WriteElems(elems: seq<Value>)
      modifies this
      ensures document == old(document) + ("[" + FastElems(elems, options, w) + "]")
      decreases elems, 0
    {
      hide FastElems, FastText;
      ghost var whole := old(document) + "[" + FastElems(elems, options, w);
      document := document + "[";
      assert elems[0..] == elems;
      NoElems(options, w);
      for index := 0 to |elems|
        invariant whole == document + (if 0 < index < |elems| then "," else []) + FastElems(elems[index..], options, w)
      {
        FastElemsFrom(elems, index, options, w);
        if index > 0 {
          document := document + ",";
        }
        ghost var before := document;
        WriteValue(elems[index]);
        Regroup(before, FastText(elems[index], options, w), if index + 1 < |elems| then "," else [], FastElems(elems[index + 1..], options, w));
        assert index + 1 == |elems| ==> elems[index + 1..] == [];
      }
      assert elems[|elems|..] == [];
      document := document + "]";
      assert whole + "]" == old(document) + ("[" + FastElems(elems, options, w) + "]");
    }

    method WriteMembers(members: seq<Member>)
      modifies this
      ensures document == old(document) + ("{" + FastMembers(members, options, w) + "}")
      decreases members, 0
    {
      hide FastMembers, FastText, JsonText.Quote, Colon;
      ghost var whole := old(document) + "{" + FastMembers(members, options, w);
      document := document + "{";
      assert members[0..] == members;
      NoMembers(options, w);
      for it := 0 to |members|
        invariant whole == document + (if 0 < it < |members| then "," else []) + FastMembers(members[it..], options, w)
      {
        FastMembersFrom(members, it, options, w);
        if it > 0 {
          document := document + ",";
        }
        var name := JsonText.ValueToQuotedString(members[it].name, w.emitUtf8);
        ghost var before := document;
        document := document + name;
        document := document + Colon(options);
        WriteValue(members[it].value);
        assert document == before + FastMember(members[it], options, w);
        Regroup(before, FastMember(members[it], options, w), if it + 1 < |members| then "," else [], FastMembers(members[it + 1..], options, w));
        assert it + 1 == |members| ==> members[it + 1..] == [];
      }
      assert members[|members|..] == [];
      document := document + "}";
      assert whole + "}" == old(document) + ("{" + FastMembers(members, options, w) + "}");
    }
  }

  lemma NoElems(o: FastOptions, w: Style)
    ensures FastElems([], o, w) == []
  {}

  lemma NoMembers(o: FastOptions, w: Style)
    ensures FastMembers([], o, w) == []
  {}
}
