/** BuiltStyledStreamWriter of jsoncpp/jsoncpp.cpp, for trees without comments: short arrays go on one line, which
    is found out by printing the elements into a buffer first. */
module JsonStyledWriter {
  import opened MachineInts
  import opened CStrings
  import opened JsonValue
  import opened JsonWriter
  import JsonNumber
  import JsonText

  const RIGHT_MARGIN: u32 := 74

  /** `b` is `a` with a text appended that spells `ls`. */
  ghost predicate Extends(a: String, b: String, ls: seq<String>) {
    |a| <= |b| && b[..|a|] == a && Spells(b[|a|..], ls)
  }

  lemma ExtendsByNothing(a: String)
    ensures Extends(a, a, [])
  {
    assert a[..|a|] == a && a[|a|..] == [];
  }

  lemma Between<T>(a: seq<T>, b: seq<T>, c: seq<T>)
    requires |a| <= |b| <= |c| && b[..|a|] == a && c[..|b|] == b
    ensures c[..|a|] == a && c[|a|..] == b[|a|..] + c[|b|..]
  {}

  lemma ExtendsOn(a: String, b: String, c: String, ls: seq<String>, ms: seq<String>)
    requires Extends(a, b, ls) && Extends(b, c, ms)
    ensures Extends(a, c, ls + ms)
  {
    Between(a, b, c);
    hide Spells;
    SpellsConcat(b[|a|..], ls, c[|b|..], ms);
  }

  lemma ExtendsWith(a: String, text: String, ls: seq<String>)
    requires Spells(text, ls)
    ensures Extends(a, a + text, ls)
  {
    hide Spells;
    assert (a + text)[..|a|] == a && (a + text)[|a|..] == text;
  }

  /** A value that is printed without line breaks: a scalar or an empty container. */
  predicate Flat(v: Value) {
    !(v.Arr? && v.elems != []) && !(v.Obj? && v.members != [])
  }

  /** The symbols that the builder makes from its settings. */
  ghost predicate ValidSymbols(indentation: String, colon: String, w: Style) {
    AllSpaces(indentation) && Spells(colon, [":"]) && RealsAreWords(w)
  }

  lemma FlatText(v: Value, w: Style)
    requires Flat(v) && RealsAreWords(w)
    ensures (v.Arr? ==> Spells("[]", Lex(v, w))) && (v.Obj? ==> Spells("{}", Lex(v, w)))
    ensures !v.Arr? && !v.Obj? ==> Spells(ScalarText(v, w), Lex(v, w))
  {
    hide Spells, JsonText.Quote, JsonNumber.IntText, RealsAreWords;
    if v.Arr? {
      WordSpells("[");
      WordSpells("]");
      SpellsConcat("[", ["["], "]", ["]"]);
      assert "[" + "]" == "[]" && Lex(v, w) == ["["] + ["]"];
    } else if v.Obj? {
      WordSpells("{");
      WordSpells("}");
      SpellsConcat("{", ["{"], "}", ["}"]);
      assert "{" + "}" == "{}" && Lex(v, w) == ["{"] + ["}"];
    } else {
      ScalarSpells(v, w);
    }
  }

  class StyledWriter {
    const indentation: String
    /** `CommentStyle::All`: every array that is not empty goes on several lines. */
    const all: bool
    const colonSymbol: String
    const endingLineFeedSymbol: String
    const w: Style
    var sout: String
    var childValues: seq<String>
    var indentString: String
    var addChildValues: bool
    var indented: bool

    ghost predicate Valid()
      reads this
    {
      && ValidSymbols(indentation, colonSymbol, w)
      && AllSpaces(indentString) && AllSpaces(endingLineFeedSymbol)
      && (all ==> childValues == [] && !addChildValues)
    }

    constructor (indentation: String, all: bool, colonSymbol: String, endingLineFeedSymbol: String, w: Style)
      requires ValidSymbols(indentation, colonSymbol, w) && AllSpaces(endingLineFeedSymbol)
      ensures Valid() && !addChildValues && sout == []
      ensures this.indentation == indentation && this.all == all && this.colonSymbol == colonSymbol && this.w == w
      ensures this.endingLineFeedSymbol == endingLineFeedSymbol
    {
      this.indentation, this.all, this.colonSymbol, this.w := indentation, all, colonSymbol, w;
      this.endingLineFeedSymbol := endingLineFeedSymbol;
      sout, childValues, indentString, addChildValues, indented := [], [], [], false, true;
    }

    method PushValue(value: String)
      modifies this`sout, this`childValues
      ensures if addChildValues then childValues == old(childValues) + [value] && sout == old(sout)
              else sout == old(sout) + value && childValues == old(childValues)
    {
      if addChildValues {
        childValues := childValues + [value];
      } else {
        sout := sout + value;
      }
    }

    method WriteIndent()
      requires AllSpaces(indentString)
      modifies this`sout
      ensures Extends(old(sout), sout, [])
    {
      if indentation != [] {
        assert AllSpaces("\n" + indentString);
        ExtendsWith(sout, "\n" + indentString, []);
        sout := sout + ("\n" + indentString);
      } else {
        ExtendsByNothing(sout);
      }
    }

    /** `*sout_ <<` for a text that spells `ls`, behind `done`. */
    method Put(text: String, ghost start: String, ghost done: seq<String>, ghost ls: seq<String>)
      requires Extends(start, sout, done) && Spells(text, ls)
      modifies this`sout
      ensures Extends(start, sout, done + ls)
    {
      hide Extends, Spells;
      ExtendsWith(sout, text, ls);
      ExtendsOn(start, sout, sout + text, done, ls);
      sout := sout + text;
    }

    method Indented(ghost start: String, ghost done: seq<String>)
      requires Extends(start, sout, done) && AllSpaces(indentString)
      modifies this`sout
      ensures Extends(start, sout, done)
    {
      hide Extends, AllSpaces;
      if !indented {
        ghost var before := sout;
        WriteIndent();
        ExtendsOn(start, before, sout, done, []);
        assert done + [] == done;
      }
    }

    method WriteWithIndent(value: String, ghost start: String, ghost done: seq<String>, ghost ls: seq<String>)
      requires Extends(start, sout, done) && AllSpaces(indentString) && Spells(value, ls)
      modifies this`sout, this`indented
      ensures Extends(start, sout, done + ls) && !indented
    {
      hide Extends, AllSpaces, Spells;
      Indented(start, done);
      Put(value, start, done, ls);
      indented := false;
    }

    method Indent()
      requires AllSpaces(indentString) && AllSpaces(indentation)
      modifies this`indentString
      ensures indentString == old(indentString) + indentation && AllSpaces(indentString)
    {
      indentString := indentString + indentation;
    }

    method Unindent(ghost before: String)
      requires indentString == before + indentation
      modifies this`indentString
      ensures indentString == before
    {
      indentString := indentString[..|indentString| - |indentation|];
    }

    /** `writeValue`: appends to the output, or to the buffered values while an array is measured. */
    method WriteValue(v: Value, ghost start: String, ghost done: seq<String>)
      requires Valid() && (if addChildValues then Flat(v) else Extends(start, sout, done))
      modifies this
      ensures Valid() && indentString == old(indentString) && addChildValues == old(addChildValues)
      ensures old(addChildValues) ==> sout == old(sout) && indented == old(indented) && Buffered(old(childValues), childValues, Lex(v, w))
      ensures !old(addChildValues) ==> Extends(start, sout, done + Lex(v, w))
      decreases v, 3
    {
      hide Extends, Spells, Buffered, AllSpaces, ValidSymbols, Lex;
      if v.Arr? {
        WriteArrayValue(v, start, done);
      } else if v.Obj? && v.members != [] {
        WriteMembers(v, start, done);
      } else {
        UseSymbols(indentation, colonSymbol, w);
        FlatText(v, w);
        PushFlat(if v.Obj? then "{}" else ScalarText(v, w), v, start, done);
      }
    }

    /** `pushValue` of the text of a scalar or of an empty container. */
    method PushFlat(text: String, v: Value, ghost start: String, ghost done: seq<String>)
      requires Spells(text, Lex(v, w)) && (all ==> !addChildValues)
      requires !addChildValues ==> Extends(start, sout, done)
      modifies this`sout, this`childValues
      ensures old(addChildValues) ==> sout == old(sout) && Buffered(old(childValues), childValues, Lex(v, w))
      ensures !old(addChildValues) ==> childValues == old(childValues) && Extends(start, sout, done + Lex(v, w))
    {
      hide Extends, Spells, Lex;
      if !addChildValues {
        ExtendsWith(sout, text, Lex(v, w));
        ExtendsOn(start, sout, sout + text, done, Lex(v, w));
      }
      PushValue(text);
    }

    /** An object that is not empty. */
    method WriteMembers(v: Value, ghost start: String, ghost done: seq<String>)
      requires Valid() && !addChildValues && v.Obj? && v.members != [] && Extends(start, sout, done)
      modifies this
      ensures Valid() && indentString == old(indentString) && !addChildValues
      ensures Extends(start, sout, done + Lex(v, w))
      decreases v, 2
    {
      hide Extends, Spells, AllSpaces, ValidSymbols, Lex, LexMembers, LexMember;
      UseSymbols(indentation, colonSymbol, w);
      var members := v.members;
      WordSpells("{");
      WriteWithIndent("{", start, done, ["{"]);
      ghost var before := indentString;
      Indent();
      ghost var d: seq<String> := done + ["{"];
      var it: nat := 0;
      assert members[0..] == members;
      while true
        invariant it < |members| && Valid() && !addChildValues && indentString == before + indentation
        invariant Extends(start, sout, d) && d + LexMembers(members[it..], w) == done + ["{"] + LexMembers(members, w)
        decreases |members| - it
      {
        LexMembersFrom(members, it, w);
        WriteMember(members[it], start, d);
        d := d + LexMember(members[it], w);
        it := it + 1;
        if it == |members| {
          break;
        }
        WordSpells(",");
        Put(",", start, d, [","]);
        d := d + [","];
      }
      Unindent(before);
      WordSpells("}");
      WriteWithIndent("}", start, d, ["}"]);
      ObjectLex(v, w);
      assert d == done + ["{"] + LexMembers(members, w);
      assert d + ["}"] == done + Lex(v, w);
    }

    method WriteMember(m: Member, ghost start: String, ghost done: seq<String>)
      requires Valid() && !addChildValues && Extends(start, sout, done)
      modifies this
      ensures Valid() && indentString == old(indentString) && !addChildValues
      ensures Extends(start, sout, done + LexMember(m, w))
      decreases m, 4
    {
      hide Extends, Spells, AllSpaces, ValidSymbols, Lex, JsonText.Quote;
      UseSymbols(indentation, colonSymbol, w);
      QuoteSpells(m.name, w.emitUtf8);
      var q := JsonText.ValueToQuotedString(m.name, w.emitUtf8);
      WriteWithIndent(q, start, done, [q]);
      Put(colonSymbol, start, done + [q], [":"]);
      WriteValue(m.value, start, done + [q] + [":"]);
      assert done + [q] + [":"] + Lex(m.value, w) == done + LexMember(m, w);
    }

    /** `writeArrayValue`. */
    method WriteArrayValue(v: Value, ghost start: String, ghost done: seq<String>)
      requires Valid() && v.Arr? && (if addChildValues then Flat(v) else Extends(start, sout, done))
      modifies this
      ensures Valid() && indentString == old(indentString) && addChildValues == old(addChildValues)
      ensures old(addChildValues) ==> sout == old(sout) && indented == old(indented) && Buffered(old(childValues), childValues, Lex(v, w))
      ensures !old(addChildValues) ==> Extends(start, sout, done + Lex(v, w))
      decreases v, 2
    {
      hide Extends, Spells, Buffered, AllSpaces, ValidSymbols, Lex, Measured;
      if |v.elems| == 0 {
        UseSymbols(indentation, colonSymbol, w);
        FlatText(v, w);
        PushFlat("[]", v, start, done);
      } else {
        var isMultiLine := all;
        if !all {
          isMultiLine := IsMultilineArray(v);
        }
        if isMultiLine {
          WriteLines(v, start, done);
        } else {
          WriteOneLine(v, start, done);
        }
      }
    }

    /** The elements on lines of their own; those already printed for measuring are not printed again. */
    method WriteLines(v: Value, ghost start: String, ghost done: seq<String>)
      requires Valid() && !addChildValues && v.Arr? && v.elems != [] && Extends(start, sout, done)
      requires childValues == [] || Measured(v.elems, childValues, w)
      modifies this
      ensures Valid() && indentString == old(indentString) && !addChildValues
      ensures Extends(start, sout, done + Lex(v, w))
      decreases v, 1
    {
      hide Extends, Spells, AllSpaces, ValidSymbols, Lex, LexElems, Measured;
      UseSymbols(indentation, colonSymbol, w);
      var elems := v.elems;
      WordSpells("[");
      WriteWithIndent("[", start, done, ["["]);
      ghost var before := indentString;
      Indent();
      var hasChildValue := childValues != [];
      ghost var d: seq<String> := done + ["["];
      var index: nat := 0;
      assert elems[0..] == elems;
      while true
        invariant index < |elems| && Valid() && !addChildValues && indentString == before + indentation
        invariant hasChildValue ==> Measured(elems, childValues, w)
        invariant Extends(start, sout, d) && d + LexElems(elems[index..], w) == done + ["["] + LexElems(elems, w)
        decreases |elems| - index
      {
        LexElemsFrom(elems, index, w);
        if hasChildValue {
          MeasuredAt(elems, childValues, w, index);
          WriteWithIndent(childValues[index], start, d, Lex(elems[index], w));
        } else {
          Indented(start, d);
          indented := true;
          WriteValue(elems[index], start, d);
          indented := false;
        }
        d := d + Lex(elems[index], w);
        index := index + 1;
        if index == |elems| {
          break;
        }
        WordSpells(",");
        Put(",", start, d, [","]);
        d := d + [","];
      }
      Unindent(before);
      WordSpells("]");
      WriteWithIndent("]", start, d, ["]"]);
      ArrayLex(v, w);
      assert d == done + ["["] + LexElems(elems, w);
      assert d + ["]"] == done + Lex(v, w);
    }

    /** All elements on one line. */
    method WriteOneLine(v: Value, ghost start: String, ghost done: seq<String>)
      requires Valid() && !addChildValues && v.Arr? && v.elems != [] && Extends(start, sout, done)
      requires Measured(v.elems, childValues, w)
      modifies this`sout
      ensures Extends(start, sout, done + Lex(v, w))
    {
      hide Extends, Spells, AllSpaces, ValidSymbols, Lex, LexElems, Measured;
      var elems := v.elems;
      var pad := if indentation != [] then " " else [];
      PadSpells(pad);
      WordSpells("[");
      Put("[", start, done, ["["]);
      Put(pad, start, done + ["["], []);
      ghost var d: seq<String> := done + ["["] + [];
      assert elems[0..] == elems;
      NoLexElems(w);
      for index := 0 to |elems|
        invariant Extends(start, sout, d)
        invariant d + LexRest(elems, index, w) == done + ["["] + LexElems(elems, w)
      {
        LexRestStep(elems, index, w, d);
        WriteChild(elems, index, pad, start, d);
        d := d + Separator(index) + Lex(elems[index], w);
      }
      assert elems[|elems|..] == [];
      Put(pad, start, d, []);
      assert d + [] == d;
      WordSpells("]");
      Put("]", start, d, ["]"]);
      ArrayLex(v, w);
      assert d + ["]"] == done + Lex(v, w);
    }

    /** One of these, with the comma before it. */
    method WriteChild(elems: seq<Value>, index: nat, pad: String, ghost start: String, ghost done: seq<String>)
      requires index < |elems| && Measured(elems, childValues, w) && Extends(start, sout, done) && Spells(pad, [])
      modifies this`sout
      ensures Extends(start, sout, done + Separator(index) + Lex(elems[index], w))
    {
      hide Extends, Spells, Lex, Measured;
      MeasuredAt(elems, childValues, w, index);
      if index > 0 {
        CommaSpells(pad);
        Put("," + pad, start, done, [","]);
      } else {
        assert done + Separator(index) == done;
      }
      Put(childValues[index], start, done + Separator(index), Lex(elems[index], w));
    }

    /** `isMultilineArray`: prints the elements into `childValues_` to measure them, unless some element needs
        lines of its own. */
    method IsMultilineArray(v: Value) returns (isMultiLine: bool)
      requires Valid() && !addChildValues && !all && v.Arr? && v.elems != []
      modifies this
      ensures Valid() && !addChildValues && indentString == old(indentString) && sout == old(sout) && indented == old(indented)
      ensures Measured(v.elems, childValues, w) || (isMultiLine && childValues == [])
      decreases v, 1
    {
      hide Extends, Spells, AllSpaces, ValidSymbols, Lex;
      var elems := v.elems;
      isMultiLine := Wrap32(|elems| * 3) >= RIGHT_MARGIN;
      childValues := [];
      var i: nat := 0;
      while i < |elems| && !isMultiLine
        invariant i <= |elems| && (!isMultiLine ==> forall k :: 0 <= k < i ==> Flat(elems[k]))
      {
        isMultiLine := !Flat(elems[i]);
        i := i + 1;
      }
      if !isMultiLine {
        addChildValues := true;
        var lineLength := Wrap32(4 + (|elems| - 1) * 2);
        for index := 0 to |elems|
          invariant Valid() && addChildValues && indentString == old(indentString) && sout == old(sout) && indented == old(indented)
          invariant |childValues| == index && forall k :: 0 <= k < index ==> Spells(childValues[k], Lex(elems[k], w))
        {
          WriteValue(elems[index], [], []);
          lineLength := Wrap32(lineLength + Wrap32(|childValues[index]|));
        }
        addChildValues := false;
        isMultiLine := lineLength >= RIGHT_MARGIN;
      }
    }

    /** `write`, with the line feed symbol behind the value. */
    method Write(root: Value) returns (r: String)
      requires Valid()
      modifies this
      ensures Valid() && r == sout && Spells(r, Lex(root, w))
    {
      sout, addChildValues, indented, indentString := [], false, true, [];
      ExtendsByNothing([]);
      WriteValue(root, [], []);
      SpacesSpell(endingLineFeedSymbol);
      Put(endingLineFeedSymbol, [], [] + Lex(root, w), []);
      assert sout[0..] == sout && [] + Lex(root, w) + [] == Lex(root, w);
      r := sout;
    }
  }

  /** One more text was buffered, and it spells `ls`. */
  ghost predicate Buffered(a: seq<String>, b: seq<String>, ls: seq<String>) {
    |b| == |a| + 1 && b[..|a|] == a && Spells(b[|a|], ls)
  }

  /** The buffered texts of all elements. */
  ghost predicate Measured(elems: seq<Value>, texts: seq<String>, w: Style) {
    |texts| == |elems| && forall k :: 0 <= k < |texts| ==> Spells(texts[k], Lex(elems[k], w))
  }

  lemma MeasuredAt(elems: seq<Value>, texts: seq<String>, w: Style, k: nat)
    requires Measured(elems, texts, w) && k < |elems|
    ensures k < |texts| && Spells(texts[k], Lex(elems[k], w))
  {}

  lemma UseSymbols(indentation: String, colon: String, w: Style)
    requires ValidSymbols(indentation, colon, w)
    ensures AllSpaces(indentation) && Spells(colon, [":"]) && RealsAreWords(w)
  {}

  lemma LexElemsFrom(elems: seq<Value>, i: nat, w: Style)
    requires i < |elems|
    ensures LexElems(elems[i..], w) == Lex(elems[i], w) + if i + 1 < |elems| then [","] + LexElems(elems[i + 1..], w) else []
  {
    hide Lex;
    assert elems[i..][1..] == elems[i + 1..];
  }

  function Separator(index: nat): seq<String> { if index > 0 then [","] else [] }

  /** The lexemes of the elements from `index` on, with the comma before them. */
  function LexRest(elems: seq<Value>, index: nat, w: Style): seq<String>
    requires index <= |elems|
  {
    if index == |elems| then [] else Separator(index) + LexElems(elems[index..], w)
  }

  lemma LexRestStep(elems: seq<Value>, index: nat, w: Style, d: seq<String>)
    requires index < |elems|
    ensures d + LexRest(elems, index, w) == d + Separator(index) + Lex(elems[index], w) + LexRest(elems, index + 1, w)
  {
    hide Lex, LexRest, Separator;
    RestUnfolds(elems, index, w);
    Flatten(d, Separator(index), Lex(elems[index], w), LexRest(elems, index + 1, w));
  }

  lemma RestUnfolds(elems: seq<Value>, index: nat, w: Style)
    requires index < |elems|
    ensures LexRest(elems, index, w) == Separator(index) + (Lex(elems[index], w) + LexRest(elems, index + 1, w))
  {
    hide Lex, LexElems;
    LexElemsFrom(elems, index, w);
  }

  lemma Flatten<T>(d: seq<T>, a: seq<T>, b: seq<T>, c: seq<T>)
    ensures d + (a + (b + c)) == d + a + b + c
  {}

  lemma LexMembersFrom(members: seq<Member>, i: nat, w: Style)
    requires i < |members|
    ensures LexMembers(members[i..], w) == LexMember(members[i], w) + if i + 1 < |members| then [","] + LexMembers(members[i + 1..], w) else []
  {
    hide LexMember;
    assert members[i..][1..] == members[i + 1..];
  }

  lemma NoLexElems(w: Style)
    ensures LexElems([], w) == []
  {}

  lemma ArrayLex(v: Value, w: Style)
    requires v.Arr?
    ensures Lex(v, w) == ["["] + LexElems(v.elems, w) + ["]"]
  {}

  lemma ObjectLex(v: Value, w: Style)
    requires v.Obj?
    ensures Lex(v, w) == ["{"] + LexMembers(v.members, w) + ["}"]
  {}

  lemma PadSpells(pad: String)
    requires pad == [] || pad == " "
    ensures Spells(pad, [])
  {}

  lemma CommaSpells(pad: String)
    requires Spells(pad, [])
    ensures Spells("," + pad, [","])
  {
    WordSpells(",");
    hide Spells;
    SpellsConcat(",", [","], pad, []);
    assert [","] + [] == [","];
  }
}
