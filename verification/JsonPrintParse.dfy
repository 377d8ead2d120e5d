/** A tree printed by either writer and read by the reader. */
module JsonPrintParse {
  import opened CStrings
  import opened JsonValue
  import opened JsonComments
  import opened JsonWriter
  import opened JsonStyledWriter
  import opened JsonReader
  import opened JsonRoundTrip
  import S = JsonSyntax

  /** The result for a printed tree that survives. */
  ghost function Expected(v: Value, f: S.Features): Result {
    if Depth(v) > f.stackLimit then Threw else Returned(v.Arr? || v.Obj? || !f.strictRoot, Norm(v))
  }

  /** The tree comes back if it survives the dropping of nulls; otherwise the reading fails or gives another tree. */
  ghost predicate ComesBackIff(r: Result, v: Value, f: S.Features, survives: bool) {
    if survives then r == Expected(v, f) else r.Returned? && r.ok ==> r.v != Norm(v)
  }

  lemma FastDocumentSpells(v: Value, o: FastOptions, w: Style)
    requires RealsAreWords(w)
    ensures Spells(FastText(v, o, w) + if o.omitLineFeed then [] else "\n", Lex(v, w))
  {
    hide RealsAreWords, FastText, Lex;
    FastSpells(v, o, w);
    var feed := if o.omitLineFeed then [] else "\n";
    SpacesSpell(feed);
    hide Spells;
    SpellsConcat(FastText(v, o, w), Lex(v, w), feed, []);
    assert Lex(v, w) + [] == Lex(v, w);
  }

  method FastPrintAndParse(writer: FastWriter, reader: Reader, v: Value, root: Value) returns (r: Result)
    requires !writer.w.emitUtf8 && RealsAreWords(writer.w) && Printable(v, writer.w)
    modifies writer, reader
    ensures ComesBackIff(r, v, reader.f, Survives(v, writer.w, reader.f))
    ensures r.Returned? ==> (reader.errors == [] <==> r.ok)
  {
    hide RealsAreWords, FastText, Lex, Spells, Loose, Printable, Depth, Norm, S.Parse, Survives;
    var text := writer.Write(v);
    FastDocumentSpells(v, writer.options, writer.w);
    SpellsIsLoose(text, Lex(v, writer.w), false, reader.f);
    ParsesPrinted(v, writer.w, text, reader.f, reader.x, root);
    r := reader.Parse(text, root);
  }

  method StyledPrintAndParse(writer: StyledWriter, reader: Reader, v: Value, root: Value) returns (r: Result)
    requires writer.Valid() && Printable(v, writer.w)
    modifies writer, reader
    ensures ComesBackIff(r, v, reader.f, Survives(v, writer.w, reader.f))
    ensures r.Returned? ==> (reader.errors == [] <==> r.ok)
  {
    hide Lex, Spells, Loose, Printable, Depth, Norm, S.Parse, Survives;
    var text := writer.Write(v);
    SpellsIsLoose(text, Lex(v, writer.w), false, reader.f);
    ParsesPrinted(v, writer.w, text, reader.f, reader.x, root);
    r := reader.Parse(text, root);
  }

  /** Both writers print the same sequence of lexemes: the styled one differs from the fast one in white space only. So
      either both texts are read as the same tree, or neither as the one that was printed; and so with comments added. */
  lemma SameTree(v: Value, w: Style, a: String, b: String, f: S.Features, x: S.Doubles, root: Value)
    requires Printable(v, w) && Loose(a, Lex(v, w), false, f) && Loose(b, Lex(v, w), false, f)
    ensures var o, o' := S.Parse(a, f, x, root), S.Parse(b, f, x, root);
            && (o.Done? && o.ok ==> o' == o)
            && (Survives(v, w, f) ==> o' == o)
  {
    hide Lex, Loose, Printable, Depth, Norm, S.Parse, Survives;
    SameOutcome(v, w, a, b, f, x, root);
    ParsesPrinted(v, w, a, f, x, root);
    ParsesPrinted(v, w, b, f, x, root);
  }

  /** A null that stands alone in an array is printed as the empty array is; no reader can tell. */
  lemma LoneNullIsLost(o: FastOptions, w: Style)
    requires w.dropNulls
    ensures FastText(Arr([Null]), o, w) == "[]" == FastText(Arr([]), o, w)
    ensures HasLoneNull(Arr([Null])) && Norm(Arr([Null])) != Norm(Arr([]))
  {
    assert FastElems([Null], o, w) == FastText(Null, o, w) == [] == FastElems([], o, w);
    assert "[" + [] + "]" == "[]";
  }
}
