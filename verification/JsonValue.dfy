/** JSON trees (Value of jsoncpp/jsoncpp.cpp), and the lexemes that a tree is printed as. */
module JsonValue {
  import opened CStrings
  import opened Wrappers
  import JsonNumber
  import JsonText

  /** Arrays are dense; the members of an object are kept in the order of their names; a double is its bits. */
  datatype Value =
    | Null
    | Bool(b: bool)
    | Int(n: int)
    | UInt(n: int)
    | Real(bits: bv64)
    | Str(s: String)
    | Arr(elems: seq<Value>)
    | Obj(members: seq<Member>)

  datatype Member = Member(name: String, value: Value)

  // ---- objects ----

  /** The order of the map: bytes first, then length. */
  predicate Less(a: String, b: String) {
    b != [] && (a == [] || a[0] < b[0] || (a[0] == b[0] && Less(a[1..], b[1..])))
  }

  ghost predicate Sorted(m: seq<Member>) {
    forall i, j :: 0 <= i < j < |m| ==> Less(m[i].name, m[j].name)
  }

  function Get(m: seq<Member>, name: String): Option<Value> {
    if m == [] then None else if m[0].name == name then Some(m[0].value) else Get(m[1..], name)
  }

  /** Sets the value of a name: in its place in the order, or inserted there. */
  function Put(m: seq<Member>, name: String, v: Value): seq<Member> {
    if m == [] then [Member(name, v)]
    else if Less(m[0].name, name) then [m[0]] + Put(m[1..], name, v)
    else if m[0].name == name then [Member(name, v)] + m[1..]
    else [Member(name, v)] + m
  }

  lemma {:induction false} LessIsIrreflexive(a: String)
    ensures !Less(a, a)
    decreases |a|
  {
    if a != [] {
      LessIsIrreflexive(a[1..]);
    }
  }

  /** A name behind all others is appended. */
  lemma {:induction false} PutLast(m: seq<Member>, k: Member)
    requires Sorted(m + [k])
    ensures Put(m, k.name, k.value) == m + [k] && Get(m, k.name) == None
    decreases |m|
  {
    var mk := m + [k];
    if m != [] {
      assert Less(mk[0].name, mk[|m|].name);
      LessIsIrreflexive(k.name);
      assert m[1..] + [k] == mk[1..];
      PutLast(m[1..], k);
    }
  }

  // ---- depth and normal form ----

  function Depth(v: Value): (d: nat)
    ensures d >= 1
  {
    match v
    case Arr(elems) => 1 + ElemsDepth(elems)
    case Obj(members) => 1 + MembersDepth(members)
    case _ => 1
  }

  function Max(a: nat, b: nat): nat { if a > b then a else b }

  function ElemsDepth(elems: seq<Value>): nat {
    if elems == [] then 0 else Max(Depth(elems[0]), ElemsDepth(elems[1..]))
  }

  function MembersDepth(members: seq<Member>): nat {
    if members == [] then 0 else Max(Depth(members[0].value), MembersDepth(members[1..]))
  }

  /** The tree as it is read back: small unsigned integers become signed. */
  function Norm(v: Value): Value {
    match v
    case UInt(n) => if n <= JsonNumber.MAX_INT then Int(n) else v
    case Arr(elems) => Arr(NormElems(elems))
    case Obj(members) => Obj(NormMembers(members))
    case _ => v
  }

  function NormElems(elems: seq<Value>): (r: seq<Value>)
    ensures |r| == |elems|
  {
    if elems == [] then [] else [Norm(elems[0])] + NormElems(elems[1..])
  }

  function NormMembers(members: seq<Member>): (r: seq<Member>)
    ensures |r| == |members| && forall i :: 0 <= i < |r| ==> r[i].name == members[i].name
  {
    if members == [] then [] else [Member(members[0].name, Norm(members[0].value))] + NormMembers(members[1..])
  }

  // ---- printing as lexemes ----

  /** How strings and doubles are printed, and whether nulls are left out. */
  datatype Style = Style(emitUtf8: bool, realText: bv64 -> String, dropNulls: bool)

  /** What can be printed and read back: 64-bit integers, no doubles, strings that survive quoting, names shorter
      than 2^30 and in order. */
  ghost predicate Printable(v: Value, w: Style) {
    match v
    case Int(n) => JsonNumber.MIN_INT <= n <= JsonNumber.MAX_INT
    case UInt(n) => 0 <= n <= JsonNumber.MAX_UINT
    case Real(_) => false
    case Str(s) => w.emitUtf8 || JsonText.ValidUtf8(s)
    case Arr(elems) => forall i :: 0 <= i < |elems| ==> Printable(elems[i], w)
    case Obj(members) =>
      Sorted(members)
      && forall i :: 0 <= i < |members| ==>
           Printable(members[i].value, w) && |members[i].name| < 0x4000_0000
           && (w.emitUtf8 || JsonText.ValidUtf8(members[i].name))
    case _ => true
  }

  /** The lexemes of a tree. */
  function Lex(v: Value, w: Style): seq<String>
  {
    match v
    case Null => if w.dropNulls then [] else ["null"]
    case Bool(b) => [if b then "true" else "false"]
    case Int(n) => [JsonNumber.IntText(n)]
    case UInt(n) => [JsonNumber.IntText(n)]
    case Real(bits) => [w.realText(bits)]
    case Str(s) => [JsonText.Quote(s, w.emitUtf8)]
    case Arr(elems) => ["["] + LexElems(elems, w) + ["]"]
    case Obj(members) => ["{"] + LexMembers(members, w) + ["}"]
  }

  function LexElems(elems: seq<Value>, w: Style): seq<String> {
    if elems == [] then []
    else if |elems| == 1 then Lex(elems[0], w)
    else Lex(elems[0], w) + [","] + LexElems(elems[1..], w)
  }

  function LexMember(m: Member, w: Style): seq<String> {
    [JsonText.Quote(m.name, w.emitUtf8), ":"] + Lex(m.value, w)
  }

  function LexMembers(members: seq<Member>, w: Style): seq<String> {
    if members == [] then []
    else if |members| == 1 then LexMember(members[0], w)
    else LexMember(members[0], w) + [","] + LexMembers(members[1..], w)
  }

  // ---- texts that consist of given lexemes ----

  predicate IsSpace(c: Byte) { c == ' ' || c == '\t' || c == '\r' || c == '\n' }

  predicate AllSpaces(s: String) {
    forall i :: 0 <= i < |s| ==> IsSpace(s[i])
  }

  /** `skipSpaces`: the rest of the text. */
  function Skip(s: String): (r: String)
    ensures |r| <= |s|
    ensures r != [] ==> !IsSpace(r[0])
  {
    if s != [] && IsSpace(s[0]) then Skip(s[1..]) else s
  }

  /** `s` consists of the lexemes `ls` in order, with white space around them. */
  ghost predicate Spells(s: String, ls: seq<String>)
    decreases |ls|
  {
    if ls == [] then AllSpaces(s) else
      var t := Skip(s);
      ls[0] != [] && ls[0] <= t && Spells(t[|ls[0]|..], ls[1..])
  }

  lemma {:induction false} SkipAll(s: String, t: String)
    requires AllSpaces(s)
    ensures Skip(s + t) == Skip(t)
    decreases |s|
  {
    if s == [] {
      assert s + t == t;
    } else {
      assert IsSpace((s + t)[0]) && (s + t)[1..] == s[1..] + t;
      SkipAll(s[1..], t);
    }
  }

  lemma {:induction false} SkipSome(s: String, t: String)
    requires Skip(s) != []
    ensures Skip(s + t) == Skip(s) + t
    decreases |s|
  {
    if s != [] && IsSpace(s[0]) {
      assert (s + t)[1..] == s[1..] + t;
      SkipSome(s[1..], t);
    } else {
      assert Skip(s) == s;
      assert s != [] ==> (s + t)[0] == s[0];
    }
  }

  lemma SplitConcat<T>(s: seq<T>, t: seq<T>, k: nat)
    requires k <= |s|
    ensures (s + t)[..k] == s[..k] && (s + t)[k..] == s[k..] + t
  {}

  lemma SpellsBehindSpaces(a: String, b: String, ms: seq<String>)
    requires AllSpaces(a) && Spells(b, ms)
    ensures Spells(a + b, ms)
  {
    SkipAll(a, b);
  }

  lemma SpellsFirst(s: String, ls: seq<String>)
    requires ls != [] && ls[0] != [] && |ls[0]| <= |Skip(s)| && Skip(s)[..|ls[0]|] == ls[0]
    requires Spells(Skip(s)[|ls[0]|..], ls[1..])
    ensures Spells(s, ls)
  {}

  lemma {:induction false} SpellsConcat(a: String, ls: seq<String>, b: String, ms: seq<String>)
    requires Spells(a, ls) && Spells(b, ms)
    ensures Spells(a + b, ls + ms)
    decreases |ls|
  {
    if ls == [] {
      assert ls + ms == ms;
      SpellsBehindSpaces(a, b, ms);
    } else {
      var t, k := Skip(a), |ls[0]|;
      assert k > 0 && t[..k] == ls[0] && Spells(t[k..], ls[1..]);
      hide Spells, Skip, AllSpaces;
      SkipSome(a, b);
      SpellsConcat(t[k..], ls[1..], b, ms);
      SplitConcat(t, b, k);
      SplitConcat(ls, ms, 1);
      SpellsFirst(a + b, ls + ms);
    }
  }

  lemma {:induction false} SkipNothing(s: String)
    requires AllSpaces(s)
    ensures Skip(s) == []
    decreases |s|
  {
    if s != [] {
      SkipNothing(s[1..]);
    }
  }
}
