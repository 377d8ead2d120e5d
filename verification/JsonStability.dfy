/** What the reader builds from any text whatever: trees within the stack limit, with 64-bit integers and ordered
    members; so that printing and reading again changes nothing. */
module JsonStability {
  import opened CStrings
  import opened Wrappers
  import opened JsonValue
  import opened JsonSyntax
  import opened JsonComments
  import JsonNumber
  import JsonRoundTrip
  import JsonText

  /** Integers of 64 bits, unsigned only where needed; members with short names in strict order. */
  ghost predicate Canonical(v: Value) {
    match v
    case Int(n) => JsonNumber.MIN_INT <= n <= JsonNumber.MAX_INT
    case UInt(n) => JsonNumber.MAX_INT < n <= JsonNumber.MAX_UINT
    case Arr(elems) => forall i :: 0 <= i < |elems| ==> Canonical(elems[i])
    case Obj(members) => Sorted(members) && forall i :: 0 <= i < |members| ==> Canonical(members[i].value) && |members[i].name| < NAME_LIMIT
    case _ => true
  }

  /** A canonical tree of depth at most `d`. */
  ghost predicate Fine(v: Value, d: int) { Canonical(v) && Depth(v) <= d }

  // ---- the order of names ----

  lemma {:induction false} LessIsTotal(a: String, b: String)
    ensures Less(a, b) || a == b || Less(b, a)
    decreases |a|
  {
    if a != [] && b != [] && a[0] == b[0] {
      LessIsTotal(a[1..], b[1..]);
      if a[1..] == b[1..] {
        assert a == [a[0]] + a[1..] && b == [b[0]] + b[1..];
      }
    }
  }

  lemma {:induction false} LessIsTransitive(a: String, b: String, c: String)
    requires Less(a, b) && Less(b, c)
    ensures Less(a, c)
    decreases |a|
  {
    if a != [] && a[0] == b[0] && b[0] == c[0] {
      LessIsTransitive(a[1..], b[1..], c[1..]);
    }
  }

  lemma {:induction false} PutMembers(m: seq<Member>, name: String, v: Value, i: nat)
    requires i < |Put(m, name, v)|
    ensures Put(m, name, v)[i] == Member(name, v) || Put(m, name, v)[i] in m
    decreases |m|
  {
    if m != [] && Less(m[0].name, name) && i > 0 {
      PutMembers(m[1..], name, v, i - 1);
    }
  }

  /** Setting a member keeps the order. */
  lemma {:induction false} PutKeepsOrder(m: seq<Member>, name: String, v: Value)
    requires Sorted(m)
    ensures Sorted(Put(m, name, v))
    decreases |m|
  {
    if m != [] {
      LessIsTotal(m[0].name, name);
      var p := Put(m, name, v);
      if Less(m[0].name, name) {
        PutKeepsOrder(m[1..], name, v);
        forall j | 1 <= j < |p|
          ensures Less(m[0].name, p[j].name)
        {
          PutMembers(m[1..], name, v, j - 1);
        }
      } else if m[0].name != name {
        forall j | 1 <= j < |p|
          ensures Less(name, p[j].name)
        {
          if j > 1 {
            LessIsTransitive(name, m[0].name, m[j - 1].name);
          }
        }
      }
    }
  }

  // ---- depth ----

  lemma {:induction false} ElemsDepthIs(elems: seq<Value>, d: nat)
    ensures ElemsDepth(elems) <= d <==> forall i :: 0 <= i < |elems| ==> Depth(elems[i]) <= d
    decreases |elems|
  {
    hide Depth;
    if elems != [] {
      ElemsDepthIs(elems[1..], d);
      assert forall i :: 1 <= i < |elems| ==> elems[i] == elems[1..][i - 1];
    }
  }

  lemma {:induction false} MembersDepthIs(members: seq<Member>, d: nat)
    ensures MembersDepth(members) <= d <==> forall i :: 0 <= i < |members| ==> Depth(members[i].value) <= d
    decreases |members|
  {
    hide Depth;
    if members != [] {
      MembersDepthIs(members[1..], d);
      assert forall i :: 1 <= i < |members| ==> members[i] == members[1..][i - 1];
    }
  }

  ghost predicate FineElems(elems: seq<Value>, d: nat) {
    forall i :: 0 <= i < |elems| ==> Fine(elems[i], d)
  }

  ghost predicate FineMembers(members: seq<Member>, d: nat) {
    Sorted(members) && forall i :: 0 <= i < |members| ==> Fine(members[i].value, d) && |members[i].name| < NAME_LIMIT
  }

  lemma FineArray(elems: seq<Value>, d: nat)
    requires FineElems(elems, d)
    ensures Fine(Arr(elems), d + 1)
  {
    ElemsDepthIs(elems, d);
  }

  lemma FineObject(members: seq<Member>, d: nat)
    requires FineMembers(members, d)
    ensures Fine(Obj(members), d + 1)
  {
    MembersDepthIs(members, d);
  }

  lemma FinePut(members: seq<Member>, n: String, v: Value, d: nat)
    requires FineMembers(members, d) && Fine(v, d) && |n| < NAME_LIMIT
    ensures FineMembers(Put(members, n, v), d)
  {
    PutKeepsOrder(members, n, v);
    hide Fine, Sorted;
    forall i | 0 <= i < |Put(members, n, v)|
      ensures Fine(Put(members, n, v)[i].value, d) && |Put(members, n, v)[i].name| < NAME_LIMIT
    {
      PutMembers(members, n, v, i);
    }
  }

  lemma {:induction false} GetMember(members: seq<Member>, n: String)
    ensures Get(members, n).Some? ==> exists i :: 0 <= i < |members| && members[i].value == Get(members, n).value
    decreases |members|
  {
    if members != [] && members[0].name != n {
      GetMember(members[1..], n);
      if Get(members[1..], n).Some? {
        var i :| 0 <= i < |members[1..]| && members[1..][i].value == Get(members[1..], n).value;
        assert members[i + 1].value == Get(members, n).value;
      }
    }
  }

  lemma FineExisting(members: seq<Member>, n: String, d: nat)
    requires FineMembers(members, d) && d > 0
    ensures Fine(Existing(members, n), d)
  {
    hide Fine, Sorted;
    GetMember(members, n);
    FineScalars(d);
  }

  lemma FineScalars(d: nat)
    requires d > 0
    ensures Fine(Null, d) && Fine(Bool(true), d) && Fine(Bool(false), d)
    ensures Fine(Real(NOT_A_NUMBER), d) && Fine(Real(INFINITY), d) && Fine(Real(MINUS_INFINITY), d)
    ensures forall s :: Fine(Str(s), d)
  {}

  lemma FineNumber(text: String, x: Doubles, d: nat)
    requires text != [] && d > 0 && NumberValue(text, x).Some?
    ensures Fine(NumberValue(text, x).value, d)
  {}

  // ---- whatever the text ----

  /** The outcome, if it is no exception, holds a canonical tree of depth at most `d`. */
  ghost predicate FineOutcome(o: Outcome, d: int) { o.Done? ==> Fine(o.v, d) }

  lemma {:induction false} ValueIsFine(s: String, depth: nat, f: Features, x: Doubles, old_: Value)
    requires depth <= f.stackLimit ==> Fine(old_, f.stackLimit + 1 - depth)
    ensures FineOutcome(ReadValue(s, depth, f, x, old_), f.stackLimit + 1 - depth)
    decreases |s|, 0
  {
    hide Fine, NextToken, NumberValue, StringValue, ReadElems, ReadMembers;
    if depth <= f.stackLimit {
      var t := NextToken(s, f);
      var d: nat := f.stackLimit - depth;
      FineScalars(d + 1);
      match t.ty
      case ObjectBegin =>
        MembersAreFine(t.rest, depth, f, x, [], []);
      case ArrayBegin =>
        ElemsAreFine(t.rest, depth, f, x, []);
      case Number =>
        if t.text != [] && NumberValue(t.text, x).Some? {
          FineNumber(t.text, x, d + 1);
        }
      case _ =>
    }
  }

  lemma {:induction false} ElemsAreFine(s: String, depth: nat, f: Features, x: Doubles, elems: seq<Value>)
    requires depth <= f.stackLimit && FineElems(elems, f.stackLimit - depth)
    ensures FineOutcome(ReadElems(s, depth, f, x, elems), f.stackLimit + 1 - depth)
    decreases |s|, 2
  {
    hide Fine, FineElems, Skip, ReadElem;
    FineArray(elems, f.stackLimit - depth);
    ElemIsFine(Skip(s), depth, f, x, elems);
  }

  lemma {:induction false} ElemIsFine(s: String, depth: nat, f: Features, x: Doubles, elems: seq<Value>)
    requires depth <= f.stackLimit && FineElems(elems, f.stackLimit - depth)
    ensures FineOutcome(ReadElem(s, depth, f, x, elems), f.stackLimit + 1 - depth)
    decreases |s|, 1
  {
    hide Fine, ReadValue, ReadElems, PastComments, Recover;
    var d: nat := f.stackLimit - depth;
    if d > 0 {
      FineScalars(d);
      ValueIsFine(s, depth + 1, f, x, Null);
    } else {
      TooDeep(s, depth + 1, f, x, Null);
    }
    var o := ReadValue(s, depth + 1, f, x, Null);
    if o.Done? {
      FineArray(elems + [o.v], d);
      var t := PastComments(o.rest, f);
      if o.ok && t.ty == ArraySeparator {
        ElemsAreFine(t.rest, depth, f, x, elems + [o.v]);
      }
    }
  }

  lemma TooDeep(s: String, depth: nat, f: Features, x: Doubles, old_: Value)
    requires depth > f.stackLimit
    ensures ReadValue(s, depth, f, x, old_) == Thrown
  {}

  lemma {:induction false} MembersAreFine(s: String, depth: nat, f: Features, x: Doubles, members: seq<Member>, name: String)
    requires depth <= f.stackLimit && FineMembers(members, f.stackLimit - depth)
    ensures FineOutcome(ReadMembers(s, depth, f, x, members, name), f.stackLimit + 1 - depth)
    decreases |s|, 1
  {
    hide Fine, FineMembers, PastComments, NameOf, ReadMember, Recover, Get;
    FineObject(members, f.stackLimit - depth);
    var t := PastComments(s, f);
    if NameOf(t, f, x).Some? && |NameOf(t, f, x).value| < NAME_LIMIT {
      NamedToken(t, f, x);
      MemberIsFine(t.rest, depth, f, x, members, NameOf(t, f, x).value);
    }
  }

  lemma NamedToken(t: Token, f: Features, x: Doubles)
    requires NameOf(t, f, x).Some?
    ensures t.ty != EndOfStream
  {}

  lemma {:induction false} MemberIsFine(s: String, depth: nat, f: Features, x: Doubles, members: seq<Member>, n: String)
    requires depth <= f.stackLimit && FineMembers(members, f.stackLimit - depth) && |n| < NAME_LIMIT
    ensures FineOutcome(ReadMember(s, depth, f, x, members, n), f.stackLimit + 1 - depth)
    decreases |s|, 2
  {
    hide Fine, FineMembers, PastComments, ReadToken, ReadValue, ReadMembers, Recover, Get, Put, Existing;
    var d: nat := f.stackLimit - depth;
    FineObject(members, d);
    var colon := ReadToken(s, f);
    if colon.ty == MemberSeparator {
      if d > 0 {
        FineExisting(members, n, d);
        ValueIsFine(colon.rest, depth + 1, f, x, Existing(members, n));
      } else {
        TooDeep(colon.rest, depth + 1, f, x, Existing(members, n));
      }
      var o := ReadValue(colon.rest, depth + 1, f, x, Existing(members, n));
      if o.Done? {
        FinePut(members, n, o.v, d);
        FineObject(Put(members, n, o.v), d);
        var comma := ReadToken(o.rest, f);
        var last := if comma.ty == Comment then PastComments(comma.rest, f) else comma;
        if o.ok && (comma.ty == Comment || comma.ty == ArraySeparator) && last.ty != ObjectEnd {
          MembersAreFine(last.rest, depth, f, x, Put(members, n, o.v), n);
        }
      }
    }
  }

  /** Whatever the text and the features, what the reader puts into a fresh root is canonical and no deeper than
      the stack limit, even if it fails. */
  lemma ParsedIsFine(doc: String, f: Features, x: Doubles)
    ensures FineOutcome(Parse(doc, f, x, Null), f.stackLimit)
  {
    hide ReadValue, Fine, NextToken, PastBom;
    if f.stackLimit > 0 {
      FineScalars(f.stackLimit);
      ValueIsFine(PastBom(doc, f), 1, f, x, Null);
    } else {
      TooDeep(PastBom(doc, f), 1, f, x, Null);
    }
  }

  // ---- printing what was read ----

  ghost predicate RealFree(v: Value) {
    match v
    case Real(_) => false
    case Arr(elems) => forall i :: 0 <= i < |elems| ==> RealFree(elems[i])
    case Obj(members) => forall i :: 0 <= i < |members| ==> RealFree(members[i].value)
    case _ => true
  }

  /** A canonical tree without doubles can be printed, and is its own normal form. */
  lemma {:induction false} CanonicalIsPrintable(v: Value, w: Style)
    requires Canonical(v) && RealFree(v) && w.emitUtf8
    ensures Printable(v, w) && Norm(v) == v
    decreases v
  {
    match v
    case Arr(elems) => ElemsAreNormal(elems, w);
    case Obj(members) => MembersAreNormal(members, w);
    case _ =>
  }

  lemma {:induction false} ElemsAreNormal(elems: seq<Value>, w: Style)
    requires w.emitUtf8 && forall i :: 0 <= i < |elems| ==> Canonical(elems[i]) && RealFree(elems[i])
    ensures NormElems(elems) == elems && forall i :: 0 <= i < |elems| ==> Printable(elems[i], w)
    decreases elems
  {
    if elems != [] {
      hide Canonical, RealFree, Printable, Norm;
      CanonicalIsPrintable(elems[0], w);
      ElemsAreNormal(elems[1..], w);
      assert elems == [elems[0]] + elems[1..];
      forall i | 0 <= i < |elems|
        ensures Printable(elems[i], w)
      {
        assert i > 0 ==> elems[i] == elems[1..][i - 1];
      }
    }
  }

  lemma {:induction false} MembersAreNormal(members: seq<Member>, w: Style)
    requires w.emitUtf8 && forall i :: 0 <= i < |members| ==> Canonical(members[i].value) && RealFree(members[i].value)
    ensures NormMembers(members) == members && forall i :: 0 <= i < |members| ==> Printable(members[i].value, w)
    decreases members
  {
    if members != [] {
      hide Canonical, RealFree, Printable, Norm;
      CanonicalIsPrintable(members[0].value, w);
      MembersAreNormal(members[1..], w);
      assert members == [members[0]] + members[1..];
      forall i | 0 <= i < |members|
        ensures Printable(members[i].value, w)
      {
        assert i > 0 ==> members[i] == members[1..][i - 1];
      }
    }
  }

  /** Whatever text was read: printing the tree with `emitUTF8`, in any layout, and reading it again under the same
      features succeeds and gives the same tree, if and only if it survives the dropping of nulls. */
  lemma ReadingIsStable(doc: String, f: Features, x: Doubles, w: Style, text: String, root: Value)
    requires var o := Parse(doc, f, x, Null);
             o.Done? && o.ok && RealFree(o.v) && w.emitUtf8 && Loose(text, Lex(o.v, w), false, f)
    ensures var v := Parse(doc, f, x, Null).v;
            var again := Parse(text, f, x, root);
            if JsonRoundTrip.Survives(v, w, f) then again == Done(true, v, []) else again.Done? && again.ok ==> again.v != v
  {
    var v := Parse(doc, f, x, Null).v;
    ParsedIsFine(doc, f, x);
    hide RealFree, Canonical, Printable, Loose, Lex, Norm, Depth, ReadValue, NextToken, PastBom;
    CanonicalIsPrintable(v, w);
    JsonRoundTrip.ParsesPrinted(v, w, text, f, x, root);
  }
}
