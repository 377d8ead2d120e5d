/** What OurReader of jsoncpp/jsoncpp.cpp makes of a text: tokens, values, error recovery. All functions look at
    the text from the cursor on, and give what remains of it. */
module JsonSyntax {
  import opened CStrings
  import opened Wrappers
  import opened JsonValue
  import D = Decimal
  import JsonNumber
  import JsonText

  datatype Features = Features(
    allowComments: bool, allowTrailingCommas: bool, strictRoot: bool, allowDroppedNullPlaceholders: bool,
    allowNumericKeys: bool, allowSingleQuotes: bool, failIfExtra: bool, rejectDupKeys: bool,
    allowSpecialFloats: bool, skipBom: bool, stackLimit: nat)

  /** Doubles are read and printed by the C++ library. */
  datatype Doubles = Doubles(fromText: String -> Option<bv64>, toText: bv64 -> String)

  const NOT_A_NUMBER: bv64 := 0x7FF8_0000_0000_0000
  const INFINITY: bv64 := 0x7FF0_0000_0000_0000
  const MINUS_INFINITY: bv64 := 0xFFF0_0000_0000_0000

  // ---- tokens ----

  datatype TokenType =
    | EndOfStream | ObjectBegin | ObjectEnd | ArrayBegin | ArrayEnd | StringToken | Number | True | False | NullToken
    | NaN | PosInf | NegInf | ArraySeparator | MemberSeparator | Comment | Error

  /** The token's own text, and what follows it. */
  datatype Token = Token(ty: TokenType, text: String, rest: String)

  function CountDigits(s: String): (n: nat)
    ensures n <= |s|
  {
    if s != [] && D.IsDigit(s[0]) then 1 + CountDigits(s[1..]) else 0
  }

  /** `readNumber` behind the first character: digits, a fraction, an exponent, each of them possibly empty. */
  function NumberLength(s: String): (n: nat)
    ensures n <= |s|
  {
    var a := CountDigits(s);
    var b := a + FractionLength(s[a..]);
    b + ExponentLength(s[b..])
  }

  function FractionLength(s: String): (n: nat)
    ensures n <= |s|
  {
    if s != [] && s[0] == '.' then 1 + CountDigits(s[1..]) else 0
  }

  function ExponentLength(s: String): (n: nat)
    ensures n <= |s|
  {
    if s != [] && (s[0] == 'e' || s[0] == 'E') then
      var k := if |s| > 1 && (s[1] == '+' || s[1] == '-') then 2 else 1;
      k + CountDigits(s[k..])
    else 0
  }

  /** `readCStyleComment` behind the opening; at the end of the text a lone slash closes the comment. */
  function CStyleEnd(s: String): (r: (bool, nat))
    ensures r.1 <= |s|
  {
    if |s| < 2 then (s == "/", |s|)
    else if s[0] == '*' && s[1] == '/' then (true, 2)
    else
      var (ok, n) := CStyleEnd(s[1..]);
      (ok, n + 1)
  }

  /** `readCppStyleComment`: up to the end of the line. */
  function CppStyleEnd(s: String): (n: nat)
    ensures n <= |s|
  {
    if s == [] then 0
    else if s[0] == '\n' then 1
    else if s[0] == '\r' then if |s| > 1 && s[1] == '\n' then 2 else 1
    else 1 + CppStyleEnd(s[1..])
  }

  /** `readComment` behind the slash. */
  function CommentEnd(s: String): (r: (bool, nat))
    ensures r.1 <= |s|
  {
    if s == [] then (false, 0)
    else if s[0] == '*' then
      var (ok, n) := CStyleEnd(s[1..]);
      (ok, n + 1)
    else if s[0] == '/' then (true, 1 + CppStyleEnd(s[1..]))
    else (false, 1)
  }

  function Word(s: String, word: String, ty: TokenType): (r: (TokenType, nat))
    ensures r.1 <= |s|
  {
    if word <= s then (ty, |word|) else (Error, 0)
  }

  function SignedNumber(s: String, ty: TokenType, f: Features): (r: (TokenType, nat))
    ensures r.1 <= |s|
  {
    if s != [] && s[0] == 'I' then
      if f.allowSpecialFloats && "nfinity" <= s[1..] then (ty, 8) else (Error, 1)
    else (Number, NumberLength(s))
  }

  function OrError(ok: bool, ty: TokenType): TokenType { if ok then ty else Error }

  /** The type of the token that starts with `c`, and how many of the characters behind belong to it. */
  function Classify(c: Byte, s: String, f: Features): (r: (TokenType, nat))
    ensures r.1 <= |s|
  {
    match c
    case '{' => (ObjectBegin, 0)
    case '}' => (ObjectEnd, 0)
    case '[' => (ArrayBegin, 0)
    case ']' => (ArrayEnd, 0)
    case ',' => (ArraySeparator, 0)
    case ':' => (MemberSeparator, 0)
    case '"' => var (ok, n) := JsonText.StringEnd(s, '"'); (OrError(ok, StringToken), n)
    case '\'' =>
      if f.allowSingleQuotes then var (ok, n) := JsonText.StringEnd(s, '\''); (OrError(ok, StringToken), n)
      else var (ok, n) := CommentEnd(s); (OrError(ok, Comment), n)
    case '/' => var (ok, n) := CommentEnd(s); (OrError(ok, Comment), n)
    case '-' => SignedNumber(s, NegInf, f)
    case '+' => SignedNumber(s, PosInf, f)
    case 't' => Word(s, "rue", True)
    case 'f' => Word(s, "alse", False)
    case 'n' => Word(s, "ull", NullToken)
    case 'N' => if f.allowSpecialFloats then Word(s, "aN", NaN) else (Error, 0)
    case 'I' => if f.allowSpecialFloats then Word(s, "nfinity", PosInf) else (Error, 0)
    case _ =>
      if D.IsDigit(c) then (Number, NumberLength(s))
      else if c as int == 0 then (EndOfStream, 0)
      else (Error, 0)
  }

  function ReadToken(s: String, f: Features): (t: Token)
    ensures |t.rest| <= |s|
    ensures t.ty != EndOfStream ==> |t.rest| < |s|
    ensures |t.text| + |t.rest| <= |s|
  {
    var u := Skip(s);
    if u == [] then Token(EndOfStream, [], []) else
      var (ty, n) := Classify(u[0], u[1..], f);
      Token(ty, u[..1 + n], u[1 + n..])
  }

  /** Reads on while there are comments. */
  function PastComments(s: String, f: Features): (t: Token)
    ensures |t.rest| <= |s|
    ensures t.ty != EndOfStream ==> |t.rest| < |s|
    ensures |t.text| + |t.rest| <= |s|
    ensures t.ty != Comment
    decreases |s|
  {
    var t := ReadToken(s, f);
    if t.ty == Comment then PastComments(t.rest, f) else t
  }

  /** `skipCommentTokens`. */
  function NextToken(s: String, f: Features): (t: Token)
    ensures |t.rest| <= |s|
    ensures t.ty != EndOfStream ==> |t.rest| < |s|
    ensures |t.text| + |t.rest| <= |s|
  {
    if f.allowComments then PastComments(s, f) else ReadToken(s, f)
  }

  /** `recoverFromError`. */
  function Recover(s: String, until: TokenType, f: Features): (r: String)
    ensures |r| <= |s|
    decreases |s|
  {
    var t := ReadToken(s, f);
    if t.ty == until || t.ty == EndOfStream then t.rest else Recover(t.rest, until, f)
  }

  // ---- values ----

  /** Success or one error, with the tree as far as it was built; or an exception. */
  datatype Outcome = Done(ok: bool, v: Value, rest: String) | Thrown

  function NumberValue(text: String, x: Doubles): Option<Value>
    requires text != []
  {
    match JsonNumber.DecodeNumber(text)
    case Signed(n) => Some(Int(n))
    case Unsigned(n) => Some(UInt(n))
    case Inexact =>
      var bits :- x.fromText(text);
      Some(Real(bits))
  }

  /** `decodeString` of a whole token. */
  function StringValue(text: String): Option<String> {
    if |text| < 2 then None else JsonText.DecodeBody(text[1..|text| - 1])
  }

  /** `asString` of a number. */
  function KeyText(v: Value, x: Doubles): String {
    match v
    case Int(n) => JsonNumber.IntText(n)
    case UInt(n) => JsonNumber.IntText(n)
    case Real(bits) => x.toText(bits)
    case _ => []
  }

  function Scalar(v: Option<Value>, old_: Value, rest: String): Outcome {
    match v case Some(w) => Done(true, w, rest) case None => Done(false, old_, rest)
  }

  /** The bracket that ends an array, behind `elems`. */
  predicate ClosesArray(s: String, f: Features, elems: seq<Value>)
    ensures ClosesArray(s, f, elems) ==> Skip(s) != []
  {
    var u := Skip(s);
    u != [] && u[0] == ']' && (elems == [] || (f.allowTrailingCommas && !f.allowDroppedNullPlaceholders))
  }

  /** `readValue` into a place that holds `old_`, with `depth` values being read. */
  ghost function ReadValue(s: String, depth: nat, f: Features, x: Doubles, old_: Value): (o: Outcome)
    ensures o.Done? ==> |o.rest| <= |s|
    decreases |s|, 0
  {
    if depth > f.stackLimit then Thrown else
      var t := NextToken(s, f);
      match t.ty
      case ObjectBegin => ReadMembers(t.rest, depth, f, x, [], [])
      case ArrayBegin => ReadElems(t.rest, depth, f, x, [])
      case Number => Scalar(if t.text == [] then None else NumberValue(t.text, x), old_, t.rest)
      case StringToken =>
        (match StringValue(t.text) case Some(w) => Done(true, Str(w), t.rest) case None => Done(false, old_, t.rest))
      case True => Done(true, Bool(true), t.rest)
      case False => Done(true, Bool(false), t.rest)
      case NullToken => Done(true, Null, t.rest)
      case NaN => Done(true, Real(NOT_A_NUMBER), t.rest)
      case PosInf => Done(true, Real(INFINITY), t.rest)
      case NegInf => Done(true, Real(MINUS_INFINITY), t.rest)
      case _ =>
        if (t.ty == ArraySeparator || t.ty == ObjectEnd || t.ty == ArrayEnd) && f.allowDroppedNullPlaceholders then
          Done(true, Null, t.text + t.rest)
        else Done(false, old_, t.rest)
  }

  /** The loop of `readArray`. */
  ghost function ReadElems(s: String, depth: nat, f: Features, x: Doubles, elems: seq<Value>): (o: Outcome)
    ensures o.Done? ==> |o.rest| <= |s|
    decreases |s|, 2
  {
    if ClosesArray(s, f, elems) then Done(true, Arr(elems), Skip(s)[1..]) else ReadElem(Skip(s), depth, f, x, elems)
  }

  /** One pass of that loop behind the test for the end. */
  ghost function ReadElem(s: String, depth: nat, f: Features, x: Doubles, elems: seq<Value>): (o: Outcome)
    ensures o.Done? ==> |o.rest| <= |s|
    decreases |s|, 1
  {
    match ReadValue(s, depth + 1, f, x, Null)
    case Thrown => Thrown
    case Done(ok, v, r) =>
      if !ok then Done(false, Arr(elems + [v]), Recover(r, ArrayEnd, f)) else
        var t := PastComments(r, f);
        if t.ty == ArraySeparator then ReadElems(t.rest, depth, f, x, elems + [v])
        else if t.ty == ArrayEnd then Done(true, Arr(elems + [v]), t.rest)
        else Done(false, Arr(elems + [v]), Recover(t.rest, ArrayEnd, f))
  }

  /** The name that a token gives, if any. */
  function NameOf(t: Token, f: Features, x: Doubles): Option<String> {
    if t.ty == StringToken then StringValue(t.text)
    else if t.ty == Number && f.allowNumericKeys && t.text != [] then
      var v :- NumberValue(t.text, x);
      Some(KeyText(v, x))
    else None
  }

  const NAME_LIMIT: nat := 0x4000_0000

  /** The loop of `readObject`; `name` is the last name read. */
  ghost function ReadMembers(s: String, depth: nat, f: Features, x: Doubles, members: seq<Member>, name: String): (o: Outcome)
    ensures o.Done? ==> |o.rest| <= |s|
    decreases |s|, 1
  {
    var t := PastComments(s, f);
    if t.ty == ObjectEnd && (name == [] || f.allowTrailingCommas) then Done(true, Obj(members), t.rest) else
      match NameOf(t, f, x)
      case None => Done(false, Obj(members), Recover(t.rest, ObjectEnd, f))
      case Some(n) =>
        if |n| >= NAME_LIMIT then Thrown
        else if f.rejectDupKeys && Get(members, n).Some? then Done(false, Obj(members), Recover(t.rest, ObjectEnd, f))
        else ReadMember(t.rest, depth, f, x, members, n)
  }

  function Existing(members: seq<Member>, n: String): Value {
    match Get(members, n) case Some(v) => v case None => Null
  }

  /** One pass of that loop behind the name. */
  ghost function ReadMember(s: String, depth: nat, f: Features, x: Doubles, members: seq<Member>, n: String): (o: Outcome)
    ensures o.Done? ==> |o.rest| <= |s|
    decreases |s|, 2
  {
    var colon := ReadToken(s, f);
    if colon.ty != MemberSeparator then Done(false, Obj(members), Recover(colon.rest, ObjectEnd, f)) else
      match ReadValue(colon.rest, depth + 1, f, x, Existing(members, n))
      case Thrown => Thrown
      case Done(ok, v, r) =>
        var m := Put(members, n, v);
        if !ok then Done(false, Obj(m), Recover(r, ObjectEnd, f)) else
          var comma := ReadToken(r, f);
          if comma.ty != ObjectEnd && comma.ty != ArraySeparator && comma.ty != Comment then
            Done(false, Obj(m), Recover(comma.rest, ObjectEnd, f))
          else
            // Behind a comment the type of the next token is only looked at for the end of the object.
            var last := if comma.ty == Comment then PastComments(comma.rest, f) else comma;
            if last.ty == ObjectEnd then Done(true, Obj(m), last.rest)
            else ReadMembers(last.rest, depth, f, x, m, n)
  }

  const BOM: String := [0xEF as char, 0xBB as char, 0xBF as char]

  function PastBom(doc: String, f: Features): String {
    if f.skipBom && BOM <= doc then doc[3..] else doc
  }

  /** `parse` behind the value. */
  function Finish(o: Outcome, f: Features): Outcome {
    match o
    case Thrown => Thrown
    case Done(ok, v, r) =>
      var t := NextToken(r, f);
      if f.failIfExtra && t.ty != EndOfStream then Done(false, v, t.rest)
      else if f.strictRoot && !v.Arr? && !v.Obj? then Done(false, v, t.rest)
      else Done(ok, v, t.rest)
  }

  /** `parse` into `root`: the tree, and whether it succeeded. */
  ghost function Parse(doc: String, f: Features, x: Doubles, root: Value): Outcome {
    Finish(ReadValue(PastBom(doc, f), 1, f, x, root), f)
  }
}
