/** OurReader of jsoncpp/jsoncpp.cpp: a cursor over the document and a list of errors. */
module JsonReader {
  import opened CStrings
  import opened Wrappers
  import opened JsonValue
  import D = Decimal
  import S = JsonSyntax
  import JsonNumber
  import JsonText

  /** A token by its position. */
  datatype Token = Token(ty: S.TokenType, start: nat, end: nat)

  /** A result, or an exception on its way. */
  datatype Result = Returned(ok: bool, v: Value) | Threw

  // ---- how the scanning functions go on from a later position ----

  lemma Tail<T>(s: seq<T>, i: nat)
    requires i < |s|
    ensures s[i..][0] == s[i] && s[i..][1..] == s[i + 1..] && |s[i..]| == |s| - i
  {}

  lemma TailFrom<T>(s: seq<T>, i: nat, n: nat)
    requires i + n <= |s|
    ensures s[i..][n..] == s[i + n..] && s[i..][..n] == s[i..i + n]
  {}

  lemma StringStep(s: String, i: nat, quote: Byte)
    requires i < |s| && quote != '\\'
    ensures var e := JsonText.StringEnd(s[i..], quote);
            if s[i] == '\\' then
              var k := if i + 1 < |s| then 2 else 1;
              e == (JsonText.StringEnd(s[i + k..], quote).0, k + JsonText.StringEnd(s[i + k..], quote).1)
            else if s[i] == quote then e == (true, 1)
            else e == (JsonText.StringEnd(s[i + 1..], quote).0, 1 + JsonText.StringEnd(s[i + 1..], quote).1)
  {
    Tail(s, i);
    TailFrom(s, i, if i + 1 < |s| then 2 else 1);
  }

  lemma NoStringLeft(quote: Byte)
    ensures JsonText.StringEnd([], quote) == (false, 0)
  {}

  class Reader {
    const f: S.Features
    const x: S.Doubles
    var document: String
    var current: nat
    /** The tokens that errors were reported for. */
    var errors: seq<Token>
    /** The height of the stack of values being read. */
    var depth: nat

    constructor (f: S.Features, x: S.Doubles)
      ensures this.f == f && this.x == x && document == []
    {
      this.f, this.x := f, x;
      document, current, errors, depth := [], 0, [], 0;
    }

    ghost predicate Valid()
      reads this
    {
      current <= |document|
    }

    ghost function Rest(): String
      requires Valid()
      reads this
    {
      document[current..]
    }

    method SkipSpaces()
      requires Valid()
      modifies this`current
      ensures Valid() && Rest() == Skip(old(Rest())) && old(current) <= current
    {
      while current != |document|
        invariant Valid() && Skip(Rest()) == Skip(old(Rest())) && old(current) <= current
        decreases |document| - current
      {
        Tail(document, current);
        if !IsSpace(document[current]) {
          break;
        }
        current := current + 1;
      }
    }

    /** `getNextChar`: 0 at the end. */
    method GetNextChar() returns (c: Byte)
      requires Valid()
      modifies this`current
      ensures Valid()
      ensures if old(current) < |document| then c == document[old(current)] && current == old(current) + 1
              else c == 0 as char && current == old(current)
    {
      if current == |document| {
        return 0 as char;
      }
      current := current + 1;
      return document[current - 1];
    }

    /** `match`, which compares from the last character on. */
    method Match(pattern: String) returns (ok: bool)
      requires Valid()
      modifies this`current
      ensures Valid() && ok == (pattern <= old(Rest())) && current == old(current) + if ok then |pattern| else 0
    {
      if |document| - current < |pattern| {
        return false;
      }
      var index := |pattern|;
      while index > 0
        invariant 0 <= index <= |pattern|
        invariant forall k :: index <= k < |pattern| ==> document[current + k] == pattern[k]
      {
        index := index - 1;
        if document[current + index] != pattern[index] {
          assert Rest()[index] != pattern[index];
          return false;
        }
      }
      assert Rest()[..|pattern|] == pattern;
      current := current + |pattern|;
      return true;
    }

    /** `readString` and `readStringSingleQuote`. */
    method ReadString(quote: Byte) returns (ok: bool)
      requires Valid() && quote != '\\' && quote as int != 0
      modifies this`current
      ensures Valid() && (ok, current - old(current)) == JsonText.StringEnd(old(Rest()), quote)
    {
      hide JsonText.StringEnd;
      var c: Byte := 0 as char;
      ghost var start := current;
      ghost var target := JsonText.StringEnd(Rest(), quote);
      while current != |document|
        invariant Valid() && start <= current && c != quote
        invariant target == (JsonText.StringEnd(Rest(), quote).0, current - start + JsonText.StringEnd(Rest(), quote).1)
        decreases |document| - current
      {
        StringStep(document, current, quote);
        c := GetNextChar();
        if c == '\\' {
          var skipped := GetNextChar();
        } else if c == quote {
          break;
        }
      }
      if c != quote {
        NoStringLeft(quote);
      }
      ok := c == quote;
    }

    method SkipDigits()
      requires Valid()
      modifies this`current
      ensures Valid() && current == old(current) + S.CountDigits(old(Rest()))
    {
      ghost var start := current;
      ghost var n := S.CountDigits(Rest());
      while current < |document| && D.IsDigit(document[current])
        invariant Valid() && start <= current && n == current - start + S.CountDigits(Rest())
      {
        Tail(document, current);
        current := current + 1;
      }
      if current < |document| {
        Tail(document, current);
      }
    }

    /** `readNumber` without the test for infinity: the cursor is left at the first character that does not
        belong to the number. */
    method ReadNumber()
      requires Valid()
      modifies this`current
      ensures Valid() && current == old(current) + S.NumberLength(old(Rest()))
    {
      hide S.CountDigits, S.FractionLength, S.ExponentLength;
      ghost var start := current;
      SkipDigits();
      TailFrom(document, start, current - start);
      ReadFraction();
      TailFrom(document, start, current - start);
      ReadExponent();
    }

    method ReadFraction()
      requires Valid()
      modifies this`current
      ensures Valid() && current == old(current) + S.FractionLength(old(Rest()))
    {
      if current < |document| {
        Tail(document, current);
        if document[current] == '.' {
          current := current + 1;
          SkipDigits();
        }
      }
    }

    method ReadExponent()
      requires Valid()
      modifies this`current
      ensures Valid() && current == old(current) + S.ExponentLength(old(Rest()))
    {
      if current < |document| {
        Tail(document, current);
        if document[current] == 'e' || document[current] == 'E' {
          ghost var s, start := Rest(), current;
          current := current + 1;
          if current < |document| && (document[current] == '+' || document[current] == '-') {
            current := current + 1;
          }
          TailFrom(document, start, current - start);
          SkipDigits();
        }
      }
    }

    /** `readCStyleComment`. */
    method ReadCStyleComment() returns (ok: bool)
      requires Valid()
      modifies this`current
      ensures Valid() && (ok, current - old(current)) == S.CStyleEnd(old(Rest()))
    {
      ghost var start, target := current, S.CStyleEnd(Rest());
      while current + 1 < |document|
        invariant Valid() && start <= current
        invariant target == (S.CStyleEnd(Rest()).0, current - start + S.CStyleEnd(Rest()).1)
        decreases |document| - current
      {
        Tail(document, current);
        Tail(document, current + 1);
        assert Rest()[1] == document[current + 1];
        var c := GetNextChar();
        if c == '*' && document[current] == '/' {
          assert target == (true, current - start + 1);
          c := GetNextChar();
          return true;
        }
      }
      if current < |document| {
        Tail(document, current);
        assert Rest() == "/" <==> document[current] == '/';
      }
      var c := GetNextChar();
      return c == '/';
    }

    /** `readCppStyleComment`. */
    method ReadCppStyleComment()
      requires Valid()
      modifies this`current
      ensures Valid() && current == old(current) + S.CppStyleEnd(old(Rest()))
    {
      ghost var start, target := current, S.CppStyleEnd(Rest());
      while current != |document|
        invariant Valid() && start <= current
        invariant target == current - start + S.CppStyleEnd(Rest())
        decreases |document| - current
      {
        Tail(document, current);
        if current + 1 < |document| {
          assert Rest()[1] == document[current + 1];
        }
        var c := GetNextChar();
        if c == '\n' {
          break;
        }
        if c == '\r' {
          if current != |document| && document[current] == '\n' {
            var skipped := GetNextChar();
          }
          break;
        }
      }
    }

    /** `readComment`. */
    method ReadComment() returns (ok: bool)
      requires Valid()
      modifies this`current
      ensures Valid() && (ok, current - old(current)) == S.CommentEnd(old(Rest()))
    {
      hide S.CStyleEnd, S.CppStyleEnd;
      if current < |document| {
        Tail(document, current);
      }
      var c := GetNextChar();
      ok := false;
      if c == '*' {
        ok := ReadCStyleComment();
      } else if c == '/' {
        ReadCppStyleComment();
        ok := true;
      }
    }

    /** A number, or an infinity, behind its sign. */
    method ReadSigned(infinity: S.TokenType) returns (ty: S.TokenType)
      requires Valid() && infinity != S.Error
      modifies this`current
      ensures Valid() && (ty, current - old(current)) == S.SignedNumber(old(Rest()), infinity, f)
    {
      hide S.NumberLength;
      if current < |document| {
        Tail(document, current);
        if document[current] == 'I' {
          current := current + 1;
          var ok := false;
          if f.allowSpecialFloats {
            ok := Match("nfinity");
          }
          return if ok then infinity else S.Error;
        }
      }
      ReadNumber();
      ty := S.Number;
    }

    method ReadWord(word: String, wordType: S.TokenType) returns (ty: S.TokenType)
      requires Valid()
      modifies this`current
      ensures Valid() && (ty, current - old(current)) == S.Word(old(Rest()), word, wordType)
    {
      var ok := Match(word);
      ty := if ok then wordType else S.Error;
    }

    /** The switch of `readToken`. */
    method Classify(c: Byte) returns (ty: S.TokenType)
      requires Valid()
      modifies this`current
      ensures Valid() && (ty, current - old(current)) == S.Classify(c, old(Rest()), f)
    {
      hide S.NumberLength, S.CommentEnd, JsonText.StringEnd, S.SignedNumber, S.Word;
      var ok := true;
      if c == '{' {
        ty := S.ObjectBegin;
      } else if c == '}' {
        ty := S.ObjectEnd;
      } else if c == '[' {
        ty := S.ArrayBegin;
      } else if c == ']' {
        ty := S.ArrayEnd;
      } else if c == '"' {
        ty := S.StringToken;
        ok := ReadString('"');
      } else if c == '\'' && f.allowSingleQuotes {
        ty := S.StringToken;
        ok := ReadString('\'');
      } else if c == '\'' || c == '/' {
        ty := S.Comment;
        ok := ReadComment();
      } else if D.IsDigit(c) {
        ty := S.Number;
        ReadNumber();
      } else if c == '-' {
        ty := ReadSigned(S.NegInf);
      } else if c == '+' {
        ty := ReadSigned(S.PosInf);
      } else if c == 't' {
        ty := ReadWord("rue", S.True);
      } else if c == 'f' {
        ty := ReadWord("alse", S.False);
      } else if c == 'n' {
        ty := ReadWord("ull", S.NullToken);
      } else if c == 'N' && f.allowSpecialFloats {
        ty := ReadWord("aN", S.NaN);
      } else if c == 'I' && f.allowSpecialFloats {
        ty := ReadWord("nfinity", S.PosInf);
      } else if c == ',' {
        ty := S.ArraySeparator;
      } else if c == ':' {
        ty := S.MemberSeparator;
      } else if c as int == 0 {
        ty := S.EndOfStream;
      } else {
        ty, ok := S.Error, false;
      }
      if !ok {
        ty := S.Error;
      }
    }

    /** The token ends at the cursor, and is `u`. */
    ghost predicate Just(t: Token, u: S.Token)
      reads this
    {
      && t.start <= t.end == current <= |document|
      && t.ty == u.ty && document[t.start..t.end] == u.text && document[current..] == u.rest
    }

    /** `readToken`. */
    method ReadToken() returns (t: Token)
      requires Valid()
      modifies this`current
      ensures Valid() && old(current) <= current && Just(t, S.ReadToken(old(Rest()), f))
    {
      hide S.Classify, Skip;
      SkipSpaces();
      ghost var u := Rest();
      var start := current;
      if current < |document| {
        Tail(document, current);
      }
      var c := GetNextChar();
      var ty := Classify(c);
      if u == [] {
        NothingToClassify(f);
      } else {
        TailFrom(document, start, current - start);
      }
      t := Token(ty, start, current);
    }

    /** Reads on while there are comments. */
    method ReadPastComments() returns (t: Token)
      requires Valid()
      modifies this`current
      ensures Valid() && old(current) <= current && Just(t, S.PastComments(old(Rest()), f))
    {
      hide S.ReadToken;
      t := ReadToken();
      while t.ty == S.Comment
        invariant Valid() && old(current) <= current
        invariant t.ty == S.Comment ==> S.PastComments(old(Rest()), f) == S.PastComments(Rest(), f)
        invariant t.ty != S.Comment ==> Just(t, S.PastComments(old(Rest()), f))
        decreases |document| - current, t.ty == S.Comment
      {
        t := ReadToken();
      }
    }

    /** `skipCommentTokens`. */
    method SkipCommentTokens() returns (t: Token)
      requires Valid()
      modifies this`current
      ensures Valid() && old(current) <= current && Just(t, S.NextToken(old(Rest()), f))
    {
      hide S.ReadToken, S.PastComments;
      if f.allowComments {
        t := ReadPastComments();
      } else {
        t := ReadToken();
      }
    }

    method AddError(t: Token)
      modifies this`errors
      ensures errors == old(errors) + [t]
    {
      errors := errors + [t];
    }

    /** `recoverFromError`: skips up to a token, and forgets errors of the recovery. */
    method RecoverFromError(until: S.TokenType)
      requires Valid()
      modifies this`current, this`errors
      ensures Valid() && old(current) <= current && Rest() == S.Recover(old(Rest()), until, f) && errors == old(errors)
    {
      hide S.ReadToken;
      var errorCount := |errors|;
      while true
        invariant Valid() && old(current) <= current && errors == old(errors)
        invariant S.Recover(old(Rest()), until, f) == S.Recover(Rest(), until, f)
        decreases |document| - current
      {
        var skip := ReadToken();
        if skip.ty == S.Error {
          errors := errors[..errorCount];
        }
        if skip.ty == until || skip.ty == S.EndOfStream {
          break;
        }
      }
      errors := errors[..errorCount];
    }

    /** The result and the new state are what `o` says, with one more error exactly on failure. */
    ghost predicate Agrees(r: Result, o: S.Outcome, errorsBefore: seq<Token>, depthBefore: nat)
      reads this
    {
      match r
      case Threw => o == S.Thrown
      case Returned(ok, v) =>
        && Valid() && o == S.Done(ok, v, Rest()) && depth == depthBefore
        && (if ok then errors == errorsBefore else |errors| == |errorsBefore| + 1 && errors[..|errorsBefore|] == errorsBefore)
    }

    /** `addErrorAndRecover`. */
    method FailAndRecover(t: Token, until: S.TokenType, v: Value) returns (r: Result)
      requires Valid()
      modifies this`current, this`errors
      ensures Valid() && old(current) <= current
      ensures Agrees(r, S.Done(false, v, S.Recover(old(Rest()), until, f)), old(errors), old(depth))
    {
      AddError(t);
      RecoverFromError(until);
      r := Returned(false, v);
    }

    /** Behind a value that could not be read. */
    method PassOnFailure(until: S.TokenType, v: Value, ghost errorsBefore: seq<Token>) returns (r: Result)
      requires Valid() && |errors| == |errorsBefore| + 1 && errors[..|errorsBefore|] == errorsBefore
      modifies this`current, this`errors
      ensures Valid() && old(current) <= current
      ensures Agrees(r, S.Done(false, v, S.Recover(old(Rest()), until, f)), errorsBefore, old(depth))
    {
      RecoverFromError(until);
      r := Returned(false, v);
    }

    /** `decodeNumber`; failure is an error. */
    method DecodeNumber(t: Token) returns (v: Option<Value>)
      requires t.start < t.end <= |document|
      modifies this`errors
      ensures v == S.NumberValue(document[t.start..t.end], x)
      ensures errors == old(errors) + if v.None? then [t] else []
    {
      hide JsonNumber.DecodeNumber;
      var text := document[t.start..t.end];
      var n := JsonNumber.ReadNumber(text);
      match n
      case Signed(i) => v := Some(Int(i));
      case Unsigned(i) => v := Some(UInt(i));
      case Inexact =>
        var bits := x.fromText(text);
        if bits.None? {
          AddError(t);
          return None;
        }
        v := Some(Real(bits.value));
    }

    /** `decodeString`; failure is an error. */
    method DecodeString(t: Token) returns (v: Option<String>)
      requires t.start <= t.end <= |document|
      modifies this`errors
      ensures v == S.StringValue(document[t.start..t.end])
      ensures errors == old(errors) + if v.None? then [t] else []
    {
      hide JsonText.DecodeBody;
      var text := document[t.start..t.end];
      v := None;
      if |text| >= 2 {
        v := JsonText.DecodeString(text[1..|text| - 1]);
      }
      if v.None? {
        AddError(t);
      }
    }

    /** `readValue` into a place that holds `old_`. */
    method ReadValue(old_: Value) returns (r: Result)
      requires Valid()
      modifies this`current, this`errors, this`depth
      ensures Valid() && old(current) <= current
      ensures Agrees(r, S.ReadValue(old(Rest()), old(depth), f, x, old_), old(errors), old(depth))
      decreases |document| - current, 0
    {
      hide S.NextToken, S.ReadElems, S.ReadMembers, S.NumberValue, S.StringValue, S.Scalar;
      if depth > f.stackLimit {
        return Threw;
      }
      var t := SkipCommentTokens();
      if t.ty == S.ObjectBegin {
        r := ReadObject();
      } else if t.ty == S.ArrayBegin {
        r := ReadArray();
      } else {
        hide S.ReadValue;
        r := ReadScalar(t, old(Rest()), old_);
      }
    }

    /** `readValue` for a token that starts neither an object nor an array. */
    method ReadScalar(t: Token, ghost s: String, old_: Value) returns (r: Result)
      requires depth <= f.stackLimit && Just(t, S.NextToken(s, f))
      modifies this`current, this`errors
      ensures Valid() && t.start <= current
      ensures t.ty != S.ObjectBegin && t.ty != S.ArrayBegin ==>
        Agrees(r, S.ReadValue(s, depth, f, x, old_), old(errors), depth)
    {
      hide S.NextToken, S.ReadElems, S.ReadMembers, S.NumberValue, S.StringValue;
      TextOfNext(s, f);
      match t.ty
      case Number =>
        var v := DecodeNumber(t);
        r := if v.Some? then Returned(true, v.value) else Returned(false, old_);
      case StringToken =>
        var v := DecodeString(t);
        r := if v.Some? then Returned(true, Str(v.value)) else Returned(false, old_);
      case True => r := Returned(true, Bool(true));
      case False => r := Returned(true, Bool(false));
      case NullToken => r := Returned(true, Null);
      case NaN => r := Returned(true, Real(S.NOT_A_NUMBER));
      case PosInf => r := Returned(true, Real(S.INFINITY));
      case NegInf => r := Returned(true, Real(S.MINUS_INFINITY));
      case _ => r := ReadNoValue(t, S.NextToken(s, f), old_);
    }

    /** A token that starts no value: an error, or a null if its place may be left empty; the token is unread then. */
    method ReadNoValue(t: Token, ghost u: S.Token, old_: Value) returns (r: Result)
      requires Just(t, u) && (Separates(u.ty) ==> |u.text| == 1)
      modifies this`current, this`errors
      ensures Valid() && t.start <= current
      ensures Agrees(r, if Separates(u.ty) && f.allowDroppedNullPlaceholders then S.Done(true, Null, u.text + u.rest)
                        else S.Done(false, old_, u.rest), old(errors), depth)
    {
      if (t.ty == S.ArraySeparator || t.ty == S.ObjectEnd || t.ty == S.ArrayEnd) && f.allowDroppedNullPlaceholders {
        assert document[t.start..] == document[t.start..t.end] + document[t.end..];
        current := current - 1;
        return Returned(true, Null);
      }
      AddError(t);
      r := Returned(false, old_);
    }

    /** `readArray`, behind the bracket. */
    method ReadArray() returns (r: Result)
      requires Valid()
      modifies this`current, this`errors, this`depth
      ensures Valid() && old(current) <= current
      ensures Agrees(r, S.ReadElems(old(Rest()), old(depth), f, x, []), old(errors), old(depth))
      decreases |document| - current, 2
    {
      hide S.ReadToken, S.ReadElem, Skip;
      var elems: seq<Value> := [];
      while true
        invariant Valid() && old(current) <= current && depth == old(depth) && errors == old(errors)
        invariant S.ReadElems(old(Rest()), depth, f, x, []) == S.ReadElems(Rest(), depth, f, x, elems)
        decreases |document| - current
      {
        SkipSpaces();
        if current != |document| {
          Tail(document, current);
          if document[current] == ']' && (elems == [] || (f.allowTrailingCommas && !f.allowDroppedNullPlaceholders)) {
            ClosingToken(Rest(), f);
            var endArray := ReadToken();
            return Returned(true, Arr(elems));
          }
        }
        var more;
        r, more, elems := ReadElement(elems);
        if !more {
          return;
        }
      }
    }

    /** One pass of the loop of `readArray` behind the test for the end: the result, or that the loop goes on. */
    method ReadElement(elems: seq<Value>) returns (r: Result, more: bool, after: seq<Value>)
      requires Valid()
      modifies this`current, this`errors, this`depth
      ensures Valid() && old(current) <= current
      ensures !more ==> Agrees(r, S.ReadElem(old(Rest()), old(depth), f, x, elems), old(errors), old(depth))
      ensures more ==>
        && errors == old(errors) && depth == old(depth) && old(current) < current
        && S.ReadElem(old(Rest()), depth, f, x, elems) == S.ReadElems(Rest(), depth, f, x, after)
      decreases |document| - current, 1
    {
      hide S.ReadToken, S.PastComments, S.ReadElems, S.ReadValue, S.Recover;
      after, more := elems, false;
      depth := depth + 1;
      var value := ReadValue(Null);
      if value.Threw? {
        r := Threw;
        return;
      }
      depth := depth - 1;
      after := elems + [value.v];
      if !value.ok {
        r := PassOnFailure(S.ArrayEnd, Arr(after), old(errors));
        return;
      }
      var t := ReadPastComments();
      if t.ty == S.ArrayEnd {
        r := Returned(true, Arr(after));
      } else if t.ty == S.ArraySeparator {
        r, more := Threw, true;
      } else {
        r := FailAndRecover(t, S.ArrayEnd, Arr(after));
      }
    }

    /** A member name; failure is an error. */
    method ReadName(t: Token, ghost u: S.Token) returns (name: Option<String>)
      requires Just(t, u)
      modifies this`errors
      ensures name == S.NameOf(u, f, x)
      ensures errors == old(errors) + if name.None? then [t] else []
    {
      hide S.NumberValue, S.StringValue, S.KeyText;
      name := None;
      if t.ty == S.StringToken {
        name := DecodeString(t);
      } else if t.ty == S.Number && f.allowNumericKeys && t.start < t.end {
        var v := DecodeNumber(t);
        if v.Some? {
          name := Some(S.KeyText(v.value, x));
        }
      } else {
        AddError(t);
      }
    }

    /** `readObject`, behind the brace. */
    method ReadObject() returns (r: Result)
      requires Valid()
      modifies this`current, this`errors, this`depth
      ensures Valid() && old(current) <= current
      ensures Agrees(r, S.ReadMembers(old(Rest()), old(depth), f, x, [], []), old(errors), old(depth))
      decreases |document| - current, 2
    {
      hide S.ReadToken, S.PastComments, S.ReadMember, S.NameOf, S.Recover, Get;
      var members: seq<Member> := [];
      var name: String := [];
      while true
        invariant Valid() && old(current) <= current && depth == old(depth) && errors == old(errors)
        invariant S.ReadMembers(old(Rest()), depth, f, x, [], []) == S.ReadMembers(Rest(), depth, f, x, members, name)
        decreases |document| - current
      {
        ghost var u := S.PastComments(Rest(), f);
        var t := ReadPastComments();
        if t.ty == S.ObjectEnd && (name == [] || f.allowTrailingCommas) {
          return Returned(true, Obj(members));
        }
        var newName := ReadName(t, u);
        if newName.None? {
          r := PassOnFailure(S.ObjectEnd, Obj(members), old(errors));
          return;
        }
        name := newName.value;
        if |name| >= S.NAME_LIMIT {
          return Threw;
        }
        if f.rejectDupKeys && Get(members, name).Some? {
          r := FailAndRecover(t, S.ObjectEnd, Obj(members));
          return;
        }
        var more;
        r, more, members := ReadMember(members, name);
        if !more {
          return;
        }
      }
    }

    /** One pass of the loop of `readObject` behind the name: the result, or that the loop goes on. */
    method ReadMember(members: seq<Member>, name: String) returns (r: Result, more: bool, after: seq<Member>)
      requires Valid()
      modifies this`current, this`errors, this`depth
      ensures Valid() && old(current) <= current
      ensures !more ==> Agrees(r, S.ReadMember(old(Rest()), old(depth), f, x, members, name), old(errors), old(depth))
      ensures more ==>
        && errors == old(errors) && depth == old(depth) && old(current) < current
        && S.ReadMember(old(Rest()), depth, f, x, members, name) == S.ReadMembers(Rest(), depth, f, x, after, name)
      decreases |document| - current, 1
    {
      hide S.ReadToken, S.PastComments, S.ReadMembers, S.ReadValue, S.Recover, Get, Put;
      after, more := members, false;
      var colon := ReadToken();
      if colon.ty != S.MemberSeparator {
        r := FailAndRecover(colon, S.ObjectEnd, Obj(members));
        return;
      }
      depth := depth + 1;
      var value := ReadValue(S.Existing(members, name));
      if value.Threw? {
        r := Threw;
        return;
      }
      depth := depth - 1;
      after := Put(members, name, value.v);
      if !value.ok {
        r := PassOnFailure(S.ObjectEnd, Obj(after), old(errors));
        return;
      }
      var comma := ReadToken();
      if comma.ty != S.ObjectEnd && comma.ty != S.ArraySeparator && comma.ty != S.Comment {
        r := FailAndRecover(comma, S.ObjectEnd, Obj(after));
        return;
      }
      if comma.ty == S.Comment {
        comma := ReadPastComments();
      }
      if comma.ty == S.ObjectEnd {
        r := Returned(true, Obj(after));
        return;
      }
      r, more := Threw, true;
    }

    /** `skipBom`. */
    method SkipBom()
      requires Valid() && current == 0
      modifies this`current
      ensures Valid() && Rest() == S.PastBom(document, f)
    {
      if f.skipBom && S.BOM <= document {
        current := 3;
      }
    }

    /** `parse`: an error is reported if and only if the parse fails. */
    method Parse(doc: String, root: Value) returns (r: Result)
      modifies this
      ensures var o := S.Parse(doc, f, x, root);
              match r
              case Threw => o == S.Thrown
              case Returned(ok, v) => o.Done? && o.ok == ok && o.v == v && (errors == [] <==> ok)
    {
      hide S.ReadToken, S.NextToken, S.ReadValue, S.PastBom;
      document, current, errors, depth := doc, 0, [], 0;
      SkipBom();
      depth := 1;
      r := ReadValue(root);
      if r.Threw? {
        return;
      }
      depth := depth - 1;
      var t := SkipCommentTokens();
      if f.failIfExtra && t.ty != S.EndOfStream {
        AddError(t);
        return Returned(false, r.v);
      }
      if f.strictRoot && !r.v.Arr? && !r.v.Obj? {
        AddError(Token(S.Error, 0, |doc|));
        return Returned(false, r.v);
      }
    }
  }

  lemma ClosingToken(s: String, f: S.Features)
    requires s != [] && s[0] == ']'
    ensures S.ReadToken(s, f).rest == s[1..]
  {
    assert Skip(s) == s;
  }

  predicate Separates(ty: S.TokenType) { ty == S.ArraySeparator || ty == S.ObjectEnd || ty == S.ArrayEnd }

  lemma TextOfToken(s: String, f: S.Features)
    ensures S.ReadToken(s, f).ty == S.Number ==> S.ReadToken(s, f).text != []
    ensures Separates(S.ReadToken(s, f).ty) ==> |S.ReadToken(s, f).text| == 1
  {
    hide S.NumberLength, S.CommentEnd, JsonText.StringEnd, Skip;
  }

  lemma {:induction false} TextPastComments(s: String, f: S.Features)
    ensures S.PastComments(s, f).ty == S.Number ==> S.PastComments(s, f).text != []
    ensures Separates(S.PastComments(s, f).ty) ==> |S.PastComments(s, f).text| == 1
    decreases |s|
  {
    TextOfToken(s, f);
    hide S.ReadToken;
    var t := S.ReadToken(s, f);
    if t.ty == S.Comment {
      TextPastComments(t.rest, f);
    }
  }

  lemma TextOfNext(s: String, f: S.Features)
    ensures S.NextToken(s, f).ty == S.Number ==> S.NextToken(s, f).text != []
    ensures Separates(S.NextToken(s, f).ty) ==> |S.NextToken(s, f).text| == 1
  {
    hide S.ReadToken, S.PastComments;
    TextOfToken(s, f);
    TextPastComments(s, f);
  }

  lemma NothingToClassify(f: S.Features)
    ensures S.Classify(0 as char, [], f) == (S.EndOfStream, 0)
  {}
}
