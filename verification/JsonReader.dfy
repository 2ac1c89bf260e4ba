/** The recursive-descent JSON reader with its cursor (class Reader in lib/json/jsoncpp.cpp).
    Every method is proved to move the cursor and to yield what JsonGrammar says. */
module JsonReader {
  import opened Bytes
  import opened JsonValues
  import opened JsonNumbers
  import opened JsonStrings
  import opened JsonGrammar

  class Reader {
    const decodeDouble: DoubleParser
    var document: bytes
    var current: nat
    var errors: nat
    var stackDepth: nat

    constructor (decodeDouble: DoubleParser)
      ensures this.decodeDouble == decodeDouble && Valid()
    {
      this.decodeDouble := decodeDouble;
      document := [];
      current := 0;
      errors := 0;
      stackDepth := 0;
    }

    ghost predicate Valid()
      reads this
    {
      current <= |document|
    }

    /** The text from the cursor on. */
    function Rest(): bytes
      requires Valid()
      reads this
    {
      document[current..]
    }

    method GetNextChar() returns (c: byte)
      requires Valid()
      modifies this`current
      ensures Valid() && c == At(document, old(current))
      ensures current == if old(current) == |document| then old(current) else old(current) + 1
    {
      if current == |document| {
        return 0;
      }
      c := document[current];
      current := current + 1;
    }

    method SkipSpaces()
      requires Valid()
      modifies this`current
      ensures Valid() && current == old(current) + Spaces(old(Rest()))
    {
      while current != |document|
        invariant Valid() && current + Spaces(Rest()) == old(current) + Spaces(old(Rest()))
        decreases |document| - current
      {
        var c := document[current];
        if IsSpace(c) {
          current := current + 1;
        } else {
          break;
        }
      }
    }

    method Match(pattern: bytes) returns (ok: bool)
      requires Valid()
      modifies this`current
      ensures Valid() && ok == (pattern <= old(Rest()))
      ensures current == if ok then old(current) + |pattern| else old(current)
    {
      if |document| - current < |pattern| {
        return false;
      }
      var index := |pattern|;
      while index > 0
        invariant 0 <= index <= |pattern|
        invariant forall i | index <= i < |pattern| :: document[current + i] == pattern[i]
      {
        index := index - 1;
        if document[current + index] != pattern[index] {
          return false;
        }
      }
      current := current + |pattern|;
      return true;
    }

    method ReadCStyleComment() returns (ok: bool)
      requires Valid()
      modifies this`current
      ensures Valid() && (current - old(current), ok) == CStyleComment(old(Rest()))
    {
      while current != |document|
        invariant Valid() && current >= old(current)
        invariant var r := CStyleComment(Rest()); (current - old(current) + r.0, r.1) == CStyleComment(old(Rest()))
        decreases |document| - current
      {
        assert Rest()[1..] == document[current + 1..];
        var c := GetNextChar();
        if c == 42 && At(document, current) == SLASH {
          break;
        }
      }
      var last := GetNextChar();
      ok := last == SLASH;
    }

    method ReadCppStyleComment() returns (ok: bool)
      requires Valid()
      modifies this`current
      ensures Valid() && ok && current == old(current) + CppStyleComment(old(Rest()))
    {
      while current != |document|
        invariant Valid() && current + CppStyleComment(Rest()) == old(current) + CppStyleComment(old(Rest()))
        decreases |document| - current
      {
        assert Rest()[1..] == document[current + 1..];
        var c := GetNextChar();
        if c == LF {
          return true;
        }
        if c == CR {
          if current != |document| && document[current] == LF {
            var _ := GetNextChar();
          }
          return true;
        }
      }
      return true;
    }

    method ReadComment() returns (ok: bool)
      requires Valid()
      modifies this`current
      ensures Valid() && (current - old(current), ok) == Comment(old(Rest()))
    {
      ghost var s := Rest();
      assert s != [] ==> s[1..] == document[current + 1..];
      var c := GetNextChar();
      if c == 42 {
        ok := ReadCStyleComment();
      } else if c == SLASH {
        ok := ReadCppStyleComment();
      } else {
        ok := false;
      }
    }

    /** One `c = (current_ = p) < end_ ? *p++ : '\0'`. */
    method Take(p: nat) returns (p': nat, c: byte)
      requires p <= |document|
      modifies this`current
      ensures current == p && c == At(document, p) && p' == if p < |document| then p + 1 else p
    {
      current := p;
      if current < |document| {
        c := document[p];
        p' := p + 1;
      } else {
        c := 0;
        p' := p;
      }
    }

    /** Takes characters as long as the last one taken is a digit. */
    method TakeDigits(p0: nat, c0: byte) returns (p: nat, c: byte)
      requires Valid() && p0 <= |document|
      modifies this`current
      ensures Valid()
      ensures if IsDigit(c0) then
                current == p0 + Digits(document[p0..]) && c == At(document, current) &&
                p == if current < |document| then current + 1 else current
              else current == old(current) && c == c0 && p == p0
    {
      p, c := p0, c0;
      while IsDigit(c)
        invariant Valid() && p <= |document|
        invariant IsDigit(c) ==> IsDigit(c0) && p + Digits(document[p..]) == p0 + Digits(document[p0..])
        invariant !IsDigit(c) ==>
                    if IsDigit(c0) then
                      current == p0 + Digits(document[p0..]) && c == At(document, current) &&
                      p == if current < |document| then current + 1 else current
                    else current == old(current) && c == c0 && p == p0
        decreases if IsDigit(c) then 1 + |document| - p else 0
      {
        assert p < |document| ==> document[p..][1..] == document[p + 1..];
        p, c := Take(p);
      }
    }

    /** Continues behind a character already taken at the cursor. */
    method TakeMoreDigits(p0: nat, c0: byte) returns (p: nat, c: byte)
      requires Valid() && c0 == At(document, current) && p0 == if current < |document| then current + 1 else current
      modifies this`current
      ensures Valid() && current == old(current) + Digits(old(Rest()))
      ensures c == At(document, current) && p == if current < |document| then current + 1 else current
    {
      assert current < |document| ==> Rest()[1..] == document[current + 1..];
      p, c := TakeDigits(p0, c0);
    }

    method ReadFraction(p0: nat, c0: byte) returns (p: nat, c: byte)
      requires Valid() && c0 == At(document, current) && p0 == if current < |document| then current + 1 else current
      modifies this`current
      ensures Valid() && current == old(current) + Fraction(old(Rest()))
      ensures c == At(document, current) && p == if current < |document| then current + 1 else current
    {
      hide Digits;
      p, c := p0, c0;
      if c == 46 {
        assert Rest()[1..] == document[p..];
        p, c := Take(p);
        p, c := TakeMoreDigits(p, c);
      }
    }

    method ReadExponent(p0: nat, c0: byte)
      requires Valid() && c0 == At(document, current) && p0 == if current < |document| then current + 1 else current
      modifies this`current
      ensures Valid() && current == old(current) + Exponent(old(Rest()))
    {
      hide Digits;
      var p, c := p0, c0;
      if c == 101 || c == 69 {
        ghost var s := Rest();
        p, c := Take(p);
        assert c == At(s, 1);
        if c == 43 || c == 45 {
          p, c := Take(p);
        }
        assert Rest() == s[current - old(current)..];
        p, c := TakeMoreDigits(p, c);
      }
    }

    method ReadNumber()
      requires Valid()
      modifies this`current
      ensures Valid() && current == old(current) + NumberEnd(old(Rest()))
    {
      hide Digits, Fraction, Exponent;
      ghost var s := Rest();
      var p, c := TakeDigits(current, 48);
      assert Rest() == s[Digits(s)..];
      p, c := ReadFraction(p, c);
      assert Rest() == s[current - old(current)..];
      ReadExponent(p, c);
    }

    method ReadString() returns (ok: bool)
      requires Valid()
      modifies this`current
      ensures Valid() && (current - old(current), ok) == StringEnd(old(Rest()))
    {
      var c: byte := 0;
      while current != |document|
        invariant Valid() && current >= old(current) && c != QUOTE
        invariant var r := StringEnd(Rest()); (current - old(current) + r.0, r.1) == StringEnd(old(Rest()))
        decreases |document| - current
      {
        assert Rest()[1..] == document[current + 1..];
        assert |Rest()| > 1 ==> Rest()[2..] == document[current + 2..];
        c := GetNextChar();
        if c == BACKSLASH {
          var _ := GetNextChar();
        } else if c == QUOTE {
          return true;
        }
      }
      return false;
    }

    /** The token behind the cursor, in positions of the document. */
    method ReadToken() returns (t: Token)
      requires Valid()
      modifies this`current
      ensures Valid() && t == Shift(JsonGrammar.ReadToken(old(Rest())), old(current)) && current == t.end
    {
      ghost var s := Rest();
      SkipSpaces();
      var start := current;
      ghost var behind := if current < |document| then document[current + 1..] else [];
      assert current < |document| ==> s[start - old(current) + 1..] == behind;
      var c := GetNextChar();
      if start == |document| {
        return Token(EndOfStream, start, start);
      }
      assert Rest() == behind;
      var kind := ReadLexeme(c);
      return Token(kind, start, current);
    }

    /** The switch over the first character of a token. */
    method ReadLexeme(c: byte) returns (kind: Kind)
      requires Valid()
      modifies this`current
      ensures Valid() && (kind, current - old(current)) == Lexeme(c, old(Rest()))
    {
      var ok := true;
      match c {
        case 123 => kind := ObjectBegin;
        case 125 => kind := ObjectEnd;
        case 91 => kind := ArrayBegin;
        case 93 => kind := ArrayEnd;
        case 34 =>
          kind := StringToken;
          ok := ReadString();
        case 47 =>
          kind := CommentToken;
          ok := ReadComment();
        case 45 =>
          kind := NumberToken;
          ReadNumber();
        case 116 =>
          kind := TrueToken;
          ok := Match(RUE);
        case 102 =>
          kind := FalseToken;
          ok := Match(ALSE);
        case 110 =>
          kind := NullToken;
          ok := Match(ULL);
        case 44 => kind := ArraySeparator;
        case 58 => kind := MemberSeparator;
        case 0 => kind := EndOfStream;
        case _ =>
          kind := NumberToken;
          if IsDigit(c) {
            ReadNumber();
          } else {
            ok := false;
          }
      }
      if !ok {
        kind := ErrorToken;
      }
    }

    method SkipCommentTokens() returns (t: Token)
      requires Valid()
      modifies this`current
      ensures Valid() && t == Shift(NextToken(old(Rest())), old(current)) && current == t.end
    {
      hide JsonGrammar.ReadToken, NextToken;
      ghost var s, start := Rest(), current;
      NextTokenStep(s, start);
      t := ReadToken();
      assert Rest() == s[current - start..];
      while t.kind == CommentToken
        invariant Valid() && current == t.end >= old(current)
        invariant t.kind != EndOfStream ==> t.end > t.start
        invariant (if t.kind == CommentToken then Shift(NextToken(Rest()), current) else t) ==
                  Shift(NextToken(old(Rest())), old(current))
        decreases |document| - current, t.kind == CommentToken
      {
        s, start := Rest(), current;
        NextTokenStep(s, start);
        t := ReadToken();
        assert Rest() == s[current - start..];
      }
    }

    /** The next token that is no comment, from a position of the document on. */
    lemma NextTokenStep(s: bytes, at: nat)
      ensures var t := JsonGrammar.ReadToken(s);
              Shift(NextToken(s), at) ==
              if t.kind == CommentToken then Shift(NextToken(s[t.end..]), at + t.end) else Shift(t, at)
    {
      hide JsonGrammar.ReadToken;
    }

    /** Skips tokens until one of the wanted kind or the end. Errors recorded on the way are dropped. */
    method RecoverFromError(until: Kind)
      requires Valid()
      modifies this`current, this`errors
      ensures Valid() && current == old(current) + Recover(old(Rest()), until)
      ensures errors == old(errors)
    {
      hide JsonGrammar.ReadToken;
      var errorCount := errors;
      while true
        invariant Valid() && current >= old(current) && errors == old(errors)
        invariant current + Recover(Rest(), until) == old(current) + Recover(old(Rest()), until)
        decreases |document| - current
      {
        ghost var s, start := Rest(), current;
        var skip := ReadToken();
        assert Rest() == s[current - start..];
        if skip.kind == until || skip.kind == EndOfStream {
          break;
        }
      }
      errors := errorCount;
    }

    method AddError()
      modifies this`errors
      ensures errors == old(errors) + 1
    {
      errors := errors + 1;
    }

    method AddErrorAndRecover(until: Kind)
      requires Valid()
      modifies this`current, this`errors
      ensures Valid() && current == old(current) + Recover(old(Rest()), until)
      ensures errors == old(errors) + 1
    {
      AddError();
      RecoverFromError(until);
    }

    method DecodeUnicodeEscapeSequence(s: bytes, from: nat) returns (unicode: Option<nat>)
      requires from <= |s|
      ensures unicode == Hex4(s[from..])
    {
      if |s| - from < 4 {
        return None;
      }
      var value := 0;
      ghost var h := s[from..];
      for index := 0 to 4
        invariant index >= 1 ==> HexValue(h[0]).Some?
        invariant index >= 2 ==> HexValue(h[1]).Some?
        invariant index >= 3 ==> HexValue(h[2]).Some?
        invariant index == 4 ==> HexValue(h[3]).Some?
        invariant index == 0 ==> value == 0
        invariant index == 1 ==> value == HexValue(h[0]).value
        invariant index == 2 ==> value == HexValue(h[0]).value * 16 + HexValue(h[1]).value
        invariant index == 3 ==> value == (HexValue(h[0]).value * 16 + HexValue(h[1]).value) * 16 + HexValue(h[2]).value
        invariant index == 4 ==>
                    value == ((HexValue(h[0]).value * 16 + HexValue(h[1]).value) * 16 + HexValue(h[2]).value) * 16 +
                             HexValue(h[3]).value
      {
        var c := s[from + index];
        assert c == h[index];
        match HexValue(c)
        case Some(digit) => value := value * 16 + digit;
        case None => return None;
      }
      unicode := Some(value);
    }

    method DecodeUnicodeCodePoint(s: bytes, from: nat) returns (r: Option<(nat, nat)>)
      requires from <= |s|
      ensures r == UnicodeCodePoint(s[from..])
    {
      var first := DecodeUnicodeEscapeSequence(s, from);
      if first.None? {
        return None;
      }
      var unicode := first.value;
      var current := from + 4;
      if 0xD800 <= unicode <= 0xDBFF {
        if |s| - current < 6 {
          return None;
        }
        if s[current] == BACKSLASH && s[current + 1] == LOWER_U {
          assert s[from..][6..] == s[current + 2..];
          var surrogatePair := DecodeUnicodeEscapeSequence(s, current + 2);
          if surrogatePair.None? {
            return None;
          }
          return Some((0x10000 + unicode % 0x400 * 0x400 + surrogatePair.value % 0x400, 10));
        }
        return None;
      }
      return Some((unicode, 4));
    }

    /** Decodes a string token; a bad escape is recorded as an error. */
    method DecodeString(token: bytes) returns (decoded: Option<bytes>)
      requires |token| >= 2
      modifies this`errors
      ensures decoded == Unescaped(Inner(token))
      ensures errors == old(errors) + if decoded.None? then 1 else 0
    {
      decoded := DecodeChars(token[1..|token| - 1]);
      if decoded.None? {
        AddError();
      }
    }

    /** The loop of decodeString over the characters between the quotes. */
    method DecodeChars(s: bytes) returns (decoded: Option<bytes>)
      ensures decoded == Unescaped(s)
    {
      hide UnicodeCodePoint, CodePointToUtf8, Unescape1;
      var current := 0;
      var result := [];
      assert s[0..] == s;
      PrependNothing(Unescaped(s));
      while current != |s|
        invariant 0 <= current <= |s|
        invariant Prepend(result, Unescaped(s[current..])) == Unescaped(s)
        decreases |s| - current
      {
        ghost var t, before := s[current..], result;
        var c := s[current];
        current := current + 1;
        if c == QUOTE {
          assert Unescaped(t) == Some([]);
          break;
        } else if c == BACKSLASH {
          if current == |s| {
            return None;
          }
          var escape := s[current];
          current := current + 1;
          assert t[2..] == s[current..];
          if escape == LOWER_U {
            var unicode := DecodeUnicodeCodePoint(s, current);
            if unicode.None? {
              return None;
            }
            assert t[2 + unicode.value.1..] == s[current + unicode.value.1..];
            result := result + CodePointToUtf8(unicode.value.0);
            current := current + unicode.value.1;
          } else {
            var plain := Unescape1(escape);
            if plain.None? {
              return None;
            }
            result := result + [plain.value];
          }
        } else {
          assert t[1..] == s[current..];
          result := result + [c];
        }
        assert result == before + result[|before|..];
        PrependAppend(before, result[|before|..], Unescaped(s[current..]));
      }
      assert result + [] == result;
      decoded := Some(result);
    }

    lemma PrependNothing(r: Option<bytes>)
      ensures Prepend([], r) == r
    {
      assert r.Some? ==> [] + r.value == r.value;
    }

    lemma PrependAppend(before: bytes, more: bytes, r: Option<bytes>)
      ensures Prepend(before, Prepend(more, r)) == Prepend(before + more, r)
    {
      assert r.Some? ==> before + (more + r.value) == before + more + r.value;
    }

    /** The value of a number token, an integer or a double; anything else is recorded as an error. */
    method DecodeNumberToken(token: bytes) returns (decoded: Option<Value>)
      modifies this`errors
      ensures decoded == NumberValue(decodeDouble, token)
      ensures errors == old(errors) + if decoded.None? then 1 else 0
    {
      decoded := DecodeNumber(token);
      if decoded.None? {
        match decodeDouble(token)
        case Some(r) => decoded := Some(Real(r));
        case None => AddError();
      }
    }

    /** How a parsing method ends: what it yields, how far the cursor moved, and that a value comes
        without an error and no value with exactly one. */
    static ghost predicate Ended(p: Parsed, value: Option<Value>, thrown: bool, moved: int, recorded: int) {
      && thrown == p.TooDeep?
      && (!thrown ==> value == p.value && moved == p.n && recorded == if value.None? then 1 else 0)
    }

    method ReadValue() returns (value: Option<Value>, thrown: bool)
      requires Valid()
      modifies this`current, this`errors, this`stackDepth
      ensures Valid() && Ended(JsonGrammar.ReadValue(decodeDouble, old(Rest()), old(stackDepth)), value, thrown,
                               current - old(current), errors - old(errors))
      ensures stackDepth >= old(stackDepth)
      ensures !thrown && value.Some? ==> stackDepth == old(stackDepth)
      decreases |document| - current, 1
    {
      hide NextToken, TokenValue;
      if stackDepth >= STACK_LIMIT {
        return None, true;
      }
      ghost var s, start := Rest(), current;
      stackDepth := stackDepth + 1;
      var t := SkipCommentTokens();
      assert Rest() == s[current - start..];
      if t.kind == EndOfStream {
        AddError();
        return None, false;
      }
      assert document[t.start..t.end] == s[t.start - start..t.end - start];
      value, thrown := ReadTokenValue(t.kind, document[t.start..t.end]);
    }

    /** The switch over the kind of the first token of a value. A syntax error leaves the depth
        counter as it is. */
    method ReadTokenValue(kind: Kind, token: bytes) returns (value: Option<Value>, thrown: bool)
      requires Valid() && stackDepth > 0 && (kind == StringToken ==> |token| >= 2)
      modifies this`current, this`errors, this`stackDepth
      ensures Valid() && Ended(TokenValue(decodeDouble, kind, token, old(Rest()), old(stackDepth)), value, thrown,
                               current - old(current), errors - old(errors))
      ensures stackDepth >= old(stackDepth) - 1
      ensures !thrown && value.Some? ==> stackDepth == old(stackDepth) - 1
      decreases |document| - current, 4
    {
      hide ReadMembers, JsonGrammar.ReadElems, Unescaped, DecodeInteger, Spaces;
      thrown := false;
      match kind {
        case ObjectBegin => value, thrown := ReadObject();
        case ArrayBegin => value, thrown := ReadArray();
        case NumberToken => value := DecodeNumberToken(token);
        case StringToken =>
          var text := DecodeString(token);
          value := match text case Some(s) => Some(Text(s)) case None => None;
        case TrueToken => value := Some(Bool(true));
        case FalseToken => value := Some(Bool(false));
        case NullToken => value := Some(Null);
        case _ =>
          AddError();
          return None, false;
      }
      if !thrown {
        stackDepth := stackDepth - 1;
      }
    }

    method ReadArray() returns (value: Option<Value>, thrown: bool)
      requires Valid()
      modifies this`current, this`errors, this`stackDepth
      ensures Valid()
      ensures var s := old(Rest()); var blanks := Spaces(s);
              Ended(if At(s, blanks) == 93 then Parsed(Some(Array([])), blanks + 1)
                    else Skip(JsonGrammar.ReadElems(decodeDouble, s[blanks..], old(stackDepth), []), blanks),
                    value, thrown, current - old(current), errors - old(errors))
      ensures stackDepth >= old(stackDepth)
      ensures !thrown && value.Some? ==> stackDepth == old(stackDepth)
      decreases |document| - current, 3
    {
      hide JsonGrammar.ReadToken, JsonGrammar.ReadElems;
      ghost var s, start := Rest(), current;
      SkipSpaces();
      assert Rest() == s[current - start..];
      if At(document, current) == 93 {
        EmptyArrayEnd(Rest());
        var _ := ReadToken();
        return Some(Array([])), false;
      }
      value, thrown := ReadElems();
    }

    /** A closing bracket right behind the cursor is the next token. */
    lemma EmptyArrayEnd(s: bytes)
      requires s != [] && s[0] == 93
      ensures JsonGrammar.ReadToken(s) == Token(ArrayEnd, 0, 1)
    {
    }

    /** The loop of readArray. */
    method ReadElems() returns (value: Option<Value>, thrown: bool)
      requires Valid()
      modifies this`current, this`errors, this`stackDepth
      ensures Valid() && Ended(JsonGrammar.ReadElems(decodeDouble, old(Rest()), old(stackDepth), []), value, thrown,
                               current - old(current), errors - old(errors))
      ensures stackDepth >= old(stackDepth)
      ensures !thrown && value.Some? ==> stackDepth == old(stackDepth)
      decreases |document| - current, 2
    {
      hide JsonGrammar.ReadValue, Recover, AfterElem;
      var elems := [];
      while true
        invariant Valid() && current >= old(current) && errors == old(errors) && stackDepth == old(stackDepth)
        invariant Skip(JsonGrammar.ReadElems(decodeDouble, Rest(), stackDepth, elems), current - old(current)) ==
                  JsonGrammar.ReadElems(decodeDouble, old(Rest()), old(stackDepth), [])
        decreases |document| - current
      {
        ghost var s, start := Rest(), current;
        value, thrown := ReadValue();
        if thrown {
          return;
        }
        assert Rest() == s[current - start..];
        if value.None? {
          RecoverFromError(ArrayEnd);
          return;
        }
        elems := elems + [value.value];
        var done;
        value, done := ReadElemSeparator(elems);
        if done {
          return;
        }
      }
    }

    /** Behind an element: the end of the array or an error (done), or the separator. */
    method ReadElemSeparator(elems: seq<Value>) returns (value: Option<Value>, done: bool)
      requires Valid()
      modifies this`current, this`errors
      ensures var p := AfterElem(decodeDouble, old(Rest()), stackDepth, elems);
              Valid() &&
              if done then Ended(p, value, false, current - old(current), errors - old(errors))
              else current > old(current) && errors == old(errors) &&
                   p == Skip(JsonGrammar.ReadElems(decodeDouble, Rest(), stackDepth, elems), current - old(current))
    {
      hide Recover, NextToken, JsonGrammar.ReadElems;
      ghost var s, start := Rest(), current;
      var token := SkipCommentTokens();
      assert Rest() == s[current - start..];
      if token.kind == ArrayEnd {
        return Some(Array(elems)), true;
      }
      if token.kind != ArraySeparator {
        AddErrorAndRecover(ArrayEnd);
        return None, true;
      }
      return None, false;
    }

    method ReadObject() returns (value: Option<Value>, thrown: bool)
      requires Valid()
      modifies this`current, this`errors, this`stackDepth
      ensures Valid() && Ended(ReadMembers(decodeDouble, old(Rest()), old(stackDepth), [], []), value, thrown,
                               current - old(current), errors - old(errors))
      ensures stackDepth >= old(stackDepth)
      ensures !thrown && value.Some? ==> stackDepth == old(stackDepth)
      decreases |document| - current, 2
    {
      hide NextToken, JsonGrammar.ReadKey, JsonGrammar.ReadMember, ReadMembers;
      var members, name := [], [];
      NothingSkipped(ReadMembers(decodeDouble, Rest(), stackDepth, [], []));
      while true
        invariant Valid() && current >= old(current) && errors == old(errors) && stackDepth == old(stackDepth)
        invariant Skip(ReadMembers(decodeDouble, Rest(), stackDepth, members, name), current - old(current)) ==
                  ReadMembers(decodeDouble, old(Rest()), old(stackDepth), [], [])
        decreases |document| - current
      {
        ghost var s, start := Rest(), current;
        MembersStep(s, members, name, start - old(current));
        var tokenName := SkipCommentTokens();
        assert Rest() == s[current - start..];
        if tokenName.kind == ObjectEnd && name == [] {
          return Some(Object(members)), false;
        }
        var key := ReadKey(tokenName, s);
        if key.None? {
          return None, false;
        }
        name := key.value;
        assert Rest() == s[current - start..];
        var done;
        value, thrown, done, members := ReadMember(members, name);
        if thrown || done {
          return;
        }
      }
    }

    lemma NothingSkipped(p: Parsed)
      ensures Skip(p, 0) == p
    {
    }

    /** One turn of the loop of readObject, after `n` characters. */
    lemma MembersStep(s: bytes, members: seq<Member>, name: bytes, n: nat)
      ensures var t := NextToken(s);
              var key := JsonGrammar.ReadKey(s, t);
              Skip(ReadMembers(decodeDouble, s, stackDepth, members, name), n) ==
              if t.kind == ObjectEnd && name == [] then Parsed(Some(Object(members)), n + t.end)
              else if key.0.None? then Parsed(None, n + key.1)
              else Skip(JsonGrammar.ReadMember(decodeDouble, s[key.1..], stackDepth, members, key.0.value), n + key.1)
    {
      hide NextToken, JsonGrammar.ReadKey, JsonGrammar.ReadMember;
    }

    /** The name of a member and the colon; none after an error and the recovery from it. */
    method ReadKey(tokenName: Token, ghost s: bytes) returns (key: Option<bytes>)
      requires Valid() && tokenName.start <= tokenName.end == current
      requires |document| - tokenName.start <= |s| <= |document|
      requires s == document[|document| - |s|..]
      requires tokenName.kind == StringToken ==> tokenName.end - tokenName.start >= 2
      modifies this`current, this`errors
      ensures var at := |document| - |s|;
              var r := JsonGrammar.ReadKey(s, Token(tokenName.kind, tokenName.start - at, tokenName.end - at));
              Valid() && key == r.0 && current == at + r.1
      ensures errors == old(errors) + (if key.None? then 1 else 0)
      ensures key.Some? ==> current > old(current)
    {
      hide JsonGrammar.ReadToken, Recover, Unescaped;
      ghost var at := |document| - |s|;
      assert Rest() == s[current - at..];
      if tokenName.kind != StringToken {
        AddErrorAndRecover(ObjectEnd);
        return None;
      }
      assert document[tokenName.start..tokenName.end] == s[tokenName.start - at..tokenName.end - at];
      key := DecodeString(document[tokenName.start..tokenName.end]);
      if key.None? {
        RecoverFromError(ObjectEnd);
        return None;
      }
      var colon := ReadToken();
      assert Rest() == s[current - at..];
      if colon.kind != MemberSeparator {
        AddErrorAndRecover(ObjectEnd);
        return None;
      }
    }

    /** The value of a member, its entry, and what follows it: done, or at the next member. */
    method ReadMember(members: seq<Member>, name: bytes)
      returns (value: Option<Value>, thrown: bool, done: bool, members': seq<Member>)
      requires Valid()
      modifies this`current, this`errors, this`stackDepth
      ensures var p := JsonGrammar.ReadMember(decodeDouble, old(Rest()), old(stackDepth), members, name);
              Valid() && stackDepth >= old(stackDepth) &&
              if thrown || done then Ended(p, value, thrown, current - old(current), errors - old(errors))
              else current > old(current) && errors == old(errors) &&
                   p == Skip(ReadMembers(decodeDouble, Rest(), old(stackDepth), members', name), current - old(current))
      ensures !thrown && (value.Some? || !done) ==> stackDepth == old(stackDepth)
      decreases |document| - current, 2
    {
      hide JsonGrammar.ReadValue, Recover, AfterMember, ReadMembers, Put;
      ghost var s, start := Rest(), current;
      members' := members;
      done := true;
      value, thrown := ReadValue();
      if thrown {
        return;
      }
      assert Rest() == s[current - start..];
      if value.None? {
        RecoverFromError(ObjectEnd);
        return;
      }
      members' := Put(members, name, value.value);
      value, done := ReadMemberSeparator(members', name);
    }

    /** Behind a member: the end of the object or an error (done), or the separator. */
    method ReadMemberSeparator(members: seq<Member>, ghost name: bytes) returns (value: Option<Value>, done: bool)
      requires Valid()
      modifies this`current, this`errors
      ensures var p := AfterMember(decodeDouble, old(Rest()), stackDepth, members, name);
              Valid() &&
              if done then Ended(p, value, false, current - old(current), errors - old(errors))
              else current > old(current) && errors == old(errors) &&
                   p == Skip(ReadMembers(decodeDouble, Rest(), stackDepth, members, name), current - old(current))
    {
      hide JsonGrammar.ReadToken, Recover, NextToken, ReadMembers;
      ghost var s, start := Rest(), current;
      var comma := ReadToken();
      assert Rest() == s[current - start..];
      if comma.kind != ObjectEnd && comma.kind != ArraySeparator && comma.kind != CommentToken {
        AddErrorAndRecover(ObjectEnd);
        return None, true;
      }
      if comma.kind == CommentToken {
        comma := SkipCommentTokens();
        assert Rest() == s[current - start..];
      }
      if comma.kind == ObjectEnd {
        return Some(Object(members)), true;
      }
      return None, false;
    }

    /** Reads the value at the start of a document; what follows it is not looked at beyond the
        next token. */
    method Parse(doc: bytes) returns (root: Option<Value>, thrown: bool)
      modifies this
      ensures Valid() && document == doc
      ensures var p := JsonGrammar.ReadValue(decodeDouble, doc, 0);
              thrown == p.TooDeep? && (!thrown ==> root == p.value && errors == if root.Some? then 0 else 1)
    {
      hide JsonGrammar.ReadValue;
      document := doc;
      current := 0;
      errors := 0;
      stackDepth := 0;
      assert Rest() == doc;
      root, thrown := ReadValue();
      if !thrown {
        var _ := SkipCommentTokens();
      }
    }
  }
}
