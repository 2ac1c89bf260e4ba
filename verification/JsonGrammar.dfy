/** What the JSON reader does with the text that lies before it: tokens, values and error
    recovery, as functions of the remaining text (Reader in lib/json/jsoncpp.cpp). */
module JsonGrammar {
  import opened Bytes
  import opened JsonValues
  import opened JsonNumbers
  import opened JsonStrings

  datatype Kind =
    | ObjectBegin | ObjectEnd | ArrayBegin | ArrayEnd | StringToken | NumberToken | TrueToken | FalseToken | NullToken
    | ArraySeparator | MemberSeparator | CommentToken | EndOfStream | ErrorToken

  /** A token: where it starts in the remaining text and where it ends. */
  datatype Token = Token(kind: Kind, start: nat, end: nat)

  /** Converts the text of a number that is no integer; none if the stream operator rejects it. */
  type DoubleParser = bytes -> Option<real>

  /** The reader gives up on nesting deeper than this. */
  const STACK_LIMIT := 1000

  predicate IsSpace(c: byte) {
    c == SPACE || c == TAB || c == CR || c == LF
  }

  function Spaces(s: bytes): (n: nat)
    ensures n <= |s|
    ensures n < |s| ==> !IsSpace(s[n])
    ensures forall i | 0 <= i < n :: IsSpace(s[i])
  {
    if s != [] && IsSpace(s[0]) then 1 + Spaces(s[1..]) else 0
  }

  function Digits(s: bytes): (n: nat)
    ensures n <= |s|
    ensures AllDigits(s[..n])
    ensures n < |s| ==> !IsDigit(s[n])
  {
    if s != [] && IsDigit(s[0]) then
      var n := Digits(s[1..]);
      assert s[..1 + n] == [s[0]] + s[1..][..n];
      1 + n
    else 0
  }

  /** The extent of a fraction, if there is one. */
  function Fraction(s: bytes): (n: nat)
    ensures n <= |s|
  {
    if At(s, 0) == 46 then 1 + Digits(s[1..]) else 0
  }

  /** The extent of an exponent, if there is one. */
  function Exponent(s: bytes): (n: nat)
    ensures n <= |s|
  {
    if At(s, 0) == 101 || At(s, 0) == 69 then
      var sign := if At(s, 1) == 43 || At(s, 1) == 45 then 1 else 0;
      1 + sign + Digits(s[1 + sign..])
    else 0
  }

  /** The extent of a number behind its first character: digits, a fraction, an exponent. */
  function NumberEnd(s: bytes): (n: nat)
    ensures n <= |s|
  {
    var whole := Digits(s);
    var fraction := whole + Fraction(s[whole..]);
    fraction + Exponent(s[fraction..])
  }

  /** Behind the opening of a C-style comment: the extent, and whether the comment is closed. */
  function CStyleComment(s: bytes): (r: (nat, bool))
    ensures r.0 <= |s|
  {
    if s == [] then (0, false)
    else if s[0] == 42 && At(s, 1) == SLASH then (2, true)
    else var r := CStyleComment(s[1..]); (1 + r.0, r.1)
  }

  /** Behind `//`: up to and including the end of the line. */
  function CppStyleComment(s: bytes): (n: nat)
    ensures n <= |s|
  {
    if s == [] then 0
    else if s[0] == LF then 1
    else if s[0] == CR then (if At(s, 1) == LF then 2 else 1)
    else 1 + CppStyleComment(s[1..])
  }

  /** Behind a slash: the extent of the comment, and whether it is one. */
  function Comment(s: bytes): (r: (nat, bool))
    ensures r.0 <= |s|
  {
    if s == [] then (0, false)
    else if s[0] == 42 then var r := CStyleComment(s[1..]); (1 + r.0, r.1)
    else if s[0] == SLASH then (1 + CppStyleComment(s[1..]), true)
    else (1, false)
  }

  const RUE: bytes := [114, 117, 101]
  const ALSE: bytes := [97, 108, 115, 101]
  const ULL: bytes := [117, 108, 108]

  /** The kind of the token that starts with `c`, followed by `s`, and its extent in `s`. */
  function Lexeme(c: byte, s: bytes): (r: (Kind, nat))
    ensures r.1 <= |s| && (r.0 == StringToken ==> r.1 > 0)
  {
    match c
    case 123 => (ObjectBegin, 0)
    case 125 => (ObjectEnd, 0)
    case 91 => (ArrayBegin, 0)
    case 93 => (ArrayEnd, 0)
    case 34 => var r := StringEnd(s); (if r.1 then StringToken else ErrorToken, r.0)
    case 47 => var r := Comment(s); (if r.1 then CommentToken else ErrorToken, r.0)
    case 45 => (NumberToken, NumberEnd(s))
    case 116 => if RUE <= s then (TrueToken, 3) else (ErrorToken, 0)
    case 102 => if ALSE <= s then (FalseToken, 4) else (ErrorToken, 0)
    case 110 => if ULL <= s then (NullToken, 3) else (ErrorToken, 0)
    case 44 => (ArraySeparator, 0)
    case 58 => (MemberSeparator, 0)
    case 0 => (EndOfStream, 0)
    case _ => if IsDigit(c) then (NumberToken, NumberEnd(s)) else (ErrorToken, 0)
  }

  /** The next token. Only the end of the text is a token without characters. */
  function ReadToken(s: bytes): (t: Token)
    ensures t.start <= t.end <= |s|
    ensures t.end == t.start ==> t.kind == EndOfStream && t.end == |s|
    ensures t.kind == StringToken ==> t.end - t.start >= 2
  {
    var start := Spaces(s);
    if start == |s| then Token(EndOfStream, start, start)
    else
      var r := Lexeme(s[start], s[start + 1..]);
      Token(r.0, start, start + 1 + r.1)
  }

  function Shift(t: Token, n: nat): Token {
    Token(t.kind, n + t.start, n + t.end)
  }

  /** The next token that is no comment. */
  function NextToken(s: bytes): (t: Token)
    ensures t.start <= t.end <= |s|
    ensures t.end == t.start ==> t.kind == EndOfStream && t.end == |s|
    ensures t.kind == StringToken ==> t.end - t.start >= 2
    ensures t.kind != CommentToken
    decreases |s|
  {
    var t := ReadToken(s);
    if t.kind == CommentToken then Shift(NextToken(s[t.end..]), t.end) else t
  }

  /** Error recovery: tokens are skipped up to and including the first of the wanted kind, or
      the end of the text. */
  function Recover(s: bytes, until: Kind): (n: nat)
    ensures n <= |s|
    decreases |s|
  {
    var t := ReadToken(s);
    if t.kind == until || t.kind == EndOfStream then t.end else t.end + Recover(s[t.end..], until)
  }

  /** Assigning to a member of the ordered map that holds an object. */
  function Put(members: seq<Member>, key: bytes, value: Value): seq<Member> {
    if members == [] || BytesLess(key, members[0].key) then [Member(key, value)] + members
    else if BytesLess(members[0].key, key) then [members[0]] + Put(members[1..], key, value)
    else [Member(members[0].key, value)] + members[1..]
  }

  /** The outcome of reading a value: the value, or none after one recorded error, and the extent
      read; or the exception for nesting that is too deep. */
  datatype Parsed = Parsed(value: Option<Value>, n: nat) | TooDeep

  function Skip(p: Parsed, n: nat): Parsed {
    match p
    case TooDeep => TooDeep
    case Parsed(v, m) => Parsed(v, n + m)
  }

  /** The text between the quotes of a string token. */
  function Inner(token: bytes): bytes
    requires |token| >= 2
  {
    token[1..|token| - 1]
  }

  /** The value of a number token: an integer if it is one, otherwise what the stream operator says. */
  function NumberValue(dp: DoubleParser, token: bytes): Option<Value> {
    match DecodeInteger(token)
    case Some(v) => Some(v)
    case None =>
      match dp(token)
      case Some(r) => Some(Real(r))
      case None => None
  }

  function TextValue(token: bytes): Option<Value>
    requires |token| >= 2
  {
    match Unescaped(Inner(token))
    case Some(s) => Some(Text(s))
    case None => None
  }

  /** Reader::readValue, at a nesting depth of `depth`. */
  function ReadValue(dp: DoubleParser, s: bytes, depth: nat): (p: Parsed)
    ensures p.Parsed? ==> p.n <= |s| && (p.value.Some? ==> p.n > 0)
    decreases |s|, 1
  {
    if depth >= STACK_LIMIT then TooDeep
    else
      var t := NextToken(s);
      if t.kind == EndOfStream then Parsed(None, t.end)
      else Skip(TokenValue(dp, t.kind, s[t.start..t.end], s[t.end..], depth + 1), t.end)
  }

  /** The value that starts with a token; `rest` is the text behind it. */
  function TokenValue(dp: DoubleParser, kind: Kind, token: bytes, rest: bytes, depth: nat): (p: Parsed)
    requires kind == StringToken ==> |token| >= 2
    ensures p.Parsed? ==> p.n <= |rest|
    decreases |rest|, 3
  {
    match kind
    case ObjectBegin => ReadMembers(dp, rest, depth, [], [])
    case ArrayBegin =>
      var blanks := Spaces(rest);
      if At(rest, blanks) == 93 then Parsed(Some(Array([])), blanks + 1)
      else Skip(ReadElems(dp, rest[blanks..], depth, []), blanks)
    case NumberToken => Parsed(NumberValue(dp, token), 0)
    case StringToken => Parsed(TextValue(token), 0)
    case TrueToken => Parsed(Some(Bool(true)), 0)
    case FalseToken => Parsed(Some(Bool(false)), 0)
    case NullToken => Parsed(Some(Null), 0)
    case _ => Parsed(None, 0)
  }

  /** The loop of Reader::readArray: the elements read so far are `elems`. */
  function ReadElems(dp: DoubleParser, s: bytes, depth: nat, elems: seq<Value>): (p: Parsed)
    ensures p.Parsed? ==> p.n <= |s|
    decreases |s|, 2
  {
    match ReadValue(dp, s, depth)
    case TooDeep => TooDeep
    case Parsed(None, n) => Parsed(None, n + Recover(s[n..], ArrayEnd))
    case Parsed(Some(v), n) => Skip(AfterElem(dp, s[n..], depth, elems + [v]), n)
  }

  /** What follows an element: the end of the array, another element, or an error. */
  function AfterElem(dp: DoubleParser, s: bytes, depth: nat, elems: seq<Value>): (p: Parsed)
    ensures p.Parsed? ==> p.n <= |s|
    decreases |s|, 3
  {
    var t := NextToken(s);
    if t.kind == ArrayEnd then Parsed(Some(Array(elems)), t.end)
    else if t.kind == ArraySeparator then Skip(ReadElems(dp, s[t.end..], depth, elems), t.end)
    else Parsed(None, t.end + Recover(s[t.end..], ArrayEnd))
  }

  /** The key of a member, whose name token is `t`, and the extent up to and including the colon;
      or none and the extent of the recovery. */
  function ReadKey(s: bytes, t: Token): (r: (Option<bytes>, nat))
    requires t.start <= t.end <= |s| && (t.kind == StringToken ==> t.end - t.start >= 2)
    ensures t.end <= r.1 <= |s|
  {
    if t.kind != StringToken then (None, t.end + Recover(s[t.end..], ObjectEnd))
    else
      match Unescaped(Inner(s[t.start..t.end]))
      case None => (None, t.end + Recover(s[t.end..], ObjectEnd))
      case Some(key) =>
        var colon := Shift(ReadToken(s[t.end..]), t.end);
        if colon.kind != MemberSeparator then (None, colon.end + Recover(s[colon.end..], ObjectEnd))
        else (Some(key), colon.end)
  }

  /** The loop of Reader::readObject: the members read so far are `members`, the last name read is
      `name`. A closing brace ends the loop here only while the name is empty. */
  function ReadMembers(dp: DoubleParser, s: bytes, depth: nat, members: seq<Member>, name: bytes): (p: Parsed)
    ensures p.Parsed? ==> p.n <= |s|
    decreases |s|, 2
  {
    var t := NextToken(s);
    if t.kind == ObjectEnd && name == [] then Parsed(Some(Object(members)), t.end)
    else
      match ReadKey(s, t)
      case (None, n) => Parsed(None, n)
      case (Some(key), n) => Skip(ReadMember(dp, s[n..], depth, members, key), n)
  }

  /** The value of a member and what follows it. */
  function ReadMember(dp: DoubleParser, s: bytes, depth: nat, members: seq<Member>, key: bytes): (p: Parsed)
    ensures p.Parsed? ==> p.n <= |s|
    decreases |s|, 2
  {
    match ReadValue(dp, s, depth)
    case TooDeep => TooDeep
    case Parsed(None, n) => Parsed(None, n + Recover(s[n..], ObjectEnd))
    case Parsed(Some(v), n) => Skip(AfterMember(dp, s[n..], depth, Put(members, key, v), key), n)
  }

  /** What follows a member: the end of the object, another member, or an error. Behind a comment
      any token is taken for a separator. */
  function AfterMember(dp: DoubleParser, s: bytes, depth: nat, members: seq<Member>, name: bytes): (p: Parsed)
    ensures p.Parsed? ==> p.n <= |s|
    decreases |s|, 3
  {
    var comma := ReadToken(s);
    if comma.kind != ObjectEnd && comma.kind != ArraySeparator && comma.kind != CommentToken then
      Parsed(None, comma.end + Recover(s[comma.end..], ObjectEnd))
    else
      var t := if comma.kind == CommentToken then Shift(NextToken(s[comma.end..]), comma.end) else comma;
      if t.kind == ObjectEnd then Parsed(Some(Object(members)), t.end)
      else Skip(ReadMembers(dp, s[t.end..], depth, members, name), t.end)
  }
}
