/** Reading what the writer wrote gives the value back, whatever bytes follow in the document. */
module JsonRoundTrip {
  import opened Bytes
  import opened JsonValues
  import opened JsonNumbers
  import opened JsonStrings
  import opened JsonGrammar
  import opened JsonWriter

  /** Members in the order of the map that holds them, each key once. */
  ghost predicate Sorted(members: seq<Member>) {
    forall i, j | 0 <= i < j < |members| :: BytesLess(members[i].key, members[j].key)
  }

  /** Values that the round trip covers: no doubles, no null string pointers. */
  ghost predicate Writable(v: Value) {
    match v
    case Int(i) => MIN_LARGEST_INT <= i <= MAX_LARGEST_INT
    case UInt(u) => u <= MAX_UINT
    case Real(_) => false
    case NullString => false
    case Array(elems) => forall i | 0 <= i < |elems| :: Writable(elems[i])
    case Object(members) => Sorted(members) && forall i | 0 <= i < |members| :: Writable(members[i].value)
    case _ => true
  }

  /** The value as it is read back: integers get the type that fits their size. */
  function Canonical(v: Value): Value {
    match v
    case Int(i) => if i <= MAX_INT then Int(i) else UInt(i)
    case UInt(u) => if u <= MAX_INT then Int(u) else UInt(u)
    case Array(elems) => Array(CanonicalElems(elems))
    case Object(members) => Object(CanonicalMembers(members))
    case _ => v
  }

  function CanonicalElems(elems: seq<Value>): seq<Value> {
    if elems == [] then [] else [Canonical(elems[0])] + CanonicalElems(elems[1..])
  }

  function CanonicalMembers(members: seq<Member>): seq<Member> {
    if members == [] then []
    else [Member(members[0].key, Canonical(members[0].value))] + CanonicalMembers(members[1..])
  }

  /** Levels of nesting; a value without elements has one. */
  function Height(v: Value): nat {
    match v
    case Array(elems) => 1 + ElemsHeight(elems)
    case Object(members) => 1 + MembersHeight(members)
    case _ => 1
  }

  function Max(a: nat, b: nat): nat {
    if a > b then a else b
  }

  function ElemsHeight(elems: seq<Value>): nat {
    if elems == [] then 0 else Max(Height(elems[0]), ElemsHeight(elems[1..]))
  }

  function MembersHeight(members: seq<Member>): nat {
    if members == [] then 0 else Max(Height(members[0].value), MembersHeight(members[1..]))
  }

  /** A character that can follow a value: it ends every token before it. */
  predicate Ends(rest: bytes) {
    rest != [] && rest[0] in {COMMA, 93, 125, LF}
  }

  // ---------- tokens ----------

  /** The token at the very start of a text that starts with no blank. */
  lemma TokenAtStart(s: bytes)
    requires s != [] && !IsSpace(s[0])
    ensures var r := Lexeme(s[0], s[1..]);
            ReadToken(s) == Token(r.0, 0, 1 + r.1) && (r.0 != CommentToken ==> NextToken(s) == ReadToken(s))
  {
    hide Lexeme;
    assert s[0 + 1..] == s[1..];
  }

  lemma {:induction false} DigitsOf(ds: bytes, rest: bytes)
    requires AllDigits(ds) && Ends(rest)
    ensures Digits(ds + rest) == |ds|
  {
    var s := ds + rest;
    if ds == [] {
      assert s == rest;
    } else {
      assert s[0] == ds[0] && s[1..] == ds[1..] + rest;
      assert ds[0] in ds && forall c | c in ds[1..] :: c in ds;
      DigitsOf(ds[1..], rest);
    }
  }

  lemma NumberEndOf(ds: bytes, rest: bytes)
    requires AllDigits(ds) && Ends(rest)
    ensures NumberEnd(ds + rest) == |ds|
  {
    hide Digits;
    DigitsOf(ds, rest);
    var s := ds + rest;
    assert s[|ds|..] == rest;
  }

  lemma NumberTokenOf(t: bytes, rest: bytes)
    requires t != [] && (t[0] == MINUS || IsDigit(t[0])) && AllDigits(t[1..]) && Ends(rest)
    ensures NextToken(t + rest) == Token(NumberToken, 0, |t|)
  {
    hide NumberEnd, ReadToken, NextToken;
    var s := t + rest;
    assert s[1..] == t[1..] + rest;
    NumberEndOf(t[1..], rest);
    TokenAtStart(s);
  }

  /** A printed integer starts with a digit or a minus sign and goes on with digits. */
  lemma IntegerText(i: int)
    ensures var t := SignedDecimal(i);
            t != [] && (t[0] == MINUS || IsDigit(t[0])) && AllDigits(t[1..])
  {
    if i < 0 {
      DecimalIsNumber(-i);
      assert SignedDecimal(i)[1..] == Decimal(-i);
    } else {
      DecimalIsNumber(i);
      var d := Decimal(i);
      assert IsDigit(d[0]);
      assert forall c | c in d[1..] :: c in d;
    }
  }

  /** A quoted string is one string token. */
  lemma StringTokenOf(text: bytes, rest: bytes)
    ensures var q := Quoted(text);
            NextToken(q + rest) == ReadToken(q + rest) == Token(StringToken, 0, |q|) &&
                Unescaped(Inner(q)) == Some(text)
  {
    hide ReadToken, NextToken, StringEnd, Unescaped;
    var s := Quoted(text) + rest;
    QuotingRoundTrip(text, rest);
    TokenAtStart(s);
    UnescapeEscaped(text);
    assert Inner(Quoted(text)) == Escaped(text);
  }

  /** A single punctuation character is a token of its own. */
  lemma Punctuation(c: byte, rest: bytes)
    requires c in {COMMA, COLON, 91, 93, 123, 125}
    ensures var s := [c] + rest;
            NextToken(s) == ReadToken(s) ==
            Token(if c == COMMA then ArraySeparator else if c == COLON then MemberSeparator
                  else if c == 91 then ArrayBegin else if c == 93 then ArrayEnd
                  else if c == 123 then ObjectBegin else ObjectEnd, 0, 1)
  {
    TokenAtStart([c] + rest);
  }

  /** The literals are tokens. */
  lemma LiteralToken(text: bytes, rest: bytes)
    requires text in {NULL_TEXT, TRUE_TEXT, FALSE_TEXT}
    ensures var kind := if text == NULL_TEXT then NullToken else if text == TRUE_TEXT then TrueToken else FalseToken;
            NextToken(text + rest) == Token(kind, 0, |text|)
  {
    hide ReadToken, NextToken, NumberEnd, StringEnd, Comment;
    var s := text + rest;
    assert s[1..] == text[1..] + rest;
    TokenAtStart(s);
    assert NULL_TEXT[1..] == ULL && TRUE_TEXT[1..] == RUE && FALSE_TEXT[1..] == ALSE;
    if text == NULL_TEXT {
      assert ULL <= s[1..];
    } else if text == TRUE_TEXT {
      assert RUE <= s[1..];
    } else {
      assert ALSE <= s[1..];
    }
  }

  /** The text of a writable value starts with neither a blank nor a closing bracket. */
  lemma FirstCharacter(rp: RealPrinter, v: Value)
    requires Writable(v)
    ensures var t := Render(rp, v); t != [] && !IsSpace(t[0]) && t[0] != 93
  {
    match v
    case Int(i) => IntegerText(i);
    case UInt(u) => IntegerText(u);
    case _ =>
  }

  // ---------- members of the map ----------

  /** A key beyond all others is put at the end. */
  lemma {:induction false} PutLast(members: seq<Member>, key: bytes, v: Value)
    requires forall i | 0 <= i < |members| :: BytesLess(members[i].key, key)
    ensures Put(members, key, v) == members + [Member(key, v)]
  {
    if members != [] {
      BytesTrichotomy(members[0].key, key);
      PutLast(members[1..], key, v);
    }
  }

  // ---------- values ----------

  /** What reading the text of `v` must yield at a nesting depth of `depth`. */
  function Expected(v: Value, n: nat, depth: nat): Parsed {
    if depth + Height(v) > STACK_LIMIT then TooDeep else Parsed(Some(Canonical(v)), n)
  }

  /** Values that are one token. */
  lemma ScalarParses(dp: DoubleParser, rp: RealPrinter, v: Value, rest: bytes, depth: nat)
    requires Writable(v) && Ends(rest) && !v.Array? && !v.Object?
    ensures ReadValue(dp, Render(rp, v) + rest, depth) == Expected(v, |Render(rp, v)|, depth)
  {
    hide NextToken, Quoted, SignedDecimal, DecodeInteger, Unescaped;
    var t := Render(rp, v);
    var s := t + rest;
    assert s[0..|t|] == t;
    match v
    case Int(i) =>
      IntegerText(i);
      NumberTokenOf(t, rest);
      IntegerRoundTrip(i);
    case UInt(u) =>
      IntegerText(u);
      NumberTokenOf(t, rest);
      IntegerRoundTrip(u);
    case Text(text) => StringTokenOf(text, rest);
    case _ => LiteralToken(t, rest);
  }

  /** The text of a value is read back as that value, or found too deep, whatever follows. */
  lemma {:induction false} ValueParses(dp: DoubleParser, rp: RealPrinter, v: Value, rest: bytes, depth: nat)
    requires Writable(v) && Ends(rest)
    ensures ReadValue(dp, Render(rp, v) + rest, depth) == Expected(v, |Render(rp, v)|, depth)
    decreases v, 1
  {
    match v
    case Array(elems) => ArrayParses(dp, rp, v, rest, depth);
    case Object(members) => ObjectParses(dp, rp, v, rest, depth);
    case _ => ScalarParses(dp, rp, v, rest, depth);
  }

  /** Opening an array or an object. */
  lemma ContainerParses(dp: DoubleParser, open: byte, inner: bytes, depth: nat)
    requires open in {91, 123}
    ensures ReadValue(dp, [open] + inner, depth) ==
            if depth >= STACK_LIMIT then TooDeep
            else Skip(TokenValue(dp, if open == 91 then ArrayBegin else ObjectBegin, [open], inner, depth + 1), 1)
  {
    hide NextToken, TokenValue;
    Punctuation(open, inner);
    var s := [open] + inner;
    assert s[1..] == inner && s[0..1] == [open];
  }

  lemma {:induction false} ArrayParses(dp: DoubleParser, rp: RealPrinter, v: Value, rest: bytes, depth: nat)
    requires Writable(v) && Ends(rest) && v.Array?
    ensures ReadValue(dp, Render(rp, v) + rest, depth) == Expected(v, |Render(rp, v)|, depth)
    decreases v, 0
  {
    hide ReadValue, ReadElems, Ends;
    var elems := v.elems;
    var items := RenderElems(rp, elems);
    var inner := items + [93] + rest;
    assert Render(rp, v) + rest == [91] + inner;
    ContainerParses(dp, 91, inner, depth);
    if elems == [] {
      assert inner == [93] + rest;
      assert inner[0] == 93 && Spaces(inner) == 0;
    } else {
      assert Writable(elems[0]);
      FirstCharacter(rp, elems[0]);
      assert inner[0] == Render(rp, elems[0])[0];
      assert Spaces(inner) == 0 && inner[0..] == inner;
      if depth < STACK_LIMIT {
        ElemsParse(dp, rp, v, elems, [], rest, depth + 1);
        NonEmptyArray(dp, inner, depth + 1);
        assert [] + CanonicalElems(elems) == CanonicalElems(elems);
      }
    }
  }

  lemma NonEmptyArray(dp: DoubleParser, inner: bytes, depth: nat)
    requires inner != [] && !IsSpace(inner[0]) && inner[0] != 93
    ensures TokenValue(dp, ArrayBegin, [91], inner, depth) == Skip(ReadElems(dp, inner, depth, []), 0)
  {
    hide ReadElems;
    assert Spaces(inner) == 0 && inner[0..] == inner;
  }

  /** The elements of an array from some element on, with `done` read before them. */
  lemma {:induction false} ElemsParse(dp: DoubleParser, rp: RealPrinter, v: Value, elems: seq<Value>,
    done: seq<Value>, rest: bytes, depth: nat)
    requires elems != [] && forall i | 0 <= i < |elems| :: elems[i] < v && Writable(elems[i])
    ensures ReadElems(dp, RenderElems(rp, elems) + [93] + rest, depth, done) ==
            if depth + ElemsHeight(elems) > STACK_LIMIT then TooDeep
            else Parsed(Some(Array(done + CanonicalElems(elems))), |RenderElems(rp, elems)| + 1)
    decreases v, 0, |elems|
  {
    hide Render, RenderElems, ReadElems, AfterElem, ReadValue, Ends;
    var first, text, last := elems[0], Render(rp, elems[0]), |elems| == 1;
    var tail := RenderElems(rp, elems[1..]);
    var behind := if last then [93] + rest else [COMMA] + (tail + [93] + rest);
    ElemsText(rp, elems, rest, behind);
    BehindEnds(behind);
    ValueParses(dp, rp, first, behind, depth);
    ElemParses(dp, text, behind, depth, done, first);
    var done' := done + [Canonical(first)];
    if depth + Height(first) <= STACK_LIMIT {
      ElemSeparator(dp, behind, depth, done');
      if last {
        assert CanonicalElems(elems) == [Canonical(first)];
      } else {
        assert behind[1..] == tail + [93] + rest;
        ElemsParse(dp, rp, v, elems[1..], done', rest, depth);
        MoveOne(done, Canonical(first), CanonicalElems(elems[1..]));
      }
    }
  }

  lemma MoveOne<T>(done: seq<T>, x: T, todo: seq<T>)
    ensures (done + [x]) + todo == done + ([x] + todo)
  {
  }

  /** An element and what stands behind it. */
  lemma ElemsText(rp: RealPrinter, elems: seq<Value>, rest: bytes, behind: bytes)
    requires elems != []
    requires behind == if |elems| == 1 then [93] + rest else [COMMA] + (RenderElems(rp, elems[1..]) + [93] + rest)
    ensures RenderElems(rp, elems) + [93] + rest == Render(rp, elems[0]) + behind
    ensures |RenderElems(rp, elems)| ==
            |Render(rp, elems[0])| + if |elems| == 1 then 0 else 1 + |RenderElems(rp, elems[1..])|
  {
    hide Render;
    assert |elems| == 1 ==> elems[1..] == [];
    Regroup(Render(rp, elems[0]), if |elems| == 1 then [] else [COMMA], RenderElems(rp, elems[1..]), [93], rest);
  }

  lemma BehindEnds(behind: bytes)
    requires behind != [] && behind[0] in {COMMA, 93, 125}
    ensures Ends(behind)
  {
  }

  /** An element, once its text is known to be read back. */
  lemma ElemParses(dp: DoubleParser, text: bytes, behind: bytes, depth: nat, done: seq<Value>, v: Value)
    requires ReadValue(dp, text + behind, depth) == Expected(v, |text|, depth)
    ensures ReadElems(dp, text + behind, depth, done) ==
            if depth + Height(v) > STACK_LIMIT then TooDeep
            else Skip(AfterElem(dp, behind, depth, done + [Canonical(v)]), |text|)
  {
    hide ReadValue, AfterElem;
    assert (text + behind)[|text|..] == behind;
  }

  /** What stands behind an element. */
  lemma ElemSeparator(dp: DoubleParser, behind: bytes, depth: nat, done: seq<Value>)
    requires behind != [] && behind[0] in {COMMA, 93}
    ensures AfterElem(dp, behind, depth, done) ==
            if behind[0] == 93 then Parsed(Some(Array(done)), 1) else Skip(ReadElems(dp, behind[1..], depth, done), 1)
  {
    hide NextToken, ReadElems;
    Punctuation(behind[0], behind[1..]);
    assert behind == [behind[0]] + behind[1..];
  }

  lemma {:induction false} ObjectParses(dp: DoubleParser, rp: RealPrinter, v: Value, rest: bytes, depth: nat)
    requires Writable(v) && Ends(rest) && v.Object?
    ensures ReadValue(dp, Render(rp, v) + rest, depth) == Expected(v, |Render(rp, v)|, depth)
    decreases v, 0
  {
    hide ReadValue, ReadMembers, Ends;
    var members := v.members;
    var items := RenderMembers(rp, members);
    var inner := items + [125] + rest;
    assert Render(rp, v) + rest == [123] + inner;
    ContainerParses(dp, 123, inner, depth);
    if depth < STACK_LIMIT {
      if members == [] {
        EmptyObject(dp, inner, depth + 1);
      } else {
        MembersParse(dp, rp, v, 0, [], [], rest, depth + 1);
        assert members[0..] == members;
        assert [] + CanonicalMembers(members) == CanonicalMembers(members);
      }
    }
  }

  lemma EmptyObject(dp: DoubleParser, inner: bytes, depth: nat)
    requires inner != [] && inner[0] == 125
    ensures ReadMembers(dp, inner, depth, [], []) == Parsed(Some(Object([])), 1)
  {
    Punctuation(125, inner[1..]);
    assert inner == [125] + inner[1..];
  }

  /** The members of an object from the `k`-th on, with `done` read before them. */
  lemma {:induction false} MembersParse(dp: DoubleParser, rp: RealPrinter, v: Value, k: nat, done: seq<Member>,
    name: bytes, rest: bytes, depth: nat)
    requires v.Object? && Writable(v) && k < |v.members|
    requires |done| == k && forall i | 0 <= i < k :: done[i].key == v.members[i].key
    ensures var members := v.members[k..];
            ReadMembers(dp, RenderMembers(rp, members) + [125] + rest, depth, done, name) ==
            if depth + MembersHeight(members) > STACK_LIMIT then TooDeep
            else Parsed(Some(Object(done + CanonicalMembers(members))), |RenderMembers(rp, members)| + 1)
    decreases v, 0, |v.members| - k
  {
    hide ReadMember, ReadMembers, AfterMember, Ends, Quoted, Render, RenderMembers, ReadValue, Put;
    var members := v.members[k..];
    var m, last := members[0], |members| == 1;
    var text := Render(rp, m.value);
    assert members[1..] == v.members[k + 1..];
    var tail := RenderMembers(rp, members[1..]);
    var behind := if last then [125] + rest else [COMMA] + (tail + [125] + rest);
    MemberText(rp, members, rest, behind);
    KeyParses(dp, m.key, text + behind, depth, done, name);
    BehindEnds(behind);
    ValueParses(dp, rp, m.value, behind, depth);
    MemberParses(dp, text, behind, depth, done, m.key, m.value);
    if depth + Height(m.value) <= STACK_LIMIT {
      PutLast(done, m.key, Canonical(m.value));
      var done' := done + [Member(m.key, Canonical(m.value))];
      SeparatorBehindMember(dp, behind, depth, done', m.key);
      if last {
        assert CanonicalMembers(members) == [Member(m.key, Canonical(m.value))];
      } else {
        assert behind[1..] == tail + [125] + rest;
        MembersParse(dp, rp, v, k + 1, done', m.key, rest, depth);
        MoveOne(done, Member(m.key, Canonical(m.value)), CanonicalMembers(members[1..]));
      }
    }
  }

  lemma MemberText(rp: RealPrinter, members: seq<Member>, rest: bytes, behind: bytes)
    requires members != []
    requires behind ==
             if |members| == 1 then [125] + rest else [COMMA] + (RenderMembers(rp, members[1..]) + [125] + rest)
    ensures RenderMembers(rp, members) + [125] + rest ==
            Quoted(members[0].key) + ([COLON] + (Render(rp, members[0].value) + behind))
    ensures |RenderMembers(rp, members)| ==
            |Quoted(members[0].key)| + 1 + |Render(rp, members[0].value)| +
            if |members| == 1 then 0 else 1 + |RenderMembers(rp, members[1..])|
  {
    hide Render, Quoted, RenderMember;
    assert |members| == 1 ==> members[1..] == [];
    var comma := if |members| == 1 then [] else [COMMA];
    Regroup(RenderMember(rp, members[0]), comma, RenderMembers(rp, members[1..]), [125], rest);
    MemberParts(rp, members[0], behind);
  }

  lemma MemberParts(rp: RealPrinter, m: Member, behind: bytes)
    ensures RenderMember(rp, m) + behind == Quoted(m.key) + ([COLON] + (Render(rp, m.value) + behind))
    ensures |RenderMember(rp, m)| == |Quoted(m.key)| + 1 + |Render(rp, m.value)|
  {
    hide Render, Quoted;
  }

  lemma Regroup(a: bytes, b: bytes, c: bytes, d: bytes, e: bytes)
    ensures a + b + c + d + e == a + (b + (c + d + e))
    ensures b == [] && c == [] ==> b + (c + d + e) == d + e
  {
  }

  /** A quoted key and the colon behind it. */
  lemma KeyParses(dp: DoubleParser, key: bytes, tail: bytes, depth: nat, done: seq<Member>, name: bytes)
    ensures ReadMembers(dp, Quoted(key) + ([COLON] + tail), depth, done, name) ==
            Skip(ReadMember(dp, tail, depth, done, key), |Quoted(key)| + 1)
  {
    hide ReadToken, NextToken, ReadMember, Quoted, Unescaped, Recover;
    var q := Quoted(key);
    var s := q + ([COLON] + tail);
    StringTokenOf(key, [COLON] + tail);
    Punctuation(COLON, tail);
    assert s[|q|..] == [COLON] + tail;
    assert s[0..|q|] == q;
    assert s[|q| + 1..] == tail;
  }

  /** The value of a member, once its text is known to be read back. */
  lemma MemberParses(dp: DoubleParser, text: bytes, behind: bytes, depth: nat, done: seq<Member>, key: bytes, v: Value)
    requires ReadValue(dp, text + behind, depth) == Expected(v, |text|, depth)
    ensures ReadMember(dp, text + behind, depth, done, key) ==
            if depth + Height(v) > STACK_LIMIT then TooDeep
            else Skip(AfterMember(dp, behind, depth, Put(done, key, Canonical(v)), key), |text|)
  {
    hide ReadValue, AfterMember;
    assert (text + behind)[|text|..] == behind;
  }

  /** What stands behind a member. */
  lemma SeparatorBehindMember(dp: DoubleParser, behind: bytes, depth: nat, done: seq<Member>, name: bytes)
    requires behind != [] && behind[0] in {COMMA, 125}
    ensures AfterMember(dp, behind, depth, done, name) ==
            if behind[0] == 125 then Parsed(Some(Object(done)), 1)
            else Skip(ReadMembers(dp, behind[1..], depth, done, name), 1)
  {
    hide NextToken, ReadToken, ReadMembers;
    Punctuation(behind[0], behind[1..]);
    assert behind == [behind[0]] + behind[1..];
  }

  // ---------- the theorem ----------

  /** The value of every document that starts with a written value is that value, its integers in
      their canonical type, unless it is nested more than 1000 levels deep; then the reader stops
      with an exception. What follows the line feed does not matter. */
  lemma RoundTrip(dp: DoubleParser, rp: RealPrinter, v: Value, garbage: bytes)
    requires Writable(v)
    ensures var document := Render(rp, v) + [LF] + garbage;
            ReadValue(dp, document, 0) ==
            if Height(v) > STACK_LIMIT then TooDeep else Parsed(Some(Canonical(v)), |Render(rp, v)|)
  {
    var rest := [LF] + garbage;
    assert Render(rp, v) + [LF] + garbage == Render(rp, v) + rest;
    ValueParses(dp, rp, v, rest, 0);
  }

  /** Every integer in the tree has the type the reader gives it. */
  ghost predicate HasReaderTypes(v: Value) {
    match v
    case Int(i) => i <= MAX_INT
    case UInt(u) => u > MAX_INT
    case Array(elems) => forall i | 0 <= i < |elems| :: HasReaderTypes(elems[i])
    case Object(members) => forall i | 0 <= i < |members| :: HasReaderTypes(members[i].value)
    case _ => true
  }

  /** The round trip is exact for exactly those values. */
  lemma {:induction false} CanonicalIsExact(v: Value)
    ensures Canonical(v) == v <==> HasReaderTypes(v)
    decreases v, 1
  {
    match v
    case Array(elems) => CanonicalElemsExact(elems, v);
    case Object(members) => CanonicalMembersExact(members, v);
    case _ =>
  }

  lemma {:induction false} CanonicalElemsExact(elems: seq<Value>, v: Value)
    requires forall e | e in elems :: e < v
    ensures CanonicalElems(elems) == elems <==> forall i | 0 <= i < |elems| :: HasReaderTypes(elems[i])
    decreases v, 0, |elems|
  {
    if elems != [] {
      assert elems[0] in elems && forall e | e in elems[1..] :: e in elems;
      CanonicalIsExact(elems[0]);
      CanonicalElemsExact(elems[1..], v);
      assert elems == [elems[0]] + elems[1..];
      assert CanonicalElems(elems)[1..] == CanonicalElems(elems[1..]);
    }
  }

  lemma {:induction false} CanonicalMembersExact(members: seq<Member>, v: Value)
    requires forall m | m in members :: m.value < v
    ensures CanonicalMembers(members) == members <==> forall i | 0 <= i < |members| :: HasReaderTypes(members[i].value)
    decreases v, 0, |members|
  {
    if members != [] {
      assert members[0] in members && forall m | m in members[1..] :: m in members;
      CanonicalIsExact(members[0].value);
      CanonicalMembersExact(members[1..], v);
      assert members == [members[0]] + members[1..];
      assert CanonicalMembers(members)[1..] == CanonicalMembers(members[1..]);
    }
  }
}
