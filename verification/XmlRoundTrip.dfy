/** The parser inverts rendering, and looking up a path in what it built is looking it up in the tree. */
module XmlRoundTrip {
  import opened Bytes
  import opened XmlGrammar

  // ---------- documents ----------

  /** Elements with the white space in front of each and behind the last. */
  datatype Forest = End(gap: bytes) | Next(gap: bytes, tree: Tree, rest: Forest)
  /** An element, or a tag that closes itself: `<name .../>`, or as a header `<?name ...?>`, in either case
      with a blank in front of its end or not. */
  datatype Tree =
    | Element(name: bytes, attributes: seq<Property>, content: Content)
    | Closed(name: bytes, attributes: seq<Property>, header: bool, blank: bool)
  datatype Content = Text(text: bytes) | Elements(forest: Forest)

  predicate NameChar(c: byte) {
    !IsSpace(c) && c != NUL && c != LT && c != GT && c != SLASH && c != QUOTE && c != BACKSLASH && c != EQUALS &&
        c != QUESTION
  }

  predicate IsName(s: bytes) {
    s != [] && forall i | 0 <= i < |s| :: NameChar(s[i])
  }

  predicate ValueChar(c: byte) {
    c != GT && c != QUOTE && c != BACKSLASH
  }

  predicate IsAttribute(p: Property) {
    IsName(p.0) && forall i | 0 <= i < |p.1| :: ValueChar(p.1[i])
  }

  predicate IsText(t: bytes) {
    (t != [] ==> !IsSpace(t[0])) && forall i | 0 <= i < |t| :: t[i] != LT && t[i] != GT
  }

  predicate IsWhite(g: bytes) {
    forall i | 0 <= i < |g| :: IsSpace(g[i])
  }

  /** No line break directly behind the tag in front of the gap. */
  predicate StartsWell(g: bytes) {
    g != [] ==> !LineBreak(g[0])
  }

  /** A blank or a line break directly in front of the tag behind the gap. */
  predicate EndsWell(g: bytes) {
    g != [] ==> Skipped(g[|g| - 1], true)
  }

  /** Behind a start tag, white space has to end with a line break. */
  predicate IsFirstGap(g: bytes) {
    StartsWell(g) && (g != [] ==> LineBreak(g[|g| - 1]))
  }

  /** A tree with names, attributes and texts that need no escapes, any white space between tags, and a
      blank in front of the end of a tag that closes itself unless it has attributes. */
  predicate Safe(t: Tree) {
    && IsName(t.name)
    && (forall i | 0 <= i < |t.attributes| :: IsAttribute(t.attributes[i]))
    && match t
       case Element(_, _, Text(text)) => IsText(text)
       case Element(_, _, Elements(f)) => SafeForest(f)
       case Closed(_, attributes, _, blank) => attributes != [] || blank
  }

  predicate SafeForest(f: Forest) {
    IsWhite(f.gap) && (f.Next? ==> Safe(f.tree) && SafeForest(f.rest))
  }

  /** Every gap inside a tree is one the parser gets over. */
  predicate Spaced(t: Tree) {
    t.Element? && t.content.Elements? ==> IsFirstGap(t.content.forest.gap) && SpacedForest(t.content.forest)
  }

  /** So is every gap behind an element of the row, and the end of every gap in front of one. Behind a tag
      that closes itself a gap may start with a line break. */
  predicate SpacedForest(f: Forest) {
    f.Next? ==>
      EndsWell(f.gap) && Spaced(f.tree) && (f.tree.Element? ==> StartsWell(f.rest.gap)) && SpacedForest(f.rest)
  }

  function RenderedAttribute(p: Property): (r: bytes)
    ensures |r| == |p.0| + |p.1| + 3
  {
    p.0 + [EQUALS, QUOTE] + p.1 + [QUOTE]
  }

  function RenderedAttributes(attributes: seq<Property>): bytes {
    if attributes == [] then []
    else [SPACE] + RenderedAttribute(attributes[0]) + RenderedAttributes(attributes[1..])
  }

  function EndTag(name: bytes): bytes {
    [LT, SLASH] + name + [GT]
  }

  function StartTag(t: Tree): bytes {
    [LT] + t.name + RenderedAttributes(t.attributes) + [GT]
  }

  /** The character in front of the end of a tag that closes itself. */
  function Term(t: Tree): byte {
    if t.Closed? && t.header then QUESTION else SLASH
  }

  /** Such a tag from its name on. */
  function ClosedTag(t: Tree): bytes
    requires t.Closed?
  {
    t.name + RenderedAttributes(t.attributes) + (if t.blank then [SPACE] else []) + [Term(t), GT]
  }

  function Rendered(t: Tree): bytes {
    match t
    case Element(name, _, content) => StartTag(t) + RenderedContent(content) + EndTag(name)
    case Closed(_, _, header, _) => (if header then [LT, QUESTION] else [LT]) + ClosedTag(t)
  }

  function RenderedContent(c: Content): bytes {
    match c
    case Text(text) => text
    case Elements(f) => RenderedForest(f)
  }

  function RenderedForest(f: Forest): bytes {
    match f
    case End(gap) => gap
    case Next(gap, tree, rest) => gap + Rendered(tree) + RenderedForest(rest)
  }

  /** The attributes, the first of a name first. */
  function Collected(attributes: seq<Property>, properties: map<bytes, bytes>): map<bytes, bytes> {
    if attributes == [] then properties else Collected(attributes[1..], Inserted(properties, attributes[0]))
  }

  /** The node that stands for a tree. */
  function Built(t: Tree, depth: nat): Node {
    Node(t.name,
         if t.Element? && t.content.Text? then t.content.text else [],
         depth,
         Collected(t.attributes, map[]),
         if t.Element? && t.content.Elements? then BuiltForest(t.content.forest, (depth + 1) % 0x1_0000) else [],
         true)
  }

  function BuiltForest(f: Forest, depth: nat): seq<Node> {
    match f
    case End(_) => []
    case Next(_, tree, rest) => [Built(tree, depth)] + BuiltForest(rest, depth)
  }

  // ---------- places in a document ----------

  /** The text stands at the position. */
  ghost predicate Here(cells: bytes, pos: nat, s: bytes) {
    pos + |s| <= |cells| && forall i | 0 <= i < |s| :: cells[pos + i] == s[i]
  }

  lemma HereSplit(cells: bytes, pos: nat, a: bytes, b: bytes)
    requires Here(cells, pos, a + b)
    ensures Here(cells, pos, a) && Here(cells, pos + |a|, b)
  {
    forall i | 0 <= i < |a| ensures cells[pos + i] == a[i] {
      assert (a + b)[i] == a[i];
    }
    forall i | 0 <= i < |b| ensures cells[pos + |a| + i] == b[i] {
      assert (a + b)[|a| + i] == b[i];
      assert cells[pos + (|a| + i)] == b[i];
    }
  }

  lemma HereAt(cells: bytes, pos: nat, s: bytes, i: nat)
    requires Here(cells, pos, s) && i < |s|
    ensures cells[pos + i] == s[i]
  {
  }

  /** A character with one behind it that is no line break can be read and put back. */
  ghost predicate Settled(cells: bytes, q: nat) {
    q + 1 < |cells| && !LineBreak(cells[q + 1])
  }

  lemma UnreadOne(cells: bytes, q: nat)
    requires Settled(cells, q)
    ensures Unread(cells, q + 1) == Done(q)
  {
  }

  lemma Stays(cells: bytes, pos: nat, blanks: bool)
    requires pos < |cells| && !Skipped(cells[pos], blanks)
    ensures SkipTo(cells, pos, blanks) == pos
  {
  }

  lemma NotAhead(cells: bytes, pos: nat, q: nat)
    requires pos <= q < |cells| && !LineBreak(cells[q])
    requires forall i | pos <= i <= q :: cells[i] != GT
    ensures LookAhead(cells, pos) != GT
  {
  }

  // ---------- names and texts ----------

  predicate IsTerm(term: byte) {
    term == SLASH || term == QUESTION || term == NUL
  }

  lemma {:induction false} NameEnd(cells: bytes, pos: nat, q: nat, term: byte)
    requires pos <= q && Settled(cells, q) && (forall i | pos <= i < q :: NameChar(cells[i]))
    requires (cells[q] == GT || cells[q] == SPACE) && IsTerm(term)
    ensures ValueEnd(cells, pos, term, false, false) == Done((q, q))
    decreases q - pos
  {
    hide SkipTo, Unread;
    Stays(cells, pos, false);
    if pos < q {
      NameEnd(cells, pos + 1, q, term);
    } else {
      UnreadOne(cells, q);
    }
  }

  lemma ReadName(cells: bytes, pos: nat, name: bytes, term: byte)
    requires IsName(name) && Here(cells, pos, name) && Settled(cells, pos + |name|)
    requires (cells[pos + |name|] == GT || cells[pos + |name|] == SPACE) && IsTerm(term)
    ensures ReadValue(cells, pos, term, false) == Done((name, pos + |name|))
  {
    hide SkipTo, ValueEnd, SpaceEnd;
    assert cells[pos + 0] == name[0];
    Stays(cells, pos, false);
    forall i | pos <= i < pos + |name| ensures NameChar(cells[i]) {
      assert cells[pos + (i - pos)] == name[i - pos];
    }
    NameEnd(cells, pos, pos + |name|, term);
    assert cells[pos..pos + |name|] == name;
  }

  lemma ValueEndSkips(cells: bytes, pos: nat, term: byte, allowSpaces: bool, quoted: bool)
    requires pos < |cells| && LineBreak(cells[pos])
    ensures ValueEnd(cells, pos, term, allowSpaces, quoted) == ValueEnd(cells, pos + 1, term, allowSpaces, quoted)
  {
  }

  lemma {:induction false} TextEnd(cells: bytes, pos: nat, q: nat, quoted: bool)
    requires pos <= q && Settled(cells, q) && cells[q] == LT
    requires forall i | pos <= i < q :: cells[i] != LT && cells[i] != GT
    ensures ValueEnd(cells, pos, NUL, true, quoted) == Done((q, q))
    decreases q - pos
  {
    hide SkipTo, Unread, LookAhead;
    if pos == q {
      Stays(cells, pos, false);
      UnreadOne(cells, q);
    } else if LineBreak(cells[pos]) {
      ValueEndSkips(cells, pos, NUL, true, quoted);
      TextEnd(cells, pos + 1, q, quoted);
    } else {
      Stays(cells, pos, false);
      NotAhead(cells, pos + 1, q);
      TextEnd(cells, pos + 1, q, if cells[pos] == QUOTE then !quoted else quoted);
    }
  }

  lemma ReadText(cells: bytes, pos: nat, text: bytes)
    requires IsText(text) && text != [] && Here(cells, pos, text)
    requires Settled(cells, pos + |text|) && cells[pos + |text|] == LT
    ensures ReadValue(cells, pos, NUL, true) == Done((text, pos + |text|))
  {
    hide SkipTo, ValueEnd, SpaceEnd;
    assert cells[pos + 0] == text[0];
    Stays(cells, pos, false);
    forall i | pos <= i < pos + |text| ensures cells[i] != LT && cells[i] != GT {
      assert cells[pos + (i - pos)] == text[i - pos];
    }
    TextEnd(cells, pos, pos + |text|, false);
    assert cells[pos..pos + |text|] == text;
  }

  // ---------- attributes ----------

  lemma {:induction false} PropertyName(cells: bytes, pos: nat, k: nat, term: byte)
    requires IsTerm(term) && 0 < pos <= k < |cells| &&
             (forall i | pos <= i < k :: NameChar(cells[i]) || cells[i] == EQUALS)
    ensures PropertyEnd(cells, pos, term, false, false) == PropertyEnd(cells, k, term, false, false)
    decreases k - pos
  {
    hide SkipTo;
    if pos < k {
      Stays(cells, pos, false);
      PropertyName(cells, pos + 1, k, term);
    }
  }

  lemma PropertyEndSkips(cells: bytes, pos: nat, quoted: bool, term: byte)
    requires 0 < pos < |cells| && LineBreak(cells[pos])
    ensures PropertyEnd(cells, pos, term, quoted, false) == PropertyEnd(cells, pos + 1, term, quoted, false)
  {
  }

  lemma {:induction false} PropertyValue(cells: bytes, pos: nat, e: nat, term: byte)
    requires 0 < pos <= e < |cells| && cells[e] == QUOTE && (forall i | pos <= i < e :: ValueChar(cells[i]))
    ensures PropertyEnd(cells, pos, term, true, false) == PropertyEnd(cells, e, term, true, false)
    decreases e - pos
  {
    hide SkipTo, LookAhead;
    if pos < e {
      if LineBreak(cells[pos]) {
        PropertyEndSkips(cells, pos, true, term);
      } else {
        Stays(cells, pos, false);
        NotAhead(cells, pos + 1, e);
      }
      PropertyValue(cells, pos + 1, e, term);
    }
  }

  /** The quotes around a value are passed. */
  lemma PropertyQuote(cells: bytes, pos: nat, quoted: bool, term: byte)
    requires IsTerm(term) && 0 < pos < |cells| && cells[pos] == QUOTE
    ensures PropertyEnd(cells, pos, term, quoted, false) == PropertyEnd(cells, pos + 1, term, !quoted, false)
  {
    hide SkipTo;
    Stays(cells, pos, false);
  }

  /** The end of a tag that can be read and put back. */
  ghost predicate TagStop(cells: bytes, q: nat, term: byte) {
    Settled(cells, q) && (cells[q] == GT || (cells[q] == term && cells[q + 1] == GT))
  }

  /** A property ends at a blank or at the end of the tag. */
  lemma PropertyStops(cells: bytes, pos: nat, term: byte)
    requires IsTerm(term) && 0 < pos && Settled(cells, pos) && (cells[pos] == SPACE || TagStop(cells, pos, term))
    ensures PropertyEnd(cells, pos, term, false, false) == Done((pos, if cells[pos] == SPACE then pos + 1 else pos))
  {
    hide SkipTo, Unread;
    Stays(cells, pos, false);
    if cells[pos] == term {
      Stays(cells, pos + 1, false);
    }
    UnreadOne(cells, pos);
  }

  lemma AttributeParts(p: Property)
    requires IsAttribute(p)
    ensures AsProperty(RenderedAttribute(p)) == p
  {
    var s := RenderedAttribute(p);
    var n := |p.0|;
    assert s[n] == EQUALS && forall i | 0 <= i < n :: s[i] == p.0[i];
    assert FirstEquals(s) == n;
    assert s[..n] == p.0;
    var v := s[n + 1..];
    assert v == [QUOTE] + p.1 + [QUOTE];
    assert v[1..|v| - 1] == p.1;
  }

  /** The characters of an attribute. */
  lemma AttributeCells(cells: bytes, s: nat, p: Property)
    requires IsAttribute(p) && Here(cells, s, RenderedAttribute(p))
    ensures var k, e := s + |p.0| + 1, s + |RenderedAttribute(p)|;
            && e == k + |p.1| + 2 && NameChar(cells[s]) && cells[k] == QUOTE && cells[e - 1] == QUOTE
            && (forall i | s + 1 <= i < k :: NameChar(cells[i]) || cells[i] == EQUALS)
            && (forall i | k + 1 <= i < e - 1 :: ValueChar(cells[i]))
  {
    var k := s + |p.0| + 1;
    assert RenderedAttribute(p) == p.0 + ([EQUALS, QUOTE] + (p.1 + [QUOTE]));
    HereSplit(cells, s, p.0, [EQUALS, QUOTE] + (p.1 + [QUOTE]));
    HereSplit(cells, k - 1, [EQUALS, QUOTE], p.1 + [QUOTE]);
    HereSplit(cells, k + 1, p.1, [QUOTE]);
    HereAt(cells, k - 1, [EQUALS, QUOTE], 0);
    HereAt(cells, k - 1, [EQUALS, QUOTE], 1);
    HereAt(cells, k + 1 + |p.1|, [QUOTE], 0);
    forall i | s <= i < k - 1 ensures NameChar(cells[i]) {
      assert cells[s + (i - s)] == p.0[i - s];
    }
    forall i | k + 1 <= i < k + 1 + |p.1| ensures ValueChar(cells[i]) {
      assert cells[k + 1 + (i - k - 1)] == p.1[i - k - 1];
    }
  }

  lemma OneProperty(cells: bytes, pos: nat, s: nat, p: Property, term: byte)
    requires IsTerm(term) && pos <= |cells| && SkipTo(cells, pos, true) == s
    requires IsAttribute(p) && Here(cells, s, RenderedAttribute(p))
    requires var e := s + |RenderedAttribute(p)|; Settled(cells, e) && (cells[e] == SPACE || TagStop(cells, e, term))
    ensures var e := s + |RenderedAttribute(p)|;
            ParseProperty(cells, pos, term) == Done((Some(p), if cells[e] == SPACE then e + 1 else e))
  {
    hide SkipTo, PropertyEnd, Unread, AsProperty;
    var text := RenderedAttribute(p);
    var k, e := s + |p.0| + 1, s + |text|;
    AttributeCells(cells, s, p);
    PropertyName(cells, s + 1, k, term);
    PropertyQuote(cells, k, false, term);
    PropertyValue(cells, k + 1, e - 1, term);
    PropertyQuote(cells, e - 1, true, term);
    PropertyStops(cells, e, term);
    assert cells[s..e] == text;
    AttributeParts(p);
  }

  /** How a tag ends: with `>`, or with the character of a tag that closes itself in front of that. */
  ghost predicate IsClose(close: bytes, term: byte) {
    close == [GT] || close == [term, GT]
  }

  /** What follows the blank behind a name, up to the end of the tag; if there is no such blank, all that
      follows the name. A blank in front of the end counts as following the last attribute. */
  function Inner(attributes: seq<Property>, blank: bool, close: bytes): (r: bytes)
    ensures |r| >= |close|
  {
    if attributes == [] then close
    else
      RenderedAttribute(attributes[0]) +
      (if |attributes| == 1 then (if blank then [SPACE] else []) + close
          else [SPACE] + Inner(attributes[1..], blank, close))
  }

  function Blanks(blank: bool): bytes {
    if blank then [SPACE] else []
  }

  lemma {:induction false} InnerIsRendered(attributes: seq<Property>, blank: bool, close: bytes)
    ensures RenderedAttributes(attributes) + (Blanks(blank) + close) ==
            Blanks(attributes != [] || blank) + Inner(attributes, blank, close)
  {
    if attributes == [] {
      assert [] + (Blanks(blank) + close) == Blanks(blank) + close;
    } else {
      hide RenderedAttribute;
      InnerIsRendered(attributes[1..], blank, close);
      var a, later := RenderedAttribute(attributes[0]), RenderedAttributes(attributes[1..]);
      assert [SPACE] + a + later + (Blanks(blank) + close) == [SPACE] + (a + (later + (Blanks(blank) + close)));
      if |attributes| == 1 {
        assert later == [] && [] + (Blanks(blank) + close) == Blanks(blank) + close;
      }
    }
  }

  /** The first attribute and where the next one, or the end of the tag, is looked for. */
  lemma FirstProperty(cells: bytes, pos: nat, s: nat, attributes: seq<Property>, blank: bool, close: bytes, term: byte)
    returns (next: nat)
    requires IsTerm(term) && IsClose(close, term)
    requires attributes != [] && forall i | 0 <= i < |attributes| :: IsAttribute(attributes[i])
    requires pos <= |cells| && SkipTo(cells, pos, true) == s && Here(cells, s, Inner(attributes, blank, close))
    requires |attributes| > 1 || TagStop(cells, s + |Inner(attributes, blank, close)| - |close|, term)
    ensures ParseProperty(cells, pos, term) == Done((Some(attributes[0]), next))
    ensures pos < next < |cells| && SkipTo(cells, next, true) == next
    ensures var rest := Inner(attributes[1..], blank, close);
            Here(cells, next, rest) && next + |rest| == s + |Inner(attributes, blank, close)|
  {
    hide SkipTo, ParseProperty, IsAttribute, TagStop;
    var e: nat;
    e, next := InnerParts(cells, s, attributes, blank, close);
    if next > e {
      SpaceThere(cells, e);
    } else {
      StopSettled(cells, e, term);
    }
    OneProperty(cells, pos, s, attributes[0], term);
    Stays(cells, next, true);
  }

  lemma SpaceThere(cells: bytes, e: nat)
    requires e + 1 < |cells| && cells[e] == SPACE && !IsSpace(cells[e + 1])
    ensures Settled(cells, e)
  {
  }

  lemma StopSettled(cells: bytes, e: nat, term: byte)
    requires TagStop(cells, e, term)
    ensures Settled(cells, e)
  {
  }

  lemma InnerUnfolds(attributes: seq<Property>, blank: bool, close: bytes)
    requires attributes != []
    ensures Inner(attributes, blank, close) ==
            RenderedAttribute(attributes[0]) +
            (if |attributes| == 1 then Blanks(blank) + close else [SPACE] + Inner(attributes[1..], blank, close))
    ensures Inner([], blank, close) == close
  {
    hide RenderedAttribute;
  }

  /** The end of the first attribute, and what stands behind the blank that may follow it. */
  lemma InnerParts(cells: bytes, s: nat, attributes: seq<Property>, blank: bool, close: bytes)
    returns (e: nat, next: nat)
    requires close != [] && !IsSpace(close[0])
    requires attributes != [] && forall i | 0 <= i < |attributes| :: IsAttribute(attributes[i])
    requires Here(cells, s, Inner(attributes, blank, close))
    ensures var rest := Inner(attributes[1..], blank, close);
            && Here(cells, s, RenderedAttribute(attributes[0])) && e == s + |RenderedAttribute(attributes[0])|
            && s < e <= next < |cells| && next <= e + 1 && (next > e ==> cells[e] == SPACE) && !IsSpace(cells[next])
            && (next == e ==> |attributes| == 1)
            && Here(cells, next, rest) && next + |rest| == s + |Inner(attributes, blank, close)|
  {
    InnerUnfolds(attributes, blank, close);
    hide RenderedAttribute, IsAttribute, Inner, Here, IsSpace;
    var a, rest := RenderedAttribute(attributes[0]), attributes[1..];
    e := s + |a|;
    if rest == [] {
      HereSplit(cells, s, a, Blanks(blank) + close);
      HereSplit(cells, e, Blanks(blank), close);
      next := e + |Blanks(blank)|;
      HereAt(cells, next, close, 0);
      if blank {
        HereAt(cells, e, [SPACE], 0);
      }
    } else {
      var later := Inner(rest, blank, close);
      HereSplit(cells, s, a, [SPACE] + later);
      HereSplit(cells, e, [SPACE], later);
      HereAt(cells, e, [SPACE], 0);
      assert IsAttribute(rest[0]);
      InnerStart(cells, e + 1, rest, blank, close);
      next := e + 1;
    }
  }

  lemma {:induction false} AllProperties(
    cells: bytes, pos: nat, s: nat, attributes: seq<Property>, blank: bool, close: bytes, term: byte,
    properties: map<bytes, bytes>)
    requires IsTerm(term) && IsClose(close, term) && forall i | 0 <= i < |attributes| :: IsAttribute(attributes[i])
    requires pos <= |cells| && SkipTo(cells, pos, true) == s && Here(cells, s, Inner(attributes, blank, close))
    requires TagStop(cells, s + |Inner(attributes, blank, close)| - |close|, term)
    ensures ParseProperties(cells, pos, term, properties) ==
            Done((Collected(attributes, properties), s + |Inner(attributes, blank, close)| - |close|))
    decreases |attributes|
  {
    hide SkipTo, ParseProperty, IsAttribute, TagStop, IsClose, IsTerm, Here;
    if attributes == [] {
      NoProperty(cells, pos, s, term);
    } else {
      hide Inner;
      var next := FirstProperty(cells, pos, s, attributes, blank, close, term);
      AllProperties(cells, next, next, attributes[1..], blank, close, term, Inserted(properties, attributes[0]));
    }
  }

  lemma InnerStart(cells: bytes, s: nat, attributes: seq<Property>, blank: bool, close: bytes)
    requires attributes != [] && IsAttribute(attributes[0]) && Here(cells, s, Inner(attributes, blank, close))
    ensures s < |cells| && !IsSpace(cells[s])
  {
    assert cells[s + 0] == Inner(attributes, blank, close)[0] == attributes[0].0[0];
  }

  lemma NoProperty(cells: bytes, pos: nat, s: nat, term: byte)
    requires IsTerm(term) && pos <= |cells| && SkipTo(cells, pos, true) == s && TagStop(cells, s, term)
    ensures ParseProperty(cells, pos, term) == Done((None, s))
  {
    hide SkipTo, Unread;
    if cells[s] == term {
      Stays(cells, s + 1, false);
    }
    UnreadOne(cells, s);
  }

  // ---------- gaps and tags ----------

  lemma SpacesEnd(cells: bytes, pos: nat, q: nat)
    requires pos <= q < |cells| && !IsSpace(cells[q]) && forall i | pos <= i < q :: IsSpace(cells[i])
    ensures SpaceEnd(cells, pos) == q
  {
  }

  /** White space is skipped but for its last character. If the gap ends well, the character behind it
      is read next. */
  lemma GapSkipped(cells: bytes, pos: nat, gap: bytes) returns (c: nat)
    requires IsWhite(gap) && Here(cells, pos, gap) && pos + |gap| < |cells| && !IsSpace(cells[pos + |gap|])
    ensures SkipWhite(cells, pos) == Done(c) && SkipWhite(cells, c) == Done(c)
    ensures c == if gap == [] then pos else pos + |gap| - 1
    ensures gap != [] ==> cells[c] == gap[|gap| - 1] && IsSpace(cells[c])
    ensures SkipTo(cells, c, true) == if EndsWell(gap) then pos + |gap| else c
    ensures SkipTo(cells, c, false) == if gap == [] || LineBreak(gap[|gap| - 1]) then pos + |gap| else c
  {
    hide SpaceEnd;
    var q := pos + |gap|;
    forall i | pos <= i < q ensures IsSpace(cells[i]) {
      HereAt(cells, pos, gap, i - pos);
    }
    c := if gap == [] then pos else q - 1;
    SpacesEnd(cells, pos, q);
    SpacesEnd(cells, c, q);
    if gap != [] {
      HereAt(cells, pos, gap, |gap| - 1);
      if EndsWell(gap) {
        Passes(cells, c, true);
      } else {
        Stays(cells, c, true);
      }
      if LineBreak(cells[c]) {
        Passes(cells, c, false);
      } else {
        Stays(cells, c, false);
      }
    } else {
      Stays(cells, q, true);
      Stays(cells, q, false);
    }
  }

  lemma Passes(cells: bytes, pos: nat, blanks: bool)
    requires pos + 1 < |cells| && Skipped(cells[pos], blanks) && !IsSpace(cells[pos + 1])
    ensures SkipTo(cells, pos, blanks) == pos + 1
  {
  }

  /** Where the parts of a tag stand, from its name on. */
  lemma TagCells(cells: bytes, p: nat, name: bytes, attributes: seq<Property>, blank: bool, close: bytes)
    requires Here(cells, p, name + RenderedAttributes(attributes) + Blanks(blank) + close)
    ensures var k, spaced, inner := p + |name|, attributes != [] || blank, Inner(attributes, blank, close);
            var s := if spaced then k + 1 else k;
            && Here(cells, p, name) && Here(cells, s, inner) && (spaced ==> cells[k] == SPACE)
            && s + |inner| == p + |name + RenderedAttributes(attributes) + Blanks(blank) + close|
  {
    hide Inner, RenderedAttributes;
    InnerIsRendered(attributes, blank, close);
    var spaces, inner := Blanks(attributes != [] || blank), Inner(attributes, blank, close);
    assert name + RenderedAttributes(attributes) + Blanks(blank) + close ==
           name + (RenderedAttributes(attributes) + (Blanks(blank) + close));
    HereSplit(cells, p, name, spaces + inner);
    HereSplit(cells, p + |name|, spaces, inner);
    if spaces != [] {
      HereAt(cells, p + |name|, spaces, 0);
    }
  }

  /** The name and the attributes of a tag are read; the cursor stays at its end. */
  lemma TagRead(cells: bytes, p: nat, name: bytes, attributes: seq<Property>, blank: bool, close: bytes, term: byte)
    requires IsTerm(term) && IsClose(close, term) && (attributes == [] && !blank ==> close == [GT])
    requires IsName(name) && forall i | 0 <= i < |attributes| :: IsAttribute(attributes[i])
    requires Here(cells, p, name + RenderedAttributes(attributes) + Blanks(blank) + close)
    requires TagStop(cells, p + |name + RenderedAttributes(attributes) + Blanks(blank) + close| - |close|, term)
    ensures ReadValue(cells, p, term, false) == Done((name, p + |name|))
    ensures var end := p + |name + RenderedAttributes(attributes) + Blanks(blank) + close| - |close|;
            ParseProperties(cells, p + |name|, term, map[]) == Done((Collected(attributes, map[]), end))
  {
    hide ReadValue, ParseProperties, SkipTo, IsAttribute, Inner, RenderedAttributes, Here, IsName;
    TagCells(cells, p, name, attributes, blank, close);
    var k, spaced := p + |name|, attributes != [] || blank;
    var s := if spaced then k + 1 else k;
    InnerFirst(cells, s, attributes, blank, close, term);
    if spaced {
      Passes(cells, k, true);
    } else {
      Stays(cells, k, true);
    }
    ReadName(cells, p, name, term);
    AllProperties(cells, k, s, attributes, blank, close, term, map[]);
  }

  /** A start tag is a tag with nothing in front of its end. */
  lemma StartTagIsTag(cells: bytes, p: nat, t: Tree)
    requires Here(cells, p, StartTag(t))
    ensures Here(cells, p, [LT]) && Here(cells, p + 1, t.name)
    ensures Here(cells, p + 1, t.name + RenderedAttributes(t.attributes) + Blanks(false) + [GT])
    ensures 1 + |t.name + RenderedAttributes(t.attributes) + Blanks(false) + [GT]| == |StartTag(t)|
  {
    assert StartTag(t) == [LT] + (t.name + RenderedAttributes(t.attributes) + Blanks(false) + [GT]);
    HereSplit(cells, p, [LT], t.name + RenderedAttributes(t.attributes) + Blanks(false) + [GT]);
    assert t.name + RenderedAttributes(t.attributes) + Blanks(false) + [GT] ==
           t.name + (RenderedAttributes(t.attributes) + [GT]);
    HereSplit(cells, p + 1, t.name, RenderedAttributes(t.attributes) + [GT]);
  }

  /** A start tag is read; the cursor stays at its end. */
  lemma StartTagRead(cells: bytes, p: nat, t: Tree)
    requires Safe(t) && Here(cells, p, StartTag(t)) && Settled(cells, p + |StartTag(t)| - 1)
    ensures p + 1 < |cells| && LookAhead(cells, p + 1) != SLASH && LookAhead(cells, p + 1) != QUESTION
    ensures ReadValue(cells, p + 1, SLASH, false) == Done((t.name, p + 1 + |t.name|))
    ensures ParseProperties(cells, p + 1 + |t.name|, SLASH, map[]) ==
            Done((Collected(t.attributes, map[]), p + |StartTag(t)| - 1))
    ensures cells[p] == LT && cells[p + |StartTag(t)| - 1] == GT
  {
    hide ReadValue, ParseProperties, SkipTo, IsAttribute, Safe, RenderedAttributes, StartTag, Here;
    SafeTag(t);
    StartTagIsTag(cells, p, t);
    StartTagEnd(cells, p, t);
    HereAt(cells, p, [LT], 0);
    NameThere(cells, p + 1, t.name);
    TagRead(cells, p + 1, t.name, t.attributes, false, [GT], SLASH);
  }

  /** At the start of a name there is neither a slash nor a question mark ahead. */
  lemma NameThere(cells: bytes, p: nat, name: bytes)
    requires IsName(name) && Here(cells, p, name)
    ensures p < |cells| && LookAhead(cells, p) == cells[p] && NameChar(cells[p])
  {
    hide SkipTo;
    assert cells[p + 0] == name[0];
    Stays(cells, p, false);
  }

  lemma SafeTag(t: Tree)
    requires Safe(t)
    ensures IsName(t.name) && NameChar(t.name[0]) && forall i | 0 <= i < |t.attributes| :: IsAttribute(t.attributes[i])
  {
  }

  lemma InnerFirst(cells: bytes, s: nat, attributes: seq<Property>, blank: bool, close: bytes, term: byte)
    requires IsTerm(term) && IsClose(close, term) && forall i | 0 <= i < |attributes| :: IsAttribute(attributes[i])
    requires Here(cells, s, Inner(attributes, blank, close))
    ensures s < |cells| && !IsSpace(cells[s]) &&
            (attributes == [] ==> cells[s] == close[0] && Inner(attributes, blank, close) == close)
  {
    if attributes == [] {
      HereAt(cells, s, close, 0);
    } else {
      InnerStart(cells, s, attributes, blank, close);
    }
  }

  /** An end tag carries the name exactly when no line break follows it; otherwise the last character
      of the name is lost. */
  lemma TailRead(cells: bytes, pos: nat, name: bytes)
    requires IsName(name) && Here(cells, pos, EndTag(name)) && pos + |EndTag(name)| < |cells|
    ensures var end := pos + |EndTag(name)|;
            if LineBreak(cells[end]) then Tail(cells, pos, name).Done? && !Tail(cells, pos, name).value.0
            else Tail(cells, pos, name) == Done((true, end))
  {
    hide ReadValue, SkipTo;
    var q := pos + 2 + |name|;
    assert EndTag(name) == [LT, SLASH] + (name + [GT]);
    HereSplit(cells, pos, [LT, SLASH], name + [GT]);
    HereSplit(cells, pos + 2, name, [GT]);
    HereAt(cells, pos, [LT, SLASH], 0);
    HereAt(cells, pos, [LT, SLASH], 1);
    HereAt(cells, q, [GT], 0);
    Stays(cells, pos, false);
    Stays(cells, pos + 1, false);
    if LineBreak(cells[q + 1]) {
      ReadCutName(cells, pos + 2, name, NUL);
    } else {
      ReadName(cells, pos + 2, name, NUL);
      Stays(cells, q, false);
    }
  }

  lemma {:induction false} CutNameEnd(cells: bytes, pos: nat, q: nat, term: byte)
    requires pos <= q && 0 < q && q + 1 < |cells| && LineBreak(cells[q + 1]) &&
             (forall i | pos <= i < q :: NameChar(cells[i]))
    requires cells[q] == GT && (term == SLASH || term == NUL)
    ensures ValueEnd(cells, pos, term, false, false) == Done((q - 1, q - 1))
    decreases q - pos
  {
    hide SkipTo, Unread;
    Stays(cells, pos, false);
    if pos < q {
      CutNameEnd(cells, pos + 1, q, term);
    } else {
      UnreadTwo(cells, q);
    }
  }

  lemma UnreadTwo(cells: bytes, q: nat)
    requires 0 < q && q + 1 < |cells| && LineBreak(cells[q + 1]) && !LineBreak(cells[q])
    ensures Unread(cells, q + 1) == Done(q - 1)
  {
  }

  lemma ReadCutName(cells: bytes, pos: nat, name: bytes, term: byte)
    requires IsName(name) && Here(cells, pos, name) && pos + |name| + 1 < |cells| && LineBreak(cells[pos + |name| + 1])
    requires cells[pos + |name|] == GT && (term == SLASH || term == NUL)
    ensures ReadValue(cells, pos, term, false) == Done((name[..|name| - 1], pos + |name| - 1))
  {
    hide SkipTo, ValueEnd, SpaceEnd;
    assert cells[pos + 0] == name[0];
    Stays(cells, pos, false);
    forall i | pos <= i < pos + |name| ensures NameChar(cells[i]) {
      assert cells[pos + (i - pos)] == name[i - pos];
    }
    CutNameEnd(cells, pos, pos + |name|, term);
    assert cells[pos..pos + |name| - 1] == name[..|name| - 1];
  }

  // ---------- elements ----------

  /** The end tag of the element around a forest or a text, or the byte behind the document. */
  ghost predicate Stop(cells: bytes, e: nat) {
    e < |cells| && (cells[e] == NUL || (cells[e] == LT && e + 1 < |cells| && cells[e + 1] == SLASH))
  }

  /** A node whose validity and end are those of its end tag. */
  function WithTail(node: Node, tail: Outcome<(bool, nat)>): Outcome<(Node, nat)> {
    match tail
    case Done(v) => Done((node.(valid := v.0), v.1))
    case Undefined => Undefined
    case Endless => Endless
  }

  /** What stands at the start of a row, and behind its first gap. */
  lemma ForestStart(cells: bytes, pos: nat, f: Forest)
    requires SafeForest(f) && Here(cells, pos, RenderedForest(f)) && Stop(cells, pos + |RenderedForest(f)|)
    ensures LineBreak(cells[pos]) <==> !StartsWell(f.gap)
    ensures Here(cells, pos, f.gap) && pos + |f.gap| < |cells|
    ensures var q := pos + |f.gap|;
            !IsSpace(cells[q]) && (cells[q] == LT ==> Settled(cells, q)) &&
            (f.Next? ==> cells[q] == LT && cells[q + 1] != SLASH)
  {
    hide Rendered, Safe;
    if f.gap != [] {
      assert RenderedForest(f)[0] == f.gap[0];
      HereAt(cells, pos, RenderedForest(f), 0);
    }
    if f.Next? {
      RenderedStart(f.tree);
      assert RenderedForest(f) == f.gap + (Rendered(f.tree) + RenderedForest(f.rest));
      HereSplit(cells, pos, f.gap, Rendered(f.tree) + RenderedForest(f.rest));
      HereSplit(cells, pos + |f.gap|, Rendered(f.tree), RenderedForest(f.rest));
      HereAt(cells, pos + |f.gap|, Rendered(f.tree), 0);
      HereAt(cells, pos + |f.gap|, Rendered(f.tree), 1);
    }
  }

  lemma RenderedStart(t: Tree)
    requires Safe(t)
    ensures |Rendered(t)| > 1 && Rendered(t)[0] == LT && !IsSpace(Rendered(t)[1]) && Rendered(t)[1] != SLASH
  {
    match t
    case Element(name, attributes, content) =>
      assert Rendered(t) ==
             [LT] + (name + (RenderedAttributes(attributes) + [GT] + RenderedContent(content) + EndTag(name)));
    case Closed(name, attributes, header, blank) =>
      var behind := RenderedAttributes(attributes) + (if blank then [SPACE] else []) + [Term(t), GT];
      assert Rendered(t) == (if header then [LT, QUESTION] else [LT]) + (name + behind);
  }

  /** The cursor behind skipped white space finds the same node. */
  lemma SameNodes(cells: bytes, pos: nat, c: nat, depth: nat)
    requires pos <= |cells| && c <= |cells| && SkipWhite(cells, pos) == Done(c) && SkipWhite(cells, c) == Done(c)
    ensures ParseNodes(cells, c, depth) == ParseNodes(cells, pos, depth)
  {
    hide SkipWhite, SkipTo, LookAhead, Unread, ReadValue, ParseProperties, ParseContent;
    assert ParseNode(cells, c, depth) == ParseNode(cells, pos, depth);
  }

  /** No element starts here: at an end tag the cursor stays in front of it. */
  lemma NoElement(cells: bytes, pos: nat, gap: bytes, depth: nat)
    requires IsWhite(gap) && Here(cells, pos, gap) && Stop(cells, pos + |gap|)
    ensures var r, e := ParseNodes(cells, pos, depth), pos + |gap|;
            r.Done? && r.value.0 == [] && (cells[e] == LT ==> r.value.1 == e)
  {
    hide SkipWhite, SkipTo, Unread, ReadValue, ParseProperties, ParseContent;
    var e := pos + |gap|;
    var c := GapSkipped(cells, pos, gap);
    if cells[e] == LT && EndsWell(gap) {
      Stays(cells, e + 1, false);
      UnreadOne(cells, e);
    }
  }

  lemma BuiltIsValid(t: Tree, depth: nat)
    ensures Built(t, depth).valid
  {
  }

  ghost predicate Rebuilt(r: Outcome<(Node, nat)>, t: Tree, depth: nat) {
    r.Done? && r.value.0 == Built(t, depth)
  }

  ghost predicate ForestRebuilt(r: Outcome<(seq<Node>, nat)>, f: Forest, depth: nat) {
    r.Done? && r.value.0 == BuiltForest(f, depth)
  }

  /** A row is rebuilt if its first element and the others are, and not otherwise. */
  lemma RowRebuilt(cells: bytes, pos: nat, f: Forest, depth: nat)
    requires f.Next? && pos <= |cells|
    ensures var node, row := ParseNode(cells, pos, depth), ParseNodes(cells, pos, depth);
            if Rebuilt(node, f.tree, depth) then
              var rest := ParseNodes(cells, node.value.1, depth);
              && (ForestRebuilt(row, f, depth) <==> ForestRebuilt(rest, f.rest, depth))
              && (ForestRebuilt(row, f, depth) ==> row.Done? && rest.Done? && row.value.1 == rest.value.1)
            else !ForestRebuilt(row, f, depth)
  {
    hide ParseNode, Built;
    BuiltIsValid(f.tree, depth);
    var built := BuiltForest(f, depth);
    assert built[0] == Built(f.tree, depth) && built[1..] == BuiltForest(f.rest, depth);
    var row := ParseNodes(cells, pos, depth);
    var node := ParseNode(cells, pos, depth);
    if node.Done? && node.value.0.valid && row.Done? {
      var rest := ParseNodes(cells, node.value.1, depth);
      assert row.value.0 == [node.value.0] + rest.value.0;
      assert row.value.0[0] == node.value.0 && row.value.0[1..] == rest.value.0;
    }
  }

  lemma RowParts(f: Forest)
    requires f.Next? && SafeForest(f)
    ensures RenderedForest(f) == f.gap + Rendered(f.tree) + RenderedForest(f.rest)
    ensures IsWhite(f.gap) && Safe(f.tree) && SafeForest(f.rest)
    ensures SpacedForest(f) <==>
            EndsWell(f.gap) && Spaced(f.tree) && (f.tree.Element? ==> StartsWell(f.rest.gap)) && SpacedForest(f.rest)
  {
  }

  /** A row of elements is rebuilt if and only if it is well spaced; the cursor then stands at the end
      tag around it. */
  lemma {:induction false} ForestParses(cells: bytes, pos: nat, f: Forest, depth: nat)
    requires SafeForest(f) && Here(cells, pos, RenderedForest(f)) && Stop(cells, pos + |RenderedForest(f)|)
    ensures var r, e := ParseNodes(cells, pos, depth), pos + |RenderedForest(f)|;
            && (ForestRebuilt(r, f, depth) <==> SpacedForest(f))
            && (SpacedForest(f) && cells[e] == LT ==> r.value.1 == e)
    decreases f, 0
  {
    hide ParseNode, ParseNodes, Rendered, Built, BuiltForest, Spaced, Safe, SafeForest, SpacedForest,
         RenderedForest, Here, Stop, IsWhite, EndsWell, StartsWell, Rebuilt, ForestRebuilt;
    match f
    case End(gap) =>
      EndParts(cells, pos, f, depth);
    case Next(gap, tree, rest) =>
      RowParts(f);
      HereSplit(cells, pos, gap + Rendered(tree), RenderedForest(rest));
      var mid := pos + |gap + Rendered(tree)|;
      ForestStart(cells, mid, rest);
      NodeParses(cells, pos, gap, tree, depth);
      RowRebuilt(cells, pos, f, depth);
      ForestParses(cells, mid, rest, depth);
  }

  /** A row without elements. */
  lemma EndParts(cells: bytes, pos: nat, f: Forest, depth: nat)
    requires f.End? && SafeForest(f) && Here(cells, pos, RenderedForest(f)) && Stop(cells, pos + |RenderedForest(f)|)
    ensures var r, e := ParseNodes(cells, pos, depth), pos + |RenderedForest(f)|;
            SpacedForest(f) && ForestRebuilt(r, f, depth) && r.Done? && (cells[e] == LT ==> r.value.1 == e)
  {
    hide ParseNodes, Here;
    NoElement(cells, pos, f.gap, depth);
  }

  predicate SafeContent(c: Content) {
    match c
    case Text(text) => IsText(text)
    case Elements(f) => SafeForest(f)
  }

  predicate SpacedContent(c: Content) {
    c.Elements? ==> IsFirstGap(c.forest.gap) && SpacedForest(c.forest)
  }

  /** The body read is the one of the element, and the cursor stands behind it. */
  ghost predicate BodyRebuilt(r: Outcome<(bytes, seq<Node>, nat)>, c: Content, depth: nat) {
    && r.Done?
    && r.value.0 == (if c.Text? then c.text else [])
    && r.value.1 == (if c.Elements? then BuiltForest(c.forest, (depth + 1) % 0x1_0000) else [])
  }

  /** White space behind a start tag that does not end with a line break: its last character is read
      as the value of the element, and no element is. */
  lemma BlankBecomesValue(cells: bytes, b: nat, gap: bytes, depth: nat)
    requires IsWhite(gap) && gap != [] && !LineBreak(gap[|gap| - 1]) && Here(cells, b, gap)
    requires var q := b + |gap|; Settled(cells, q) && cells[q] == LT
    ensures ParseBody(cells, b, depth) == Done(([gap[|gap| - 1]], [], b + |gap|))
  {
    hide SkipWhite, SkipTo, ParseNodes, ValueEnd;
    var q := b + |gap|;
    var c := GapSkipped(cells, b, gap);
    TextEnd(cells, c, q, false);
    assert cells[c..q] == [gap[|gap| - 1]];
  }

  /** A text is read as the value. */
  lemma TextBody(cells: bytes, b: nat, text: bytes, depth: nat)
    requires IsText(text) && Here(cells, b, text) && Stop(cells, b + |text|) && cells[b + |text|] == LT
    ensures var r := ParseBody(cells, b, depth); BodyRebuilt(r, Text(text), depth) && r.value.2 == b + |text|
  {
    hide SkipWhite, SkipTo, ReadValue, ParseNodes;
    if text == [] {
      Stays(cells, b, false);
      NotSpace(cells, b);
      NoElement(cells, b, [], (depth + 1) % 0x1_0000);
    } else {
      HereAt(cells, b, text, 0);
      NotSpace(cells, b);
      Stays(cells, b, false);
      ReadText(cells, b, text);
    }
  }

  /** What stands between a start tag and its end tag is rebuilt if and only if it is well spaced. */
  lemma {:induction false} BodyRead(cells: bytes, b: nat, c: Content, depth: nat)
    requires SafeContent(c) && (c.Elements? ==> StartsWell(c.forest.gap))
    requires var e := b + |RenderedContent(c)|; Here(cells, b, RenderedContent(c)) && Stop(cells, e) && cells[e] == LT
    ensures var r := ParseBody(cells, b, depth);
            && (BodyRebuilt(r, c, depth) <==> SpacedContent(c))
            && (SpacedContent(c) ==> r.value.2 == b + |RenderedContent(c)|)
    decreases c, 1
  {
    hide SkipWhite, SkipTo, ReadValue, ParseNodes, RenderedForest, SpacedForest, BuiltForest;
    match c
    case Text(text) => TextBody(cells, b, text, depth);
    case Elements(f) =>
      ForestStart(cells, b, f);
      EndIsTag(cells, b, f);
      if IsFirstGap(f.gap) {
        var white := GapSkipped(cells, b, f.gap);
        ForestParses(cells, b, f, (depth + 1) % 0x1_0000);
        SameNodes(cells, b, white, (depth + 1) % 0x1_0000);
      } else {
        BlankBecomesValue(cells, b, f.gap, depth);
      }
  }

  /** Behind the first gap of a row inside an element there is a tag. */
  lemma EndIsTag(cells: bytes, b: nat, f: Forest)
    requires SafeForest(f) && Here(cells, b, RenderedForest(f))
    requires var e := b + |RenderedForest(f)|; Stop(cells, e) && cells[e] == LT
    ensures b + |f.gap| < |cells| && cells[b + |f.gap|] == LT
  {
    ForestStart(cells, b, f);
  }

  lemma NotSpace(cells: bytes, pos: nat)
    requires pos < |cells| && !IsSpace(cells[pos])
    ensures SkipWhite(cells, pos) == Done(pos)
  {
  }

  /** What stands behind a start tag: a line break only if the first gap starts with one. */
  lemma ContentStart(cells: bytes, b: nat, t: Tree)
    requires t.Element? && Safe(t) && Here(cells, b, RenderedContent(t.content)) &&
             Here(cells, b + |RenderedContent(t.content)|, EndTag(t.name))
    ensures LineBreak(cells[b]) <==> t.content.Elements? && !StartsWell(t.content.forest.gap)
    ensures var e := b + |RenderedContent(t.content)|; Stop(cells, e) && cells[e] == LT
  {
    hide RenderedForest, SafeForest;
    var e := b + |RenderedContent(t.content)|;
    HereAt(cells, e, EndTag(t.name), 0);
    HereAt(cells, e, EndTag(t.name), 1);
    match t.content
    case Text(text) =>
      if text != [] {
        HereAt(cells, b, text, 0);
      }
    case Elements(f) => ForestStart(cells, b, f);
  }

  /** Where the parts of an element stand. */
  lemma ElementCells(cells: bytes, pos: nat, gap: bytes, t: Tree)
    requires t.Element? && Safe(t) && Here(cells, pos, gap + Rendered(t))
    ensures var p := pos + |gap|;
            var b := p + |StartTag(t)|;
            var e := b + |RenderedContent(t.content)|;
            && Here(cells, pos, gap) && Here(cells, p, StartTag(t)) && Here(cells, b, RenderedContent(t.content))
            && Here(cells, e, EndTag(t.name)) && e + |EndTag(t.name)| == pos + |gap + Rendered(t)|
            && |StartTag(t)| > 1 && cells[p] == LT && cells[b - 1] == GT
  {
    hide RenderedContent, EndTag;
    var p := pos + |gap|;
    var b := p + |StartTag(t)|;
    HereSplit(cells, pos, gap, Rendered(t));
    HereSplit(cells, p, StartTag(t) + RenderedContent(t.content), EndTag(t.name));
    HereSplit(cells, p, StartTag(t), RenderedContent(t.content));
    StartTagEnd(cells, p, t);
    assert StartTag(t)[0] == LT;
    HereAt(cells, p, StartTag(t), 0);
  }

  /** A node is its start tag and what comes behind it. */
  lemma NodeHead(cells: bytes, pos: nat, gap: bytes, t: Tree, depth: nat)
    requires Safe(t) && IsWhite(gap) && EndsWell(gap) && Here(cells, pos, gap) && Here(cells, pos + |gap|, StartTag(t))
    requires var q := pos + |gap| + |StartTag(t)| - 1; 0 <= q && Settled(cells, q)
    ensures var q := pos + |gap| + |StartTag(t)| - 1;
            ParseNode(cells, pos, depth) == ParseContent(cells, q, depth, SLASH, t.name, Collected(t.attributes, map[]))
  {
    hide SkipWhite, SkipTo, LookAhead, ReadValue, ParseProperties, ParseContent, StartTag, Safe, Collected, Here;
    StartTagRead(cells, pos + |gap|, t);
    var c := GapSkipped(cells, pos, gap);
  }

  /** A node with a body read and the end tag behind it. */
  function Assembled(cells: bytes, name: bytes, depth: nat, properties: map<bytes, bytes>,
    body: Outcome<(bytes, seq<Node>, nat)>): Outcome<(Node, nat)>
    requires body.Done? ==> body.value.2 <= |cells|
  {
    match body
    case Done(v) => WithTail(Node(name, v.0, depth, properties, v.1, true), Tail(cells, v.2, name))
    case Undefined => Undefined
    case Endless => Endless
  }

  /** From the end of the start tag on, a node is its body and its end tag. */
  lemma ContentRead(cells: bytes, q: nat, depth: nat, name: bytes, properties: map<bytes, bytes>)
    requires q < |cells| && cells[q] == GT
    ensures ParseContent(cells, q, depth, SLASH, name, properties) ==
            Assembled(cells, name, depth, properties, ParseBody(cells, q + 1, depth))
  {
    hide SkipWhite, SkipTo, ParseBody, Tail;
    NotSpace(cells, q);
    Stays(cells, q, false);
  }

  /** An element is rebuilt if and only if its body is and its end tag is read. */
  lemma RebuiltFromBody(cells: bytes, t: Tree, depth: nat, body: Outcome<(bytes, seq<Node>, nat)>)
    requires t.Element? && (body.Done? ==> body.value.2 <= |cells|)
    ensures var r := Assembled(cells, t.name, depth, Collected(t.attributes, map[]), body);
            && (Rebuilt(r, t, depth) <==>
                BodyRebuilt(body, t.content, depth) &&
                var tail := Tail(cells, body.value.2, t.name);
                tail.Done? && tail.value.0)
            && (Rebuilt(r, t, depth) ==> r.value.1 == Tail(cells, body.value.2, t.name).value.1)
  {
    hide BuiltForest, Collected, Tail;
  }

  /** An element is its body and its end tag, if the white space in front of it is in order and no line
      break stands behind its start tag. */
  lemma NodeFromParts(cells: bytes, pos: nat, gap: bytes, t: Tree, depth: nat) returns (b: nat, e: nat)
    requires t.Element? && Safe(t) && IsWhite(gap) && EndsWell(gap) && Here(cells, pos, gap + Rendered(t)) &&
             pos + |gap + Rendered(t)| < |cells|
    requires t.content.Elements? ==> StartsWell(t.content.forest.gap)
    ensures e == b + |RenderedContent(t.content)| && e + |EndTag(t.name)| == pos + |gap + Rendered(t)|
    ensures Here(cells, b, RenderedContent(t.content)) && Here(cells, e, EndTag(t.name))
    ensures Stop(cells, e) && cells[e] == LT
    ensures ParseNode(cells, pos, depth) ==
            Assembled(cells, t.name, depth, Collected(t.attributes, map[]), ParseBody(cells, b, depth))
  {
    hide Here, ParseNode, ParseContent, ParseBody, StartTag, EndTag, RenderedContent, Rendered, Safe, Collected,
         Assembled, StartsWell, EndsWell, IsWhite, Stop;
    ElementCells(cells, pos, gap, t);
    b := pos + |gap| + |StartTag(t)|;
    e := b + |RenderedContent(t.content)|;
    ContentStart(cells, b, t);
    NodeHead(cells, pos, gap, t, depth);
    ContentRead(cells, b - 1, depth, t.name, Collected(t.attributes, map[]));
  }

  /** Such an element is rebuilt if and only if it is well spaced and no line break follows it. */
  lemma {:induction false} NodeFromBody(cells: bytes, pos: nat, gap: bytes, t: Tree, depth: nat)
    requires t.Element? && Safe(t) && IsWhite(gap) && EndsWell(gap) && Here(cells, pos, gap + Rendered(t)) &&
             pos + |gap + Rendered(t)| < |cells|
    requires t.content.Elements? ==> StartsWell(t.content.forest.gap)
    ensures var r, end := ParseNode(cells, pos, depth), pos + |gap + Rendered(t)|;
            && (Rebuilt(r, t, depth) <==> Spaced(t) && !LineBreak(cells[end]))
            && (Rebuilt(r, t, depth) ==> r.value.1 == end)
    decreases t, 2
  {
    hide Here, ParseNode, ParseBody, Tail, EndTag, RenderedContent, Rendered, Safe, SafeContent, Spaced,
         SpacedContent, IsName, StartsWell, EndsWell, IsWhite, Collected, Rebuilt, BodyRebuilt, Stop, Assembled;
    var b, e := NodeFromParts(cells, pos, gap, t, depth);
    SafeParts(t);
    BodyRead(cells, b, t.content, depth);
    TailRead(cells, e, t.name);
    RebuiltFromBody(cells, t, depth, ParseBody(cells, b, depth));
  }

  lemma NotRebuilt(r: Outcome<(Node, nat)>, t: Tree, depth: nat)
    ensures r.Done? && r.value.0 == Built(t, depth) ==> Rebuilt(r, t, depth)
    ensures !r.Done? ==> !Rebuilt(r, t, depth)
    ensures r.Done? && !r.value.0.valid ==> !Rebuilt(r, t, depth)
  {
  }

  lemma SafeParts(t: Tree)
    requires t.Element? && Safe(t)
    ensures IsName(t.name) && SafeContent(t.content) && (Spaced(t) <==> SpacedContent(t.content))
  {
  }

  /** Where the white space in front of an element does not end well, no element is read. */
  lemma NoNodeHere(cells: bytes, pos: nat, gap: bytes, depth: nat)
    requires IsWhite(gap) && !EndsWell(gap) && Here(cells, pos, gap) && pos + |gap| < |cells| &&
             !IsSpace(cells[pos + |gap|])
    ensures ParseNode(cells, pos, depth) == Done((NoNode(depth), pos + |gap|))
  {
    hide SkipWhite, SkipTo, LookAhead, ReadValue, ParseProperties, ParseContent;
    var c := GapSkipped(cells, pos, gap);
  }

  /** An element, with any white space in front of it and between its tags, is rebuilt if and only if
      the parser gets over every gap and no line break directly follows the end tag. */
  lemma {:induction false} NodeParses(cells: bytes, pos: nat, gap: bytes, t: Tree, depth: nat)
    requires Safe(t) && IsWhite(gap) && Here(cells, pos, gap + Rendered(t)) && pos + |gap + Rendered(t)| < |cells|
    ensures var r, end := ParseNode(cells, pos, depth), pos + |gap + Rendered(t)|;
            && (Rebuilt(r, t, depth) <==> EndsWell(gap) && Spaced(t) && (t.Element? ==> !LineBreak(cells[end])))
            && (Rebuilt(r, t, depth) ==> r.value.1 == end)
    decreases t, 3
  {
    hide ParseNode, StartTag, EndTag, RenderedContent, Rendered, SafeForest, SpacedForest, Rebuilt, ParseBody;
    NotRebuilt(ParseNode(cells, pos, depth), t, depth);
    HereSplit(cells, pos, gap, Rendered(t));
    RenderedStart(t);
    HereAt(cells, pos + |gap|, Rendered(t), 0);
    if !EndsWell(gap) {
      NoNodeHere(cells, pos, gap, depth);
    } else if t.Closed? {
      ClosedParses(cells, pos, gap, t, depth);
    } else if t.content.Elements? && !StartsWell(t.content.forest.gap) {
      ElementCells(cells, pos, gap, t);
      ContentStart(cells, pos + |gap| + |StartTag(t)|, t);
      NodeHangs(cells, pos, gap, t, depth);
    } else {
      NodeFromBody(cells, pos, gap, t, depth);
    }
  }

  /** A tag that closes itself is rebuilt, whatever follows it. */
  lemma ClosedParses(cells: bytes, pos: nat, gap: bytes, t: Tree, depth: nat)
    requires t.Closed? && Safe(t) && IsWhite(gap) && EndsWell(gap) && Here(cells, pos, gap + Rendered(t))
    ensures ParseNode(cells, pos, depth) == Done((Built(t, depth), pos + |gap + Rendered(t)|))
  {
    hide SkipWhite, SkipTo, LookAhead, ReadValue, ParseProperties, ParseContent, ClosedTag, Here;
    ClosedTagRead(cells, pos + |gap|, t) by {
      HereSplit(cells, pos, gap, Rendered(t));
    }
    HereSplit(cells, pos, gap, Rendered(t));
    var c := GapSkipped(cells, pos, gap);
    ClosedContent(cells, pos + |gap + Rendered(t)| - 2, depth, Term(t), t.name, Collected(t.attributes, map[]));
  }

  /** Where such a tag leads the parser: to its end, with its name and attributes read. */
  lemma ClosedTagRead(cells: bytes, p: nat, t: Tree)
    requires t.Closed? && Safe(t) && Here(cells, p, Rendered(t))
    ensures p + 1 < |cells| && cells[p] == LT && LookAhead(cells, p + 1) != SLASH
    ensures LookAhead(cells, p + 1) == QUESTION <==> t.header
    ensures t.header ==> Consume(cells, p + 1) == p + 2
    ensures var k, e := p + (if t.header then 2 else 1), p + |Rendered(t)|;
            && k + |t.name| < e <= |cells| && cells[e - 2] == Term(t) && cells[e - 1] == GT
            && ReadValue(cells, k, Term(t), false) == Done((t.name, k + |t.name|))
            && ParseProperties(cells, k + |t.name|, Term(t), map[]) == Done((Collected(t.attributes, map[]), e - 2))
  {
    hide ReadValue, ParseProperties, SkipTo, IsAttribute, RenderedAttributes, Here, ClosedTag, Rendered, Safe,
         IsName;
    SafeTag(t);
    var open := if t.header then [LT, QUESTION] else [LT];
    var k, close := p + |open|, [Term(t), GT];
    ClosedCells(cells, p, t);
    HereAt(cells, p, open, 0);
    NameThere(cells, k, t.name);
    if t.header {
      HereAt(cells, p, open, 1);
      Stays(cells, p + 1, false);
    }
    TagRead(cells, k, t.name, t.attributes, t.blank, close, Term(t));
  }

  /** Where its parts stand. */
  lemma ClosedCells(cells: bytes, p: nat, t: Tree)
    requires t.Closed? && Safe(t) && Here(cells, p, Rendered(t))
    ensures var open := if t.header then [LT, QUESTION] else [LT];
            var tag := t.name + RenderedAttributes(t.attributes) + Blanks(t.blank) + [Term(t), GT];
            var e := p + |Rendered(t)|;
            && Here(cells, p, open) && Here(cells, p + |open|, t.name) && Here(cells, p + |open|, tag)
            && e == p + |open| + |tag| <= |cells| && cells[e - 2] == Term(t) && cells[e - 1] == GT
            && p + |open| + |t.name| < e && (t.attributes != [] || t.blank)
  {
    var open, close := if t.header then [LT, QUESTION] else [LT], [Term(t), GT];
    var k := p + |open|;
    var front := t.name + RenderedAttributes(t.attributes) + Blanks(t.blank);
    assert ClosedTag(t) == front + close && Rendered(t) == open + ClosedTag(t);
    hide RenderedAttributes, Here, ClosedTag, Rendered, Blanks, Term, IsAttribute, IsName;
    assert front == t.name + (RenderedAttributes(t.attributes) + Blanks(t.blank));
    HereSplit(cells, p, open, ClosedTag(t));
    HereSplit(cells, k, front, close);
    HereSplit(cells, k, t.name, RenderedAttributes(t.attributes) + Blanks(t.blank));
    HereAt(cells, k + |front|, close, 0);
    HereAt(cells, k + |front|, close, 1);
  }

  /** At the end of such a tag the node is complete. */
  lemma ClosedContent(cells: bytes, g: nat, depth: nat, term: byte, name: bytes, properties: map<bytes, bytes>)
    requires IsTerm(term) && term != NUL && g + 1 < |cells| && cells[g] == term && cells[g + 1] == GT
    ensures ParseContent(cells, g, depth, term, name, properties) ==
            Done((Node(name, [], depth, properties, [], true), g + 2))
  {
    hide SkipWhite, SkipTo, ParseBody, Tail;
    NotSpace(cells, g);
    Stays(cells, g, false);
    Stays(cells, g + 1, false);
  }

  /** A tag that closes itself directly behind its name, with no line break behind it, is taken for a
      start tag. */
  lemma BareTagIsStartTag(cells: bytes, pos: nat, gap: bytes, name: bytes, depth: nat)
    requires IsName(name) && IsWhite(gap) && EndsWell(gap) && Here(cells, pos, gap + ([LT] + name + [SLASH, GT]))
    requires Settled(cells, pos + |gap| + |name| + 2)
    ensures ParseNode(cells, pos, depth) == ParseContent(cells, pos + |gap| + |name| + 2, depth, SLASH, name, map[])
  {
    hide SkipWhite, SkipTo, LookAhead, ReadValue, ParseProperties, ParseContent, Here, IsName, EndsWell, IsWhite,
         IsSpace;
    var p, q := pos + |gap|, pos + |gap| + |name| + 2;
    HereSplit(cells, pos, gap, [LT] + name + [SLASH, GT]);
    BareTagCells(cells, p, name);
    NameThere(cells, p + 1, name);
    ReadBareName(cells, p + 1, name);
    NoPropertiesAt(cells, q);
    var c := GapSkipped(cells, pos, gap);
  }

  lemma BareTagCells(cells: bytes, p: nat, name: bytes)
    requires Here(cells, p, [LT] + name + [SLASH, GT])
    ensures var q := p + |name| + 2;
            && q < |cells| && cells[p] == LT && !IsSpace(cells[p]) && Here(cells, p + 1, name)
            && cells[q - 1] == SLASH && cells[q] == GT
  {
    var q := p + |name| + 2;
    HereSplit(cells, p, [LT] + name, [SLASH, GT]);
    HereSplit(cells, p, [LT], name);
    HereAt(cells, p, [LT], 0);
    HereAt(cells, q - 1, [SLASH, GT], 0);
    HereAt(cells, q - 1, [SLASH, GT], 1);
  }

  lemma NoPropertiesAt(cells: bytes, q: nat)
    requires Settled(cells, q) && cells[q] == GT
    ensures ParseProperties(cells, q, SLASH, map[]) == Done((map[], q))
  {
    hide SkipTo, ParseProperty;
    Stays(cells, q, true);
    NoProperty(cells, q, q, SLASH);
  }

  lemma ReadBareName(cells: bytes, p: nat, name: bytes)
    requires IsName(name) && Here(cells, p, name) && p + |name| + 1 < |cells|
    requires cells[p + |name|] == SLASH && cells[p + |name| + 1] == GT
    ensures ReadValue(cells, p, SLASH, false) == Done((name, p + |name| + 1))
  {
    hide SkipTo, ValueEnd, SpaceEnd;
    HereAt(cells, p, name, 0);
    Stays(cells, p, false);
    forall i | p <= i < p + |name| ensures NameChar(cells[i]) {
      HereAt(cells, p, name, i - p);
    }
    BareNameEnd(cells, p, p + |name|);
    assert cells[p..p + |name|] == name;
  }

  lemma {:induction false} BareNameEnd(cells: bytes, p: nat, q: nat)
    requires p <= q && q + 1 < |cells| && cells[q] == SLASH && cells[q + 1] == GT &&
             forall i | p <= i < q :: NameChar(cells[i])
    ensures ValueEnd(cells, p, SLASH, false, false) == Done((q, q + 1))
    decreases q - p
  {
    hide SkipTo, Unread;
    Stays(cells, p, false);
    if p < q {
      BareNameEnd(cells, p + 1, q);
    } else {
      Stays(cells, q + 1, false);
    }
  }

  /** An element with white space behind its start tag that does not end with a line break: the last
      white space character becomes its value, its children are not read, and if it has any it is
      not valid. */
  lemma BlankFirstGap(cells: bytes, pos: nat, gap: bytes, t: Tree, depth: nat)
    requires t.Element? && Safe(t) && IsWhite(gap) && EndsWell(gap) && Here(cells, pos, gap + Rendered(t))
    requires t.content.Elements?
    requires var g := t.content.forest.gap; g != [] && StartsWell(g) && !LineBreak(g[|g| - 1])
    ensures var r, f := ParseNode(cells, pos, depth), t.content.forest;
            && (r.Done? ==> r.value.0.value == [f.gap[|f.gap| - 1]] && r.value.0.nodes == [])
            && (f.Next? ==> r.Done? && !r.value.0.valid)
  {
    hide ParseNode, ParseContent, ParseBody, StartTag, EndTag, RenderedForest, Rendered, SafeForest, Collected,
         Tail;
    var f, b := t.content.forest, pos + |gap| + |StartTag(t)|;
    ElementCells(cells, pos, gap, t);
    ContentStart(cells, b, t);
    NodeHead(cells, pos, gap, t, depth);
    ContentRead(cells, b - 1, depth, t.name, Collected(t.attributes, map[]));
    WhiteRow(f);
    ForestStart(cells, b, f);
    EndIsTag(cells, b, f);
    BlankBecomesValue(cells, b, f.gap, depth);
    if f.Next? {
      NotATail(cells, b + |f.gap|, t.name);
    }
  }

  lemma WhiteRow(f: Forest)
    requires SafeForest(f)
    ensures IsWhite(f.gap)
  {
  }

  /** A start tag is no end tag. */
  lemma NotATail(cells: bytes, q: nat, name: bytes)
    requires Settled(cells, q) && cells[q] == LT && cells[q + 1] != SLASH
    ensures Tail(cells, q, name).Done? && !Tail(cells, q, name).value.0
  {
    hide SkipTo, ReadValue;
    Stays(cells, q, false);
    Stays(cells, q + 1, false);
  }

  /** A document is parsed into the nodes that stand for its trees if and only if it is well spaced. */
  lemma ParseInverts(f: Forest)
    requires SafeForest(f)
    ensures ParseDocument(RenderedForest(f) + [NUL]) == Done(BuiltForest(f, 0)) <==> SpacedForest(f)
  {
    hide ParseNodes, RenderedForest, BuiltForest, SpacedForest;
    var cells := RenderedForest(f) + [NUL];
    ForestParses(cells, 0, f, 0);
  }

  // ---------- line breaks behind start tags ----------

  /** The end of a tag with a line break behind it is put back together with the character before it. */
  ghost predicate Unsettled(cells: bytes, q: nat) {
    0 < q && q + 1 < |cells| && cells[q] == GT && LineBreak(cells[q + 1])
  }

  lemma StopsShort(cells: bytes, q: nat)
    requires Unsettled(cells, q)
    ensures PropertyEnd(cells, q, SLASH, false, false) == Done((q, q - 1))
  {
    hide SkipTo, Unread;
    Stays(cells, q, false);
    UnreadTwo(cells, q);
  }

  /** From the character before the end of the tag on, the same property is read again and again. */
  lemma Stuck(cells: bytes, q: nat, properties: map<bytes, bytes>)
    requires Unsettled(cells, q) && !IsSpace(cells[q - 1]) && cells[q - 1] != GT && cells[q - 1] != SLASH
    ensures ParseProperties(cells, q - 1, SLASH, properties) == Endless
  {
    hide SkipTo, PropertyEnd;
    Stays(cells, q - 1, true);
    StopsShort(cells, q);
  }

  /** The last property of such a tag, and where it leaves the cursor. */
  lemma LastProperty(cells: bytes, pos: nat, s: nat, p: Property)
    requires pos <= |cells| && SkipTo(cells, pos, true) == s && IsAttribute(p) && Here(cells, s, RenderedAttribute(p))
    requires Unsettled(cells, s + |RenderedAttribute(p)|)
    ensures var e := s + |RenderedAttribute(p)|;
            cells[e - 1] == QUOTE && ParseProperty(cells, pos, SLASH) == Done((Some(p), e - 1))
  {
    hide SkipTo, PropertyEnd, Unread, AsProperty;
    var text := RenderedAttribute(p);
    var k, e := s + |p.0| + 1, s + |text|;
    AttributeCells(cells, s, p);
    PropertyName(cells, s + 1, k, SLASH);
    PropertyQuote(cells, k, false, SLASH);
    PropertyValue(cells, k + 1, e - 1, SLASH);
    PropertyQuote(cells, e - 1, true, SLASH);
    StopsShort(cells, e);
    assert cells[s..e] == text;
    AttributeParts(p);
  }

  lemma {:induction false} PropertiesHang(cells: bytes, pos: nat, s: nat, attributes: seq<Property>,
    properties: map<bytes, bytes>)
    requires attributes != [] && forall i | 0 <= i < |attributes| :: IsAttribute(attributes[i])
    requires pos <= |cells| && SkipTo(cells, pos, true) == s
    requires Here(cells, s, Inner(attributes, false, [GT])) &&
             Unsettled(cells, s + |Inner(attributes, false, [GT])| - 1)
    ensures ParseProperties(cells, pos, SLASH, properties) == Endless
    decreases |attributes|
  {
    hide SkipTo, ParseProperty, IsAttribute, RenderedAttribute;
    var added := Inserted(properties, attributes[0]);
    if |attributes| == 1 {
      var a := RenderedAttribute(attributes[0]);
      assert Inner(attributes, false, [GT]) == a + [GT];
      HereSplit(cells, s, a, [GT]);
      LastProperty(cells, pos, s, attributes[0]);
      Stuck(cells, s + |a|, added);
    } else {
      hide Here, Inner;
      var next := FirstProperty(cells, pos, s, attributes, false, [GT], SLASH);
      PropertiesHang(cells, next, next, attributes[1..], added);
    }
  }

  /** What is read of a start tag with a line break behind it. */
  lemma StartTagHangs(cells: bytes, p: nat, t: Tree)
    requires Safe(t) && Here(cells, p, StartTag(t)) && Unsettled(cells, p + |StartTag(t)| - 1)
    ensures p + 1 < |cells| && cells[p] == LT && LookAhead(cells, p + 1) != SLASH && LookAhead(cells, p + 1) != QUESTION
    ensures var name := ReadValue(cells, p + 1, SLASH, false);
            name.Done? && ParseProperties(cells, name.value.1, SLASH, map[]) == Endless
  {
    hide ReadValue, ParseProperties, SkipTo, IsAttribute, Safe, Inner, RenderedAttributes, StartTag, Here;
    SafeTag(t);
    StartTagIsTag(cells, p, t);
    TagCells(cells, p + 1, t.name, t.attributes, false, [GT]);
    var k := p + 1 + |t.name|;
    HereAt(cells, p, [LT], 0);
    NameThere(cells, p + 1, t.name);
    HereAt(cells, p + 1, t.name, |t.name| - 1);
    var s := if t.attributes == [] then k else k + 1;
    InnerFirst(cells, s, t.attributes, false, [GT], SLASH);
    if t.attributes == [] {
      ReadCutName(cells, p + 1, t.name, SLASH);
      Stuck(cells, k, map[]);
    } else {
      Passes(cells, k, true);
      ReadName(cells, p + 1, t.name, SLASH);
      PropertiesHang(cells, k, k + 1, t.attributes, map[]);
    }
  }

  /** A line break directly behind a start tag makes the parser run for ever, wherever the tag stands. */
  lemma NodeHangs(cells: bytes, pos: nat, gap: bytes, t: Tree, depth: nat)
    requires Safe(t) && IsWhite(gap) && EndsWell(gap) && Here(cells, pos, gap) && Here(cells, pos + |gap|, StartTag(t))
    requires var b := pos + |gap| + |StartTag(t)|; b < |cells| && LineBreak(cells[b])
    ensures ParseNode(cells, pos, depth) == Endless
  {
    hide SkipWhite, SkipTo, LookAhead, ReadValue, ParseProperties, ParseContent, StartTag, Safe;
    var p := pos + |gap|;
    StartTagEnd(cells, p, t);
    StartTagHangs(cells, p, t);
    var c := GapSkipped(cells, pos, gap);
  }

  lemma LineBreakHangs(cells: bytes, pos: nat, gap: bytes, t: Tree, depth: nat)
    requires Safe(t) && IsWhite(gap) && EndsWell(gap) && Here(cells, pos, gap + StartTag(t))
    requires pos + |gap + StartTag(t)| < |cells| && LineBreak(cells[pos + |gap + StartTag(t)|])
    ensures ParseNodes(cells, pos, depth) == Endless
    ensures pos == 0 && depth == 0 ==> ParseDocument(cells) == Endless
  {
    hide ParseNode, StartTag, Safe;
    HereSplit(cells, pos, gap, StartTag(t));
    NodeHangs(cells, pos, gap, t, depth);
  }

  lemma StartTagEnd(cells: bytes, p: nat, t: Tree)
    requires Here(cells, p, StartTag(t))
    ensures |StartTag(t)| > 1 && cells[p + |StartTag(t)| - 1] == GT
  {
    HereAt(cells, p, StartTag(t), |StartTag(t)| - 1);
  }
}
