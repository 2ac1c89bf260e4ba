/** What XmlDocument reads from a text (src/components/utilities/XmlDocument.cpp), as functions of the
    position of the shared cursor. The cells of a document are its bytes and the byte behind them,
    which the program reads too. */
module XmlGrammar {
  import opened Bytes

  const QUOTE: byte := 34
  const DOT: byte := 46
  const SLASH: byte := 47
  const LT: byte := 60
  const EQUALS: byte := 61
  const GT: byte := 62
  const QUESTION: byte := 63
  const BACKSLASH: byte := 92

  /** How a step of the parser ends: with a value; outside what the program defines (it reads through
      a null pointer or behind the document, or asks for a string of negative length); or never. */
  datatype Outcome<+T> = Done(value: T) | Undefined | Endless {
    predicate IsFailure() {
      !Done?
    }

    function PropagateFailure<U>(): Outcome<U>
      requires !Done?
    {
      if Undefined? then Undefined else Endless
    }

    function Extract(): T
      requires Done?
    {
      value
    }
  }

  datatype Node =
    Node(name: bytes, value: bytes, depth: nat, properties: map<bytes, bytes>, nodes: seq<Node>, valid: bool)

  /** What parseNode returns when no node starts at the cursor. */
  function NoNode(depth: nat): Node {
    Node([], [], depth, map[], [], false)
  }

  predicate IsSpace(c: byte) {
    9 <= c <= 13 || c == SPACE
  }

  predicate LineBreak(c: byte) {
    c == LF || c == CR
  }

  predicate Skipped(c: byte, blanks: bool) {
    LineBreak(c) || (blanks && c == SPACE)
  }

  // ---------- the cursor ----------

  /** Where the next `read` finds its character, or the end of the cells. */
  function SkipTo(cells: bytes, pos: nat, blanks: bool): (p: nat)
    requires pos <= |cells|
    ensures pos <= p <= |cells|
    ensures p < |cells| ==> !Skipped(cells[p], blanks)
    ensures forall i | pos <= i < p :: Skipped(cells[i], blanks)
    decreases |cells| - pos
  {
    if pos < |cells| && Skipped(cells[pos], blanks) then SkipTo(cells, pos + 1, blanks) else pos
  }

  function LookAhead(cells: bytes, pos: nat): byte
    requires pos <= |cells|
  {
    At(cells, SkipTo(cells, pos, false))
  }

  /** The cursor after a `read` whose result is not used. */
  function Consume(cells: bytes, pos: nat): (at: nat)
    requires pos <= |cells|
    ensures pos <= at <= |cells|
  {
    var p := SkipTo(cells, pos, false);
    if p < |cells| then p + 1 else p
  }

  function SpaceEnd(cells: bytes, pos: nat): (p: nat)
    requires pos <= |cells|
    ensures pos <= p <= |cells|
    ensures p < |cells| ==> !IsSpace(cells[p])
    ensures forall i | pos <= i < p :: IsSpace(cells[i])
    decreases |cells| - pos
  {
    if pos < |cells| && IsSpace(cells[pos]) then SpaceEnd(cells, pos + 1) else pos
  }

  /** White space is skipped but for its last character. */
  function SkipWhite(cells: bytes, pos: nat): (r: Outcome<nat>)
    requires pos <= |cells|
    ensures r.Done? ==> pos <= r.value < |cells|
  {
    if pos == |cells| then Undefined
    else if IsSpace(cells[pos]) then Done(SpaceEnd(cells, pos) - 1)
    else Done(pos)
  }

  function BackOver(cells: bytes, pos: nat): (p: nat)
    requires pos < |cells|
    ensures p <= pos
    ensures pos > 0 && !LineBreak(cells[pos - 1]) ==> p >= pos - 1
  {
    if pos > 0 && LineBreak(cells[pos]) then BackOver(cells, pos - 1) else pos
  }

  /** One character is put back; line breaks at the cursor are skipped backwards first. */
  function Unread(cells: bytes, pos: nat): (r: Outcome<nat>)
    requires pos <= |cells|
    ensures r.Done? && pos > 0 ==> r.value < pos
    ensures r.Done? && pos > 0 && !LineBreak(cells[pos - 1]) ==> r.value + 2 >= pos
    ensures pos == 0 ==> r == Done(0)
  {
    if pos == 0 then Done(0)
    else if pos == |cells| then Undefined
    else
      var p := BackOver(cells, pos);
      Done(if p > 0 then p - 1 else 0)
  }

  // ---------- values ----------

  /** The end of a value and the cursor behind it. */
  function ValueEnd(cells: bytes, pos: nat, term: byte, allowSpaces: bool, quoted: bool): (r: Outcome<(nat, nat)>)
    requires pos <= |cells|
    ensures r.Done? ==> r.value.0 <= r.value.1 <= |cells|
    decreases |cells| - pos
  {
    var p := SkipTo(cells, pos, false);
    if p == |cells| then Undefined
    else if cells[p] == GT || cells[p] == LT then
      var u :- Unread(cells, p + 1);
      Done((u, u))
    else if cells[p] == term && LookAhead(cells, p + 1) == GT then Done((p, p + 1))
    else if cells[p] == QUOTE then ValueEnd(cells, p + 1, term, allowSpaces, !quoted)
    else if IsSpace(cells[p]) && !quoted && !allowSpaces then
      var u :- Unread(cells, p + 1);
      Done((u, u))
    else ValueEnd(cells, p + 1, term, allowSpaces, quoted)
  }

  function ReadValue(cells: bytes, pos: nat, term: byte, allowSpaces: bool): (r: Outcome<(bytes, nat)>)
    requires pos <= |cells|
    ensures r.Done? ==> pos <= r.value.1 <= |cells|
  {
    var start :- SkipWhite(cells, pos);
    var first := SkipTo(cells, start, false);
    if first == |cells| then Done(([], first))
    else
      var end :- ValueEnd(cells, first, term, allowSpaces, false);
      if end.0 < first then Undefined else Done((cells[first..end.0], end.1))
  }

  // ---------- properties ----------

  type Property = (bytes, bytes)

  function PropertyEnd(cells: bytes, pos: nat, term: byte, quoted: bool, escaped: bool): (r: Outcome<(nat, nat)>)
    requires 0 < pos <= |cells|
    ensures r.Done? ==> pos <= r.value.0 < |cells| && pos - 1 <= r.value.1 <= |cells|
    decreases |cells| - pos
  {
    var p := SkipTo(cells, pos, false);
    if p == |cells| then Undefined
    else if cells[p] == GT || (cells[p] == term && LookAhead(cells, p + 1) == GT) then
      var u :- Unread(cells, p + 1);
      Done((p, u))
    else if cells[p] == BACKSLASH then PropertyEnd(cells, p + 1, term, quoted, !escaped)
    else if cells[p] == QUOTE then PropertyEnd(cells, p + 1, term, if escaped then quoted else !quoted, escaped)
    else if IsSpace(cells[p]) && !quoted then Done((p, p + 1))
    else PropertyEnd(cells, p + 1, term, quoted, escaped)
  }

  /** The position of the first equals sign, or the length of the text. */
  function FirstEquals(s: bytes): (n: nat)
    ensures n <= |s|
    ensures n < |s| ==> s[n] == EQUALS
    ensures forall i | 0 <= i < n :: s[i] != EQUALS
  {
    if s == [] || s[0] == EQUALS then 0 else 1 + FirstEquals(s[1..])
  }

  /** A value without the quote at its front and the one at its back; a lone quote is both. */
  function Unquoted(v: bytes): bytes {
    if v == [] then []
    else
      var front := if v[0] == QUOTE then 1 else 0;
      var back := if v[|v| - 1] == QUOTE then 1 else 0;
      if front + back > |v| then [] else v[front..|v| - back]
  }

  function AsProperty(kvp: bytes): Property {
    var n := FirstEquals(kvp);
    (kvp[..n], if n == |kvp| then [] else Unquoted(kvp[n + 1..]))
  }

  /** A property at the cursor, or none where the tag ends. */
  function ParseProperty(cells: bytes, pos: nat, term: byte): (r: Outcome<(Option<Property>, nat)>)
    requires pos <= |cells|
    ensures r.Done? ==> pos <= r.value.1 + 1 && r.value.1 <= |cells|
    ensures r.Done? && r.value.0.Some? ==> pos <= r.value.1
  {
    var p := SkipTo(cells, pos, true);
    if p == |cells| then Undefined
    else if cells[p] == GT || (cells[p] == term && LookAhead(cells, p + 1) == GT) then
      var u :- Unread(cells, p + 1);
      Done((None, u))
    else
      var end :- PropertyEnd(cells, p + 1, term, false, false);
      Done((Some(AsProperty(cells[p..end.0])), end.1))
  }

  /** The first property of a name stays. */
  function Inserted(properties: map<bytes, bytes>, p: Property): map<bytes, bytes> {
    if p.0 in properties then properties else properties[p.0 := p.1]
  }

  /** All properties of a tag. A property that leaves the cursor where it was is read again for ever. */
  function ParseProperties(cells: bytes, pos: nat, term: byte, properties: map<bytes, bytes>)
    : (r: Outcome<(map<bytes, bytes>, nat)>)
    requires pos <= |cells|
    ensures r.Done? ==> pos <= r.value.1 + 1 && r.value.1 <= |cells|
    decreases |cells| - pos
  {
    var property :- ParseProperty(cells, pos, term);
    if property.0.None? then Done((properties, property.1))
    else if property.1 == pos then Endless
    else ParseProperties(cells, property.1, term, Inserted(properties, property.0.value))
  }

  // ---------- nodes ----------

  /** The end tag of a node: whether it is one and carries the name. */
  function Tail(cells: bytes, pos: nat, name: bytes): (r: Outcome<(bool, nat)>)
    requires pos <= |cells|
    ensures r.Done? ==> pos < r.value.1 <= |cells| && (r.value.0 ==> pos + 1 < r.value.1)
  {
    var a := SkipTo(cells, pos, false);
    if a == |cells| then Undefined
    else if cells[a] != LT then Done((false, Consume(cells, a + 1)))
    else
      var b := SkipTo(cells, a + 1, false);
      if b == |cells| then Undefined
      else if cells[b] != SLASH then Done((false, Consume(cells, b + 1)))
      else
        var endTag :- ReadValue(cells, b + 1, NUL, false);
        Done((endTag.0 == name, Consume(cells, endTag.1)))
  }

  function ParseNode(cells: bytes, pos: nat, depth: nat): (r: Outcome<(Node, nat)>)
    requires pos <= |cells|
    ensures r.Done? ==> pos <= r.value.1 + 1 && r.value.1 <= |cells|
    ensures r.Done? && r.value.0.valid ==> pos < r.value.1
    decreases |cells| - pos, 1
  {
    var start :- SkipWhite(cells, pos);
    var p := SkipTo(cells, start, true);
    if p == |cells| then Undefined
    else if cells[p] != LT then Done((NoNode(depth), p + 1))
    else
      var next := LookAhead(cells, p + 1);
      if next == SLASH then
        var u :- Unread(cells, p + 1);
        Done((NoNode(depth), u))
      else
        var term := if next == QUESTION then QUESTION else SLASH;
        var name :- ReadValue(cells, if next == QUESTION then Consume(cells, p + 1) else p + 1, term, false);
        var properties :- ParseProperties(cells, name.1, term, map[]);
        ParseContent(cells, properties.1, depth, term, name.0, properties.0)
  }

  /** A node from the end of its start tag on. */
  function ParseContent(cells: bytes, pos: nat, depth: nat, term: byte, name: bytes, properties: map<bytes, bytes>)
    : (r: Outcome<(Node, nat)>)
    requires pos <= |cells|
    ensures r.Done? ==> pos < r.value.1 <= |cells|
    decreases |cells| - pos, 0
  {
    var start :- SkipWhite(cells, pos);
    var p := SkipTo(cells, start, false);
    if p == |cells| then Undefined
    else if cells[p] == term && LookAhead(cells, p + 1) == GT then
      Done((Node(name, [], depth, properties, [], true), Consume(cells, p + 1)))
    else if cells[p] == GT then
      var body :- ParseBody(cells, p + 1, depth);
      var tail :- Tail(cells, body.2, name);
      Done((Node(name, body.0, depth, properties, body.1, tail.0), tail.1))
    else Done((Node(name, [], depth, properties, [], false), p + 1))
  }

  /** What stands between the start tag and the end tag: a value or nodes. */
  function ParseBody(cells: bytes, pos: nat, depth: nat): (r: Outcome<(bytes, seq<Node>, nat)>)
    requires pos <= |cells|
    ensures r.Done? ==> pos <= r.value.2 + 1 && r.value.2 <= |cells|
    decreases |cells| - pos, 3
  {
    var content :- SkipWhite(cells, pos);
    if LookAhead(cells, content) == LT then
      var children :- ParseNodes(cells, content, (depth + 1) % 0x1_0000);
      Done(([], children.0, children.1))
    else
      var text :- ReadValue(cells, content, NUL, true);
      Done((text.0, [], text.1))
  }

  /** Nodes in a row, up to the first position where no valid node is. */
  function ParseNodes(cells: bytes, pos: nat, depth: nat): (r: Outcome<(seq<Node>, nat)>)
    requires pos <= |cells|
    ensures r.Done? ==> pos <= r.value.1 + 1 && r.value.1 <= |cells|
    decreases |cells| - pos, 2
  {
    var node :- ParseNode(cells, pos, depth);
    if !node.0.valid then Done(([], node.1))
    else
      var rest :- ParseNodes(cells, node.1, depth);
      Done(([node.0] + rest.0, rest.1))
  }

  /** The top-level nodes of a document. */
  function ParseDocument(cells: bytes): Outcome<seq<Node>> {
    var nodes :- ParseNodes(cells, 0, 0);
    Done(nodes.0)
  }

  // ---------- looking up a path ----------

  /** The items of a text between delimiters, as reading lines gives them: none behind a delimiter at
      the very end. */
  function Items(s: bytes, delimiter: byte): (r: seq<bytes>)
    decreases |s|
  {
    if s == [] then []
    else
      var n := ItemLength(s, delimiter);
      [s[..n]] + if n < |s| then Items(s[n + 1..], delimiter) else []
  }

  function ItemLength(s: bytes, delimiter: byte): (n: nat)
    ensures n <= |s|
    ensures n < |s| ==> s[n] == delimiter
    ensures forall i | 0 <= i < n :: s[i] != delimiter
  {
    if s == [] || s[0] == delimiter then 0 else 1 + ItemLength(s[1..], delimiter)
  }

  /** The first node of a name. */
  function FirstNamed(nodes: seq<Node>, name: bytes): (r: Option<Node>)
    ensures r.Some? ==> r.value in nodes && r.value.name == name
    ensures r.None? <==> forall n | n in nodes :: n.name != name
  {
    if nodes == [] then None
    else if nodes[0].name == name then Some(nodes[0])
    else FirstNamed(nodes[1..], name)
  }

  /** The value at a path below a node: an attribute, else the text of the first child of that name. */
  function ValueAt(node: Node, path: seq<bytes>): Option<bytes> {
    if path == [] then None
    else if |path| == 1 && path[0] in node.properties then Some(node.properties[path[0]])
    else
      match FirstNamed(node.nodes, path[0])
      case None => None
      case Some(n) => if |path| == 1 then Some(n.value) else ValueAt(n, path[1..])
  }
}
