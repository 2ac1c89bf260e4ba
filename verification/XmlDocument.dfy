/** The parser of src/components/utilities/XmlDocument.cpp with its shared cursor, proved to read
    what the grammar says. */
module XmlDocuments {
  import opened Bytes
  import G = XmlGrammar
  import opened XmlGrammar

  class XmlDocument {
    const cells: bytes
    var pBuf: nat
    var nodes: seq<Node>

    ghost predicate Valid()
      reads this
    {
      pBuf <= |cells|
    }

    /** A step that moved the cursor as the grammar does, and gave the same value; where the grammar
        has no value, nothing is said of the cursor. */
    ghost predicate Follows<T(!new)>(spec: Outcome<(T, nat)>, r: Outcome<T>)
      reads this
    {
      match spec
      case Done(v) => r == Done(v.0) && pBuf == v.1
      case Undefined => r == Undefined
      case Endless => r == Endless
    }

    constructor (cells: bytes)
      ensures this.cells == cells && pBuf == 0 && nodes == []
    {
      this.cells := cells;
      pBuf := 0;
      nodes := [];
    }

    /** Some position of a character, or None at the end. */
    method Read(skipSpaces: bool) returns (p: Option<nat>)
      requires Valid()
      modifies this`pBuf
      ensures Valid()
      ensures var q := SkipTo(cells, old(pBuf), skipSpaces);
              if q < |cells| then p == Some(q) && pBuf == q + 1 else p == None && pBuf == q
    {
      var from := pBuf;
      while pBuf < |cells| && (LineBreak(cells[pBuf]) || (skipSpaces && cells[pBuf] == SPACE))
        invariant from <= pBuf <= |cells|
        invariant SkipTo(cells, pBuf, skipSpaces) == SkipTo(cells, from, skipSpaces)
      {
        pBuf := pBuf + 1;
      }
      p := None;
      if pBuf < |cells| {
        p := Some(pBuf);
        pBuf := pBuf + 1;
      }
    }

    method LookAhead() returns (c: byte)
      requires Valid()
      ensures c == G.LookAhead(cells, pBuf)
    {
      c := NUL;
      var p := pBuf;
      while p < |cells| && LineBreak(cells[p])
        invariant pBuf <= p <= |cells|
        invariant SkipTo(cells, p, false) == SkipTo(cells, pBuf, false)
      {
        p := p + 1;
      }
      if p < |cells| {
        c := cells[p];
      }
    }

    method SkipWhiteSpace() returns (r: Outcome<()>)
      requires Valid()
      modifies this`pBuf
      ensures Valid()
      ensures match SkipWhite(cells, old(pBuf))
              case Done(p) => r == Done(()) && pBuf == p
              case _ => r == Undefined && SkipWhite(cells, old(pBuf)) == Undefined
    {
      if pBuf == |cells| {
        return Undefined;
      }
      var from := pBuf;
      if IsSpace(cells[pBuf]) {
        while pBuf < |cells| && IsSpace(cells[pBuf])
          invariant from <= pBuf <= |cells|
          invariant SpaceEnd(cells, pBuf) == SpaceEnd(cells, from)
        {
          pBuf := pBuf + 1;
        }
        pBuf := pBuf - 1;
      }
      return Done(());
    }

    method Unread() returns (r: Outcome<()>)
      requires Valid()
      modifies this`pBuf
      ensures Valid()
      ensures match G.Unread(cells, old(pBuf))
              case Done(p) => r == Done(()) && pBuf == p
              case _ => r == Undefined && G.Unread(cells, old(pBuf)) == Undefined
    {
      if pBuf == 0 {
        return Done(());
      }
      if pBuf == |cells| {
        return Undefined;
      }
      var from := pBuf;
      while pBuf > 0 && LineBreak(cells[pBuf])
        invariant pBuf <= from
        invariant BackOver(cells, pBuf) == BackOver(cells, from)
      {
        pBuf := pBuf - 1;
      }
      if pBuf > 0 {
        pBuf := pBuf - 1;
      }
      return Done(());
    }

    /** The loop of readValue: the end of the value. */
    method FindValueEnd(termChar: byte, allowSpaces: bool) returns (r: Outcome<nat>)
      requires Valid()
      modifies this`pBuf
      ensures Valid() && Follows(ValueEnd(cells, old(pBuf), termChar, allowSpaces, false), r)
    {
      hide SkipTo, G.LookAhead, G.Unread, IsSpace;
      var from := pBuf;
      var isQuoted := false;
      ghost var spec := ValueEnd(cells, from, termChar, allowSpaces, false);
      while true
        invariant from <= pBuf <= |cells|
        invariant ValueEnd(cells, pBuf, termChar, allowSpaces, isQuoted) == spec
        decreases |cells| - pBuf
      {
        var p := Read(false);
        if p.None? {
          return Undefined;
        }
        var c := cells[p.value];
        var next := LookAhead();
        if c == GT || c == LT {
          var _ :- Unread();
          return Done(pBuf);
        } else if c == termChar && next == GT {
          return Done(pBuf - 1);
        } else if c == QUOTE {
          isQuoted := !isQuoted;
        } else if IsSpace(c) {
          if !isQuoted && !allowSpaces {
            var _ :- Unread();
            return Done(pBuf);
          }
        }
      }
    }

    method ReadValue(termChar: byte, allowSpaces: bool) returns (r: Outcome<bytes>)
      requires Valid()
      modifies this`pBuf
      ensures Valid() && Follows(G.ReadValue(cells, old(pBuf), termChar, allowSpaces), r)
    {
      hide ValueEnd;
      var _ :- SkipWhiteSpace();
      var start := Read(false);
      if start.None? {
        return Done([]);
      }
      pBuf := start.value;
      var end :- FindValueEnd(termChar, allowSpaces);
      if end < start.value {
        return Undefined;
      }
      return Done(cells[start.value..end]);
    }

    /** The loop of parseProperty: the end of the property. */
    method FindPropertyEnd(termChar: byte) returns (r: Outcome<nat>)
      requires Valid() && 0 < pBuf
      modifies this`pBuf
      ensures Valid() && Follows(PropertyEnd(cells, old(pBuf), termChar, false, false), r)
    {
      hide SkipTo, G.LookAhead, G.Unread, IsSpace;
      var from := pBuf;
      var quoted, escaped := false, false;
      ghost var spec := PropertyEnd(cells, from, termChar, false, false);
      while true
        invariant 0 < from <= pBuf <= |cells|
        invariant PropertyEnd(cells, pBuf, termChar, quoted, escaped) == spec
        decreases |cells| - pBuf
      {
        var p := Read(false);
        if p.None? {
          return Undefined;
        }
        var c := cells[p.value];
        var next := LookAhead();
        if c == GT || (c == termChar && next == GT) {
          var pEnd := pBuf - 1;
          var _ :- Unread();
          return Done(pEnd);
        } else if c == BACKSLASH {
          escaped := !escaped;
        } else if c == QUOTE {
          if !escaped {
            quoted := !quoted;
          }
        } else if IsSpace(c) {
          if !quoted {
            return Done(p.value);
          }
        }
      }
    }

    method ParseProperty(termChar: byte) returns (r: Outcome<Option<Property>>)
      requires Valid()
      modifies this`pBuf
      ensures Valid() && Follows(G.ParseProperty(cells, old(pBuf), termChar), r)
    {
      hide PropertyEnd;
      var p := Read(true);
      if p.None? {
        return Undefined;
      }
      var c := cells[p.value];
      var next := LookAhead();
      if c == GT || (c == termChar && next == GT) {
        var _ :- Unread();
        return Done(None);
      }
      var pEnd :- FindPropertyEnd(termChar);
      return Done(Some(AsProperty(cells[p.value..pEnd])));
    }

    /** The original repeats for ever where this method returns Endless. */
    method ParseProperties(termChar: byte) returns (r: Outcome<map<bytes, bytes>>)
      requires Valid()
      modifies this`pBuf
      ensures Valid() && Follows(G.ParseProperties(cells, old(pBuf), termChar, map[]), r)
    {
      var from := pBuf;
      var properties := map[];
      ghost var spec := G.ParseProperties(cells, from, termChar, map[]);
      while true
        invariant Valid()
        invariant G.ParseProperties(cells, pBuf, termChar, properties) == spec
        decreases |cells| - pBuf
      {
        var before := pBuf;
        var property :- ParseProperty(termChar);
        if property.None? {
          return Done(properties);
        }
        if pBuf == before {
          return Endless;
        }
        properties := Inserted(properties, property.value);
      }
    }

    /** The end of parseNode: whether the end tag is one and carries the name. */
    method ParseTail(name: bytes) returns (r: Outcome<bool>)
      requires Valid()
      modifies this`pBuf
      ensures Valid() && Follows(Tail(cells, old(pBuf), name), r)
    {
      hide G.ReadValue, SkipTo;
      var valid := false;
      var p := Read(false);
      if p.None? {
        return Undefined;
      }
      if cells[p.value] == LT {
        p := Read(false);
        if p.None? {
          return Undefined;
        }
        if cells[p.value] == SLASH {
          var endTag :- ReadValue(NUL, false);
          valid := name == endTag;
        }
      }
      var _ := Read(false);
      return Done(valid);
    }

    method ParseNode(depth: nat) returns (r: Outcome<Node>)
      requires Valid()
      modifies this`pBuf
      ensures Valid() && Follows(G.ParseNode(cells, old(pBuf), depth), r)
      decreases |cells| - pBuf, 1
    {
      hide G.ReadValue, G.ParseProperties, G.ParseContent, SkipTo, SkipWhite, SpaceEnd, G.LookAhead, G.Unread,
           NoNode;
      var _ :- SkipWhiteSpace();
      var p := Read(true);
      if p.None? {
        return Undefined;
      }
      if cells[p.value] != LT {
        return Done(NoNode(depth));
      }
      var termChar := SLASH;
      var next := LookAhead();
      if next == QUESTION {
        termChar := QUESTION;
        var _ := Read(false);
      } else if next == SLASH {
        CanUnread(cells, pBuf);
        var _ := Unread();
        return Done(NoNode(depth));
      }
      var name :- ReadValue(termChar, false);
      var properties :- ParseProperties(termChar);
      r := ParseContent(depth, termChar, name, properties);
    }

    /** parseNode from the end of the start tag on. */
    method ParseContent(depth: nat, termChar: byte, name: bytes, properties: map<bytes, bytes>)
      returns (r: Outcome<Node>)
      requires Valid()
      modifies this`pBuf
      ensures Valid() && Follows(G.ParseContent(cells, old(pBuf), depth, termChar, name, properties), r)
      decreases |cells| - pBuf, 0
    {
      hide G.ParseBody, Tail, SkipTo, SkipWhite, SpaceEnd, G.LookAhead;
      var _ :- SkipWhiteSpace();
      var p := Read(false);
      if p.None? {
        return Undefined;
      }
      var next := LookAhead();
      if cells[p.value] == termChar && next == GT {
        var _ := Read(false);
        return Done(Node(name, [], depth, properties, [], true));
      } else if cells[p.value] == GT {
        var body :- ParseBody(depth);
        var valid :- ParseTail(name);
        return Done(Node(name, body.0, depth, properties, body.1, valid));
      }
      return Done(Node(name, [], depth, properties, [], false));
    }

    /** parseNode between the start tag and the end tag. */
    method ParseBody(depth: nat) returns (r: Outcome<(bytes, seq<Node>)>)
      requires Valid()
      modifies this`pBuf
      ensures Valid()
      ensures match G.ParseBody(cells, old(pBuf), depth)
              case Done(v) => r == Done((v.0, v.1)) && pBuf == v.2
              case Undefined => r == Undefined
              case Endless => r == Endless
      decreases |cells| - pBuf, 3
    {
      hide G.ReadValue, G.ParseNodes;
      var _ :- SkipWhiteSpace();
      var next := LookAhead();
      if next == LT {
        var children :- ParseNodes((depth + 1) % 0x1_0000);
        return Done(([], children));
      }
      var value :- ReadValue(NUL, true);
      return Done((value, []));
    }

    /** The loop of parse and of the children in parseNode. */
    method ParseNodes(depth: nat) returns (r: Outcome<seq<Node>>)
      requires Valid()
      modifies this`pBuf
      ensures Valid() && Follows(G.ParseNodes(cells, old(pBuf), depth), r)
      decreases |cells| - pBuf, 2
    {
      hide G.ParseNode;
      var from := pBuf;
      var found := [];
      ghost var spec := G.ParseNodes(cells, from, depth);
      Prepended([], spec);
      while true
        invariant from <= pBuf <= |cells|
        invariant Prepend(found, G.ParseNodes(cells, pBuf, depth)) == spec
        decreases |cells| - pBuf
      {
        ghost var rest := G.ParseNodes(cells, pBuf, depth);
        var node :- ParseNode(depth);
        if !node.valid {
          assert found + [] == found;
          return Done(found);
        }
        ghost var later := G.ParseNodes(cells, pBuf, depth);
        assert rest == Prepend([node], later);
        Prepended(found, rest);
        PrependTwice(found, [node], later);
        found := found + [node];
      }
    }

    method Parse() returns (r: Outcome<()>)
      requires pBuf == 0
      modifies this
      ensures match ParseDocument(cells)
              case Done(v) => r == Done(()) && nodes == v
              case Undefined => r == Undefined
              case Endless => r == Endless
    {
      nodes :- ParseNodes(0);
      return Done(());
    }

    method GetValue(path: bytes, defaultValue: bytes) returns (result: bytes)
      ensures result == ValueIn(nodes, path, defaultValue)
    {
      result := defaultValue;
      var node := Root(nodes);
      var pathElements := SplitItems(path, DOT);
      var elementCount := |pathElements|;
      ghost var spec := ValueAt(node, pathElements);
      var e := 0;
      while e < elementCount
        invariant 0 <= e <= elementCount
        invariant ValueAt(node, pathElements[e..]) == spec
      {
        var elementName := pathElements[e];
        assert pathElements[e..][1..] == pathElements[e + 1..];
        if e == elementCount - 1 {
          if elementName in node.properties {
            result := node.properties[elementName];
          } else {
            var child := FindNamed(node.nodes, elementName);
            if child.Some? {
              result := child.value.value;
            }
          }
          return;
        }
        var child := FindNamed(node.nodes, elementName);
        if child.None? {
          return;
        }
        node := child.value;
        e := e + 1;
      }
    }
  }

  /** A character ahead means that the cursor is not at the end. */
  lemma CanUnread(cells: bytes, pos: nat)
    requires 0 < pos <= |cells| && G.LookAhead(cells, pos) == SLASH
    ensures G.Unread(cells, pos).Done?
  {
  }

  function Prepend(found: seq<Node>, rest: Outcome<(seq<Node>, nat)>): Outcome<(seq<Node>, nat)> {
    match rest
    case Done(v) => Done((found + v.0, v.1))
    case _ => rest
  }

  lemma Prepended(found: seq<Node>, rest: Outcome<(seq<Node>, nat)>)
    ensures Prepend([], rest) == rest
    ensures !rest.Done? ==> Prepend(found, rest) == rest
  {
    if rest.Done? {
      assert [] + rest.value.0 == rest.value.0;
    }
  }

  lemma PrependTwice(a: seq<Node>, b: seq<Node>, rest: Outcome<(seq<Node>, nat)>)
    ensures Prepend(a, Prepend(b, rest)) == Prepend(a + b, rest)
  {
    if rest.Done? {
      assert a + (b + rest.value.0) == a + b + rest.value.0;
    }
  }

  /** The root that holds the top-level nodes; it has no name and no attributes. */
  function Root(nodes: seq<Node>): Node {
    Node([], [], 0, map[], nodes, false)
  }

  /** The value at a dotted path, or the default. */
  function ValueIn(nodes: seq<Node>, path: bytes, defaultValue: bytes): bytes {
    match ValueAt(Root(nodes), Items(path, DOT))
    case None => defaultValue
    case Some(v) => v
  }

  method FindNamed(nodes: seq<Node>, name: bytes) returns (r: Option<Node>)
    ensures r == FirstNamed(nodes, name)
  {
    for i := 0 to |nodes|
      invariant FirstNamed(nodes, name) == FirstNamed(nodes[i..], name)
    {
      if nodes[i].name == name {
        return Some(nodes[i]);
      }
      assert nodes[i..][1..] == nodes[i + 1..];
    }
    return None;
  }

  /** split of src/components/utilities/util.cpp. */
  method SplitItems(s: bytes, delimiter: byte) returns (elems: seq<bytes>)
    ensures elems == Items(s, delimiter)
  {
    hide Items;
    elems := [];
    var start := 0;
    assert s[0..] == s;
    while start < |s|
      invariant 0 <= start <= |s|
      invariant elems + Items(s[start..], delimiter) == Items(s, delimiter)
    {
      var rest := s[start..];
      var n := ItemLength(rest, delimiter);
      NextItem(rest, delimiter);
      elems := elems + [rest[..n]];
      assert n < |rest| ==> rest[n + 1..] == s[start + n + 1..];
      start := if n < |rest| then start + n + 1 else |s|;
      assert start == |s| ==> s[start..] == [];
    }
    NextItem([], delimiter);
    assert s[start..] == [] && elems + [] == elems;
  }

  lemma NextItem(s: bytes, delimiter: byte)
    ensures Items([], delimiter) == []
    ensures s != [] ==> var n := ItemLength(s, delimiter);
                        Items(s, delimiter) == [s[..n]] + Items(if n < |s| then s[n + 1..] else [], delimiter)
  {
  }
}
