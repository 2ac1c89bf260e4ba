/** Looking up a path in a parsed document is looking it up in the tree that was rendered. */
module XmlLookup {
  import opened Bytes
  import opened XmlGrammar
  import opened XmlRoundTrip
  import opened XmlDocuments
  import Buffers

  function FirstAttribute(attributes: seq<Property>, name: bytes): Option<bytes> {
    if attributes == [] then None
    else if attributes[0].0 == name then Some(attributes[0].1)
    else FirstAttribute(attributes[1..], name)
  }

  function FirstTree(f: Forest, name: bytes): Option<Tree> {
    match f
    case End(_) => None
    case Next(_, tree, rest) => if tree.name == name then Some(tree) else FirstTree(rest, name)
  }

  /** A tag that closes itself has no content. */
  function ContentOf(t: Tree): Content {
    if t.Element? then t.content else Text([])
  }

  function TextOf(c: Content): bytes {
    if c.Text? then c.text else []
  }

  function ForestOf(c: Content): Forest {
    if c.Elements? then c.forest else End([])
  }

  /** At the end of the path an attribute, or else the text of the first element of that name; before
      it, always the first element of the name. */
  function TreeValue(attributes: seq<Property>, c: Content, path: seq<bytes>): Option<bytes>
    decreases |path|
  {
    if path == [] then None
    else if |path| == 1 && FirstAttribute(attributes, path[0]).Some? then FirstAttribute(attributes, path[0])
    else
      match FirstTree(ForestOf(c), path[0])
      case None => None
      case Some(t) => if |path| == 1 then Some(TextOf(ContentOf(t)))
          else TreeValue(t.attributes, ContentOf(t), path[1..])
  }

  /** Of several attributes of one name the first is found. */
  lemma {:induction false} CollectedLookup(attributes: seq<Property>, properties: map<bytes, bytes>, name: bytes)
    ensures var all := Collected(attributes, properties);
            (if name in all then Some(all[name]) else None) ==
            (if name in properties then Some(properties[name]) else FirstAttribute(attributes, name))
  {
    if attributes != [] {
      CollectedLookup(attributes[1..], Inserted(properties, attributes[0]), name);
    }
  }

  lemma {:induction false} FirstNamedBuilt(f: Forest, depth: nat, name: bytes)
    ensures FirstNamed(BuiltForest(f, depth), name) ==
            match FirstTree(f, name) { case None => None case Some(t) => Some(Built(t, depth)) }
  {
    match f
    case End(_) =>
    case Next(_, tree, rest) =>
      assert BuiltForest(f, depth)[1..] == BuiltForest(rest, depth);
      FirstNamedBuilt(rest, depth, name);
  }

  lemma {:induction false} ValueAtBuilt(node: Node, attributes: seq<Property>, c: Content, depth: nat, path: seq<bytes>)
    requires node.properties == Collected(attributes, map[]) && node.nodes == BuiltForest(ForestOf(c), depth)
    ensures ValueAt(node, path) == TreeValue(attributes, c, path)
    decreases |path|
  {
    if path != [] {
      CollectedLookup(attributes, map[], path[0]);
      FirstNamedBuilt(ForestOf(c), depth, path[0]);
      match FirstTree(ForestOf(c), path[0])
      case None =>
      case Some(t) => ValueAtBuilt(Built(t, depth), t.attributes, ContentOf(t), (depth + 1) % 0x1_0000, path[1..]);
    }
  }

  ghost predicate IsItem(s: bytes, delimiter: byte) {
    forall i | 0 <= i < |s| :: s[i] != delimiter
  }

  lemma {:induction false} ItemLengthOf(s: bytes, rest: bytes, delimiter: byte)
    requires IsItem(s, delimiter) && (rest != [] ==> rest[0] == delimiter)
    ensures ItemLength(s + rest, delimiter) == |s|
  {
    if s == [] {
      assert s + rest == rest;
    } else {
      assert (s + rest)[0] == s[0] && (s + rest)[1..] == s[1..] + rest;
      ItemLengthOf(s[1..], rest, delimiter);
    }
  }

  lemma SplitAt(first: bytes, delimiter: byte, rest: bytes)
    ensures var all := first + ([delimiter] + rest); all[..|first|] == first && all[|first| + 1..] == rest
  {
  }

  /** The items of names with delimiters between them are the names, unless the last one is empty. */
  lemma {:induction false} ItemsOfJoined(path: seq<bytes>, delimiter: byte)
    requires forall i | 0 <= i < |path| :: IsItem(path[i], delimiter)
    requires path != [] ==> path[|path| - 1] != []
    ensures Items(Buffers.Joined(path, delimiter), delimiter) == path
  {
    hide Items, IsItem;
    NextItem(Buffers.Joined(path, delimiter), delimiter);
    if |path| == 1 {
      assert path[0] + [] == path[0];
      ItemLengthOf(path[0], [], delimiter);
      assert path == [path[0]];
    } else if |path| > 1 {
      var first, rest := path[0], Buffers.Joined(path[1..], delimiter);
      var all := Buffers.Joined(path, delimiter);
      assert all == first + ([delimiter] + rest);
      ItemLengthOf(first, [delimiter] + rest, delimiter);
      SplitAt(first, delimiter, rest);
      ItemsOfJoined(path[1..], delimiter);
    }
  }

  /** What getValue finds in a parsed document is what stands at the path in the tree. */
  lemma ValuesOfRendered(f: Forest, path: seq<bytes>, defaultValue: bytes)
    requires SafeForest(f) && SpacedForest(f) && (forall i | 0 <= i < |path| :: IsItem(path[i], DOT)) &&
             (path != [] ==> path[|path| - 1] != [])
    ensures var parsed := ParseDocument(RenderedForest(f) + [NUL]);
            && parsed.Done?
            && ValueIn(parsed.value, Buffers.Joined(path, DOT), defaultValue) ==
               match TreeValue([], Elements(f), path) { case None => defaultValue case Some(v) => v }
  {
    ParseInverts(f);
    ItemsOfJoined(path, DOT);
    ValueAtBuilt(Root(BuiltForest(f, 0)), [], Elements(f), 0, path);
  }
}
