/** The compact JSON writer (class FastWriter in lib/json/jsoncpp.cpp). */
module JsonWriter {
  import opened Bytes
  import opened JsonValues
  import opened JsonNumbers
  import opened JsonStrings

  /** Prints a double. */
  type RealPrinter = real -> bytes

  const COMMA: byte := 44
  const NULL_TEXT: bytes := [110, 117, 108, 108]
  const TRUE_TEXT: bytes := [116, 114, 117, 101]
  const FALSE_TEXT: bytes := [102, 97, 108, 115, 101]

  /** Integers in range, which is all the source's types can hold. */
  predicate InRange(v: Value) {
    match v
    case Int(i) => MIN_LARGEST_INT <= i <= MAX_LARGEST_INT
    case UInt(u) => u <= MAX_UINT
    case Array(elems) => forall e | e in elems :: InRange(e)
    case Object(members) => forall m | m in members :: InRange(m.value)
    case _ => true
  }

  /** The text of a value. A null string pointer leaves no text at all. */
  function Render(rp: RealPrinter, v: Value): bytes {
    match v
    case Null => NULL_TEXT
    case Int(i) => SignedDecimal(i)
    case UInt(u) => SignedDecimal(u)
    case Real(r) => rp(r)
    case NullString => []
    case Text(s) => Quoted(s)
    case Bool(b) => if b then TRUE_TEXT else FALSE_TEXT
    case Array(elems) => [91] + RenderElems(rp, elems) + [93]
    case Object(members) => [123] + RenderMembers(rp, members) + [125]
  }

  function RenderElems(rp: RealPrinter, elems: seq<Value>): bytes {
    if elems == [] then []
    else Render(rp, elems[0]) + (if |elems| == 1 then [] else [COMMA]) + RenderElems(rp, elems[1..])
  }

  function RenderMember(rp: RealPrinter, m: Member): bytes {
    Quoted(m.key) + [COLON] + Render(rp, m.value)
  }

  function RenderMembers(rp: RealPrinter, members: seq<Member>): bytes {
    if members == [] then []
    else RenderMember(rp, members[0]) + (if |members| == 1 then [] else [COMMA]) + RenderMembers(rp, members[1..])
  }

  lemma JoinAssociative(a: bytes, b: bytes, c: bytes, d: bytes)
    ensures a + b + c + d == a + b + (c + d)
  {
  }

  lemma {:induction false} RenderElemsAppend(rp: RealPrinter, elems: seq<Value>, e: Value)
    ensures RenderElems(rp, elems + [e]) ==
            RenderElems(rp, elems) + (if elems == [] then [] else [COMMA]) + Render(rp, e)
  {
    hide Render;
    var all := elems + [e];
    if elems == [] {
      assert all == [e] && all[1..] == [];
    } else {
      assert all[1..] == elems[1..] + [e];
      RenderElemsAppend(rp, elems[1..], e);
      JoinAssociative(Render(rp, elems[0]), [COMMA], RenderElems(rp, elems[1..]),
                      (if |elems| == 1 then [] else [COMMA]) + Render(rp, e));
    }
  }

  lemma {:induction false} RenderMembersAppend(rp: RealPrinter, members: seq<Member>, m: Member)
    ensures RenderMembers(rp, members + [m]) ==
            RenderMembers(rp, members) + (if members == [] then [] else [COMMA]) + RenderMember(rp, m)
  {
    hide RenderMember;
    var all := members + [m];
    if members == [] {
      assert all == [m] && all[1..] == [];
    } else {
      assert all[1..] == members[1..] + [m];
      RenderMembersAppend(rp, members[1..], m);
      JoinAssociative(RenderMember(rp, members[0]), [COMMA], RenderMembers(rp, members[1..]),
                      (if |members| == 1 then [] else [COMMA]) + RenderMember(rp, m));
    }
  }

  lemma RenderContainer(rp: RealPrinter, v: Value)
    ensures v.Array? ==> Render(rp, v) == [91] + RenderElems(rp, v.elems) + [93]
    ensures v.Object? ==> Render(rp, v) == [123] + RenderMembers(rp, v.members) + [125]
    ensures RenderElems(rp, []) == RenderMembers(rp, []) == []
  {
  }

  /** One more item behind what is written so far. */
  lemma JoinOne(before: bytes, items: bytes, comma: bytes, item: bytes, joined: bytes, all: bytes)
    requires joined == before + items + comma && all == joined + item
    ensures all == before + (items + comma + item)
  {
  }

  lemma Enclose(was: bytes, open: byte, items: bytes, close: byte, before: bytes, all: bytes)
    requires before == was + [open] && all == before + items + [close]
    ensures all == was + ([open] + items + [close])
  {
  }

  class FastWriter {
    const realPrinter: RealPrinter
    var document: bytes

    constructor (realPrinter: RealPrinter)
      ensures this.realPrinter == realPrinter
    {
      this.realPrinter := realPrinter;
      document := [];
    }

    method Write(root: Value) returns (text: bytes)
      requires InRange(root)
      modifies this
      ensures text == Render(realPrinter, root) + [LF]
    {
      document := [];
      WriteValue(root);
      assert [] + Render(realPrinter, root) == Render(realPrinter, root);
      document := document + [LF];
      return document;
    }

    method WriteValue(value: Value)
      requires InRange(value)
      modifies this
      ensures document == old(document) + Render(realPrinter, value)
      decreases value, 1, 0
    {
      match value {
        case Null => document := document + NULL_TEXT;
        case Int(i) =>
          var text := IntToString(i);
          document := document + text;
        case UInt(u) =>
          var text := UIntToString(u);
          document := document + text;
        case Real(r) => document := document + realPrinter(r);
        case NullString => assert document + [] == document;
        case Text(s) =>
          var text := ValueToQuotedString(s);
          document := document + text;
        case Bool(b) => document := document + if b then TRUE_TEXT else FALSE_TEXT;
        case Array(elems) => WriteArray(elems, value);
        case Object(members) => WriteObject(members, value);
      }
    }

    method WriteArray(elems: seq<Value>, ghost value: Value)
      requires value == Array(elems) && InRange(value)
      modifies this
      ensures document == old(document) + Render(realPrinter, Array(elems))
      decreases value, 0, 1
    {
      hide Render, RenderElems;
      RenderContainer(realPrinter, value);
      document := document + [91];
      ghost var before := document;
      for index := 0 to |elems|
        invariant document == before + RenderElems(realPrinter, elems[..index])
      {
        RenderElemsAppend(realPrinter, elems[..index], elems[index]);
        assert elems[..index + 1] == elems[..index] + [elems[index]];
        if index > 0 {
          document := document + [COMMA];
        }
        ghost var joined := document;
        WriteValue(elems[index]);
        ghost var comma := if index > 0 then [COMMA] else [];
        JoinOne(before, RenderElems(realPrinter, elems[..index]), comma, Render(realPrinter, elems[index]), joined,
                document);
      }
      assert elems[..|elems|] == elems;
      document := document + [93];
      Enclose(old(document), 91, RenderElems(realPrinter, elems), 93, before, document);
    }

    method WriteObject(members: seq<Member>, ghost value: Value)
      requires value == Object(members) && InRange(value)
      modifies this
      ensures document == old(document) + Render(realPrinter, Object(members))
      decreases value, 0, 1
    {
      hide Render, RenderMembers, RenderMember;
      RenderContainer(realPrinter, value);
      document := document + [123];
      ghost var before := document;
      for index := 0 to |members|
        invariant document == before + RenderMembers(realPrinter, members[..index])
      {
        RenderMembersAppend(realPrinter, members[..index], members[index]);
        assert members[..index + 1] == members[..index] + [members[index]];
        if index > 0 {
          document := document + [COMMA];
        }
        assert members[index] in members;
        ghost var joined := document;
        WriteMember(members[index], value);
        ghost var comma := if index > 0 then [COMMA] else [];
        JoinOne(before, RenderMembers(realPrinter, members[..index]), comma, RenderMember(realPrinter, members[index]),
                joined, document);
      }
      assert members[..|members|] == members;
      document := document + [125];
      Enclose(old(document), 123, RenderMembers(realPrinter, members), 125, before, document);
    }

    method WriteMember(m: Member, ghost value: Value)
      requires value.Object? && m in value.members && InRange(m.value)
      modifies this
      ensures document == old(document) + RenderMember(realPrinter, m)
      decreases value, 0, 0
    {
      hide Render, Quoted;
      var name := ValueToQuotedString(m.key);
      document := document + name;
      document := document + [COLON];
      WriteValue(m.value);
    }
  }
}
