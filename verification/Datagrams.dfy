/** A datagram that holds one message delivers exactly that message, however its slices are cut. */
module Datagrams {
  import opened Bytes
  import opened DelimiterScan
  import opened SipFraming
  import opened Segmentation

  lemma NothingLeft(slices: seq<bytes>)
    requires (forall slice | slice in slices :: slice != []) && Concat(slices) == []
    ensures slices == []
  {
    if slices != [] {
      SomethingLeft(slices);
    }
  }

  lemma SomethingLeft(slices: seq<bytes>)
    requires (forall slice | slice in slices :: slice != []) && slices != []
    ensures Concat(slices) != []
  {
    assert slices[0] in slices && Concat(slices) == slices[0] + Concat(slices[1..]);
  }

  /** One fragment of a body, and the others. */
  lemma OneFragment(b: HeaderParser, f: Framing, slices: seq<bytes>, header: bytes, length: nat)
    requires f.processing && f.message == Some(Message(header, length)) && slices != []
    requires 0 <= f.received && f.received + |slices[0]| <= length
    ensures var got := f.received + |slices[0]|;
            LoadAll(b, f, slices) ==
            if got == length then
              var o := LoadAll(b, Framing(false, 0, f.message), slices[1..]); (o.0, [Delivery(header, length)] + o.1)
            else LoadAll(b, Framing(true, got, f.message), slices[1..])
  {
    var got := f.received + |slices[0]|;
    var l := Load(b, f, slices[0]);
    if got < length {
      assert l.parser == Framing(true, got, f.message) && l.delivered == [];
    } else {
      assert l.parser == Framing(false, 0, f.message) && l.delivered == [Delivery(header, length)];
    }
    hide Load, SizeT;
    assert [] + LoadAll(b, l.parser, slices[1..]).1 == LoadAll(b, l.parser, slices[1..]).1;
  }

  /** The slices of a body are counted, and the last one completes the message. */
  lemma {:induction false} BodySlices(b: HeaderParser, f: Framing, slices: seq<bytes>, header: bytes, length: nat)
    requires f.processing && f.message == Some(Message(header, length)) && 0 <= f.received < length
    requires (forall slice | slice in slices :: slice != []) && |Concat(slices)| == length - f.received
    ensures LoadAll(b, f, slices) == (Framing(false, 0, f.message), [Delivery(header, length)])
    decreases |slices|
  {
    assert slices != [] && slices[0] in slices && forall slice | slice in slices[1..] :: slice in slices;
    assert Concat(slices) == slices[0] + Concat(slices[1..]);
    OneFragment(b, f, slices, header, length);
    hide Concat, Load;
    if f.received + |slices[0]| == length {
      NothingLeft(slices[1..]);
      LoadAllNone(b, Framing(false, 0, f.message));
      assert [Delivery(header, length)] + [] == [Delivery(header, length)];
    } else {
      hide LoadAll;
      BodySlices(b, Framing(true, f.received + |slices[0]|, f.message), slices[1..], header, length);
    }
  }

  /** What the first slice of a datagram is. */
  lemma FirstSlice(slices: seq<bytes>, header: bytes, body: bytes)
    requires slices != [] && (forall slice | slice in slices :: slice != []) && CutAtHits(slices)
    requires Concat(slices) == header + body
    requires 4 <= |header| && FirstDelimiterAt(header, |header| - 4) && CrRun(header, |header| - 4) % 2 == 0
    ensures slices[0] == header && Concat(slices[1..]) == body
  {
    HitIsFirstDelimiter(header, |header| - 4);
    hide Hit, FirstDelimiterAt, CrRun;
    HitPrefix(header, body, 0, 0);
    assert slices[0..] == slices;
    assert Concat(slices) == slices[0] + Concat(slices[1..]);
    assert Hit(Concat(slices[0..]), 0, 0) == |header|;
    assert |slices[0]| == |header|;
    assert (slices[0] + Concat(slices[1..]))[..|header|] == slices[0] && (header + body)[..|header|] == header;
    assert (slices[0] + Concat(slices[1..]))[|header|..] == Concat(slices[1..]) && (header + body)[|header|..] == body;
  }

  /** An idle parser that is given the slices of one message delivers it and is idle again. */
  lemma DatagramDelivers(b: HeaderParser, slices: seq<bytes>, header: bytes, body: bytes)
    requires slices != [] && (forall slice | slice in slices :: slice != []) && CutAtHits(slices)
    requires Concat(slices) == header + body
    requires 4 <= |header| && FirstDelimiterAt(header, |header| - 4) && CrRun(header, |header| - 4) % 2 == 0
    requires b(header) == Some(|body|)
    ensures LoadAll(b, IDLE, slices) ==
            (Framing(false, 0, Some(Message(header, |body|))), [Delivery(header, |body|)])
  {
    hide Hit, FirstDelimiterAt, CrRun, CutAtHits, Concat;
    FirstSlice(slices, header, body);
    var rest, m := slices[1..], Some(Message(header, |body|));
    assert forall slice | slice in rest :: slice in slices;
    HeaderSlice(b, slices, |body|);
    hide LoadAll;
    if body == [] {
      NothingLeft(rest);
      LoadAllNone(b, Framing(false, 0, m));
      assert [Delivery(header, 0)] + [] == [Delivery(header, 0)];
    } else {
      BodySlices(b, Framing(true, 0, m), rest, header, |body|);
    }
  }

  /** The header section is loaded, and a message without body is complete. */
  lemma HeaderSlice(b: HeaderParser, slices: seq<bytes>, length: nat)
    requires slices != [] && b(slices[0]) == Some(length)
    ensures var m := Some(Message(slices[0], length));
            LoadAll(b, IDLE, slices) ==
            if length == 0 then
              var o := LoadAll(b, Framing(false, 0, m), slices[1..]); (o.0, [Delivery(slices[0], 0)] + o.1)
            else LoadAll(b, Framing(true, 0, m), slices[1..])
  {
    var l := Load(b, IDLE, slices[0]);
    var m := Some(Message(slices[0], length));
    assert l.parser == Framing(length != 0, 0, m);
    assert l.delivered == if length == 0 then [Delivery(slices[0], 0)] else [];
    hide Load, SizeT;
    assert [] + LoadAll(b, l.parser, slices[1..]).1 == LoadAll(b, l.parser, slices[1..]).1;
  }
}
