/** Cutting a byte stream into SIP messages: SipParser::loadMessageData and the drain loops of
    SipInterface::onTcpRecv and SipInterface::onUdpRecv. */
module SipFraming {
  import opened Bytes
  import opened MessageBuffers
  import opened DelimiterScan

  /** Builds a message from a header section and yields its Content-Length, or yields none.
      Header parsing itself is modelled in HeaderFields. */
  type HeaderParser = bytes -> Option<int>

  /** A message as handed to the event handler: its header section and its count of body bytes. */
  datatype Delivery = Delivery(header: bytes, bodyBytes: int)

  datatype Message = Message(header: bytes, contentLength: int)

  /** The framing state of a SipParser. */
  datatype Framing = Framing(processing: bool, received: int, message: Option<Message>) {
    predicate Valid() {
      processing ==> message.Some?
    }
  }

  const IDLE := Framing(false, 0, None)

  /** The result of a load: the new state, the number of body bytes still expected, and what
      was handed to the event handler. */
  datatype Loaded = Loaded(parser: Framing, pending: nat, delivered: seq<Delivery>)

  /** The conversion of an `int` to the 64-bit `size_t`. */
  function SizeT(x: int): nat {
    x % 0x1_0000_0000_0000_0000
  }

  function Load(b: HeaderParser, f: Framing, buf: bytes): Loaded
    requires f.Valid()
  {
    if !f.processing then
      match b(buf)
      case None => Loaded(f.(message := None), 0, [])
      case Some(length) =>
        var m := Some(Message(buf, length));
        if length == 0 then Loaded(Framing(false, 0, m), 0, [Delivery(buf, f.received)])
        else Loaded(Framing(true, f.received, m), SizeT(length), [])
    else
      var got := f.received + |buf|;
      var length := f.message.value.contentLength;
      if got >= length then Loaded(Framing(false, 0, f.message), 0, [Delivery(f.message.value.header, got)])
      else Loaded(Framing(true, got, f.message), SizeT(length - got), [])
  }

  /** A TCP connection between two reads. */
  datatype Conn = Conn(ring: Ring, pending: nat, parser: Framing) {
    ghost predicate Valid() {
      ring.Valid() && parser.Valid()
    }
  }

  /** Size of the buffer `onTcpRecv` drains into. */
  const TCP_BUFFER := 1024
  /** Capacity of a connection's message buffer. */
  const TCP_CAPACITY := 16192
  /** Size of the buffer libuv reads into. */
  const READ_SIZE := 8192
  /** Size of the buffers `onUdpRecv` uses. */
  const UDP_BUFFER := 4096

  /** What the drain loop takes next. */
  function PullSize(c: Conn): (n: nat)
    requires c.Valid()
    ensures n <= c.ring.stored
  {
    if c.pending > 0 then Min(c.pending, c.ring.stored)
    else c.ring.DelimitedCount(MESSAGE_DELIMITER, TCP_BUFFER)
  }

  function LoadNext(b: HeaderParser, c: Conn): Loaded
    requires c.Valid()
  {
    Load(b, c.parser, c.ring.Contents()[..PullSize(c)])
  }

  function Next(b: HeaderParser, c: Conn): (c': Conn)
    requires c.Valid()
    ensures c'.Valid() && c'.ring.stored == c.ring.stored - PullSize(c) && |c'.ring.cells| == |c.ring.cells|
  {
    var l := LoadNext(b, c);
    Conn(c.ring.Drop(PullSize(c)), l.pending, l.parser)
  }

  datatype Outcome = Outcome(conn: Conn, delivered: seq<Delivery>)

  /** The drain loop: pull and load until a pull yields nothing. */
  function Drain(b: HeaderParser, c: Conn): (o: Outcome)
    requires c.Valid()
    ensures o.conn.Valid() && |o.conn.ring.cells| == |c.ring.cells|
    decreases c.ring.stored
  {
    if PullSize(c) == 0 then Outcome(c, [])
    else
      var o := Drain(b, Next(b, c));
      Outcome(o.conn, LoadNext(b, c).delivered + o.delivered)
  }

  /** One read: store the chunk, unless it does not fit, and drain. */
  function Receive(b: HeaderParser, c: Conn, chunk: bytes): Outcome
    requires c.Valid()
  {
    Drain(b, Conn(c.ring.Push(chunk), c.pending, c.parser))
  }

  /** Any number of reads. */
  function Run(b: HeaderParser, c: Conn, chunks: seq<bytes>): (o: Outcome)
    requires c.Valid()
    ensures o.conn.Valid() && |o.conn.ring.cells| == |c.ring.cells|
    decreases |chunks|
  {
    if chunks == [] then Outcome(c, [])
    else
      var first := Receive(b, c, chunks[0]);
      var rest := Run(b, first.conn, chunks[1..]);
      Outcome(rest.conn, first.delivered + rest.delivered)
  }

  /** No pull of the drain copies more than its buffer holds. Beyond that the program is undefined. */
  ghost predicate DrainFits(b: HeaderParser, c: Conn)
    requires c.Valid()
    decreases c.ring.stored
  {
    PullSize(c) <= TCP_BUFFER && (PullSize(c) > 0 ==> DrainFits(b, Next(b, c)))
  }

  /** No pull of any of the reads does. */
  ghost predicate RunFits(b: HeaderParser, c: Conn, chunks: seq<bytes>)
    requires c.Valid()
    decreases |chunks|
  {
    chunks == [] ||
    (DrainFits(b, Conn(c.ring.Push(chunks[0]), c.pending, c.parser)) &&
     RunFits(b, Receive(b, c, chunks[0]).conn, chunks[1..]))
  }

  lemma {:induction false} ScanWithin(cells: bytes, bufSize: nat, p: nat, m: nat, count: nat)
    requires cells != [] && p <= |cells| && m <= 4 && (count <= bufSize || m < 4)
    ensures Scan(cells, MESSAGE_DELIMITER, bufSize, p, m, count) <= bufSize
    decreases bufSize - count
  {
    if m < 4 && count + 1 < bufSize {
      var at := if p == |cells| then 0 else p;
      ScanWithin(cells, bufSize, at + 1, if cells[at] == MESSAGE_DELIMITER[m] then m + 1 else 0, count + 1);
    }
  }

  /** Only a pull of body bytes can overrun the buffer. */
  lemma OnlyBodiesOverrun(c: Conn)
    requires c.Valid()
    ensures PullSize(c) > TCP_BUFFER <==> c.pending > TCP_BUFFER && c.ring.stored > TCP_BUFFER
  {
    ScanWithin(c.ring.cells, TCP_BUFFER, 0, 0, 0);
  }

  class SipParser {
    const builder: HeaderParser
    var processingMessage: bool
    var receivedContentLength: int
    var sipMessage: Option<Message>
    /** What the event handler was called with. */
    ghost var delivered: seq<Delivery>

    ghost function State(): Framing
      reads this
    {
      Framing(processingMessage, receivedContentLength, sipMessage)
    }

    constructor (builder: HeaderParser)
      ensures State() == IDLE && delivered == [] && this.builder == builder
    {
      this.builder := builder;
      processingMessage := false;
      receivedContentLength := 0;
      sipMessage := None;
      delivered := [];
    }

    method LoadMessageData(buf: array<byte>, len: nat) returns (pending: nat)
      requires State().Valid() && len <= buf.Length
      modifies this
      ensures State().Valid()
      ensures Loaded(State(), pending, delivered) ==
              var l := Load(builder, old(State()), buf[..len]); l.(delivered := old(delivered) + l.delivered)
    {
      if !processingMessage {
        var length := builder(buf[..len]);
        match length
        case Some(contentLength) =>
          sipMessage := Some(Message(buf[..len], contentLength));
          if contentLength == 0 {
            delivered := delivered + [Delivery(buf[..len], receivedContentLength)];
            receivedContentLength := 0;
            processingMessage := false;
          } else {
            processingMessage := true;
          }
          return SizeT(contentLength);
        case None =>
          sipMessage := None;
          return 0;
      }
      receivedContentLength := receivedContentLength + len;
      if receivedContentLength >= sipMessage.value.contentLength {
        delivered := delivered + [Delivery(sipMessage.value.header, receivedContentLength)];
        receivedContentLength := 0;
        processingMessage := false;
        return 0;
      } else {
        processingMessage := true;
        return SizeT(sipMessage.value.contentLength - receivedContentLength);
      }
    }
  }

  /** Content-Lengths that fit the buffer the drain loop copies bodies into. */
  ghost predicate FitsBuffer(b: HeaderParser) {
    forall h: bytes :: b(h).Some? ==> 0 <= b(h).value <= TCP_BUFFER
  }

  /** The framing states reached when every Content-Length fits the buffer. */
  ghost predicate Bounded(f: Framing) {
    && f.Valid() && f.received >= 0
    && (f.processing ==> f.message.value.contentLength <= TCP_BUFFER)
  }

  lemma LoadStaysBounded(b: HeaderParser, f: Framing, buf: bytes)
    requires FitsBuffer(b) && Bounded(f)
    ensures var l := Load(b, f, buf); Bounded(l.parser) && l.pending <= TCP_BUFFER
  {
  }

  /** With such Content-Lengths no drain overruns its buffer. */
  lemma {:induction false} BoundedDrainFits(b: HeaderParser, c: Conn)
    requires c.Valid() && FitsBuffer(b) && Bounded(c.parser) && c.pending <= TCP_BUFFER
    ensures DrainFits(b, c)
    decreases c.ring.stored
  {
    OnlyBodiesOverrun(c);
    if PullSize(c) > 0 {
      LoadStaysBounded(b, c.parser, c.ring.Contents()[..PullSize(c)]);
      BoundedDrainFits(b, Next(b, c));
    }
  }

  class SipConnection {
    const messageBuffer: MessageBuffer
    const sipParser: SipParser
    var pendingMessageBytes: nat

    ghost predicate Valid()
      reads this, messageBuffer, messageBuffer.data, sipParser
    {
      messageBuffer.Valid() && sipParser.State().Valid()
    }

    ghost function View(): (c: Conn)
      requires Valid()
      reads this, messageBuffer, messageBuffer.data, sipParser
      ensures c.Valid()
    {
      Conn(messageBuffer.View(), pendingMessageBytes, sipParser.State())
    }

    constructor (builder: HeaderParser)
      ensures Valid() && fresh(messageBuffer) && fresh(messageBuffer.data) && fresh(sipParser)
      ensures View().ring.Contents() == [] && View().ring.Capacity() == TCP_CAPACITY
      ensures View().pending == 0 && View().parser == IDLE && sipParser.delivered == [] && sipParser.builder == builder
    {
      messageBuffer := new MessageBuffer(TCP_CAPACITY);
      sipParser := new SipParser(builder);
      pendingMessageBytes := 0;
    }

    /** The body of the drain loop. It overruns its buffer when more than its size is pulled. */
    method DrainOnce(buf: array<byte>) returns (count: nat, overrun: bool)
      requires Valid() && buf.Length == TCP_BUFFER && buf != messageBuffer.data
      modifies this, messageBuffer`dataStartPos, sipParser, buf
      ensures Valid() && count == PullSize(old(View())) && (overrun <==> count > TCP_BUFFER)
      ensures count == 0 ==> View() == old(View()) && sipParser.delivered == old(sipParser.delivered)
      ensures count > 0 && !overrun ==>
                View() == Next(sipParser.builder, old(View())) &&
                sipParser.delivered == old(sipParser.delivered + LoadNext(sipParser.builder, View()).delivered)
    {
      hide Load, Rotate, Scan, StoredBetween;
      if pendingMessageBytes > 0 {
        count, overrun := messageBuffer.PullCount(buf, pendingMessageBytes);
      } else {
        count := messageBuffer.PullDelimited(buf, MESSAGE_DELIMITER);
        overrun := false;
      }
      if count > 0 && !overrun {
        pendingMessageBytes := sipParser.LoadMessageData(buf, count);
      } else if count == 0 {
        assert messageBuffer.View().cells == old(messageBuffer.View().cells);
      }
    }

    /** Stores a chunk and drains, unless a pull of the drain overruns its buffer: then nothing is
        said of what follows. */
    method OnTcpRecv(chunk: array<byte>, bytesRead: nat) returns (overrun: bool)
      requires Valid() && 0 < bytesRead <= chunk.Length && chunk != messageBuffer.data
      modifies this, messageBuffer, messageBuffer.data, sipParser
      ensures Valid()
      ensures var c := old(View());
              overrun <==> !DrainFits(sipParser.builder, Conn(c.ring.Push(chunk[..bytesRead]), c.pending, c.parser))
      ensures !overrun ==>
                Outcome(View(), sipParser.delivered) ==
                var o := Receive(sipParser.builder, old(View()), chunk[..bytesRead]);
                Outcome(o.conn, old(sipParser.delivered) + o.delivered)
    {
      hide Load, Rotate, Scan, StoredBetween, PullSize, Next, LoadNext;
      var _ := messageBuffer.Push(chunk, bytesRead);
      overrun := DrainAll();
    }

    /** The drain loop. */
    method DrainAll() returns (overrun: bool)
      requires Valid()
      modifies this, messageBuffer`dataStartPos, sipParser
      ensures Valid() && (overrun <==> !DrainFits(sipParser.builder, old(View())))
      ensures !overrun ==>
                var o := Drain(sipParser.builder, old(View()));
                View() == o.conn && sipParser.delivered == old(sipParser.delivered) + o.delivered
    {
      hide Load, Rotate, Scan, StoredBetween, PullSize, Next, LoadNext, DrainFits, Drain;
      ghost var b, start, before := sipParser.builder, View(), sipParser.delivered;
      var buf := new byte[TCP_BUFFER];
      var count := 1;
      overrun := false;
      ghost var done := [];
      NothingYet(Drain(b, start));
      while count > 0
        invariant Valid() && fresh(buf) && count >= 0
        invariant sipParser.delivered == before + done
        invariant Outcome(Drain(b, View()).conn, done + Drain(b, View()).delivered) == Drain(b, start)
        invariant DrainFits(b, View()) == DrainFits(b, start)
        invariant count == 0 ==> PullSize(View()) == 0
        decreases if count > 0 then 1 + View().ring.stored else 0
      {
        ghost var c := View();
        DrainStep(b, c, done);
        count, overrun := DrainOnce(buf);
        if overrun {
          return;
        }
        if count > 0 {
          done := done + LoadNext(b, c).delivered;
        }
      }
      DrainStep(b, View(), done);
    }
  }

  lemma NothingYet(o: Outcome)
    ensures Outcome(o.conn, [] + o.delivered) == o
  {
  }

  /** One turn of the loop and the rest of the drain. */
  lemma DrainStep(b: HeaderParser, c: Conn, done: seq<Delivery>)
    requires c.Valid()
    ensures PullSize(c) > TCP_BUFFER ==> !DrainFits(b, c)
    ensures PullSize(c) == 0 ==> DrainFits(b, c) && Drain(b, c) == Outcome(c, []) && done + [] == done
    ensures PullSize(c) > 0 ==>
              && Next(b, c).ring.stored < c.ring.stored
              && Drain(b, c).conn == Drain(b, Next(b, c)).conn
              && done + Drain(b, c).delivered == (done + LoadNext(b, c).delivered) + Drain(b, Next(b, c)).delivered
    ensures 0 < PullSize(c) <= TCP_BUFFER ==> DrainFits(b, c) == DrainFits(b, Next(b, c))
  {
    hide PullSize, LoadNext;
  }

  /** The slices the UDP loop hands to the parser: up to the delimiter, or else everything. */
  ghost function UdpSlices(r: Ring): (slices: seq<bytes>)
    requires r.Valid()
    ensures slices != []
    decreases r.stored
  {
    var n := UdpPull(r);
    if r.stored == n then [r.Contents()]
    else [r.Contents()[..n]] + UdpSlices(r.Drop(n))
  }

  function UdpPull(r: Ring): (n: nat)
    requires r.Valid()
    ensures n <= r.stored && (r.stored > 0 ==> n > 0)
  {
    var n := r.DelimitedCount(MESSAGE_DELIMITER, UDP_BUFFER);
    if n == 0 then r.stored else n
  }

  /** Loading one slice after the other; what is pending does not matter. */
  function LoadAll(b: HeaderParser, f: Framing, slices: seq<bytes>): (o: (Framing, seq<Delivery>))
    requires f.Valid()
    ensures o.0.Valid()
    decreases |slices|
  {
    if slices == [] then (f, [])
    else
      var l := Load(b, f, slices[0]);
      var o := LoadAll(b, l.parser, slices[1..]);
      (o.0, l.delivered + o.1)
  }

  /** No byte of a datagram is lost, duplicated or reordered, whatever the unused cells hold. */
  lemma {:induction false} UdpSlicesConserve(r: Ring)
    requires r.Valid()
    ensures Concat(UdpSlices(r)) == r.Contents()
    decreases r.stored
  {
    hide UdpPull;
    var n := UdpPull(r);
    if r.stored == n {
      assert Concat([r.Contents()]) == r.Contents() + Concat<byte>([]);
    } else {
      UdpSlicesConserve(r.Drop(n));
      assert r.Drop(n).Contents() == r.Contents()[n..];
      var s := UdpSlices(r);
      assert s[1..] == UdpSlices(r.Drop(n));
    }
  }

  /** Every slice but the last one stops where the search stops in the rest of the datagram;
      the last one holds no delimiter the search stops at, or ends with it. */
  ghost predicate CutAtHits(slices: seq<bytes>) {
    forall i | 0 <= i < |slices| ::
      var h := Hit(Concat(slices[i..]), 0, 0);
      if i < |slices| - 1 then h == |slices[i]| > 0 else h == 0 || h == |slices[i]|
  }

  lemma {:induction false} UdpSlicesAreHits(r: Ring)
    requires r.Valid() && r.stored <= UDP_BUFFER
    ensures CutAtHits(UdpSlices(r))
    decreases r.stored
  {
    var n := UdpPull(r);
    var s := UdpSlices(r);
    UdpSlicesConserve(r);
    assert s[0..] == s;
    if Stale(r, UDP_BUFFER) {
      StalePullTakesAll(r, UDP_BUFFER);
    } else {
      PullIsHit(r, UDP_BUFFER);
      HitIsSound(r.Contents());
    }
    if n < r.stored {
      UdpSlicesAreHits(r.Drop(n));
      forall i | 0 < i < |s| ensures s[i..] == UdpSlices(r.Drop(n))[i - 1..] {
      }
    }
  }

  /** No slice of a datagram is empty. */
  lemma {:induction false} NoEmptySlice(r: Ring)
    requires r.Valid() && r.stored > 0
    ensures forall slice | slice in UdpSlices(r) :: slice != []
    decreases r.stored
  {
    hide UdpPull;
    var n := UdpPull(r);
    if n < r.stored {
      NoEmptySlice(r.Drop(n));
    }
  }

  lemma UdpSlicesStep(r: Ring)
    requires r.Valid()
    ensures var n, s := UdpPull(r), UdpSlices(r);
            s[0] == r.Contents()[..n] && s[1..] == if r.stored == n then [] else UdpSlices(r.Drop(n))
  {
  }

  lemma LoadAllStep(b: HeaderParser, f: Framing, slices: seq<bytes>, before: seq<Delivery>)
    requires f.Valid() && slices != []
    ensures var l := Load(b, f, slices[0]);
            LoadAll(b, f, slices).0 == LoadAll(b, l.parser, slices[1..]).0 &&
            before + LoadAll(b, f, slices).1 == (before + l.delivered) + LoadAll(b, l.parser, slices[1..]).1
  {
  }

  lemma LoadAllNone(b: HeaderParser, f: Framing)
    requires f.Valid()
    ensures LoadAll(b, f, []) == (f, [])
  {
  }

  /** The body of the UDP loop. */
  method UdpDrainOnce(parser: SipParser, messageBuffer: MessageBuffer, buf: array<byte>) returns (ghost slice: bytes)
    requires messageBuffer.Valid() && parser.State().Valid() && buf != messageBuffer.data
    requires buf.Length == messageBuffer.maxCapacity == UDP_BUFFER
    modifies parser, messageBuffer`dataStartPos, buf
    ensures messageBuffer.Valid() && parser.State().Valid()
    ensures slice == old(messageBuffer.View()).Contents()[..UdpPull(old(messageBuffer.View()))]
    ensures messageBuffer.View() == old(messageBuffer.View()).Drop(|slice|)
    ensures var l := Load(parser.builder, old(parser.State()), slice);
            parser.State() == l.parser && parser.delivered == old(parser.delivered) + l.delivered
  {
    hide Load, Rotate, Scan, StoredBetween;
    var count := messageBuffer.PullDelimited(buf, MESSAGE_DELIMITER);
    if count == 0 && messageBuffer.StoredByteCount() > 0 {
      assert messageBuffer.View().cells == old(messageBuffer.View().cells);
      var rest, _ := messageBuffer.PullCount(buf, messageBuffer.StoredByteCount());
      count := rest;
    }
    slice := buf[..count];
    var _ := parser.LoadMessageData(buf, count);
  }

  method OnUdpRecv(parser: SipParser, datagram: array<byte>, bytesRead: nat) returns (ghost slices: seq<bytes>)
    requires parser.State().Valid() && 0 < bytesRead <= datagram.Length
    modifies parser
    ensures parser.State().Valid()
    ensures slices != [] && Concat(slices) == if bytesRead <= UDP_BUFFER then datagram[..bytesRead] else []
    ensures (parser.State(), parser.delivered) ==
            var o := LoadAll(parser.builder, old(parser.State()), slices); (o.0, old(parser.delivered) + o.1)
    ensures CutAtHits(slices)
    ensures bytesRead <= UDP_BUFFER ==> forall slice | slice in slices :: slice != []
  {
    hide Load, LoadAll, Rotate, Scan, StoredBetween, CutAtHits, UdpSlices, UdpPull;
    var buf := new byte[UDP_BUFFER];
    var messageBuffer := new MessageBuffer(UDP_BUFFER);
    var _ := messageBuffer.Push(datagram, bytesRead);
    ghost var b, start := parser.builder, messageBuffer.View();
    ghost var before, f := parser.delivered, parser.State();
    slices := UdpSlices(start);
    if bytesRead <= UDP_BUFFER {
      NoEmptySlice(start);
    }
    UdpSlicesConserve(start);
    UdpSlicesAreHits(start);
    ghost var todo := slices;
    var more := true;
    while more
      invariant messageBuffer.Valid() && parser.State().Valid()
      invariant fresh(messageBuffer) && fresh(messageBuffer.data) && fresh(buf) && buf != messageBuffer.data
      invariant more ==> todo == UdpSlices(messageBuffer.View())
      invariant !more ==> todo == []
      invariant LoadAll(b, f, slices).0 == LoadAll(b, parser.State(), todo).0
      invariant before + LoadAll(b, f, slices).1 == parser.delivered + LoadAll(b, parser.State(), todo).1
      decreases if more then 1 + messageBuffer.View().stored else 0
    {
      LoadAllStep(b, parser.State(), todo, parser.delivered);
      UdpSlicesStep(messageBuffer.View());
      ghost var slice := UdpDrainOnce(parser, messageBuffer, buf);
      todo := todo[1..];
      more := messageBuffer.StoredByteCount() > 0;
    }
    LoadAllNone(b, parser.State());
    assert parser.delivered + [] == parser.delivered;
  }
}
