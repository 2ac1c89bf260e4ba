/** TCP may cut a stream of SIP messages anywhere (section 18.3 of RFC 3261). Whatever the cuts,
    the messages are delivered in order with the same header bytes and body size, if and only
    if no delimiter search of the run goes past the stored bytes. */
module Segmentation {
  import opened Bytes
  import opened MessageBuffers
  import opened DelimiterScan
  import opened SipFraming

  datatype SipText = SipText(header: bytes, body: bytes) {
    function Bytes(): bytes {
      header + body
    }
  }

  /** A Content-Length is an `int`. */
  const INT_LIMIT := 0x8000_0000

  /** A header section the search can find in the drain buffer, with its Content-Length. */
  ghost predicate WellFormed(b: HeaderParser, m: SipText) {
    && 4 <= |m.header| < TCP_BUFFER
    && FirstDelimiterAt(m.header, |m.header| - 4)
    && CrRun(m.header, |m.header| - 4) % 2 == 0
    && b(m.header) == Some(|m.body|)
    && |m.body| < INT_LIMIT
  }

  ghost predicate AllWellFormed(b: HeaderParser, ms: seq<SipText>) {
    forall m | m in ms :: WellFormed(b, m)
  }

  function Stream(ms: seq<SipText>): bytes {
    if ms == [] then [] else ms[0].Bytes() + Stream(ms[1..])
  }

  function Deliveries(ms: seq<SipText>): (ds: seq<Delivery>)
    ensures |ds| == |ms|
  {
    seq(|ms|, i requires 0 <= i < |ms| => Delivery(ms[i].header, |ms[i].body|))
  }

  /** No search of the drain runs past the stored bytes. */
  ghost predicate CleanDrain(b: HeaderParser, c: Conn)
    requires c.Valid()
    decreases c.ring.stored
  {
    && (c.pending == 0 ==> !Stale(c.ring, TCP_BUFFER))
    && (PullSize(c) > 0 ==> CleanDrain(b, Next(b, c)))
  }

  /** No search of the run runs past the stored bytes. */
  ghost predicate CleanRun(b: HeaderParser, c: Conn, chunks: seq<bytes>)
    requires c.Valid()
    decreases |chunks|
  {
    chunks == [] ||
    var pushed := Conn(c.ring.Push(chunks[0]), c.pending, c.parser);
    CleanDrain(b, pushed) && CleanRun(b, Receive(b, c, chunks[0]).conn, chunks[1..])
  }

  /** The connection has delivered everything before `ms` and is inside `ms[0]` or before it. */
  ghost predicate InSync(c: Conn, ms: seq<SipText>) {
    if c.parser.processing then
      && ms != [] && 0 <= c.parser.received < |ms[0].body|
      && c.parser.message == Some(Message(ms[0].header, |ms[0].body|))
      && c.pending == |ms[0].body| - c.parser.received
    else
      c.pending == 0 && c.parser.received == 0
  }

  /** The bytes of `ms` that were not yet given to the parser. */
  function Remaining(c: Conn, ms: seq<SipText>): bytes
    requires InSync(c, ms)
  {
    if c.parser.processing then ms[0].body[c.parser.received..] + Stream(ms[1..]) else Stream(ms)
  }

  /** The stored bytes are the first of the bytes to come. */
  ghost predicate Awaiting(c: Conn, ms: seq<SipText>, future: bytes) {
    c.Valid() && InSync(c, ms) && c.ring.Contents() + future == Remaining(c, ms)
  }

  // ---------- where the search stops in a stream ----------

  /** What the search stops at does not depend on what follows. */
  lemma {:induction false} HitPrefix(s: bytes, t: bytes, k: nat, m: nat)
    requires k <= |s| && m <= 4
    ensures Hit(s, k, m) > 0 ==> Hit(s + t, k, m) == Hit(s, k, m)
    ensures Hit(s, k, m) == 0 ==> Hit(s + t, k, m) == 0 || Hit(s + t, k, m) > |s|
    decreases |s| - k
  {
    if m < 4 {
      if k < |s| {
        assert (s + t)[k] == s[k];
        HitPrefix(s, t, k + 1, Step(m, s[k]));
      } else {
        HitBounds(s + t, k, m);
      }
    }
  }

  /** A well-formed header section is exactly what the search stops at. */
  lemma HitAtHeader(b: HeaderParser, m: SipText)
    requires WellFormed(b, m)
    ensures Hit(m.header, 0, 0) == |m.header|
  {
    HitIsFirstDelimiter(m.header, |m.header| - 4);
  }

  /** A proper beginning of a header section does not stop the search. */
  lemma NoHitInside(b: HeaderParser, m: SipText, n: nat)
    requires WellFormed(b, m) && n < |m.header|
    ensures Hit(m.header[..n], 0, 0) == 0
  {
    HitAtHeader(b, m);
    assert m.header == m.header[..n] + m.header[n..];
    HitPrefix(m.header[..n], m.header[n..], 0, 0);
    HitIsSound(m.header[..n]);
  }

  /** Where the search stops in the first bytes of a stream: at the end of the first header section,
      if that is there. */
  lemma HitInStream(b: HeaderParser, ms: seq<SipText>, s: bytes, future: bytes)
    requires AllWellFormed(b, ms) && s + future == Stream(ms)
    ensures Hit(s, 0, 0) == if ms != [] && |ms[0].header| <= |s| then |ms[0].header| else 0
    ensures ms != [] ==> |ms[0].header| < TCP_BUFFER
  {
    if ms == [] {
      HitIsSound(s);
    } else {
      var h, behind := ms[0].header, ms[0].body + Stream(ms[1..]);
      assert WellFormed(b, ms[0]);
      StreamSplit(ms);
      hide WellFormed, AllWellFormed, Stream, Hit;
      HeaderPart(h, behind, s, future);
      if |h| <= |s| {
        HitAtHeader(b, ms[0]);
        HeaderLength(b, ms[0]);
        HitPrefix(h, s[|h|..], 0, 0);
      } else {
        HeaderLength(b, ms[0]);
        NoHitInside(b, ms[0], |s|);
      }
    }
  }

  lemma HeaderLength(b: HeaderParser, m: SipText)
    requires WellFormed(b, m)
    ensures 4 <= |m.header| < TCP_BUFFER
  {
  }

  /** The first bytes of a stream begin with its first header section, or are the beginning of it. */
  lemma HeaderPart(h: bytes, behind: bytes, s: bytes, future: bytes)
    requires s + future == h + behind
    ensures if |h| <= |s| then s == h + s[|h|..] else s == h[..|s|]
  {
    if |h| <= |s| {
      assert (s + future)[..|h|] == s[..|h|] == h;
    } else {
      assert (s + future)[..|s|] == s;
    }
  }

  /** Waiting for a header, what is pulled is the whole header section or nothing. */
  lemma PullInSync(b: HeaderParser, c: Conn, ms: seq<SipText>, future: bytes)
    requires Awaiting(c, ms, future) && !c.parser.processing && AllWellFormed(b, ms) && !Stale(c.ring, TCP_BUFFER)
    ensures PullSize(c) == if ms != [] && |ms[0].header| <= c.ring.stored then |ms[0].header| else 0
  {
    hide Hit, Stream, AllWellFormed, Stale, Ring.DelimitedCount;
    PullIsHit(c.ring, TCP_BUFFER);
    HitInStream(b, ms, c.ring.Contents(), future);
  }

  // ---------- one step ----------

  /** The messages still to come after a step. */
  function Rest(b: HeaderParser, c: Conn, ms: seq<SipText>): seq<SipText>
    requires c.Valid()
  {
    if LoadNext(b, c).delivered == [] || ms == [] then ms else ms[1..]
  }

  lemma StreamSplit(ms: seq<SipText>)
    requires ms != []
    ensures Stream(ms) == ms[0].header + (ms[0].body + Stream(ms[1..]))
  {
  }

  lemma DeliveriesSplit(ms: seq<SipText>)
    ensures [] + Deliveries(ms) == Deliveries(ms)
    ensures ms != [] ==> Deliveries(ms) == [Delivery(ms[0].header, |ms[0].body|)] + Deliveries(ms[1..])
  {
  }

  /** Taking `n` of the bytes to come. */
  lemma TakeFront(stored: bytes, future: bytes, front: bytes, back: bytes, n: nat)
    requires stored + future == front + back && n <= |stored|
    ensures n <= |front| ==> stored[..n] == front[..n] && stored[n..] + future == front[n..] + back
  {
    if n <= |front| {
      assert (stored + future)[..n] == stored[..n] && (front + back)[..n] == front[..n];
      assert (stored + future)[n..] == stored[n..] + future;
      assert (front + back)[n..] == front[n..] + back;
    }
  }

  /** Inside a body: the fragment is counted, and the last one completes the message. */
  lemma LoadBody(b: HeaderParser, f: Framing, m: SipText, fragment: bytes)
    requires f.processing && f.message == Some(Message(m.header, |m.body|))
    requires 0 <= f.received < |m.body| < INT_LIMIT && |fragment| <= |m.body| - f.received
    ensures Load(b, f, fragment) ==
            var n := f.received + |fragment|;
            if n == |m.body| then Loaded(Framing(false, 0, f.message), 0, [Delivery(m.header, |m.body|)])
            else Loaded(Framing(true, n, f.message), |m.body| - n, [])
  {
  }

  lemma BodyPull(c: Conn, ms: seq<SipText>)
    requires c.Valid() && InSync(c, ms) && c.parser.processing
    ensures PullSize(c) == Min(|ms[0].body| - c.parser.received, c.ring.stored)
    ensures |c.ring.Contents()| == c.ring.stored
  {
  }

  lemma NextContents(b: HeaderParser, c: Conn)
    requires c.Valid()
    ensures Next(b, c).ring.Contents() == c.ring.Contents()[PullSize(c)..]
  {
    hide PullSize;
  }

  /** What a fragment of a body does to the parser. */
  lemma BodyLoaded(b: HeaderParser, c: Conn, ms: seq<SipText>)
    requires c.Valid() && InSync(c, ms) && AllWellFormed(b, ms) && c.parser.processing
    ensures var n, m := PullSize(c), ms[0];
            && n <= |m.body| - c.parser.received == c.pending
            && LoadNext(b, c) ==
               if n == c.pending then Loaded(Framing(false, 0, c.parser.message), 0, [Delivery(m.header, |m.body|)])
               else Loaded(Framing(true, c.parser.received + n, c.parser.message), c.pending - n, [])
  {
    assert WellFormed(b, ms[0]);
    assert |ms[0].body| < INT_LIMIT;
    BodyPull(c, ms);
    hide WellFormed, AllWellFormed, Load, PullSize, Ring.Contents;
    LoadBody(b, c.parser, ms[0], c.ring.Contents()[..PullSize(c)]);
  }

  /** The connection stays in step, and these bytes are to come then. */
  lemma BodyInSync(b: HeaderParser, c: Conn, ms: seq<SipText>)
    requires c.Valid() && InSync(c, ms) && AllWellFormed(b, ms) && c.parser.processing
    ensures InSync(Next(b, c), Rest(b, c, ms))
    ensures var n := PullSize(c);
            && n <= |ms[0].body| - c.parser.received
            && Remaining(Next(b, c), Rest(b, c, ms)) == ms[0].body[c.parser.received + n..] + Stream(ms[1..])
            && (LoadNext(b, c).delivered, Rest(b, c, ms)) ==
               if n == c.pending then ([Delivery(ms[0].header, |ms[0].body|)], ms[1..]) else ([], ms)
  {
    hide LoadNext, Stream, PullSize, AllWellFormed, Ring.Drop, Scan, Ring.DelimitedCount;
    BodyLoaded(b, c, ms);
    if PullSize(c) == c.pending {
      BodyDone(ms[0].body, |ms[0].body|, ms[1..]);
    }
  }

  lemma BodyStep(b: HeaderParser, c: Conn, ms: seq<SipText>, future: bytes)
    requires Awaiting(c, ms, future) && AllWellFormed(b, ms) && c.parser.processing
    ensures Awaiting(Next(b, c), Rest(b, c, ms), future)
    ensures Deliveries(ms) == LoadNext(b, c).delivered + Deliveries(Rest(b, c, ms))
  {
    BodyInSync(b, c, ms);
    BodyPull(c, ms);
    NextContents(b, c);
    DeliveriesSplit(ms);
    var k, n, body := c.parser.received, PullSize(c), ms[0].body;
    assert c.ring.Contents() + future == body[k..] + Stream(ms[1..]);
    hide InSync, Remaining, Load, LoadNext, Next, Rest, Deliveries, Stream, PullSize, Ring.Contents, AllWellFormed;
    TakeFront(c.ring.Contents(), future, body[k..], Stream(ms[1..]), n);
    assert body[k..][n..] == body[k + n..];
  }

  lemma BodyDone(body: bytes, n: nat, ms: seq<SipText>)
    requires n == |body|
    ensures body[n..] + Stream(ms) == Stream(ms)
  {
  }

  /** In front of a header section: it is pulled whole, and a message without body is complete. */
  lemma HeaderLoad(b: HeaderParser, c: Conn, ms: seq<SipText>)
    requires c.Valid() && InSync(c, ms) && !c.parser.processing && ms != [] && WellFormed(b, ms[0])
    requires c.ring.Contents()[..PullSize(c)] == ms[0].header
    ensures LoadNext(b, c) ==
            var m := Some(Message(ms[0].header, |ms[0].body|));
            if ms[0].body == [] then Loaded(Framing(false, 0, m), 0, [Delivery(ms[0].header, 0)])
            else Loaded(Framing(true, 0, m), |ms[0].body|, [])
  {
  }

  lemma HeaderStep(b: HeaderParser, c: Conn, ms: seq<SipText>, future: bytes)
    requires Awaiting(c, ms, future) && AllWellFormed(b, ms) && PullSize(c) > 0 && !c.parser.processing
    requires !Stale(c.ring, TCP_BUFFER)
    ensures Awaiting(Next(b, c), Rest(b, c, ms), future)
    ensures Deliveries(ms) == LoadNext(b, c).delivered + Deliveries(Rest(b, c, ms))
  {
    hide Load, Scan, Deliveries, PullSize, Stale, WellFormed, Stream;
    PullInSync(b, c, ms, future);
    StreamSplit(ms);
    DeliveriesSplit(ms);
    assert WellFormed(b, ms[0]);
    var h, body := ms[0].header, ms[0].body;
    var n := |h|;
    TakeFront(c.ring.Contents(), future, h, body + Stream(ms[1..]), n);
    HeaderLoad(b, c, ms);
    assert Next(b, c).ring.Contents() == c.ring.Contents()[n..];
    assert h[n..] + (body + Stream(ms[1..])) == body + Stream(ms[1..]);
    assert body[0..] == body;
  }

  /** One step of a clean drain stays in step with the messages. */
  lemma StepInSync(b: HeaderParser, c: Conn, ms: seq<SipText>, future: bytes)
    requires Awaiting(c, ms, future) && AllWellFormed(b, ms) && PullSize(c) > 0
    requires c.pending == 0 ==> !Stale(c.ring, TCP_BUFFER)
    ensures Awaiting(Next(b, c), Rest(b, c, ms), future)
    ensures Deliveries(ms) == LoadNext(b, c).delivered + Deliveries(Rest(b, c, ms))
  {
    if c.parser.processing {
      BodyStep(b, c, ms, future);
    } else {
      HeaderStep(b, c, ms, future);
    }
  }

  /** A drain that has stopped leaves less than one header section. */
  lemma StoppedInSync(b: HeaderParser, c: Conn, ms: seq<SipText>, future: bytes)
    requires Awaiting(c, ms, future) && AllWellFormed(b, ms) && PullSize(c) == 0
    requires c.pending == 0 ==> !Stale(c.ring, TCP_BUFFER)
    ensures c.ring.stored < TCP_BUFFER - 1
    ensures future == [] ==> ms == [] && c.ring.stored == 0 && c.pending == 0 && !c.parser.processing
  {
    if !c.parser.processing {
      PullInSync(b, c, ms, future);
      if ms != [] {
        assert WellFormed(b, ms[0]);
      }
    }
  }

  // ---------- whole drains and runs ----------

  lemma DrainUnfolds(b: HeaderParser, c: Conn)
    requires c.Valid()
    ensures Drain(b, c) ==
            if PullSize(c) == 0 then Outcome(c, [])
            else Outcome(Drain(b, Next(b, c)).conn, LoadNext(b, c).delivered + Drain(b, Next(b, c)).delivered)
  {
    hide PullSize, LoadNext, Next;
  }

  lemma CleanDrainUnfolds(b: HeaderParser, c: Conn)
    requires c.Valid()
    ensures CleanDrain(b, c) <==>
            (c.pending == 0 ==> !Stale(c.ring, TCP_BUFFER)) && (PullSize(c) > 0 ==> CleanDrain(b, Next(b, c)))
  {
    hide PullSize, Next, Stale;
  }

  lemma StillWellFormed(b: HeaderParser, c: Conn, ms: seq<SipText>)
    requires c.Valid() && AllWellFormed(b, ms)
    ensures AllWellFormed(b, Rest(b, c, ms))
  {
    hide WellFormed, LoadNext;
  }

  lemma NothingFirst(ds: seq<Delivery>)
    ensures [] + ds == ds
  {
  }

  /** A clean drain delivers the first of the messages and stays in step with the others. */
  lemma {:induction false} DrainInSync(b: HeaderParser, c: Conn, ms: seq<SipText>, future: bytes)
    returns (rest: seq<SipText>)
    requires Awaiting(c, ms, future) && AllWellFormed(b, ms) && CleanDrain(b, c)
    ensures var o := Drain(b, c);
            && AllWellFormed(b, rest) && Awaiting(o.conn, rest, future)
            && Deliveries(ms) == o.delivered + Deliveries(rest)
            && o.conn.ring.stored < TCP_BUFFER - 1
            && (future == [] ==>
                  rest == [] && o.conn.ring.stored == 0 && o.conn.pending == 0 && !o.conn.parser.processing)
    decreases c.ring.stored
  {
    DrainUnfolds(b, c);
    CleanDrainUnfolds(b, c);
    hide PullSize, Stale, Deliveries, Awaiting, AllWellFormed, LoadNext, Next, Rest, Drain, CleanDrain;
    if PullSize(c) == 0 {
      StoppedInSync(b, c, ms, future);
      NothingFirst(Deliveries(ms));
      rest := ms;
    } else {
      StepInSync(b, c, ms, future);
      StillWellFormed(b, c, ms);
      rest := DrainInSync(b, Next(b, c), Rest(b, c, ms), future);
      assert LoadNext(b, c).delivered + (Drain(b, Next(b, c)).delivered + Deliveries(rest)) ==
             LoadNext(b, c).delivered + Drain(b, Next(b, c)).delivered + Deliveries(rest);
    }
  }

  /** The chunks libuv delivers: non-empty and no larger than its read buffer. */
  ghost predicate Chunks(chunks: seq<bytes>) {
    forall chunk | chunk in chunks :: 0 < |chunk| <= READ_SIZE
  }

  /** A connection on which the next chunk is sure to fit. */
  ghost predicate Roomy(c: Conn) {
    c.Valid() && |c.ring.cells| == TCP_CAPACITY + 1 && c.ring.stored < TCP_BUFFER - 1
  }

  lemma PushAwaiting(b: HeaderParser, c: Conn, ms: seq<SipText>, chunk: bytes, future: bytes)
    requires Roomy(c) && |chunk| <= READ_SIZE && Awaiting(c, ms, chunk + future)
    ensures Awaiting(Conn(c.ring.Push(chunk), c.pending, c.parser), ms, future)
  {
    assert c.ring.Push(chunk).Contents() == c.ring.Contents() + chunk;
    assert c.ring.Contents() + chunk + future == c.ring.Contents() + (chunk + future);
  }

  /** A clean run delivers every message, once and in order, and keeps nothing back. */
  lemma {:induction false} CleanRunDelivers(b: HeaderParser, c: Conn, ms: seq<SipText>, chunks: seq<bytes>)
    requires Roomy(c) && Chunks(chunks) && AllWellFormed(b, ms)
    requires Awaiting(c, ms, Concat(chunks)) && CleanRun(b, c, chunks)
    requires chunks == [] ==> ms == []
    ensures var o := Run(b, c, chunks);
            o.delivered == Deliveries(ms) && o.conn.ring.stored == 0 && o.conn.pending == 0 && !o.conn.parser.processing
    decreases |chunks|
  {
    if chunks != [] {
      var pushed := Conn(c.ring.Push(chunks[0]), c.pending, c.parser);
      PushAwaiting(b, c, ms, chunks[0], Concat(chunks[1..]));
      var rest := DrainInSync(b, pushed, ms, Concat(chunks[1..]));
      if chunks[1..] != [] {
        CleanRunDelivers(b, Drain(b, pushed).conn, rest, chunks[1..]);
      }
    }
  }

  // ---------- pulls and the drain buffer ----------

  lemma DrainFitsUnfolds(b: HeaderParser, c: Conn)
    requires c.Valid()
    ensures DrainFits(b, c) <==> PullSize(c) <= TCP_BUFFER && (PullSize(c) > 0 ==> DrainFits(b, Next(b, c)))
  {
    hide PullSize, Next;
  }

  /** A header section and what has arrived of its body, whatever its Content-Length: if that is more
      than 1024 or all of it is still to come, the drain overruns its buffer if and only if more than
      1024 bytes wait. A negative Content-Length counts as a huge one. */
  lemma BodyOverruns(b: HeaderParser, c: Conn, header: bytes, part: bytes)
    requires c.Valid() && c.parser == IDLE && c.pending == 0 && c.ring.Contents() == header + part
    requires 4 <= |header| < TCP_BUFFER && FirstDelimiterAt(header, |header| - 4) &&
             CrRun(header, |header| - 4) % 2 == 0
    requires b(header).Some? && b(header).value != 0
    requires |part| < SizeT(b(header).value) || TCP_BUFFER < SizeT(b(header).value)
    ensures DrainFits(b, c) <==> |part| <= TCP_BUFFER
  {
    hide Scan, Hit, FirstDelimiterAt, CrRun, SizeT;
    HitIsFirstDelimiter(header, |header| - 4);
    HitPrefix(header, part, 0, 0);
    HeaderNotStale(c.ring);
    PullIsHit(c.ring, TCP_BUFFER);
    assert PullSize(c) == |header|;
    assert c.ring.Contents()[..|header|] == header;
    var c' := Next(b, c);
    assert c'.pending == SizeT(b(header).value) && c'.ring.stored == |part|;
    DrainFitsUnfolds(b, c);
    DrainFitsUnfolds(b, c');
    if 0 < |part| <= TCP_BUFFER {
      AllTaken(b, c');
    }
  }

  /** A search that stops among the stored bytes is not stale. */
  lemma HeaderNotStale(r: Ring)
    requires r.Valid() && Hit(r.Contents(), 0, 0) > 0
    ensures !Stale(r, TCP_BUFFER)
  {
    if Stale(r, TCP_BUFFER) {
      StalePullTakesAll(r, TCP_BUFFER);
    }
  }

  lemma AllTaken(b: HeaderParser, c: Conn)
    requires c.Valid() && c.pending > c.ring.stored > 0
    ensures PullSize(c) == c.ring.stored && Next(b, c).ring.stored == 0 && DrainFits(b, Next(b, c))
  {
    OnlyBodiesOverrun(Next(b, c));
    DrainFitsUnfolds(b, Next(b, c));
  }

  // ---------- what a search past the stored bytes costs ----------

  function Weight(ds: seq<Delivery>): int {
    if ds == [] then 0 else |ds[0].header| + ds[0].bodyBytes + Weight(ds[1..])
  }

  lemma {:induction false} WeightAppend(a: seq<Delivery>, d: seq<Delivery>)
    ensures Weight(a + d) == Weight(a) + Weight(d)
  {
    if a == [] {
      assert a + d == d;
    } else {
      assert (a + d)[1..] == a[1..] + d;
      WeightAppend(a[1..], d);
    }
  }

  lemma {:induction false} WeightOfDeliveries(ms: seq<SipText>)
    ensures Weight(Deliveries(ms)) == |Stream(ms)|
  {
    if ms != [] {
      DeliveriesSplit(ms);
      WeightOfDeliveries(ms[1..]);
    }
  }

  /** The bytes a connection holds, stored or in a message not yet complete. */
  function Held(c: Conn): int
    requires c.Valid()
  {
    c.ring.stored + c.parser.received + if c.parser.processing then |c.parser.message.value.header| else 0
  }

  /** Deliveries never contain more bytes than were received. */
  lemma {:induction false} DrainWeight(b: HeaderParser, c: Conn)
    requires c.Valid()
    ensures var o := Drain(b, c); Weight(o.delivered) + Held(o.conn) <= Held(c)
    decreases c.ring.stored
  {
    if PullSize(c) > 0 {
      var l := LoadNext(b, c);
      assert Weight(l.delivered) + Held(Next(b, c)) <= Held(c);
      DrainWeight(b, Next(b, c));
      WeightAppend(l.delivered, Drain(b, Next(b, c)).delivered);
    }
  }

  lemma {:induction false} RunWeight(b: HeaderParser, c: Conn, chunks: seq<bytes>)
    requires c.Valid()
    ensures var o := Run(b, c, chunks); Weight(o.delivered) + Held(o.conn) <= Held(c) + |Concat(chunks)|
    decreases |chunks|
  {
    if chunks != [] {
      var pushed := Conn(c.ring.Push(chunks[0]), c.pending, c.parser);
      DrainWeight(b, pushed);
      var first := Receive(b, c, chunks[0]);
      RunWeight(b, first.conn, chunks[1..]);
      WeightAppend(first.delivered, Run(b, first.conn, chunks[1..]).delivered);
    }
  }

  /** The next message delivered is the one in progress. */
  ghost predicate NextIs(o: Outcome, header: bytes) {
    if o.delivered == [] then
      && o.conn.parser.processing && o.conn.parser.message.Some?
      && o.conn.parser.message.value.header == header
    else o.delivered[0].header == header
  }

  lemma {:induction false} DrainKeepsHeader(b: HeaderParser, c: Conn)
    requires c.Valid() && c.parser.processing
    ensures NextIs(Drain(b, c), c.parser.message.value.header)
    decreases c.ring.stored
  {
    if PullSize(c) > 0 && LoadNext(b, c).delivered == [] {
      DrainKeepsHeader(b, Next(b, c));
    }
  }

  lemma {:induction false} RunKeepsHeader(b: HeaderParser, c: Conn, chunks: seq<bytes>)
    requires c.Valid() && c.parser.processing
    ensures NextIs(Run(b, c, chunks), c.parser.message.value.header)
    decreases |chunks|
  {
    if chunks != [] {
      DrainKeepsHeader(b, Conn(c.ring.Push(chunks[0]), c.pending, c.parser));
      var first := Receive(b, c, chunks[0]);
      if first.delivered == [] {
        RunKeepsHeader(b, first.conn, chunks[1..]);
      }
    }
  }

  /** Everything delivered from a drain on. */
  function Onward(b: HeaderParser, c: Conn, chunks: seq<bytes>): seq<Delivery>
    requires c.Valid()
  {
    Drain(b, c).delivered + Run(b, Drain(b, c).conn, chunks).delivered
  }

  lemma OnwardStep(b: HeaderParser, c: Conn, chunks: seq<bytes>)
    requires c.Valid() && PullSize(c) > 0
    ensures Onward(b, c, chunks) == LoadNext(b, c).delivered + Onward(b, Next(b, c), chunks)
  {
    hide LoadNext, Next, PullSize, Run;
  }

  lemma OnwardWeight(b: HeaderParser, c: Conn, chunks: seq<bytes>)
    requires c.Valid()
    ensures Weight(Onward(b, c, chunks)) + Held(Run(b, Drain(b, c).conn, chunks).conn) <= Held(c) + |Concat(chunks)|
  {
    DrainWeight(b, c);
    RunWeight(b, Drain(b, c).conn, chunks);
    WeightAppend(Drain(b, c).delivered, Run(b, Drain(b, c).conn, chunks).delivered);
  }

  lemma OnwardKeepsHeader(b: HeaderParser, c: Conn, chunks: seq<bytes>)
    requires c.Valid() && c.parser.processing
    ensures var ds := Onward(b, c, chunks); ds != [] ==> ds[0].header == c.parser.message.value.header
  {
    DrainKeepsHeader(b, c);
    if Drain(b, c).delivered == [] {
      RunKeepsHeader(b, Drain(b, c).conn, chunks);
    }
  }

  /** The parser's byte counts are never negative when Content-Lengths are not. */
  lemma {:induction false} HeldStaysNonNegative(b: HeaderParser, c: Conn, chunks: seq<bytes>)
    requires c.Valid() && c.parser.received >= 0
    ensures Run(b, c, chunks).conn.parser.received >= 0
    decreases |chunks|
  {
    if chunks != [] {
      DrainStaysNonNegative(b, Conn(c.ring.Push(chunks[0]), c.pending, c.parser));
      HeldStaysNonNegative(b, Receive(b, c, chunks[0]).conn, chunks[1..]);
    }
  }

  lemma {:induction false} DrainStaysNonNegative(b: HeaderParser, c: Conn)
    requires c.Valid() && c.parser.received >= 0
    ensures Drain(b, c).conn.parser.received >= 0
    decreases c.ring.stored
  {
    if PullSize(c) > 0 {
      DrainStaysNonNegative(b, Next(b, c));
    }
  }

  /** A search that runs past the stored bytes hands over a header section cut short. */
  lemma StalePullCutsHeader(b: HeaderParser, c: Conn, ms: seq<SipText>, future: bytes)
    requires Awaiting(c, ms, future) && AllWellFormed(b, ms) && c.pending == 0 && Stale(c.ring, TCP_BUFFER)
    ensures PullSize(c) == c.ring.stored >= 4 && !c.parser.processing
    ensures ms != [] && c.ring.stored < |ms[0].header|
  {
    StalePullTakesAll(c.ring, TCP_BUFFER);
    var s := c.ring.Contents();
    var h := ms[0].header;
    assert WellFormed(b, ms[0]);
    assert (s + future)[..|h|] == h;
    if |h| <= |s| {
      HitAtHeader(b, ms[0]);
      assert s == h + s[|h|..];
      HitPrefix(h, s[|h|..], 0, 0);
    }
  }

  /** From there on the messages can no longer be delivered as sent. */
  lemma StaleLosesMessages(b: HeaderParser, c: Conn, ms: seq<SipText>, chunks: seq<bytes>)
    requires Awaiting(c, ms, Concat(chunks)) && AllWellFormed(b, ms) && c.pending == 0 && Stale(c.ring, TCP_BUFFER)
    ensures Onward(b, c, chunks) != Deliveries(ms)
  {
    hide Scan, Hit, Stale, PullSize, Drain, Run, Onward;
    StalePullCutsHeader(b, c, ms, Concat(chunks));
    OnwardStep(b, c, chunks);
    assert c.ring.Contents()[..c.ring.stored] == c.ring.Contents();
    var c' := Next(b, c);
    if b(c.ring.Contents()) == None {
      OnwardWeight(b, c', chunks);
      DrainStaysNonNegative(b, c');
      HeldStaysNonNegative(b, Drain(b, c').conn, chunks);
      WeightOfDeliveries(ms);
      assert Onward(b, c, chunks) == Onward(b, c', chunks);
      assert Held(c') == 0;
    } else if c'.parser.processing {
      OnwardKeepsHeader(b, c', chunks);
    }
  }

  lemma Cancel<T>(front: seq<T>, x: seq<T>, y: seq<T>)
    ensures front + x == front + y <==> x == y
  {
    assert (front + x)[|front|..] == x && (front + y)[|front|..] == y;
  }

  lemma {:induction false} DirtyDrainLosesMessages(b: HeaderParser, c: Conn, ms: seq<SipText>, chunks: seq<bytes>)
    requires Awaiting(c, ms, Concat(chunks)) && AllWellFormed(b, ms) && !CleanDrain(b, c)
    ensures Onward(b, c, chunks) != Deliveries(ms)
    decreases c.ring.stored
  {
    if c.pending == 0 && Stale(c.ring, TCP_BUFFER) {
      StaleLosesMessages(b, c, ms, chunks);
    } else {
      StepInSync(b, c, ms, Concat(chunks));
      DirtyDrainLosesMessages(b, Next(b, c), Rest(b, c, ms), chunks);
      OnwardStep(b, c, chunks);
      Cancel(LoadNext(b, c).delivered, Onward(b, Next(b, c), chunks), Deliveries(Rest(b, c, ms)));
    }
  }

  lemma {:induction false} DirtyRunLosesMessages(b: HeaderParser, c: Conn, ms: seq<SipText>, chunks: seq<bytes>)
    requires Roomy(c) && Chunks(chunks) && AllWellFormed(b, ms)
    requires Awaiting(c, ms, Concat(chunks)) && !CleanRun(b, c, chunks)
    ensures Run(b, c, chunks).delivered != Deliveries(ms)
    decreases |chunks|
  {
    hide Drain, InSync, WellFormed, Deliveries;
    var pushed := Conn(c.ring.Push(chunks[0]), c.pending, c.parser);
    PushAwaiting(b, c, ms, chunks[0], Concat(chunks[1..]));
    if CleanDrain(b, pushed) {
      var rest := DrainInSync(b, pushed, ms, Concat(chunks[1..]));
      var o := Drain(b, pushed);
      DirtyRunLosesMessages(b, o.conn, rest, chunks[1..]);
      Cancel(o.delivered, Run(b, o.conn, chunks[1..]).delivered, Deliveries(rest));
    } else {
      DirtyDrainLosesMessages(b, pushed, ms, chunks[1..]);
    }
  }

  // ---------- the theorem ----------

  /** A connection that has seen nothing yet; its cells are arbitrary. */
  ghost predicate Fresh(c: Conn) {
    c.Valid() && |c.ring.cells| == TCP_CAPACITY + 1 && c.ring.stored == 0 && c.pending == 0 && c.parser == IDLE
  }

  lemma EmptyStream(b: HeaderParser, ms: seq<SipText>)
    requires AllWellFormed(b, ms)
    ensures Stream(ms) == [] <==> ms == []
  {
    if ms != [] {
      var header := ms[0].header;
      assert WellFormed(b, ms[0]) && |header| > 0;
    }
  }

  /** Every cutting of a stream of messages delivers exactly those messages, if and only if no
      search of that run goes past the stored bytes; then nothing is left over either. */
  lemma SegmentationIndependence(b: HeaderParser, c: Conn, ms: seq<SipText>, chunks: seq<bytes>)
    requires Fresh(c) && AllWellFormed(b, ms) && Chunks(chunks) && Concat(chunks) == Stream(ms)
    ensures CleanRun(b, c, chunks) <==> Run(b, c, chunks).delivered == Deliveries(ms)
    ensures CleanRun(b, c, chunks) ==>
              var last := Run(b, c, chunks).conn;
              last.ring.stored == 0 && last.pending == 0 && !last.parser.processing
  {
    hide Run, CleanRun, Deliveries, WellFormed;
    assert c.ring.Contents() + Concat(chunks) == Concat(chunks);
    if CleanRun(b, c, chunks) {
      EmptyStream(b, ms);
      CleanRunDelivers(b, c, ms, chunks);
    } else {
      DirtyRunLosesMessages(b, c, ms, chunks);
    }
  }
}
