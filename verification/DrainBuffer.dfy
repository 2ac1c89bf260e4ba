/** When the TCP loop copies past the end of its buffer, told from the messages and the places of the
    cuts alone: exactly when one chunk holds more than 1024 bytes of one body. */
module DrainBuffer {
  import opened Bytes
  import opened MessageBuffers
  import opened DelimiterScan
  import opened SipFraming
  import opened Segmentation
  import opened StaleCuts

  // ---------- the share of a body in a stretch of the stream ----------

  /** The number of positions in both [a, b) and [u, v). */
  function Overlap(a: int, b: int, u: int, v: int): nat {
    var low, high := if a < u then u else a, if b < v then b else v;
    if low < high then high - low else 0
  }

  /** No body has more than 1024 of its bytes between the positions `u` and `v`, counted from the start
      of the first message. */
  predicate SharesFit(ms: seq<SipText>, u: int, v: int)
    decreases |ms|
  {
    ms == [] ||
    var h, n := |ms[0].header|, |ms[0].Bytes()|;
    Overlap(h, n, u, v) <= TCP_BUFFER && SharesFit(ms[1..], u - n, v - n)
  }

  /** No chunk, the first of which starts at `u`, holds more than 1024 bytes of one body. */
  predicate ChunksFit(ms: seq<SipText>, u: int, chunks: seq<bytes>)
    decreases |chunks|
  {
    chunks == [] || (SharesFit(ms, u, u + |chunks[0]|) && ChunksFit(ms, u + |chunks[0]|, chunks[1..]))
  }

  lemma {:induction false} NothingShared(ms: seq<SipText>, u: int, v: int)
    requires v <= u || (ms != [] ==> v <= |ms[0].header|)
    ensures SharesFit(ms, u, v)
    decreases |ms|
  {
    if ms != [] {
      var n := |ms[0].Bytes()|;
      NothingShared(ms[1..], u - n, v - n);
    }
  }

  /** How far a stretch reaches into a header section, or in front of it, does not matter. */
  lemma {:induction false} SameShares(ms: seq<SipText>, u: int, u': int, v: int)
    requires ms != [] ==> u <= |ms[0].header| && u' <= |ms[0].header|
    ensures SharesFit(ms, u, v) == SharesFit(ms, u', v)
    decreases |ms|
  {
    if ms != [] {
      var n := |ms[0].Bytes()|;
      SameShares(ms[1..], u - n, u' - n, v - n);
    }
  }

  /** Bodies in front of a stretch have no share in it. */
  lemma {:induction false} SharesBehind(done: seq<SipText>, rest: seq<SipText>, u: int, v: int)
    requires u >= |Stream(done)|
    ensures SharesFit(done + rest, u, v) == SharesFit(rest, u - |Stream(done)|, v - |Stream(done)|)
    decreases |done|
  {
    hide SharesFit, Stream, SipText.Bytes, Overlap;
    if done == [] {
      NothingDone(rest);
    } else {
      var n := |done[0].Bytes()|;
      StreamLength(done);
      FirstBehind(done, rest, u, v);
      SharesBehind(done[1..], rest, u - n, v - n);
    }
  }

  lemma StreamLength(ms: seq<SipText>)
    requires ms != []
    ensures |Stream(ms)| == |ms[0].Bytes()| + |Stream(ms[1..])|
  {
  }

  lemma FirstBehind(done: seq<SipText>, rest: seq<SipText>, u: int, v: int)
    requires done != [] && u >= |done[0].Bytes()|
    ensures var n := |done[0].Bytes()|;
            SharesFit(done + rest, u, v) == SharesFit(done[1..] + rest, u - n, v - n)
  {
    assert (done + rest)[0] == done[0] && (done + rest)[1..] == done[1..] + rest;
  }

  lemma {:induction false} ChunksBehind(done: seq<SipText>, rest: seq<SipText>, u: int, chunks: seq<bytes>)
    requires u >= |Stream(done)|
    ensures ChunksFit(done + rest, u, chunks) == ChunksFit(rest, u - |Stream(done)|, chunks)
    decreases |chunks|
  {
    hide SharesFit, Stream;
    if chunks != [] {
      SharesBehind(done, rest, u, u + |chunks[0]|);
      ChunksBehind(done, rest, u + |chunks[0]|, chunks[1..]);
    }
  }

  // ---------- one drain ----------

  /** How far into the next message the connection has read. */
  function Inside(c: Conn, ms: seq<SipText>): int {
    if c.parser.processing && ms != [] then |ms[0].header| + c.parser.received else 0
  }

  /** A drain that has stopped waits for the rest of a header section, or for more of a body. */
  ghost predicate Waiting(c: Conn, ms: seq<SipText>) {
    if c.parser.processing then c.ring.stored == 0 else ms != [] ==> c.ring.stored < |ms[0].header|
  }

  lemma StoppedWaits(b: HeaderParser, c: Conn, ms: seq<SipText>, future: bytes)
    requires Awaiting(c, ms, future) && AllWellFormed(b, ms) && PullSize(c) == 0
    requires c.pending == 0 ==> !Stale(c.ring, TCP_BUFFER)
    ensures Waiting(c, ms)
  {
    if c.parser.processing {
      BodyPull(c, ms);
    } else {
      PullInSync(b, c, ms, future);
      if ms != [] {
        HeaderLength(b, ms[0]) by {
          assert ms[0] in ms;
        }
      }
    }
  }

  /** A drain that stops at once overruns nothing, and nothing is shared. */
  lemma StoppedFits(c: Conn, ms: seq<SipText>)
    requires c.Valid() && InSync(c, ms) && Waiting(c, ms)
    ensures SharesFit(ms, Inside(c, ms), Inside(c, ms) + c.ring.stored)
  {
    NothingShared(ms, Inside(c, ms), Inside(c, ms) + c.ring.stored);
  }

  /** A step pulls a header section, or the share of a body; the shares of the others do not change. */
  lemma StepShares(b: HeaderParser, c: Conn, ms: seq<SipText>, future: bytes)
    requires Awaiting(c, ms, future) && AllWellFormed(b, ms) && PullSize(c) > 0
    requires c.pending == 0 ==> !Stale(c.ring, TCP_BUFFER)
    ensures InSync(Next(b, c), Rest(b, c, ms))
    ensures var c', ms' := Next(b, c), Rest(b, c, ms);
            SharesFit(ms, Inside(c, ms), Inside(c, ms) + c.ring.stored) <==>
            PullSize(c) <= TCP_BUFFER && SharesFit(ms', Inside(c', ms'), Inside(c', ms') + c'.ring.stored)
  {
    if c.parser.processing {
      BodyShares(b, c, ms);
    } else {
      HeaderShares(b, c, ms, future);
    }
  }

  lemma HeaderShares(b: HeaderParser, c: Conn, ms: seq<SipText>, future: bytes)
    requires Awaiting(c, ms, future) && AllWellFormed(b, ms) && PullSize(c) > 0
    requires !c.parser.processing && !Stale(c.ring, TCP_BUFFER)
    ensures InSync(Next(b, c), Rest(b, c, ms))
    ensures var c', ms' := Next(b, c), Rest(b, c, ms);
            SharesFit(ms, Inside(c, ms), Inside(c, ms) + c.ring.stored) <==>
            PullSize(c) <= TCP_BUFFER && SharesFit(ms', Inside(c', ms'), Inside(c', ms') + c'.ring.stored)
  {
    hide Scan, Stream, Stale, PullSize, Hit, Load, FirstDelimiterAt, CrRun;
    StepInSync(b, c, ms, future);
    PullInSync(b, c, ms, future);
    assert WellFormed(b, ms[0]);
    HeaderPull(c, ms, future);
    HeaderLoad(b, c, ms);
    OnlyBodiesOverrun(c);
    var h, n, s := |ms[0].header|, |ms[0].Bytes()|, c.ring.stored;
    if ms[0].body == [] {
      SameShares(ms[1..], 0 - n, 0, s - n);
    } else {
      SameShares(ms, 0, h, s);
    }
  }

  lemma BodyShares(b: HeaderParser, c: Conn, ms: seq<SipText>)
    requires c.Valid() && InSync(c, ms) && AllWellFormed(b, ms) && PullSize(c) > 0 && c.parser.processing
    ensures InSync(Next(b, c), Rest(b, c, ms))
    ensures var c', ms' := Next(b, c), Rest(b, c, ms);
            SharesFit(ms, Inside(c, ms), Inside(c, ms) + c.ring.stored) <==>
            PullSize(c) <= TCP_BUFFER && SharesFit(ms', Inside(c', ms'), Inside(c', ms') + c'.ring.stored)
  {
    BodyNext(b, c, ms);
    hide Next, Rest, InSync, PullSize, AllWellFormed, Conn.Valid, SharesFit, Overlap, Inside;
    ShareTaken(ms, Inside(c, ms), c.ring.stored, PullSize(c));
  }

  /** Where a step inside a body leads. */
  lemma BodyNext(b: HeaderParser, c: Conn, ms: seq<SipText>)
    requires c.Valid() && InSync(c, ms) && AllWellFormed(b, ms) && PullSize(c) > 0 && c.parser.processing
    ensures InSync(Next(b, c), Rest(b, c, ms)) && ms != []
    ensures var c', ms', p, n := Next(b, c), Rest(b, c, ms), PullSize(c), |ms[0].Bytes()|;
            && |ms[0].header| <= Inside(c, ms) < n
            && p == Min(n - Inside(c, ms), c.ring.stored) && c'.ring.stored == c.ring.stored - p
            && (ms', Inside(c', ms')) == if Inside(c, ms) + p == n then (ms[1..], 0) else (ms, Inside(c, ms) + p)
  {
    BodyPull(c, ms);
    BodyLoaded(b, c, ms);
    BodyInSync(b, c, ms);
    hide Scan, Stream, PullSize, Load, LoadNext, AllWellFormed, WellFormed, Remaining;
  }

  /** Taking what is there of a body takes its share. */
  lemma ShareTaken(ms: seq<SipText>, pos: nat, s: nat, p: nat)
    requires ms != [] && |ms[0].header| <= pos < |ms[0].Bytes()| && p == Min(|ms[0].Bytes()| - pos, s)
    ensures var (ms', pos') := if pos + p == |ms[0].Bytes()| then (ms[1..], 0) else (ms, pos + p);
            SharesFit(ms, pos, pos + s) <==> p <= TCP_BUFFER && SharesFit(ms', pos', pos' + (s - p))
  {
    var n := |ms[0].Bytes()|;
    assert Overlap(|ms[0].header|, n, pos, pos + s) == p;
    if pos + p == n {
      SameShares(ms[1..], pos - n, 0, pos + s - n);
    } else {
      NothingShared(ms[1..], pos - n, pos + s - n);
      NothingShared(ms, pos + p, pos + p);
    }
  }

  lemma StillInSync(c: Conn, ms: seq<SipText>, future: bytes)
    requires Awaiting(c, ms, future)
    ensures InSync(c, ms)
  {
  }

  /** A clean drain overruns its buffer if and only if some body has more than 1024 bytes among the
      stored ones. */
  lemma {:induction false} DrainFitsIff(b: HeaderParser, c: Conn, ms: seq<SipText>, future: bytes)
    requires c.Valid() && Awaiting(c, ms, future) && AllWellFormed(b, ms) && CleanDrain(b, c)
    ensures DrainFits(b, c) <==> SharesFit(ms, Inside(c, ms), Inside(c, ms) + c.ring.stored)
    decreases c.ring.stored
  {
    hide PullSize, Stale, AllWellFormed, LoadNext, Next, Rest, CleanDrain, DrainFits, SharesFit, Inside, Waiting,
         Awaiting, InSync, Conn.Valid;
    StillInSync(c, ms, future);
    CleanDrainUnfolds(b, c);
    DrainFitsUnfolds(b, c);
    if PullSize(c) > 0 {
      StepInSync(b, c, ms, future);
      StepShares(b, c, ms, future);
      StillWellFormed(b, c, ms);
      DrainFitsIff(b, Next(b, c), Rest(b, c, ms), future);
    } else {
      StoppedWaits(b, c, ms, future);
      StoppedFits(c, ms);
    }
  }

  // ---------- whole runs ----------

  /** Where a clean drain leaves the connection. */
  lemma {:induction false} DrainPlace(b: HeaderParser, c: Conn, ms: seq<SipText>, future: bytes)
    returns (done: seq<SipText>, rest: seq<SipText>)
    requires c.Valid() && Awaiting(c, ms, future) && AllWellFormed(b, ms) && CleanDrain(b, c)
    ensures var c' := Drain(b, c).conn;
            && ms == done + rest
            && Awaiting(c', rest, future) && AllWellFormed(b, rest) && Waiting(c', rest)
            && |Stream(done)| + Inside(c', rest) + c'.ring.stored == Inside(c, ms) + c.ring.stored
            && c'.ring.stored < TCP_BUFFER - 1
    decreases c.ring.stored
  {
    hide PullSize, Stale, AllWellFormed, Rest, Awaiting, LoadNext, CleanDrain, Drain, Waiting, Next, Inside, Stream,
         Done, Conn.Valid;
    CleanDrainUnfolds(b, c);
    DrainUnfolds(b, c);
    if PullSize(c) == 0 {
      StoppedInSync(b, c, ms, future);
      StoppedWaits(b, c, ms, future);
      NothingDone(ms);
      done, rest := [], ms;
    } else {
      PlaceStep(b, c, ms, future);
      var first := Done(b, c, [], ms);
      var more;
      more, rest := DrainPlace(b, Next(b, c), Rest(b, c, ms), future);
      done := first + more;
      StreamAppend(first, more);
      assert done + rest == first + (more + rest);
    }
  }

  lemma NothingDone(ms: seq<SipText>)
    ensures |Stream([])| == 0 && [] + ms == ms
  {
  }

  /** A step keeps the place of the last stored byte in the stream. */
  lemma PlaceStep(b: HeaderParser, c: Conn, ms: seq<SipText>, future: bytes)
    requires c.Valid() && Awaiting(c, ms, future) && AllWellFormed(b, ms) && PullSize(c) > 0
    requires c.pending == 0 ==> !Stale(c.ring, TCP_BUFFER)
    ensures var c', done, rest := Next(b, c), Done(b, c, [], ms), Rest(b, c, ms);
            && Awaiting(c', rest, future) && AllWellFormed(b, rest) && ms == done + rest
            && |Stream(done)| + Inside(c', rest) + c'.ring.stored == Inside(c, ms) + c.ring.stored
  {
    StepInSync(b, c, ms, future);
    TakenStep(b, c, [], ms, future);
    NextStored(b, c);
    StillWellFormed(b, c, ms);
    NothingDone(ms);
    hide Stream, PullSize, Stale, AllWellFormed, Rest, Done, LoadNext, Next;
  }

  lemma NextStored(b: HeaderParser, c: Conn)
    requires c.Valid()
    ensures Next(b, c).ring.stored == c.ring.stored - PullSize(c)
  {
  }

  /** The stored bytes in front of a chunk belong to a header section, so a body has the share in all of
      them that it has in the chunk. */
  lemma ChunkShares(c: Conn, ms: seq<SipText>, n: nat)
    requires c.Valid() && InSync(c, ms) && Waiting(c, ms)
    ensures var pos, s := Inside(c, ms), c.ring.stored;
            SharesFit(ms, pos, pos + s + n) == SharesFit(ms, pos + s, pos + s + n)
  {
    if !c.parser.processing {
      SameShares(ms, 0, c.ring.stored, c.ring.stored + n);
    }
  }

  /** One read: it overruns the buffer if and only if a body has more than 1024 bytes in the chunk, and
      this is where it leaves the connection. */
  lemma ReadFits(b: HeaderParser, c: Conn, ms: seq<SipText>, chunk: bytes, later: bytes)
    returns (done: seq<SipText>, rest: seq<SipText>)
    requires Roomy(c) && |chunk| <= READ_SIZE && AllWellFormed(b, ms) && Waiting(c, ms)
    requires Awaiting(c, ms, chunk + later) && CleanDrain(b, Conn(c.ring.Push(chunk), c.pending, c.parser))
    ensures var pushed, u := Conn(c.ring.Push(chunk), c.pending, c.parser), Inside(c, ms) + c.ring.stored;
            var o := Drain(b, pushed).conn;
            && pushed.Valid() && (DrainFits(b, pushed) <==> SharesFit(ms, u, u + |chunk|))
            && ms == done + rest && Awaiting(o, rest, later) && AllWellFormed(b, rest) && Waiting(o, rest)
            && Roomy(o)
            && |Stream(done)| <= |Stream(done)| + Inside(o, rest) + o.ring.stored == u + |chunk|
  {
    hide Drain, AllWellFormed, CleanDrain, DrainFits, Stream, SharesFit, Waiting, Remaining;
    var pushed := Conn(c.ring.Push(chunk), c.pending, c.parser);
    PushAwaiting(b, c, ms, chunk, later);
    DrainFitsIff(b, pushed, ms, later);
    ChunkShares(c, ms, |chunk|);
    done, rest := DrainPlace(b, pushed, ms, later);
    InsideIsThere(Drain(b, pushed).conn, rest, later);
  }

  lemma InsideIsThere(c: Conn, ms: seq<SipText>, future: bytes)
    requires Awaiting(c, ms, future)
    ensures c.Valid() && Inside(c, ms) >= 0
  {
  }

  lemma ChunksUnfold(ms: seq<SipText>, u: int, chunks: seq<bytes>)
    ensures ChunksFit(ms, u, chunks) <==>
            chunks == [] || (SharesFit(ms, u, u + |chunks[0]|) && ChunksFit(ms, u + |chunks[0]|, chunks[1..]))
  {
    hide SharesFit;
  }

  lemma RunUnfolds(b: HeaderParser, c: Conn, chunks: seq<bytes>)
    requires c.Valid()
    ensures chunks == [] ==> RunFits(b, c, chunks)
    ensures chunks != [] ==>
              var pushed := Conn(c.ring.Push(chunks[0]), c.pending, c.parser);
              && pushed.Valid()
              && (RunFits(b, c, chunks) <==> DrainFits(b, pushed) && RunFits(b, Drain(b, pushed).conn, chunks[1..]))
              && (CleanRun(b, c, chunks) <==> CleanDrain(b, pushed) && CleanRun(b, Drain(b, pushed).conn, chunks[1..]))
              && Concat(chunks) == chunks[0] + Concat(chunks[1..])
  {
    hide Drain, DrainFits, CleanDrain;
  }

  /** A clean run overruns the buffer if and only if some chunk holds more than 1024 bytes of one body. */
  lemma {:induction false} RunFitsIff(b: HeaderParser, c: Conn, ms: seq<SipText>, chunks: seq<bytes>)
    requires c.Valid() && Roomy(c) && Chunks(chunks) && AllWellFormed(b, ms) && Waiting(c, ms)
    requires Awaiting(c, ms, Concat(chunks)) && CleanRun(b, c, chunks)
    ensures RunFits(b, c, chunks) <==> ChunksFit(ms, Inside(c, ms) + c.ring.stored, chunks)
    decreases |chunks|
  {
    hide Drain, AllWellFormed, CleanDrain, DrainFits, Stream, SharesFit, Waiting, Awaiting, RunFits, CleanRun,
         ChunksFit, Concat, Ring.Push, InSync, Inside;
    var u := Inside(c, ms) + c.ring.stored;
    ChunksUnfold(ms, u, chunks);
    RunUnfolds(b, c, chunks);
    if chunks != [] {
      var pushed := Conn(c.ring.Push(chunks[0]), c.pending, c.parser);
      var done, rest := ReadFits(b, c, ms, chunks[0], Concat(chunks[1..]));
      RunFitsIff(b, Drain(b, pushed).conn, rest, chunks[1..]);
      ChunksBehind(done, rest, u + |chunks[0]|, chunks[1..]);
    }
  }

  // ---------- the theorems ----------

  lemma FreshWaits(b: HeaderParser, c: Conn, ms: seq<SipText>)
    requires Fresh(c) && AllWellFormed(b, ms)
    ensures Roomy(c) && Waiting(c, ms) && Inside(c, ms) == 0
  {
    if ms != [] {
      assert ms[0] in ms;
      HeaderLength(b, ms[0]);
    }
  }

  /** As long as no cut does harm, the buffer is overrun if and only if some chunk holds more than 1024
      bytes of one body. */
  lemma OverrunIffLargeShare(b: HeaderParser, c: Conn, ms: seq<SipText>, chunks: seq<bytes>)
    requires Fresh(c) && AllWellFormed(b, ms) && Chunks(chunks) && Concat(chunks) == Stream(ms)
    requires ShortHeaders(ms) && HarmlessCuts(c.ring.cells, ms, 0, chunks)
    ensures RunFits(b, c, chunks) <==> ChunksFit(ms, 0, chunks)
  {
    hide RunFits, ChunksFit, AllWellFormed, Run, CleanRun, Deliveries, HarmlessCuts;
    FreshWaits(b, c, ms);
    DeliveredIffHarmless(b, c, ms, chunks);
    SegmentationIndependence(b, c, ms, chunks);
    assert c.ring.Contents() + Concat(chunks) == Stream(ms);
    RunFitsIff(b, c, ms, chunks);
  }

  /** A cut stream is delivered as it was sent, without an overrun on the way, if and only if no cut does
      harm and no chunk holds more than 1024 bytes of one body. */
  lemma SafelyDeliveredIff(b: HeaderParser, c: Conn, ms: seq<SipText>, chunks: seq<bytes>)
    requires Fresh(c) && AllWellFormed(b, ms) && Chunks(chunks) && Concat(chunks) == Stream(ms)
    ensures ShortHeaders(ms)
    ensures RunFits(b, c, chunks) && Run(b, c, chunks).delivered == Deliveries(ms) <==>
            HarmlessCuts(c.ring.cells, ms, 0, chunks) && ChunksFit(ms, 0, chunks)
  {
    hide RunFits, ChunksFit, AllWellFormed, Run, CleanRun, Deliveries, HarmlessCuts;
    DeliveredIffHarmless(b, c, ms, chunks);
    if HarmlessCuts(c.ring.cells, ms, 0, chunks) {
      OverrunIffLargeShare(b, c, ms, chunks);
    }
  }

  /** Bodies of at most 1024 bytes fit, however the stream is cut. */
  lemma {:induction false} SmallBodiesFit(ms: seq<SipText>, u: int, chunks: seq<bytes>)
    requires forall m | m in ms :: |m.body| <= TCP_BUFFER
    ensures ChunksFit(ms, u, chunks)
    decreases |chunks|
  {
    if chunks != [] {
      SmallBodiesShare(ms, u, u + |chunks[0]|);
      SmallBodiesFit(ms, u + |chunks[0]|, chunks[1..]);
    }
  }

  lemma {:induction false} SmallBodiesShare(ms: seq<SipText>, u: int, v: int)
    requires forall m | m in ms :: |m.body| <= TCP_BUFFER
    ensures SharesFit(ms, u, v)
    decreases |ms|
  {
    if ms != [] {
      assert ms[0] in ms && forall m | m in ms[1..] :: m in ms;
      SmallBodiesShare(ms[1..], u - |ms[0].Bytes()|, v - |ms[0].Bytes()|);
    }
  }
}
