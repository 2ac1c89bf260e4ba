/** Which cuts of a TCP stream lose messages, told from the cells, the stream and the places of the
    cuts alone. A cut does harm exactly when it falls into a header section and the delimiter search
    from the start of that section finds a match beyond the cut, among the bytes that the ring held
    before. */
module StaleCuts {
  import opened Bytes
  import opened MessageBuffers
  import opened DelimiterScan
  import opened SipFraming
  import opened Segmentation

  // ---------- what a ring holds ----------

  /** The cells of a ring, read from position `t` of a stream of which `u` bytes were stored: the bytes
      up to `u`, and behind them what was stored a whole ring earlier, or what was there at first. */
  function Window(cells: bytes, s: bytes, t: nat, u: nat): bytes
    requires t <= u <= |s| && u - t <= |cells|
  {
    s[t..u] + (cells + s)[u..t + |cells|]
  }

  function WindowRing(cells: bytes, s: bytes, t: nat, u: nat): (r: Ring)
    requires t <= u <= |s| && u - t <= |cells|
    ensures |r.cells| == |cells| && r.stored == u - t
  {
    Ring(Window(cells, s, t, u), u - t)
  }

  lemma PushWindow(cells: bytes, s: bytes, t: nat, u: nat, chunk: bytes)
    requires t <= u <= u + |chunk| <= |s| && u + |chunk| - t < |cells| && chunk == s[u..u + |chunk|]
    ensures WindowRing(cells, s, t, u).Push(chunk) == WindowRing(cells, s, t, u + |chunk|)
  {
    var v, tape := u + |chunk|, cells + s;
    var w := Window(cells, s, t, u);
    assert w[..u - t] == s[t..u];
    assert w[v - t..] == tape[v..t + |cells|];
    assert s[t..u] + chunk == s[t..v];
  }

  lemma DropWindow(cells: bytes, s: bytes, t: nat, u: nat, n: nat)
    requires t <= u <= |s| && u - t < |cells| && n <= u - t
    ensures WindowRing(cells, s, t, u).Drop(n) == WindowRing(cells, s, t + n, u)
  {
    var tape := cells + s;
    var w := Window(cells, s, t, u);
    assert w[n..] == s[t + n..u] + tape[u..t + |cells|];
    assert w[..n] == s[t..t + n] == tape[t + |cells|..t + n + |cells|];
    assert tape[u..t + |cells|] + tape[t + |cells|..t + n + |cells|] == tape[u..t + n + |cells|];
    assert s[t + n..u] + tape[u..t + |cells|] + s[t..t + n] == s[t + n..u] + (tape[u..t + |cells|] + s[t..t + n]);
  }

  // ---------- where a cut falls ----------

  ghost predicate ShortHeaders(ms: seq<SipText>) {
    forall m | m in ms :: |m.header| < TCP_BUFFER
  }

  /** The start of the header section into which a position of the stream falls, if it does. */
  function HeaderStart(ms: seq<SipText>, u: nat): (t: Option<nat>)
    ensures t.Some? ==> t.value <= u
  {
    if ms == [] then None
    else if u < |ms[0].header| then Some(0)
    else if u < |ms[0].Bytes()| then None
    else
      match HeaderStart(ms[1..], u - |ms[0].Bytes()|)
      case None => None
      case Some(t) => Some(|ms[0].Bytes()| + t)
  }

  lemma {:induction false} HeaderStartNear(ms: seq<SipText>, u: nat)
    requires ShortHeaders(ms) && HeaderStart(ms, u).Some?
    ensures u - HeaderStart(ms, u).value < TCP_BUFFER
  {
    assert ms[0] in ms;
    if u >= |ms[0].header| {
      assert forall m | m in ms[1..] :: m in ms;
      HeaderStartNear(ms[1..], u - |ms[0].Bytes()|);
    }
  }

  /** A cut at `u` does no harm: a search from the start of the header section it falls into finds
      nothing beyond the cut. */
  ghost predicate Harmless(cells: bytes, ms: seq<SipText>, u: nat)
    requires |cells| > TCP_BUFFER && ShortHeaders(ms) && u <= |Stream(ms)|
  {
    match HeaderStart(ms, u)
    case None => true
    case Some(t) =>
      HeaderStartNear(ms, u);
      !Stale(WindowRing(cells, Stream(ms), t, u), TCP_BUFFER)
  }

  /** None of the cuts behind these chunks does, the first of which starts at `u`. */
  ghost predicate HarmlessCuts(cells: bytes, ms: seq<SipText>, u: nat, chunks: seq<bytes>)
    requires |cells| > TCP_BUFFER && ShortHeaders(ms) && u + |Concat(chunks)| <= |Stream(ms)|
    decreases |chunks|
  {
    chunks == [] ||
    (Harmless(cells, ms, u + |chunks[0]|) && HarmlessCuts(cells, ms, u + |chunks[0]|, chunks[1..]))
  }

  lemma {:induction false} StreamAppend(done: seq<SipText>, rest: seq<SipText>)
    ensures Stream(done + rest) == Stream(done) + Stream(rest)
  {
    if done == [] {
      assert done + rest == rest;
    } else {
      assert (done + rest)[1..] == done[1..] + rest;
      StreamAppend(done[1..], rest);
    }
  }

  function Shifted(t: Option<nat>, n: nat): Option<nat> {
    match t
    case None => None
    case Some(v) => Some(n + v)
  }

  lemma NotShifted(t: Option<nat>)
    ensures Shifted(t, 0) == t
  {
  }

  lemma ShiftedTwice(t: Option<nat>, n: nat, k: nat)
    ensures Shifted(Shifted(t, n), k) == Shifted(t, k + n)
  {
  }

  lemma StepHeaderStart(m: SipText, later: seq<SipText>, w: nat)
    ensures HeaderStart([m] + later, |m.Bytes()| + w) == Shifted(HeaderStart(later, w), |m.Bytes()|)
    ensures |Stream([m] + later)| == |m.Bytes()| + |Stream(later)|
  {
    var ms := [m] + later;
    assert ms[0] == m && ms[1..] == later;
  }

  /** A position behind the first messages falls where it does in the others. */
  lemma {:induction false} HeaderStartBehind(done: seq<SipText>, rest: seq<SipText>, v: nat)
    ensures HeaderStart(done + rest, |Stream(done)| + v) == Shifted(HeaderStart(rest, v), |Stream(done)|)
  {
    assert Stream([]) == [];
    NotShifted(HeaderStart(rest, v));
    hide HeaderStart, Stream, SipText.Bytes, Shifted;
    if done == [] {
      assert done + rest == rest;
    } else {
      var m, later := done[0], done[1..];
      assert done == [m] + later && done + rest == [m] + (later + rest);
      StepHeaderStart(m, later, 0);
      StepHeaderStart(m, later + rest, |Stream(later)| + v);
      HeaderStartBehind(later, rest, v);
      ShiftedTwice(HeaderStart(rest, v), |Stream(later)|, |m.Bytes()|);
    }
  }

  // ---------- a connection inside a stream ----------

  /** How far into the stream the connection has read, having delivered `done`. */
  function Taken(c: Conn, done: seq<SipText>, rest: seq<SipText>): int
    requires InSync(c, rest)
  {
    |Stream(done)| + if c.parser.processing then |rest[0].header| + c.parser.received else 0
  }

  /** Its ring is what `u` stored bytes of the stream make of the first cells. */
  ghost predicate Tracks(c: Conn, cells: bytes, done: seq<SipText>, rest: seq<SipText>, u: nat) {
    && InSync(c, rest)
    && Taken(c, done, rest) <= u <= |Stream(done + rest)| && u - Taken(c, done, rest) < |cells|
    && c.ring == WindowRing(cells, Stream(done + rest), Taken(c, done, rest), u)
  }

  /** The messages delivered after a step. */
  function Done(b: HeaderParser, c: Conn, done: seq<SipText>, rest: seq<SipText>): seq<SipText>
    requires c.Valid()
  {
    if LoadNext(b, c).delivered == [] || rest == [] then done else done + [rest[0]]
  }

  lemma OneDone(done: seq<SipText>, rest: seq<SipText>)
    requires rest != []
    ensures done + [rest[0]] + rest[1..] == done + rest
    ensures |Stream(done + [rest[0]])| == |Stream(done)| + |rest[0].header| + |rest[0].body|
  {
    StreamAppend(done, [rest[0]]);
    assert Stream([rest[0]]) == rest[0].Bytes() + Stream([]);
  }

  /** A step takes from the stream exactly what it pulls. */
  lemma TakenStep(b: HeaderParser, c: Conn, done: seq<SipText>, rest: seq<SipText>, future: bytes)
    requires Awaiting(c, rest, future) && AllWellFormed(b, rest) && PullSize(c) > 0
    requires c.pending == 0 ==> !Stale(c.ring, TCP_BUFFER)
    ensures InSync(Next(b, c), Rest(b, c, rest)) && Done(b, c, done, rest) + Rest(b, c, rest) == done + rest
    ensures Taken(Next(b, c), Done(b, c, done, rest), Rest(b, c, rest)) == Taken(c, done, rest) + PullSize(c)
  {
    hide Scan, Stream, Stale, FirstDelimiterAt, CrRun, PullSize, Load;
    StepInSync(b, c, rest, future);
    if rest != [] {
      OneDone(done, rest);
      assert WellFormed(b, rest[0]);
    }
    if c.parser.processing {
      BodyPull(c, rest);
      LoadBody(b, c.parser, rest[0], c.ring.Contents()[..PullSize(c)]);
    } else {
      PullInSync(b, c, rest, future);
      HeaderPull(c, rest, future);
      HeaderLoad(b, c, rest);
    }
  }

  lemma HeaderPull(c: Conn, rest: seq<SipText>, future: bytes)
    requires Awaiting(c, rest, future) && !c.parser.processing && rest != [] && PullSize(c) == |rest[0].header|
    ensures c.ring.Contents()[..PullSize(c)] == rest[0].header
  {
    hide PullSize;
    StreamSplit(rest);
    TakeFront(c.ring.Contents(), future, rest[0].header, rest[0].body + Stream(rest[1..]), PullSize(c));
  }

  lemma NextRing(b: HeaderParser, c: Conn)
    requires c.Valid()
    ensures Next(b, c).ring == c.ring.Drop(PullSize(c))
  {
    hide PullSize, Ring.Drop;
  }

  lemma TracksIf(c: Conn, cells: bytes, done: seq<SipText>, rest: seq<SipText>, u: nat, s: bytes, t: nat)
    requires InSync(c, rest) && s == Stream(done + rest) && t == Taken(c, done, rest)
    requires t <= u <= |s| && u - t < |cells| && c.ring == WindowRing(cells, s, t, u)
    ensures Tracks(c, cells, done, rest, u)
  {
  }

  lemma RingTracked(c: Conn, cells: bytes, done: seq<SipText>, rest: seq<SipText>, u: nat)
    requires Tracks(c, cells, done, rest, u)
    ensures InSync(c, rest)
    ensures var t, s := Taken(c, done, rest), Stream(done + rest);
            0 <= t <= u <= |s| && u - t < |cells| && c.ring == WindowRing(cells, s, t, u) && c.ring.stored == u - t
  {
  }

  lemma TrackStep(b: HeaderParser, c: Conn, cells: bytes, done: seq<SipText>, rest: seq<SipText>, u: nat, future: bytes)
    requires c.Valid() && Tracks(c, cells, done, rest, u) && Awaiting(c, rest, future) && AllWellFormed(b, rest) &&
             PullSize(c) > 0
    requires c.pending == 0 ==> !Stale(c.ring, TCP_BUFFER)
    ensures Tracks(Next(b, c), cells, Done(b, c, done, rest), Rest(b, c, rest), u)
    ensures Done(b, c, done, rest) + Rest(b, c, rest) == done + rest
  {
    hide Next, Stream, Stale, AllWellFormed, LoadNext, Window, Scan, Ring.Contents, Remaining, Framing.Valid,
         Conn.Valid, Ring.Valid, PullSize, InSync, Taken, WindowRing, Rest, Done, Ring.Drop, Awaiting, Tracks;
    TakenStep(b, c, done, rest, future);
    NextRing(b, c);
    RingTracked(c, cells, done, rest, u);
    var s, t, n := Stream(done + rest), Taken(c, done, rest), PullSize(c);
    DropWindow(cells, s, t, u, n);
    var c', done', rest' := Next(b, c), Done(b, c, done, rest), Rest(b, c, rest);
    TracksIf(c', cells, done', rest', u, s, t + n);
  }

  // ---------- clean drains and harmless cuts ----------

  /** In front of a header section, a search is stale if and only if the last cut does harm. */
  lemma IdleCut(b: HeaderParser, c: Conn, cells: bytes, done: seq<SipText>, rest: seq<SipText>, u: nat, future: bytes)
    requires Tracks(c, cells, done, rest, u) && Awaiting(c, rest, future) && AllWellFormed(b, rest) &&
             ShortHeaders(done + rest)
    requires |cells| > TCP_BUFFER && !c.parser.processing
    ensures Stale(c.ring, TCP_BUFFER) ==> !Harmless(cells, done + rest, u)
    ensures !Stale(c.ring, TCP_BUFFER) && PullSize(c) == 0 ==> Harmless(cells, done + rest, u)
  {
    hide Scan, Stream, Stale, PullSize, FirstDelimiterAt, CrRun, Window;
    var t := |Stream(done)|;
    HeaderStartBehind(done, rest, u - t);
    if Stale(c.ring, TCP_BUFFER) {
      StalePullCutsHeader(b, c, rest, future);
    } else if PullSize(c) == 0 {
      PullInSync(b, c, rest, future);
      if rest != [] {
        assert WellFormed(b, rest[0]);
      }
    }
  }

  lemma InsideBody(rest: seq<SipText>, v: nat)
    requires rest != [] && |rest[0].header| <= v < |rest[0].Bytes()|
    ensures HeaderStart(rest, v) == None
  {
  }

  /** Inside a body no cut does harm. */
  lemma BodyCut(c: Conn, cells: bytes, done: seq<SipText>, rest: seq<SipText>, u: nat)
    requires Tracks(c, cells, done, rest, u) && c.Valid() && ShortHeaders(done + rest)
    requires |cells| > TCP_BUFFER && c.parser.processing && PullSize(c) == 0
    ensures Harmless(cells, done + rest, u)
  {
    BodyPull(c, rest);
    assert c.ring.stored == 0 && u == Taken(c, done, rest);
    hide Tracks, WindowRing, ShortHeaders, Stream, PullSize, Stale, Scan, Window, HeaderStart;
    var v := u - |Stream(done)|;
    HeaderStartBehind(done, rest, v);
    InsideBody(rest, v);
  }

  /** A drain is clean if and only if the cut in front of which it runs does no harm. */
  lemma {:induction false} CleanDrainIff(b: HeaderParser, c: Conn, cells: bytes, done: seq<SipText>,
    rest: seq<SipText>, u: nat, future: bytes)
    requires Tracks(c, cells, done, rest, u) && Awaiting(c, rest, future) && AllWellFormed(b, rest) &&
             ShortHeaders(done + rest)
    requires |cells| > TCP_BUFFER
    ensures CleanDrain(b, c) <==> Harmless(cells, done + rest, u)
    decreases c.ring.stored
  {
    hide Scan, Stream, Stale, PullSize, Tracks, AllWellFormed, Harmless, ShortHeaders, Done, Rest;
    if !c.parser.processing {
      IdleCut(b, c, cells, done, rest, u, future);
    }
    if c.pending == 0 && Stale(c.ring, TCP_BUFFER) {
    } else if PullSize(c) > 0 {
      StepInSync(b, c, rest, future);
      TrackStep(b, c, cells, done, rest, u, future);
      StillWellFormed(b, c, rest);
      CleanDrainIff(b, Next(b, c), cells, Done(b, c, done, rest), Rest(b, c, rest), u, future);
    } else if c.parser.processing {
      BodyCut(c, cells, done, rest, u);
    }
  }

  /** Behind a clean drain the connection still tracks the stream. */
  lemma {:induction false} DrainTracks(b: HeaderParser, c: Conn, cells: bytes, done: seq<SipText>,
    rest: seq<SipText>, u: nat, future: bytes)
    returns (done': seq<SipText>, rest': seq<SipText>)
    requires Tracks(c, cells, done, rest, u) && Awaiting(c, rest, future) && AllWellFormed(b, rest) && CleanDrain(b, c)
    ensures var c' := Drain(b, c).conn;
            && Tracks(c', cells, done', rest', u) && Awaiting(c', rest', future) && AllWellFormed(b, rest')
            && done' + rest' == done + rest && c'.ring.stored < TCP_BUFFER - 1
    decreases c.ring.stored
  {
    assert c.Valid();
    hide Scan, Stream, Stale, PullSize, Tracks, AllWellFormed, Done, Rest, Awaiting, LoadNext;
    if PullSize(c) == 0 {
      StoppedInSync(b, c, rest, future);
      done', rest' := done, rest;
    } else {
      StepInSync(b, c, rest, future);
      TrackStep(b, c, cells, done, rest, u, future);
      StillWellFormed(b, c, rest);
      done', rest' := DrainTracks(b, Next(b, c), cells, Done(b, c, done, rest), Rest(b, c, rest), u, future);
    }
  }

  /** A chunk of the stream, stored, moves the end of the window on. */
  lemma PushTracks(c: Conn, cells: bytes, done: seq<SipText>, rest: seq<SipText>, u: nat, chunk: bytes)
    requires Tracks(c, cells, done, rest, u) && Roomy(c) && |chunk| <= READ_SIZE
    requires u + |chunk| <= |Stream(done + rest)| && chunk == Stream(done + rest)[u..u + |chunk|]
    ensures Tracks(Conn(c.ring.Push(chunk), c.pending, c.parser), cells, done, rest, u + |chunk|)
  {
    hide Stream, Window;
    PushWindow(cells, Stream(done + rest), Taken(c, done, rest), u, chunk);
  }

  lemma NextChunk(s: bytes, u: nat, chunks: seq<bytes>)
    requires u <= |s| && s[u..] == Concat(chunks) && chunks != []
    ensures u + |chunks[0]| <= |s| && chunks[0] == s[u..u + |chunks[0]|] && s[u + |chunks[0]|..] == Concat(chunks[1..])
  {
    assert s[u..][..|chunks[0]|] == chunks[0];
    assert s[u..][|chunks[0]|..] == s[u + |chunks[0]|..];
  }

  /** One read: its drain is clean if and only if the cut behind its chunk does no harm. */
  lemma ReadIff(b: HeaderParser, c: Conn, cells: bytes, done: seq<SipText>, rest: seq<SipText>, u: nat, chunk: bytes,
    later: bytes)
    requires Tracks(c, cells, done, rest, u) && Roomy(c) && |chunk| <= READ_SIZE && AllWellFormed(b, rest) &&
             ShortHeaders(done + rest)
    requires u + |chunk| <= |Stream(done + rest)| && chunk == Stream(done + rest)[u..u + |chunk|]
    requires Awaiting(c, rest, chunk + later) && |cells| > TCP_BUFFER
    ensures var pushed := Conn(c.ring.Push(chunk), c.pending, c.parser);
            && pushed.Valid() && |pushed.ring.cells| == |c.ring.cells|
            && Tracks(pushed, cells, done, rest, u + |chunk|) && Awaiting(pushed, rest, later)
            && (CleanDrain(b, pushed) <==> Harmless(cells, done + rest, u + |chunk|))
  {
    hide Stream, Tracks, AllWellFormed, Harmless, CleanDrain, Awaiting;
    var pushed := Conn(c.ring.Push(chunk), c.pending, c.parser);
    PushAwaiting(b, c, rest, chunk, later);
    PushTracks(c, cells, done, rest, u, chunk);
    CleanDrainIff(b, pushed, cells, done, rest, u + |chunk|, later);
  }

  /** A run is clean if and only if none of its cuts does harm. */
  lemma {:induction false} CleanRunIff(b: HeaderParser, c: Conn, cells: bytes, done: seq<SipText>,
    rest: seq<SipText>, u: nat, chunks: seq<bytes>)
    requires Tracks(c, cells, done, rest, u) && Roomy(c) && Chunks(chunks) && AllWellFormed(b, rest) &&
             ShortHeaders(done + rest)
    requires Awaiting(c, rest, Concat(chunks)) && u <= |Stream(done + rest)|
    requires Stream(done + rest)[u..] == Concat(chunks) && |cells| > TCP_BUFFER
    ensures CleanRun(b, c, chunks) <==> HarmlessCuts(cells, done + rest, u, chunks)
    decreases |chunks|
  {
    hide Stream, InSync, AllWellFormed, Harmless, ShortHeaders, CleanDrain, Tracks, Awaiting, Drain, Ring.Push;
    if chunks != [] {
      var chunk, later := chunks[0], Concat(chunks[1..]);
      NextChunk(Stream(done + rest), u, chunks);
      ReadIff(b, c, cells, done, rest, u, chunk, later);
      var pushed := Conn(c.ring.Push(chunk), c.pending, c.parser);
      if CleanDrain(b, pushed) {
        var done', rest' := DrainTracks(b, pushed, cells, done, rest, u + |chunk|, later);
        CleanRunIff(b, Drain(b, pushed).conn, cells, done', rest', u + |chunk|, chunks[1..]);
      }
    }
  }

  // ---------- the theorem ----------

  lemma HeadersAreShort(b: HeaderParser, ms: seq<SipText>)
    requires AllWellFormed(b, ms)
    ensures ShortHeaders(ms)
  {
    forall m | m in ms ensures |m.header| < TCP_BUFFER {
      assert WellFormed(b, m);
    }
  }

  lemma FreshTracks(c: Conn, ms: seq<SipText>)
    requires Fresh(c)
    ensures Tracks(c, c.ring.cells, [], ms, 0) && Roomy(c)
  {
    var cells := c.ring.cells;
    assert [] + ms == ms && Stream([]) == [];
    assert (cells + Stream(ms))[0..0 + |cells|] == cells;
    assert Window(cells, Stream(ms), 0, 0) == cells;
  }

  /** A cut stream is delivered as it was sent if and only if none of its cuts does harm, which the
      first cells, the messages and the places of the cuts decide. */
  lemma DeliveredIffHarmless(b: HeaderParser, c: Conn, ms: seq<SipText>, chunks: seq<bytes>)
    requires Fresh(c) && AllWellFormed(b, ms) && Chunks(chunks) && Concat(chunks) == Stream(ms)
    ensures ShortHeaders(ms)
    ensures Run(b, c, chunks).delivered == Deliveries(ms) <==> HarmlessCuts(c.ring.cells, ms, 0, chunks)
  {
    HeadersAreShort(b, ms);
    FreshTracks(c, ms);
    assert [] + ms == ms && Stream(ms)[0..] == Stream(ms);
    assert c.ring.Contents() + Concat(chunks) == Stream(ms);
    CleanRunIff(b, c, c.ring.cells, [], ms, 0, chunks);
    SegmentationIndependence(b, c, ms, chunks);
  }

  // ---------- cells without LF ----------

  /** From three matched bytes at most, cells without LF complete no match. */
  lemma {:induction false} ScanWithoutLf(cells: bytes, bufSize: nat, k: nat, m: nat)
    requires m < 4 && bufSize <= |cells| && k <= bufSize && cells != []
    requires forall i | k <= i < bufSize :: cells[i] != LF
    ensures Scan(cells, MESSAGE_DELIMITER, bufSize, k, m, k) == 0
    decreases bufSize - k
  {
    if k + 1 < bufSize {
      ScanWithoutLf(cells, bufSize, k + 1, if cells[k] == MESSAGE_DELIMITER[m] then m + 1 else 0);
    }
  }

  /** A search that finds nothing among the stored bytes finds nothing in cells without LF behind them. */
  lemma {:induction false} ScanOverStored(r: Ring, bufSize: nat, k: nat, m: nat)
    requires r.Valid() && m < 4 && bufSize <= |r.cells| && k <= r.stored && k <= bufSize && Hit(r.Contents(), k, m) == 0
    requires forall i | r.stored <= i < bufSize :: r.cells[i] != LF
    ensures Scan(r.cells, MESSAGE_DELIMITER, bufSize, k, m, k) == 0
    decreases r.stored - k
  {
    if k == r.stored {
      ScanWithoutLf(r.cells, bufSize, k, m);
    } else if k + 1 < bufSize {
      var c := r.cells[k];
      assert c == r.Contents()[k];
      ScanOverStored(r, bufSize, k + 1, Step(m, c));
    }
  }

  lemma LaterPart(m: SipText, later: bytes, t: nat, u: nat)
    requires t <= u <= |later|
    ensures var n, s := |m.Bytes()|, m.header + (m.body + later); n + u <= |s| && s[n + t..n + u] == later[t..u]
  {
    assert m.header + (m.body + later) == m.Bytes() + later;
  }

  /** What a search from the start of a header section finds in front of a cut inside it: nothing. */
  lemma {:induction false} NoHitBeforeCut(b: HeaderParser, ms: seq<SipText>, u: nat)
    requires AllWellFormed(b, ms) && u <= |Stream(ms)| && HeaderStart(ms, u).Some?
    ensures Hit(Stream(ms)[HeaderStart(ms, u).value..u], 0, 0) == 0
  {
    hide Hit, WellFormed, Stream;
    var m, later := ms[0], Stream(ms[1..]);
    assert WellFormed(b, m);
    StreamSplit(ms);
    if u < |m.header| {
      NoHitInside(b, m, u);
      assert Stream(ms)[0..u] == m.header[..u];
    } else {
      var n := |m.Bytes()|;
      assert forall x | x in ms[1..] :: x in ms;
      NoHitBeforeCut(b, ms[1..], u - n);
      var t := HeaderStart(ms[1..], u - n).value;
      LaterPart(m, later, t, u - n);
    }
  }

  /** Beyond the stored bytes, before the ring has come round, stand the first cells. */
  lemma WindowBeyond(cells: bytes, s: bytes, t: nat, u: nat, i: nat)
    requires t <= u <= |s| && u - t <= i < |cells| && t + i < |cells|
    ensures Window(cells, s, t, u)[i] == cells[t + i]
  {
    assert Window(cells, s, t, u)[i] == (cells + s)[u..t + |cells|][i - (u - t)] == (cells + s)[t + i];
  }

  /** As long as the ring has not come round to bytes of the stream, cells without LF do no harm. */
  lemma CutWithoutLf(b: HeaderParser, cells: bytes, ms: seq<SipText>, u: nat)
    requires AllWellFormed(b, ms) && ShortHeaders(ms) && u <= |Stream(ms)| && |Stream(ms)| + TCP_BUFFER <= |cells|
    requires forall i | 0 <= i < |cells| :: cells[i] != LF
    ensures |cells| > TCP_BUFFER ==> Harmless(cells, ms, u)
  {
    hide Hit, Scan, Stream, AllWellFormed, HeaderStart, ShortHeaders;
    if HeaderStart(ms, u).Some? {
      HeaderStartNear(ms, u);
    }
    match HeaderStart(ms, u)
    case None =>
    case Some(t) =>
      var s := Stream(ms);
      var r := WindowRing(cells, s, t, u);
      NoHitBeforeCut(b, ms, u);
      assert r.Contents() == s[t..u];
      forall i | r.stored <= i < TCP_BUFFER ensures r.cells[i] != LF {
        WindowBeyond(cells, s, t, u, i);
      }
      ScanOverStored(r, TCP_BUFFER, 0, 0);
  }

  lemma {:induction false} CutsWithoutLf(b: HeaderParser, cells: bytes, ms: seq<SipText>, u: nat, chunks: seq<bytes>)
    requires AllWellFormed(b, ms) && ShortHeaders(ms) && u + |Concat(chunks)| <= |Stream(ms)|
    requires |Stream(ms)| + TCP_BUFFER <= |cells| && |cells| > TCP_BUFFER
    requires forall i | 0 <= i < |cells| :: cells[i] != LF
    ensures HarmlessCuts(cells, ms, u, chunks)
    decreases |chunks|
  {
    hide Stream, AllWellFormed, Harmless, ShortHeaders;
    if chunks != [] {
      CutWithoutLf(b, cells, ms, u + |chunks[0]|);
      CutsWithoutLf(b, cells, ms, u + |chunks[0]|, chunks[1..]);
    }
  }

  /** On a new connection whose cells hold no LF, every cutting of a stream that does not fill the
      ring delivers every message. */
  lemma DeliveredWithoutLf(b: HeaderParser, c: Conn, ms: seq<SipText>, chunks: seq<bytes>)
    requires Fresh(c) && AllWellFormed(b, ms) && Chunks(chunks) && Concat(chunks) == Stream(ms)
    requires |Stream(ms)| + TCP_BUFFER <= TCP_CAPACITY + 1 &&
             forall i | 0 <= i < |c.ring.cells| :: c.ring.cells[i] != LF
    ensures Run(b, c, chunks).delivered == Deliveries(ms)
  {
    hide Run, Deliveries, Stream, HarmlessCuts, AllWellFormed, Chunks;
    DeliveredIffHarmless(b, c, ms, chunks);
    CutsWithoutLf(b, c.ring.cells, ms, 0, chunks);
  }

  // ---------- messages that are lost ----------

  lemma {:induction false} ProgressOfPrefix(s: bytes, t: bytes, k: nat)
    requires k <= |s| && k <= |t| && s[..k] == t[..k]
    ensures Progress(s, k) == Progress(t, k)
  {
    if k > 0 {
      assert s[..k][..k - 1] == s[..k - 1] && t[..k][..k - 1] == t[..k - 1];
      assert s[..k][k - 1] == s[k - 1] && t[..k][k - 1] == t[k - 1];
      ProgressOfPrefix(s, t, k - 1);
    }
  }

  /** The search has matched so much behind the first `k` cells. */
  lemma {:induction false} ScanProgress(cells: bytes, bufSize: nat, k: nat)
    requires cells != [] && k <= |cells| && k < bufSize && Progress(cells, k) < 4
    ensures Scan(cells, MESSAGE_DELIMITER, bufSize, 0, 0, 0) ==
            Scan(cells, MESSAGE_DELIMITER, bufSize, k, Progress(cells, k), k)
  {
    if k > 0 {
      ScanProgress(cells, bufSize, k - 1);
    }
  }

  /** Two bytes matched, and two more behind them, complete the match. */
  lemma TwoMore(cells: bytes, bufSize: nat, k: nat)
    requires k + 2 <= |cells| && k + 2 < bufSize && Progress(cells, k) == 2 && cells[k] == CR && cells[k + 1] == LF
    ensures Scan(cells, MESSAGE_DELIMITER, bufSize, 0, 0, 0) == k + 2
  {
    ScanProgress(cells, bufSize, k);
    assert Scan(cells, MESSAGE_DELIMITER, bufSize, k + 2, 4, k + 2) == k + 2;
    assert Scan(cells, MESSAGE_DELIMITER, bufSize, k + 1, 3, k + 1) == k + 2;
  }

  /** What the ring holds when the first chunk of a stream is stored, up to the two cells behind it. */
  lemma FirstWindow(cells: bytes, s: bytes, k: nat)
    requires k + 2 <= |cells| && k <= |s|
    ensures var w := Window(cells, s, 0, k);
            |w| == |cells| && w[..k] == s[..k] && w[k] == cells[k] && w[k + 1] == cells[k + 1]
  {
    var w := Window(cells, s, 0, k);
    assert w == s[0..k] + (cells + s)[k..0 + |cells|];
    assert w[..k] == s[0..k] == s[..k];
  }

  /** A first cut inside the first header section, behind two matched bytes, does harm if the two cells
      behind it hold CR and LF. */
  lemma FirstCutHarms(cells: bytes, ms: seq<SipText>, k: nat)
    requires |cells| > TCP_BUFFER && ShortHeaders(ms) && ms != [] && 4 <= k <= |ms[0].header| - 2
    requires Progress(ms[0].header, k) == 2 && cells[k] == CR && cells[k + 1] == LF
    ensures k <= |Stream(ms)| && !Harmless(cells, ms, k)
  {
    hide Scan, Window, Progress, Stream;
    assert ms[0] in ms;
    StreamSplit(ms);
    var s, h := Stream(ms), ms[0].header;
    assert s[..k] == h[..k];
    FirstWindow(cells, s, k);
    ProgressOfPrefix(h, Window(cells, s, 0, k), k);
    TwoMore(Window(cells, s, 0, k), TCP_BUFFER, k);
  }

  /** For every parser and every stream: if the first read ends inside the first header section behind
      two matched bytes, and the next two cells of the new connection hold CR and LF, the stream is not
      delivered as it was sent. */
  lemma LostMessage(b: HeaderParser, c: Conn, ms: seq<SipText>, chunks: seq<bytes>, k: nat)
    requires Fresh(c) && AllWellFormed(b, ms) && Chunks(chunks) && Concat(chunks) == Stream(ms)
    requires ms != [] && chunks != [] && 4 <= k <= |ms[0].header| - 2 && chunks[0] == ms[0].header[..k]
    requires Progress(ms[0].header, k) == 2 && c.ring.cells[k] == CR && c.ring.cells[k + 1] == LF
    ensures Run(b, c, chunks).delivered != Deliveries(ms)
  {
    hide Run, Deliveries, AllWellFormed, Progress, Harmless, Stream;
    DeliveredIffHarmless(b, c, ms, chunks);
    FirstCutHarms(c.ring.cells, ms, k);
  }

  /** In CRLF text two bytes are matched behind every line in front of the delimiter. */
  lemma LineMatchesTwo(b: HeaderParser, m: SipText, k: nat)
    requires WellFormed(b, m) && CrLfText(m.header) && 2 <= k <= |m.header| - 2
    requires m.header[k - 2] == CR && m.header[k - 1] == LF
    ensures Progress(m.header, k) == 2
  {
    var h := m.header;
    NoEarlyStop(h, |h| - 4, k);
    NoEarlyStop(h, |h| - 4, k - 1);
    NoEarlyStop(h, |h| - 4, k - 2);
    if k > 2 {
      assert h[k - 3] != CR;
      NoEarlyStop(h, |h| - 4, k - 3);
    }
    assert Progress(h, k - 2) in {0, 2};
    assert Progress(h, k - 1) == Step(Progress(h, k - 2), CR) && Progress(h, k) == Step(Progress(h, k - 1), LF);
  }

  /** So every message with CRLF header lines is lost that is first read up to the end of such a line. */
  lemma LostBehindLine(b: HeaderParser, c: Conn, ms: seq<SipText>, chunks: seq<bytes>, k: nat)
    requires Fresh(c) && AllWellFormed(b, ms) && Chunks(chunks) && Concat(chunks) == Stream(ms)
    requires ms != [] && chunks != [] && 4 <= k <= |ms[0].header| - 2 && chunks[0] == ms[0].header[..k]
    requires CrLfText(ms[0].header) && ms[0].header[k - 2] == CR && ms[0].header[k - 1] == LF
    requires c.ring.cells[k] == CR && c.ring.cells[k + 1] == LF
    ensures Run(b, c, chunks).delivered != Deliveries(ms)
  {
    hide Run, Deliveries, Progress, Stream, CrLfText;
    assert ms[0] in ms;
    LineMatchesTwo(b, ms[0], k);
    LostMessage(b, c, ms, chunks, k);
  }
}
