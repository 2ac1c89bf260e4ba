/** What holds after every run of the dialogue engine: the shape of its two indexes, the order of
    the events of a call, and that calls do not influence one another. */
module CallRuns {
  import opened Bytes
  import opened CallEngine

  // ---------- the indexes ----------

  predicate Mentions(fs: seq<Request>, c: CallId) {
    exists i :: 0 <= i < |fs| && fs[i].callId == c
  }

  /** The first INVITE of every call, in order of arrival. */
  function Firsts(actions: seq<Action>): seq<Request> {
    if actions == [] then []
    else
      var before := Firsts(actions[..|actions| - 1]);
      var a := actions[|actions| - 1];
      if a.Received? && a.request.kind == INVITE && !Mentions(before, a.request.callId) then before + [a.request]
      else before
  }

  /** The channel id of the `i`-th call. */
  function ChannelOf(i: nat): nat {
    (i + 1) % CHANNEL_LIMIT
  }

  /** A dialogue as it is filed: under its call-id, holding the INVITE that created it. */
  ghost predicate Filed(d: Dialogue, first: Request, channelId: nat) {
    && first.kind == INVITE
    && d.callId == first.callId && d.channelId == channelId
    && d.transaction == Some(Transaction(channelId, first, first.sdp))
    && d.state in {INCOMING, CONNECTED, CLEARED}
  }

  /** The call-id index, given the first INVITE of every call. */
  ghost predicate CallsIndexed(m: map<CallId, Dialogue>, fs: seq<Request>) {
    && (forall i, j | 0 <= i < j < |fs| :: fs[i].callId != fs[j].callId)
    && (forall c | c in m :: Mentions(fs, c))
    && (forall i | 0 <= i < |fs| :: fs[i].callId in m && Filed(m[fs[i].callId], fs[i], ChannelOf(i)))
  }

  /** The channel index, given the first INVITE of every call. */
  ghost predicate ChannelsIndexed(m: map<nat, CallId>, fs: seq<Request>) {
    && (forall k | k in m :: exists i :: 0 <= i < |fs| && i < CHANNEL_LIMIT && ChannelOf(i) == k)
    && (forall i | 0 <= i < |fs| && i < CHANNEL_LIMIT :: ChannelOf(i) in m && m[ChannelOf(i)] == fs[i].callId)
  }

  ghost predicate Indexed(e: Engine, fs: seq<Request>) {
    && CallsIndexed(e.byCall, fs)
    && ChannelsIndexed(e.byChannel, fs)
    && e.lastChannelId == |fs| % CHANNEL_LIMIT
  }

  lemma ChannelsRepeat(i: nat, j: nat)
    requires i < CHANNEL_LIMIT && j < CHANNEL_LIMIT
    ensures ChannelOf(i) == ChannelOf(j) <==> i == j
  {
  }

  lemma ChannelTaken(i: nat)
    requires i >= CHANNEL_LIMIT
    ensures i % CHANNEL_LIMIT < i && ChannelOf(i % CHANNEL_LIMIT) == ChannelOf(i)
  {
  }

  lemma NextChannel(n: nat)
    ensures (n % CHANNEL_LIMIT + 1) % CHANNEL_LIMIT == ChannelOf(n) == (n + 1) % CHANNEL_LIMIT
  {
  }

  /** What the first INVITE of a call does to the indexes. */
  lemma ReceiveNew(e: Engine, r: Request)
    requires r.kind == INVITE && r.callId !in e.byCall
    ensures var k, e' := (e.lastChannelId + 1) % CHANNEL_LIMIT, Receive(e, r);
            && e'.lastChannelId == k
            && e'.byCall == e.byCall[r.callId := NewDialogue(k, r).(state := INCOMING)]
            && e'.byChannel == Insert(e.byChannel, k, r.callId)
  {
  }

  lemma NewCallFiled(m: map<CallId, Dialogue>, fs: seq<Request>, r: Request, d: Dialogue)
    requires CallsIndexed(m, fs) && r.callId !in m && Filed(d, r, ChannelOf(|fs|))
    ensures CallsIndexed(m[r.callId := d], fs + [r])
  {
    var fs' := fs + [r];
    forall c | c in m[r.callId := d] ensures Mentions(fs', c) {
      if c in m {
        var i :| 0 <= i < |fs| && fs[i].callId == c;
        assert fs'[i].callId == c;
      } else {
        assert fs'[|fs|].callId == c;
      }
    }
  }

  /** A channel id that has wrapped round is already taken, and stays with the earlier call. */
  lemma NewChannelFiled(m: map<nat, CallId>, fs: seq<Request>, r: Request)
    requires ChannelsIndexed(m, fs)
    ensures ChannelsIndexed(Insert(m, ChannelOf(|fs|), r.callId), fs + [r])
  {
    var n, m', fs' := |fs|, Insert(m, ChannelOf(|fs|), r.callId), fs + [r];
    if n >= CHANNEL_LIMIT {
      ChannelTaken(n);
      var i := n % CHANNEL_LIMIT;
      assert ChannelOf(i) in m;
      assert m' == m;
    } else {
      assert ChannelOf(n) !in m by {
        if ChannelOf(n) in m {
          var i :| 0 <= i < |fs| && i < CHANNEL_LIMIT && ChannelOf(i) == ChannelOf(n);
          ChannelsRepeat(i, n);
        }
      }
      assert m' == m[ChannelOf(n) := r.callId];
      forall i | 0 <= i < n ensures ChannelOf(i) in m' && m'[ChannelOf(i)] == fs[i].callId {
        ChannelsRepeat(i, n);
      }
    }
    forall k | k in m' ensures exists i :: 0 <= i < |fs'| && i < CHANNEL_LIMIT && ChannelOf(i) == k {
      if k in m {
        var i :| 0 <= i < |fs| && i < CHANNEL_LIMIT && ChannelOf(i) == k;
        assert i < |fs'|;
      } else {
        assert ChannelOf(n) == k;
      }
    }
  }

  /** Dialogues that differ in their state and recording flag at most. */
  ghost predicate SameDialogues(m: map<CallId, Dialogue>, m': map<CallId, Dialogue>) {
    && m.Keys == m'.Keys
    && (forall c | c in m ::
          && m'[c] == m[c].(state := m'[c].state, recording := m'[c].recording)
          && m'[c].state in {m[c].state, INCOMING, CONNECTED, CLEARED})
  }

  /** Nothing but a new call touches the indexes. */
  lemma StepKeepsDialogues(e: Engine, a: Action)
    requires a.Received? && a.request.kind == INVITE ==> a.request.callId in e.byCall
    ensures var e' := Step(e, a);
            SameDialogues(e.byCall, e'.byCall) && e'.byChannel == e.byChannel && e'.lastChannelId == e.lastChannelId
  {
    match a
    case RecordingWanted(k) => RecordingKeepsDialogues(e, k);
    case Received(r) => HandleKeepsDialogues(e, r);
  }

  lemma RecordingKeepsDialogues(e: Engine, k: nat)
    ensures var e' := StartRecording(e, k);
            SameDialogues(e.byCall, e'.byCall) && e'.byChannel == e.byChannel && e'.lastChannelId == e.lastChannelId
  {
  }

  lemma HandleKeepsDialogues(e: Engine, r: Request)
    requires r.kind == INVITE ==> r.callId in e.byCall
    ensures var e' := Receive(e, r);
            SameDialogues(e.byCall, e'.byCall) && e'.byChannel == e.byChannel && e'.lastChannelId == e.lastChannelId
  {
    hide StartTransaction, NewDialogue;
    assert UpdateTransaction(e, r) == e;
    if r.callId in e.byCall && e.byCall[r.callId].transaction != None {
      var d, d' := e.byCall[r.callId], Handle(e, r).byCall[r.callId];
      assert Handle(e, r).byCall == e.byCall[r.callId := d'];
      assert d' == d.(state := d'.state);
    }
  }

  lemma NewCallIndexed(e: Engine, fs: seq<Request>, r: Request)
    requires Indexed(e, fs) && r.kind == INVITE && r.callId !in e.byCall
    ensures Indexed(Receive(e, r), fs + [r])
  {
    hide Receive, CallsIndexed, ChannelsIndexed;
    var n := |fs|;
    NextChannel(n);
    ReceiveNew(e, r);
    NewCallFiled(e.byCall, fs, r, NewDialogue(ChannelOf(n), r).(state := INCOMING));
    NewChannelFiled(e.byChannel, fs, r);
  }

  lemma OldCallIndexed(e: Engine, fs: seq<Request>, a: Action)
    requires Indexed(e, fs)
    requires a.Received? && a.request.kind == INVITE ==> a.request.callId in e.byCall
    ensures Indexed(Step(e, a), fs)
  {
    hide Step, ChannelsIndexed, ChannelOf;
    StepKeepsDialogues(e, a);
  }

  lemma KnownCalls(e: Engine, fs: seq<Request>)
    requires Indexed(e, fs)
    ensures forall c :: c in e.byCall <==> Mentions(fs, c)
  {
  }

  /** After every run, channel ids count the calls in order of their first INVITE, wrapping at
      2^32, and both indexes lead to the dialogue that INVITE created. */
  lemma {:induction false} RunIsIndexed(actions: seq<Action>)
    ensures Indexed(Run(actions), Firsts(actions))
  {
    if actions != [] {
      var before, a := actions[..|actions| - 1], actions[|actions| - 1];
      RunIsIndexed(before);
      var e, fs := Run(before), Firsts(before);
      KnownCalls(e, fs);
      if a.Received? && a.request.kind == INVITE && a.request.callId !in e.byCall {
        NewCallIndexed(e, fs, a.request);
      } else {
        OldCallIndexed(e, fs, a);
      }
    }
  }

  /** Both indexes lead to the same dialogues. */
  ghost predicate Bijection(e: Engine) {
    && (forall c | c in e.byCall :: var k := e.byCall[c].channelId; k in e.byChannel && e.byChannel[k] == c)
    && (forall k | k in e.byChannel :: e.byChannel[k] in e.byCall && e.byCall[e.byChannel[k]].channelId == k)
  }

  /** The two indexes agree exactly until more than 2^32 calls have been seen. */
  lemma IndexesAgree(actions: seq<Action>)
    ensures Bijection(Run(actions)) <==> |Firsts(actions)| <= CHANNEL_LIMIT
  {
    RunIsIndexed(actions);
    var e, fs := Run(actions), Firsts(actions);
    forall k | k in e.byChannel ensures e.byChannel[k] in e.byCall && e.byCall[e.byChannel[k]].channelId == k {
      var i :| 0 <= i < |fs| && i < CHANNEL_LIMIT && ChannelOf(i) == k;
      assert Filed(e.byCall[fs[i].callId], fs[i], ChannelOf(i));
    }
    if |fs| <= CHANNEL_LIMIT {
      forall c | c in e.byCall ensures var k := e.byCall[c].channelId; k in e.byChannel && e.byChannel[k] == c {
        var i :| 0 <= i < |fs| && fs[i].callId == c;
        assert Filed(e.byCall[fs[i].callId], fs[i], ChannelOf(i));
      }
    } else {
      var i := CHANNEL_LIMIT;
      assert Filed(e.byCall[fs[i].callId], fs[i], ChannelOf(i));
      assert ChannelOf(0) == ChannelOf(i) && e.byChannel[ChannelOf(0)] == fs[0].callId;
    }
  }

  /** A run only ever adds to the list of calls. */
  lemma {:induction false} FirstsGrow(actions: seq<Action>, more: seq<Action>)
    ensures Firsts(actions) <= Firsts(actions + more)
  {
    if more == [] {
      assert actions + more == actions;
    } else {
      var all := actions + more;
      assert all[..|all| - 1] == actions + more[..|more| - 1];
      FirstsGrow(actions, more[..|more| - 1]);
    }
  }

  /** A channel's media offer is the SDP of the INVITE that opened it, whatever happens later. */
  lemma MediaOfferIsFirstSdp(actions: seq<Action>, more: seq<Action>, i: nat)
    requires i < |Firsts(actions)| && i < CHANNEL_LIMIT
    ensures MediaOffer(Run(actions + more), ChannelOf(i)) == Firsts(actions)[i].sdp
  {
    FirstsGrow(actions, more);
    RunIsIndexed(actions + more);
    var e, fs := Run(actions + more), Firsts(actions + more);
    assert Filed(e.byCall[fs[i].callId], fs[i], ChannelOf(i)) && fs[i] == Firsts(actions)[i];
  }

  /** A request for an unknown call has no effect at all, unless it is an INVITE. */
  lemma UnknownCallIgnored(actions: seq<Action>, r: Request)
    requires r.kind != INVITE
    requires forall i | 0 <= i < |Firsts(actions)| :: Firsts(actions)[i].callId != r.callId
    ensures Run(actions + [Received(r)]) == Run(actions)
  {
    RunIsIndexed(actions);
    var all := actions + [Received(r)];
    assert all[..|all| - 1] == actions;
    assert !Mentions(Firsts(actions), r.callId);
  }

  // ---------- the events of one call ----------

  /** The outputs of one call, in order. */
  function OutputsOf(log: seq<Output>, c: CallId): seq<Output> {
    if log == [] then []
    else
      var before := OutputsOf(log[..|log| - 1], c);
      if log[|log| - 1].Call() == c then before + [log[|log| - 1]] else before
  }

  /** An output that starts, answers or clears a call. */
  predicate IsEventOf(o: Output, c: CallId) {
    o.Call() == c && (o.NewCall? || o.CallAnswered? || o.CallCleared?)
  }

  /** The call events among them; recordings and responses aside. */
  function EventsOf(log: seq<Output>, c: CallId): seq<Output> {
    if log == [] then []
    else
      var before := EventsOf(log[..|log| - 1], c);
      var o := log[|log| - 1];
      if IsEventOf(o, c) then before + [o] else before
  }

  /** The event at `i` may stand there: an answer only directly after a new call, a clearing only
      directly after an answer. */
  ghost predicate InPlace(events: seq<Output>, i: nat)
    requires i < |events|
  {
    match events[i]
    case NewCall(_, _) => true
    case CallAnswered(_, _) => i > 0 && events[i - 1].NewCall?
    case CallCleared(_, _) => i > 0 && events[i - 1].CallAnswered?
    case _ => false
  }

  ghost predicate WellFormedTrace(events: seq<Output>) {
    forall i | 0 <= i < |events| :: InPlace(events, i)
  }

  lemma ExtendTrace(events: seq<Output>, o: Output)
    requires WellFormedTrace(events)
    requires || o.NewCall?
             || (o.CallAnswered? && StateAfter(events) == INCOMING)
             || (o.CallCleared? && StateAfter(events) == CONNECTED)
    ensures WellFormedTrace(events + [o])
  {
    var all := events + [o];
    forall i | 0 <= i < |all| ensures InPlace(all, i) {
      if i < |events| {
        assert InPlace(events, i);
      }
    }
  }

  lemma ShortenTrace(events: seq<Output>)
    requires WellFormedTrace(events) && events != []
    ensures WellFormedTrace(events[..|events| - 1])
  {
    var before := events[..|events| - 1];
    forall i | 0 <= i < |before| ensures InPlace(before, i) {
      assert InPlace(events, i);
    }
  }

  /** The dialogue state that the last event stands for. */
  function StateAfter(events: seq<Output>): DialogueState {
    if events == [] then NONE
    else
      match events[|events| - 1]
      case NewCall(_, _) => INCOMING
      case CallAnswered(_, _) => CONNECTED
      case _ => CLEARED
  }

  /** The events of a call are well formed and its state is what the last of them says. */
  ghost predicate Traced(e: Engine, c: CallId) {
    && WellFormedTrace(EventsOf(e.log, c))
    && StateAfter(EventsOf(e.log, c)) == if c in e.byCall then e.byCall[c].state else NONE
  }

  lemma {:induction false} EventsAppend(log: seq<Output>, more: seq<Output>, c: CallId)
    ensures EventsOf(log + more, c) == EventsOf(log, c) + EventsOf(more, c)
  {
    if more == [] {
      assert log + more == log;
    } else {
      var all := log + more;
      assert all[..|all| - 1] == log + more[..|more| - 1];
      EventsAppend(log, more[..|more| - 1], c);
    }
  }

  lemma {:induction false} OutputsAppend(log: seq<Output>, more: seq<Output>, c: CallId)
    ensures OutputsOf(log + more, c) == OutputsOf(log, c) + OutputsOf(more, c)
  {
    if more == [] {
      assert log + more == log;
    } else {
      var all := log + more;
      assert all[..|all| - 1] == log + more[..|more| - 1];
      OutputsAppend(log, more[..|more| - 1], c);
    }
  }

  /** Every dialogue has a transaction and is filed under its own call-id. */
  ghost predicate Sound(e: Engine) {
    && (forall c | c in e.byCall ::
          var d := e.byCall[c];
          d.callId == c && d.transaction.Some? && d.state in {INCOMING, CONNECTED, CLEARED})
    && (forall k | k in e.byChannel :: e.byChannel[k] in e.byCall)
  }

  lemma RunIsSound(actions: seq<Action>)
    ensures Sound(Run(actions))
  {
    RunIsIndexed(actions);
    var e, fs := Run(actions), Firsts(actions);
    forall c | c in e.byCall
      ensures var d := e.byCall[c]; d.callId == c && d.transaction.Some? && d.state in {INCOMING, CONNECTED, CLEARED}
    {
      var i :| 0 <= i < |fs| && fs[i].callId == c;
      assert Filed(e.byCall[fs[i].callId], fs[i], ChannelOf(i));
    }
    forall k | k in e.byChannel ensures e.byChannel[k] in e.byCall {
      var i :| 0 <= i < |fs| && i < CHANNEL_LIMIT && ChannelOf(i) == k;
      assert e.byChannel[k] == fs[i].callId;
    }
  }

  /** The channel id of a call, or the one it would get. */
  function ChannelFor(e: Engine, c: CallId): nat {
    if c in e.byCall then e.byCall[c].channelId else (e.lastChannelId + 1) % CHANNEL_LIMIT
  }

  /** What an action appends to the log. */
  function Emitted(e: Engine, a: Action): seq<Output> {
    match a
    case Received(r) =>
      if r.kind == INVITE then [TryingSent(r), NewCall(ChannelFor(e, r.callId), r)]
      else if r.callId !in e.byCall then []
      else
        var d := e.byCall[r.callId];
        if r.kind == ACK && d.state == INCOMING then [CallAnswered(d.channelId, r.callId)]
        else if r.kind == BYE && d.state == CONNECTED then
          (if d.recording then [RecordingStopped(r.channelId, r.callId)] else []) +
              [OkSent(r), CallCleared(d.channelId, r.callId)]
        else if r.kind == SUBSCRIBE then [SubscriptionAccepted(r)]
        else []
    case RecordingWanted(k) =>
      if k in e.byChannel && e.byChannel[k] in e.byCall then
        [RecordingStarted(e.byCall[e.byChannel[k]].channelId, e.byCall[e.byChannel[k]].callId)]
      else []
  }

  lemma StepEmits(e: Engine, a: Action)
    requires Sound(e)
    ensures Step(e, a).log == e.log + Emitted(e, a)
  {
    if a.Received? && a.request.kind == INVITE && a.request.callId !in e.byCall {
      ReceiveNew(e, a.request);
    }
  }

  /** An action emits outputs of one call only, and at most one of them is a call event: a new
      call for an INVITE, an answer to a new call, or the clearing of an answered one. */
  lemma EmittedEvents(e: Engine, a: Action, c: CallId)
    requires Sound(e)
    ensures EventsOf(Emitted(e, a), c) ==
            if a.RecordingWanted? || a.request.callId != c then []
            else if a.request.kind == INVITE then [NewCall(ChannelFor(e, c), a.request)]
            else if a.request.kind == ACK && c in e.byCall && e.byCall[c].state == INCOMING then
              [CallAnswered(ChannelFor(e, c), c)]
            else if a.request.kind == BYE && c in e.byCall && e.byCall[c].state == CONNECTED then
              [CallCleared(ChannelFor(e, c), c)]
            else []
  {
    hide EventsOf;
    NoEvents(c);
    match a
    case RecordingWanted(_) => NoEventsIn(Emitted(e, a), c);
    case Received(r) =>
      if r.callId != c || r.kind == SUBSCRIBE {
        NoEventsIn(Emitted(e, a), c);
      } else if r.kind == INVITE {
        OneEvent([TryingSent(r)], NewCall(ChannelFor(e, c), r), c);
        assert Emitted(e, a) == [TryingSent(r)] + [NewCall(ChannelFor(e, c), r)];
      } else if c in e.byCall && r.kind == ACK && e.byCall[c].state == INCOMING {
        OneEvent([], CallAnswered(ChannelFor(e, c), c), c);
        assert Emitted(e, a) == [] + [CallAnswered(ChannelFor(e, c), c)];
      } else if c in e.byCall && r.kind == BYE && e.byCall[c].state == CONNECTED {
        var front := (if e.byCall[c].recording then [RecordingStopped(r.channelId, c)] else []) + [OkSent(r)];
        OneEvent(front, CallCleared(ChannelFor(e, c), c), c);
        assert Emitted(e, a) == front + [CallCleared(ChannelFor(e, c), c)];
      }
  }

  lemma {:induction false} NoEventsIn(out: seq<Output>, c: CallId)
    requires forall o | o in out :: !IsEventOf(o, c)
    ensures EventsOf(out, c) == []
  {
    if out != [] {
      assert out[|out| - 1] in out && forall o | o in out[..|out| - 1] :: o in out;
      NoEventsIn(out[..|out| - 1], c);
    }
  }

  lemma OneEvent(front: seq<Output>, o: Output, c: CallId)
    requires IsEventOf(o, c) && forall x | x in front :: !IsEventOf(x, c)
    ensures EventsOf(front + [o], c) == [o]
  {
    NoEventsIn(front, c);
    assert (front + [o])[..|front|] == front;
  }

  lemma NoEvents(c: CallId)
    ensures EventsOf([], c) == []
  {
  }

  /** An event for the start, answer, recording or clearing of a call carries this channel id. The
      end of a recording carries the request's own channel field instead. */
  predicate Carries(o: Output, k: nat) {
    match o
    case NewCall(ch, _) => ch == k
    case CallAnswered(ch, _) => ch == k
    case RecordingStarted(ch, _) => ch == k
    case CallCleared(ch, _) => ch == k
    case _ => true
  }

  /** Every output belongs to a known call and carries the channel of its dialogue. */
  ghost predicate Stamped(e: Engine) {
    forall o | o in e.log :: o.Call() in e.byCall && Carries(o, e.byCall[o.Call()].channelId)
  }

  /** Channels are never taken from a call, and a call that emits something is known afterwards. */
  lemma StepKeepsChannels(e: Engine, a: Action)
    requires Sound(e)
    ensures var e' := Step(e, a);
            && (forall c | c in e.byCall :: c in e'.byCall && e'.byCall[c].channelId == e.byCall[c].channelId)
            && (forall o | o in Emitted(e, a) :: o.Call() in e'.byCall && Carries(o, e'.byCall[o.Call()].channelId))
  {
    hide Step;
    if a.Received? && a.request.kind == INVITE && a.request.callId !in e.byCall {
      NewCallStep(e, a.request);
    } else {
      StepKeepsDialogues(e, a);
    }
  }

  lemma NewCallStep(e: Engine, r: Request)
    requires r.kind == INVITE && r.callId !in e.byCall
    ensures Step(e, Received(r)).byCall ==
            e.byCall[r.callId := NewDialogue(ChannelFor(e, r.callId), r).(state := INCOMING)]
  {
    ReceiveNew(e, r);
  }

  /** In every run each event carries the channel id of its own call, and of no other. */
  lemma {:induction false} RunIsStamped(actions: seq<Action>)
    ensures Stamped(Run(actions))
  {
    if actions != [] {
      var before, a := actions[..|actions| - 1], actions[|actions| - 1];
      RunIsStamped(before);
      RunIsSound(before);
      hide Step, Emitted, Sound;
      StepEmits(Run(before), a);
      StepKeepsChannels(Run(before), a);
    }
  }

  /** The state of a call after an action. */
  lemma StateAfterStep(e: Engine, a: Action, c: CallId)
    requires Sound(e)
    ensures var e' := Step(e, a);
            var before := if c in e.byCall then e.byCall[c].state else NONE;
            var after := if c in e'.byCall then e'.byCall[c].state else NONE;
            after ==
            if a.RecordingWanted? || a.request.callId != c then before
            else if a.request.kind == INVITE then INCOMING
            else if a.request.kind == ACK && before == INCOMING then CONNECTED
            else if a.request.kind == BYE && before == CONNECTED then CLEARED
            else before
  {
    if a.Received? && a.request.kind == INVITE && a.request.callId !in e.byCall {
      ReceiveNew(e, a.request);
    }
  }

  lemma StepIsTraced(e: Engine, a: Action, c: CallId)
    requires Sound(e) && Traced(e, c)
    ensures Traced(Step(e, a), c)
  {
    hide Step, EventsOf, Emitted;
    StepEmits(e, a);
    EventsAppend(e.log, Emitted(e, a), c);
    EmittedEvents(e, a, c);
    StateAfterStep(e, a, c);
    var before, more := EventsOf(e.log, c), EventsOf(Emitted(e, a), c);
    if more == [] {
      assert before + more == before;
    } else {
      assert more == [more[0]];
      ExtendTrace(before, more[0]);
    }
  }

  /** Over every run, the events of every call are well formed, and the last of them determines
      the state of its dialogue; all of them carry its channel. The CLEARING state is never reached. */
  lemma {:induction false} RunIsTraced(actions: seq<Action>, c: CallId)
    ensures Traced(Run(actions), c)
    ensures c in Run(actions).byCall ==> Run(actions).byCall[c].state in {INCOMING, CONNECTED, CLEARED}
    ensures var e := Run(actions);
            forall o | o in EventsOf(e.log, c) :: c in e.byCall && Carries(o, e.byCall[c].channelId)
  {
    RunIsSound(actions);
    RunIsStamped(actions);
    OutputsAreLogged(Run(actions).log, c);
    if actions != [] {
      var before := actions[..|actions| - 1];
      RunIsTraced(before, c);
      RunIsSound(before);
      StepIsTraced(Run(before), actions[|actions| - 1], c);
    }
  }

  function NewCalls(events: seq<Output>): nat {
    if events == [] then 0 else (if events[|events| - 1].NewCall? then 1 else 0) + NewCalls(events[..|events| - 1])
  }

  function Answers(events: seq<Output>): nat {
    if events == [] then 0 else (if events[|events| - 1].CallAnswered? then 1 else 0) + Answers(events[..|events| - 1])
  }

  function Clearings(events: seq<Output>): nat {
    if events == [] then 0 else (if events[|events| - 1].CallCleared? then 1 else 0) + Clearings(events[..|events| - 1])
  }

  /** No call is cleared more often than answered, or answered more often than announced. */
  lemma {:induction false} TraceCounts(events: seq<Output>)
    requires WellFormedTrace(events)
    ensures Clearings(events) + (if StateAfter(events) == CONNECTED then 1 else 0) <= Answers(events)
    ensures Answers(events) + (if StateAfter(events) == INCOMING then 1 else 0) <= NewCalls(events)
  {
    if events != [] {
      assert InPlace(events, |events| - 1);
      ShortenTrace(events);
      TraceCounts(events[..|events| - 1]);
    }
  }

  // ---------- calls do not interfere ----------

  /** An output with its channel id set to 1. The stop of a recording carries the request's own
      channel field and is left alone. */
  function OutputOnOne(o: Output): Output {
    match o
    case NewCall(_, r) => NewCall(1, r)
    case CallAnswered(_, c) => CallAnswered(1, c)
    case RecordingStarted(_, c) => RecordingStarted(1, c)
    case CallCleared(_, c) => CallCleared(1, c)
    case o => o
  }

  function OnOne(out: seq<Output>): seq<Output> {
    if out == [] then [] else OnOne(out[..|out| - 1]) + [OutputOnOne(out[|out| - 1])]
  }

  /** The actions of a run that concern one call: its requests, and the recording commands for
      its channel, renamed to channel 1. */
  function Own(actions: seq<Action>, c: CallId): seq<Action> {
    if actions == [] then []
    else
      var before := actions[..|actions| - 1];
      Own(before, c) + OwnAction(Run(before), actions[|actions| - 1], c)
  }

  function OwnAction(e: Engine, a: Action, c: CallId): seq<Action> {
    match a
    case Received(r) => if r.callId == c then [a] else []
    case RecordingWanted(k) => if k in e.byChannel && e.byChannel[k] == c then [RecordingWanted(1)] else []
  }

  /** The dialogue of a call as it looks when its channel is number 1. */
  function OnChannelOne(d: Dialogue): Dialogue {
    d.(channelId := 1,
       transaction := match d.transaction
                      case None => None
                      case Some(t) => Some(t.(channelId := 1)))
  }

  /** What an engine that sees only one call's actions looks like. */
  function Alone(e: Engine, c: CallId): Engine {
    if c in e.byCall then
      Engine(map[c := OnChannelOne(e.byCall[c])], map[1 := c], 1, OnOne(OutputsOf(e.log, c)))
    else
      Engine(map[], map[], 0, OnOne(OutputsOf(e.log, c)))
  }

  lemma {:induction false} OnOneAppend(a: seq<Output>, d: seq<Output>)
    ensures OnOne(a + d) == OnOne(a) + OnOne(d)
  {
    if d == [] {
      assert a + d == a;
    } else {
      var all := a + d;
      assert all[..|all| - 1] == a + d[..|d| - 1];
      OnOneAppend(a, d[..|d| - 1]);
    }
  }

  /** An action emits outputs of its own call only. */
  lemma EmittedOutputs(e: Engine, a: Action, c: CallId)
    requires Sound(e)
    ensures OutputsOf(Emitted(e, a), c) == if OwnAction(e, a, c) == [] then [] else Emitted(e, a)
  {
    hide OutputsOf, EventsOf;
    if OwnAction(e, a, c) == [] {
      NoneOwn(Emitted(e, a), c);
    } else {
      AllOwn(Emitted(e, a), c);
    }
  }

  lemma {:induction false} NoneOwn(out: seq<Output>, c: CallId)
    requires forall o | o in out :: o.Call() != c
    ensures OutputsOf(out, c) == []
  {
    if out != [] {
      assert out[|out| - 1] in out && forall o | o in out[..|out| - 1] :: o in out;
      NoneOwn(out[..|out| - 1], c);
    }
  }

  lemma {:induction false} AllOwn(out: seq<Output>, c: CallId)
    requires forall o | o in out :: o.Call() == c
    ensures OutputsOf(out, c) == out
  {
    hide Output.Call;
    if out != [] {
      assert out[|out| - 1] in out && forall o | o in out[..|out| - 1] :: o in out;
      AllOwn(out[..|out| - 1], c);
      assert out == out[..|out| - 1] + [out[|out| - 1]];
    }
  }

  /** The call's own part of a step, taken alone, is the step as that call sees it. */
  lemma StepAlone(e: Engine, a: Action, c: CallId)
    requires Sound(e)
    ensures var own := OwnAction(e, a, c);
            Alone(Step(e, a), c) == if own == [] then Alone(e, c) else Step(Alone(e, c), own[0])
  {
    hide OutputsOf, OnOne, Step, Emitted;
    StepEmits(e, a);
    OutputsAppend(e.log, Emitted(e, a), c);
    OnOneAppend(OutputsOf(e.log, c), OutputsOf(Emitted(e, a), c));
    EmittedOutputs(e, a, c);
    OnOneNone();
    if OwnAction(e, a, c) == [] {
      OthersStep(e, a, c);
    } else {
      OwnStep(e, a, c);
    }
  }

  lemma OnOneNone()
    ensures OnOne([]) == []
    ensures forall s: seq<Output> :: s + [] == s
  {
  }

  /** A step of another call leaves this call's dialogue alone. */
  lemma OthersStep(e: Engine, a: Action, c: CallId)
    requires Sound(e) && OwnAction(e, a, c) == []
    ensures var e' := Step(e, a);
            (c in e'.byCall <==> c in e.byCall) && (c in e.byCall ==> e'.byCall[c] == e.byCall[c])
  {
  }

  lemma AloneIsSound(e: Engine, c: CallId)
    requires Sound(e)
    ensures Sound(Alone(e, c))
  {
  }

  lemma {:induction false} OnOneAt(out: seq<Output>)
    ensures |OnOne(out)| == |out| && forall i | 0 <= i < |out| :: OnOne(out)[i] == OutputOnOne(out[i])
  {
    if out != [] {
      OnOneAt(out[..|out| - 1]);
    }
  }

  /** The call's own step emits the same outputs on channel 1. */
  lemma OwnEmits(e: Engine, a: Action, c: CallId)
    requires Sound(e) && OwnAction(e, a, c) != []
    ensures Emitted(Alone(e, c), OwnAction(e, a, c)[0]) == OnOne(Emitted(e, a))
  {
    hide OnOne, OutputsOf;
    OnOneAt(Emitted(e, a));
  }

  /** The recording flag of a call after an action. */
  lemma RecordingAfterStep(e: Engine, a: Action, c: CallId)
    requires Sound(e) && c in e.byCall
    ensures c in Step(e, a).byCall
    ensures Step(e, a).byCall[c].recording ==
            (e.byCall[c].recording ||
             (a.RecordingWanted? && a.channelId in e.byChannel && e.byChannel[a.channelId] == c))
  {
    match a
    case RecordingWanted(_) =>
    case Received(r) => HandleKeepsRecording(e, r, c);
  }

  lemma HandleKeepsRecording(e: Engine, r: Request, c: CallId)
    requires Sound(e) && c in e.byCall
    ensures c in Receive(e, r).byCall && Receive(e, r).byCall[c].recording == e.byCall[c].recording
  {
    hide NewDialogue;
  }

  /** The indexes after a step of a known call, alone and in the crowd. */
  lemma OwnOldIndexes(e: Engine, a: Action, c: CallId)
    requires Sound(e) && OwnAction(e, a, c) != [] && c in e.byCall
    ensures var alone, e' := Step(Alone(e, c), OwnAction(e, a, c)[0]), Step(e, a);
            && c in e'.byCall && alone.byCall == map[c := OnChannelOne(e'.byCall[c])]
            && alone.byChannel == map[1 := c] && alone.lastChannelId == 1
  {
    hide Step, OnOne, OutputsOf;
    var alone, own := Alone(e, c), OwnAction(e, a, c)[0];
    AloneIsSound(e, c);
    StepKeepsDialogues(e, a);
    StepKeepsDialogues(alone, own);
    StateAfterStep(e, a, c);
    StateAfterStep(alone, own, c);
    RecordingAfterStep(e, a, c);
    RecordingAfterStep(alone, own, c);
    var d, d' := e.byCall[c], Step(e, a).byCall[c];
    assert Step(alone, own).byCall[c] == OnChannelOne(d).(state := d'.state, recording := d'.recording);
  }

  /** The indexes after the first INVITE of a call, or a request it ignores. */
  lemma OwnNewIndexes(e: Engine, a: Action, c: CallId)
    requires Sound(e) && OwnAction(e, a, c) != [] && c !in e.byCall
    ensures var alone, e' := Step(Alone(e, c), OwnAction(e, a, c)[0]), Step(e, a);
            if c in e'.byCall then
              && alone.byCall == map[c := OnChannelOne(e'.byCall[c])]
              && alone.byChannel == map[1 := c] && alone.lastChannelId == 1
            else alone.byCall == map[] && alone.byChannel == map[] && alone.lastChannelId == 0
  {
    hide OnOne, OutputsOf, Receive;
    var r := a.request;
    if r.kind == INVITE {
      ReceiveNew(e, r);
      ReceiveNew(Alone(e, c), r);
    } else {
      UnknownReceive(e, r);
      UnknownReceive(Alone(e, c), r);
    }
  }

  lemma UnknownReceive(e: Engine, r: Request)
    requires r.kind != INVITE && r.callId !in e.byCall
    ensures Receive(e, r) == e
  {
  }

  lemma OwnStep(e: Engine, a: Action, c: CallId)
    requires Sound(e) && OwnAction(e, a, c) != []
    ensures var alone, own := Alone(e, c), OwnAction(e, a, c)[0];
            Step(alone, own) ==
            Alone(Step(e, a), c).(log := alone.log + OnOne(Emitted(e, a)))
  {
    hide Step, Emitted, OnOne, OutputsOf;
    if c in e.byCall {
      OwnOldIndexes(e, a, c);
    } else {
      OwnNewIndexes(e, a, c);
    }
    OwnEmits(e, a, c);
    AloneIsSound(e, c);
    StepEmits(Alone(e, c), OwnAction(e, a, c)[0]);
  }

  /** Taken alone, the actions of one call drive the engine exactly as they do in the crowd. */
  lemma {:induction false} RunAlone(actions: seq<Action>, c: CallId)
    ensures Run(Own(actions, c)) == Alone(Run(actions), c)
  {
    if actions != [] {
      var before, a := actions[..|actions| - 1], actions[|actions| - 1];
      RunAlone(before, c);
      RunIsSound(before);
      StepAlone(Run(before), a, c);
      var own := OwnAction(Run(before), a, c);
      if own == [] {
        assert Own(actions, c) == Own(before, c);
      } else {
        var all := Own(actions, c);
        assert all[..|all| - 1] == Own(before, c) && all[|all| - 1] == own[0];
      }
    }
  }

  /** An output with channel 1 replaced by another channel. */
  function OutputRenamed(o: Output, k: nat): Output {
    match o
    case NewCall(ch, r) => NewCall(if ch == 1 then k else ch, r)
    case CallAnswered(ch, c) => CallAnswered(if ch == 1 then k else ch, c)
    case RecordingStarted(ch, c) => RecordingStarted(if ch == 1 then k else ch, c)
    case CallCleared(ch, c) => CallCleared(if ch == 1 then k else ch, c)
    case o => o
  }

  function Renamed(out: seq<Output>, k: nat): seq<Output> {
    if out == [] then [] else Renamed(out[..|out| - 1], k) + [OutputRenamed(out[|out| - 1], k)]
  }

  lemma OutputRenamedBack(o: Output, k: nat)
    requires Carries(o, k)
    ensures OutputRenamed(OutputOnOne(o), k) == o
  {
  }

  lemma RenamedAppendOne(out: seq<Output>, o: Output, k: nat)
    ensures Renamed(out + [o], k) == Renamed(out, k) + [OutputRenamed(o, k)]
  {
    assert (out + [o])[..|out|] == out;
  }

  /** Outputs that carry one channel are got back from channel 1. */
  lemma {:induction false} RenamedBack(out: seq<Output>, k: nat)
    requires forall o | o in out :: Carries(o, k)
    ensures Renamed(OnOne(out), k) == out
  {
    if out != [] {
      hide OutputRenamed, OutputOnOne, Carries;
      var before, last := out[..|out| - 1], out[|out| - 1];
      assert forall o | o in before :: o in out;
      assert out == before + [last];
      RenamedBack(before, k);
      OutputRenamedBack(last, k);
      RenamedAppendOne(OnOne(before), OutputOnOne(last), k);
    }
  }

  lemma {:induction false} OutputsAreLogged(log: seq<Output>, c: CallId)
    ensures forall o | o in OutputsOf(log, c) :: o in log && o.Call() == c
    ensures forall o | o in EventsOf(log, c) :: o in log && o.Call() == c
  {
    if log != [] {
      OutputsAreLogged(log[..|log| - 1], c);
    }
  }

  /** Calls do not interfere: in every interleaving, what is sent and fired for the `i`-th call is
      the whole log of an engine that is given that call's actions only, with its channel 1
      replaced by the channel of the call. */
  lemma CallsDoNotInterfere(actions: seq<Action>, i: nat)
    requires i < |Firsts(actions)|
    ensures var c := Firsts(actions)[i].callId;
            OutputsOf(Run(actions).log, c) == Renamed(Run(Own(actions, c)).log, ChannelOf(i))
  {
    var c := Firsts(actions)[i].callId;
    var log := Run(actions).log;
    RunAlone(actions, c);
    RunIsIndexed(actions);
    assert Filed(Run(actions).byCall[c], Firsts(actions)[i], ChannelOf(i));
    RunIsStamped(actions);
    OutputsAreLogged(log, c);
    RenamedBack(OutputsOf(log, c), ChannelOf(i));
  }

  /** Nothing is sent or fired for a call that no INVITE opened. */
  lemma UnknownCallIsSilent(actions: seq<Action>, c: CallId)
    requires !Mentions(Firsts(actions), c)
    ensures OutputsOf(Run(actions).log, c) == []
  {
    var out := OutputsOf(Run(actions).log, c);
    assert out == [] || out[0] in out;
    RunIsStamped(actions);
    RunIsIndexed(actions);
    OutputsAreLogged(Run(actions).log, c);
    KnownCalls(Run(actions), Firsts(actions));
  }
}
