/** The dialogue engine as a state machine on values: what one request or one controller command
    does to the dialogues and to the ordered log of responses sent and events fired. */
module CallEngine {
  import opened Bytes

  type CallId = bytes

  /** The requests SipMessage::builder constructs. */
  datatype Method = INVITE | ACK | BYE | OPTIONS | SUBSCRIBE

  /** A request. `channelId` is its own channel field, which the program never sets. */
  datatype Request = Request(kind: Method, callId: CallId, cseq: bytes, sdp: bytes, channelId: nat)

  datatype DialogueState = NONE | INCOMING | OUTGOING | CONNECTED | CLEARING | CLEARED

  datatype Transaction = Transaction(channelId: nat, request: Request, sdpOffer: bytes)

  datatype Dialogue = Dialogue(callId: CallId, channelId: nat, state: DialogueState, recording: bool,
                               transaction: Option<Transaction>)

  /** A response sent or an event fired. */
  datatype Output =
    | TryingSent(request: Request)
    | NewCall(channelId: nat, request: Request)
    | CallAnswered(channelId: nat, callId: CallId)
    | RecordingStarted(channelId: nat, callId: CallId)
    | RecordingStopped(channelId: nat, callId: CallId)
    | OkSent(request: Request)
    | CallCleared(channelId: nat, callId: CallId)
    | SubscriptionAccepted(request: Request)
  {
    /** The call an output belongs to. */
    function Call(): CallId {
      match this
      case TryingSent(r) => r.callId
      case NewCall(_, r) => r.callId
      case CallAnswered(_, c) => c
      case RecordingStarted(_, c) => c
      case RecordingStopped(_, c) => c
      case OkSent(r) => r.callId
      case CallCleared(_, c) => c
      case SubscriptionAccepted(r) => r.callId
    }
  }

  /** Both indexes over the dialogues, the channel counter and the log. A channel is filed with
      the call-id of the dialogue it leads to. */
  datatype Engine =
    Engine(byCall: map<CallId, Dialogue>, byChannel: map<nat, CallId>, lastChannelId: nat, log: seq<Output>)

  const START := Engine(map[], map[], 0, [])

  /** Channel ids are 32-bit. */
  const CHANNEL_LIMIT := 0x1_0000_0000

  /** `std::map::insert` keeps an entry that is already there. */
  function Insert<K, V>(m: map<K, V>, k: K, v: V): map<K, V> {
    if k in m then m else m[k := v]
  }

  function NewDialogue(channelId: nat, r: Request): Dialogue {
    Dialogue(r.callId, channelId, NONE, false,
             Some(Transaction(channelId, r, if r.kind == INVITE then r.sdp else [])))
  }

  /** A call that is already known is left alone. */
  function StartTransaction(e: Engine, r: Request): Engine {
    if r.callId in e.byCall then e
    else
      var channelId := (e.lastChannelId + 1) % CHANNEL_LIMIT;
      e.(byCall := Insert(e.byCall, r.callId, NewDialogue(channelId, r)),
         byChannel := Insert(e.byChannel, channelId, r.callId),
         lastChannelId := channelId)
  }

  /** The dialogues after `updateTransaction`. */
  function UpdateTransaction(e: Engine, r: Request): Engine {
    if r.kind == INVITE && r.callId !in e.byCall then StartTransaction(e, r) else e
  }

  /** Puts a dialogue into a new state and appends to the log. */
  function Move(e: Engine, c: CallId, state: DialogueState, outputs: seq<Output>): Engine
    requires c in e.byCall
  {
    e.(byCall := e.byCall[c := e.byCall[c].(state := state)], log := e.log + outputs)
  }

  function ProcessBye(e: Engine, r: Request): Engine
    requires r.callId in e.byCall
  {
    var d := e.byCall[r.callId];
    if d.state == CONNECTED then
      Move(e, r.callId, CLEARED,
           (if d.recording then [RecordingStopped(r.channelId, r.callId)] else []) +
           [OkSent(r), CallCleared(d.channelId, r.callId)])
    else if d.state == CLEARING then
      Move(e, r.callId, CLEARED, [CallCleared(d.channelId, r.callId)])
    else e
  }

  /** What the handler of a request does once the request has a transaction. */
  function Handle(e: Engine, r: Request): Engine
    requires r.callId in e.byCall
  {
    var d := e.byCall[r.callId];
    match r.kind
    case INVITE => Move(e, r.callId, INCOMING, [TryingSent(r), NewCall(d.channelId, r)])
    case ACK => if d.state == INCOMING then Move(e, r.callId, CONNECTED, [CallAnswered(d.channelId, r.callId)]) else e
    case BYE => ProcessBye(e, r)
    case OPTIONS => e
    case SUBSCRIBE => e.(log := e.log + [SubscriptionAccepted(r)])
  }

  /** `SipInterface::processMessage`. */
  function Receive(e: Engine, r: Request): Engine {
    var e' := UpdateTransaction(e, r);
    if r.callId !in e'.byCall || e'.byCall[r.callId].transaction == None then e' else Handle(e', r)
  }

  /** `SipInterface::startRecordingCall`. */
  function StartRecording(e: Engine, channelId: nat): Engine {
    if channelId in e.byChannel && e.byChannel[channelId] in e.byCall then
      var d := e.byCall[e.byChannel[channelId]];
      e.(byCall := e.byCall[e.byChannel[channelId] := d.(recording := true)],
         log := e.log + [RecordingStarted(d.channelId, d.callId)])
    else e
  }

  /** `SipInterface::getMediaOffer`. */
  function MediaOffer(e: Engine, channelId: nat): bytes {
    if channelId in e.byChannel && e.byChannel[channelId] in e.byCall &&
       e.byCall[e.byChannel[channelId]].transaction.Some?
    then e.byCall[e.byChannel[channelId]].transaction.value.sdpOffer
    else []
  }

  /** What drives the engine: requests from the network and commands from the controller. */
  datatype Action = Received(request: Request) | RecordingWanted(channelId: nat)

  function Step(e: Engine, a: Action): Engine {
    match a
    case Received(r) => Receive(e, r)
    case RecordingWanted(channelId) => StartRecording(e, channelId)
  }

  /** The engine after any number of actions, in any interleaving of calls. */
  function Run(actions: seq<Action>): Engine {
    if actions == [] then START
    else Step(Run(actions[..|actions| - 1]), actions[|actions| - 1])
  }
}
