/** SipDialogue, SipDialogueManager and the request handlers of SipInterface, each proved to do
    on its objects what CallEngine does on values. */
module Dialogues {
  import opened Bytes
  import opened CallEngine

  class SipDialogue {
    const callId: CallId
    const channelId: nat
    var currentTransaction: Option<Transaction>
    var dialogueState: DialogueState
    var recordingState: bool

    function View(): Dialogue
      reads this
    {
      Dialogue(callId, channelId, dialogueState, recordingState, currentTransaction)
    }

    constructor (channelId: nat, request: Request)
      ensures View() == NewDialogue(channelId, request)
      ensures callId == request.callId && this.channelId == channelId
    {
      callId := request.callId;
      this.channelId := channelId;
      currentTransaction := None;
      dialogueState := NONE;
      recordingState := false;
      new;
      SetCurrentTransaction(request);
    }

    /** The offer is captured once: a dialogue that has a transaction keeps it. */
    method SetCurrentTransaction(request: Request)
      modifies this`currentTransaction
      ensures currentTransaction ==
              if old(currentTransaction).Some? then old(currentTransaction)
              else Some(Transaction(channelId, request, if request.kind == INVITE then request.sdp else []))
    {
      if currentTransaction.Some? {
        return;
      }
      var sdpOffer := [];
      if request.kind == INVITE {
        sdpOffer := request.sdp;
      }
      currentTransaction := Some(Transaction(channelId, request, sdpOffer));
    }
  }

  ghost function ChannelView(m: map<nat, SipDialogue>): map<nat, CallId> {
    map k | k in m :: m[k].callId
  }

  /** Every dialogue is filed under its own call-id, and whatever a channel leads to is filed there
      too and has that channel. */
  ghost predicate WellFiled(calls: map<CallId, SipDialogue>, channels: map<nat, SipDialogue>) {
    && (forall c | c in calls :: calls[c].callId == c)
    && (forall k | k in channels ::
          var d := channels[k];
          d.channelId == k && d.callId in calls && calls[d.callId] == d)
  }

  /** A new dialogue, filed under its call-id and, unless that is taken, under its channel. */
  lemma StillWellFiled(calls: map<CallId, SipDialogue>, channels: map<nat, SipDialogue>, d: SipDialogue)
    requires WellFiled(calls, channels) && d.callId !in calls
    ensures WellFiled(calls[d.callId := d], if d.channelId in channels then channels else channels[d.channelId := d])
  {
  }

  lemma FiledUnderChannel(m: map<nat, SipDialogue>, k: nat, d: SipDialogue)
    ensures ChannelView(if k in m then m else m[k := d]) == Insert(ChannelView(m), k, d.callId)
  {
  }

  class SipDialogueManager {
    var channelToDialogueMap: map<nat, SipDialogue>
    var callIdToDialogueMap: map<CallId, SipDialogue>
    var lastChannelId: nat

    ghost function Repr(): set<object>
      reads this
    {
      callIdToDialogueMap.Values
    }

    ghost predicate Valid()
      reads this, Repr()
    {
      WellFiled(callIdToDialogueMap, channelToDialogueMap) && lastChannelId < CHANNEL_LIMIT
    }

    ghost function ByCall(): map<CallId, Dialogue>
      reads this, Repr()
    {
      map c | c in callIdToDialogueMap :: callIdToDialogueMap[c].View()
    }

    ghost function ByChannel(): map<nat, CallId>
      reads this
    {
      ChannelView(channelToDialogueMap)
    }

    ghost function View(log: seq<Output>): Engine
      reads this, Repr()
    {
      Engine(ByCall(), ByChannel(), lastChannelId, log)
    }

    constructor ()
      ensures Valid() && View([]) == START && callIdToDialogueMap == map[]
    {
      channelToDialogueMap := map[];
      callIdToDialogueMap := map[];
      lastChannelId := 0;
    }

    method RetrieveByChannel(channelId: nat) returns (d: SipDialogue?)
      requires Valid()
      ensures d == null <==> channelId !in channelToDialogueMap
      ensures d != null ==> d == channelToDialogueMap[channelId] && d.channelId == channelId &&
                            d.callId in callIdToDialogueMap && callIdToDialogueMap[d.callId] == d
    {
      d := if channelId in channelToDialogueMap then channelToDialogueMap[channelId] else null;
    }

    method RetrieveByCallId(callId: CallId) returns (d: SipDialogue?)
      requires Valid()
      ensures d == null <==> callId !in callIdToDialogueMap
      ensures d != null ==> d == callIdToDialogueMap[callId] && d.callId == callId
    {
      d := if callId in callIdToDialogueMap then callIdToDialogueMap[callId] else null;
    }

    method GetNextChannelId() returns (channelId: nat)
      requires Valid()
      modifies this`lastChannelId
      ensures Valid() && channelId == lastChannelId == (old(lastChannelId) + 1) % CHANNEL_LIMIT
      ensures ByCall() == old(ByCall()) && ByChannel() == old(ByChannel())
    {
      lastChannelId := (lastChannelId + 1) % CHANNEL_LIMIT;
      channelId := lastChannelId;
    }

    /** Files a new dialogue under its channel id, unless that is taken, and under its call-id. */
    method Register(dialogue: SipDialogue)
      requires Valid() && dialogue.callId !in callIdToDialogueMap
      modifies this`channelToDialogueMap, this`callIdToDialogueMap
      ensures Valid() && callIdToDialogueMap == old(callIdToDialogueMap)[dialogue.callId := dialogue]
      ensures ByCall() == old(ByCall())[dialogue.callId := dialogue.View()]
      ensures ByChannel() == Insert(old(ByChannel()), dialogue.channelId, dialogue.callId)
    {
      hide ChannelView, WellFiled;
      if dialogue.channelId !in channelToDialogueMap {
        channelToDialogueMap := channelToDialogueMap[dialogue.channelId := dialogue];
      }
      FiledUnderChannel(old(channelToDialogueMap), dialogue.channelId, dialogue);
      StillWellFiled(old(callIdToDialogueMap), old(channelToDialogueMap), dialogue);
      callIdToDialogueMap := callIdToDialogueMap[dialogue.callId := dialogue];
    }

    method StartTransaction(request: Request) returns (t: Option<Transaction>)
      requires Valid()
      modifies this
      ensures Valid() && fresh(Repr() - old(Repr()))
      ensures View([]) == CallEngine.StartTransaction(old(View([])), request)
      ensures if request.callId in old(callIdToDialogueMap) then t == None
              else request.callId in callIdToDialogueMap && t == callIdToDialogueMap[request.callId].currentTransaction
    {
      if request.callId in callIdToDialogueMap {
        return None;
      }
      var dialogue := NewFor(request);
      hide NewDialogue, Insert;
      NotYetFiled(ByCall(), request.callId, dialogue.View());
      Register(dialogue);
      t := dialogue.currentTransaction;
    }

    /** A dialogue with the next channel id, not yet filed. */
    method NewFor(request: Request) returns (dialogue: SipDialogue)
      requires Valid()
      modifies this`lastChannelId
      ensures Valid() && fresh(dialogue) && dialogue.callId == request.callId && dialogue.channelId == lastChannelId
      ensures lastChannelId == (old(lastChannelId) + 1) % CHANNEL_LIMIT
      ensures dialogue.View() == NewDialogue(lastChannelId, request)
      ensures ByCall() == old(ByCall()) && ByChannel() == old(ByChannel())
    {
      var channelId := GetNextChannelId();
      ghost var calls, channels := ByCall(), ByChannel();
      hide NewDialogue;
      dialogue := new SipDialogue(channelId, request);
      assert ByCall() == calls && ByChannel() == channels;
    }

    lemma NotYetFiled(calls: map<CallId, Dialogue>, c: CallId, d: Dialogue)
      requires c !in calls
      ensures Insert(calls, c, d) == calls[c := d]
    {
    }

    method UpdateTransaction(request: Request) returns (t: Option<Transaction>)
      requires Valid()
      modifies this
      ensures Valid() && fresh(Repr() - old(Repr()))
      ensures View([]) == CallEngine.UpdateTransaction(old(View([])), request)
      ensures t ==
              if request.callId in callIdToDialogueMap then callIdToDialogueMap[request.callId].currentTransaction
              else None
    {
      var dialogue := RetrieveByCallId(request.callId);
      if dialogue != null {
        t := dialogue.currentTransaction;
      } else if request.kind == INVITE {
        t := StartTransaction(request);
      } else {
        t := None;
      }
    }
  }

  class SipInterface {
    const dialogueManager: SipDialogueManager
    /** Responses sent and events fired, in order. */
    ghost var log: seq<Output>

    ghost function Repr(): set<object>
      reads this, dialogueManager
    {
      {this, dialogueManager} + dialogueManager.Repr()
    }

    ghost predicate Valid()
      reads this, dialogueManager, dialogueManager.Repr()
    {
      dialogueManager.Valid()
    }

    ghost function View(): Engine
      reads this, dialogueManager, dialogueManager.Repr()
    {
      dialogueManager.View(log)
    }

    constructor ()
      ensures Valid() && View() == START && fresh(Repr())
    {
      dialogueManager := new SipDialogueManager();
      log := [];
    }

    /** A dialogue seen through both indexes after its fields changed. */
    lemma ViewAfter(d: SipDialogue, before: Engine)
      requires Valid() && d.callId in dialogueManager.callIdToDialogueMap
      requires dialogueManager.callIdToDialogueMap[d.callId] == d
      requires before.byCall.Keys == dialogueManager.callIdToDialogueMap.Keys
      requires forall c | c in before.byCall && c != d.callId ::
                 before.byCall[c] == dialogueManager.callIdToDialogueMap[c].View()
      ensures View().byCall == before.byCall[d.callId := d.View()]
    {
    }

    method ProcessMessage(request: Request)
      requires Valid()
      modifies Repr()
      ensures Valid() && fresh(Repr() - old(Repr()))
      ensures View() == Receive(old(View()), request)
    {
      var transaction := dialogueManager.UpdateTransaction(request);
      assert View() == CallEngine.UpdateTransaction(old(View()), request);
      if transaction.None? {
        return;
      }
      Dispatch(request);
    }

    /** The choice of the handler, once there is a transaction. */
    method Dispatch(request: Request)
      requires Valid() && request.callId in View().byCall && View().byCall[request.callId].transaction.Some?
      modifies this, dialogueManager.Repr()
      ensures Valid() && dialogueManager.Repr() == old(dialogueManager.Repr())
      ensures View() == Handle(old(View()), request)
    {
      match request.kind
      case INVITE => ProcessInvite(request);
      case ACK => ProcessAck(request);
      case BYE => ProcessBye(request);
      case OPTIONS => ProcessOptions(request);
      case SUBSCRIBE => ProcessSubscribe(request);
    }

    method ProcessInvite(request: Request)
      requires Valid()
      modifies this, dialogueManager.Repr()
      ensures Valid() && dialogueManager.Repr() == old(dialogueManager.Repr())
      ensures var e := old(View()); var c := request.callId;
              View() == if c !in e.byCall then e
                        else Move(e, c, INCOMING, [TryingSent(request), NewCall(e.byCall[c].channelId, request)])
    {
      var dialogue := dialogueManager.RetrieveByCallId(request.callId);
      if dialogue == null {
        return;
      }
      SetState(dialogue, INCOMING, [TryingSent(request), NewCall(dialogue.channelId, request)]);
    }

    method ProcessAck(request: Request)
      requires Valid()
      modifies this, dialogueManager.Repr()
      ensures Valid() && dialogueManager.Repr() == old(dialogueManager.Repr())
      ensures var e := old(View()); var c := request.callId;
              View() == if c !in e.byCall || e.byCall[c].state != INCOMING then e
                        else Move(e, c, CONNECTED, [CallAnswered(e.byCall[c].channelId, c)])
    {
      var dialogue := dialogueManager.RetrieveByCallId(request.callId);
      if dialogue == null {
        return;
      }
      if dialogue.dialogueState == INCOMING {
        SetState(dialogue, CONNECTED, [CallAnswered(dialogue.channelId, request.callId)]);
      }
    }

    method ProcessBye(request: Request)
      requires Valid()
      modifies this, dialogueManager.Repr()
      ensures Valid() && dialogueManager.Repr() == old(dialogueManager.Repr())
      ensures var e := old(View());
              View() == if request.callId !in e.byCall then e else CallEngine.ProcessBye(e, request)
    {
      var dialogue := dialogueManager.RetrieveByCallId(request.callId);
      if dialogue == null {
        return;
      }
      if dialogue.dialogueState == CONNECTED {
        ghost var outputs := [];
        if dialogue.recordingState {
          outputs := [RecordingStopped(request.channelId, request.callId)];
        }
        outputs := outputs + [OkSent(request), CallCleared(dialogue.channelId, request.callId)];
        SetState(dialogue, CLEARED, outputs);
      } else if dialogue.dialogueState == CLEARING {
        SetState(dialogue, CLEARED, [CallCleared(dialogue.channelId, request.callId)]);
      }
    }

    /** Sets the state of a dialogue, and adds to the log what is sent and fired along with it. */
    method SetState(dialogue: SipDialogue, state: DialogueState, ghost outputs: seq<Output>)
      requires Valid() && dialogue.callId in dialogueManager.callIdToDialogueMap
      requires dialogueManager.callIdToDialogueMap[dialogue.callId] == dialogue
      modifies this, dialogue
      ensures Valid() && dialogueManager.Repr() == old(dialogueManager.Repr())
      ensures View() == Move(old(View()), dialogue.callId, state, outputs)
    {
      dialogue.dialogueState := state;
      log := log + outputs;
      ViewAfter(dialogue, old(View()));
    }

    method ProcessOptions(request: Request)
      requires Valid()
      ensures View() == old(View())
    {
      var _ := dialogueManager.RetrieveByCallId(request.callId);
    }

    method ProcessSubscribe(request: Request)
      requires Valid()
      modifies this
      ensures Valid() && View() == old(View()).(log := old(log) + [SubscriptionAccepted(request)])
    {
      log := log + [SubscriptionAccepted(request)];
    }

    method StartRecordingCall(channelId: nat) returns (result: int)
      requires Valid()
      modifies this, dialogueManager.Repr()
      ensures Valid() && dialogueManager.Repr() == old(dialogueManager.Repr())
      ensures View() == StartRecording(old(View()), channelId)
      ensures result == if channelId in old(View()).byChannel then 0 else -1
    {
      var session := dialogueManager.RetrieveByChannel(channelId);
      if session == null {
        return -1;
      }
      session.recordingState := true;
      log := log + [RecordingStarted(session.channelId, session.callId)];
      ViewAfter(session, old(View()));
      return 0;
    }

    method GetMediaOffer(channelId: nat) returns (offer: bytes)
      requires Valid()
      ensures offer == MediaOffer(View(), channelId)
    {
      var dialogue := dialogueManager.RetrieveByChannel(channelId);
      if dialogue != null {
        var transaction := dialogue.currentTransaction;
        if transaction.Some? {
          return transaction.value.sdpOffer;
        }
      }
      return [];
    }
  }
}
