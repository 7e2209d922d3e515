/** What every call on a pairing machine returns, told from the trace of calls before it. */
module PairingEvents {
  import opened Results
  import opened Bytes
  import opened PairingWire
  import opened PairingMachines
  import opened PairingTraces
  import PairingNetwork

  // ---------- initiator ----------

  /** What the next call returns after a trace of calls. */
  function RequestAnswer(id: AttemptId, deadline: nat, inputs: seq<RequestInput>, next: RequestInput): RequestEvent {
    RequestStep(id, deadline, RequestRun(id, deadline, inputs), next).1
  }

  lemma VerdictIsTerminal(id: AttemptId, deadline: nat, sent: bool, input: RequestInput)
    ensures var verdict := RequestVerdict(id, deadline, sent, input); verdict.Some? ==> RequestTerminal(verdict.value)
  {
  }

  /** The attempt is over exactly when some call of the trace ended it. */
  lemma OverExactly(id: AttemptId, deadline: nat, inputs: seq<RequestInput>)
    ensures RequestTerminal(RequestRun(id, deadline, inputs)) <==> !RequestOpen(id, deadline, inputs)
  {
    if RequestOpen(id, deadline, inputs) {
      OpenRequestState(id, deadline, inputs);
    } else {
      var r := FirstVerdict(id, deadline, inputs);
      FirstVerdictDecides(id, deadline, inputs, r);
      VerdictIsTerminal(id, deadline, SentIn(deadline, inputs[..r]), inputs[r]);
    }
  }

  /**
   The request is served exactly while nothing has ended the attempt, it has not been
   marked sent, and the deadline has not come; what is served is this attempt's request.
   */
  lemma ServedExactly(id: AttemptId, deadline: nat, inputs: seq<RequestInput>, now: nat)
    ensures var answer := RequestAnswer(id, deadline, inputs, AskMessage(now));
            && answer.Outbound?
            && (answer.message.Some? <==>
                  RequestOpen(id, deadline, inputs) && !SentIn(deadline, inputs) && now < deadline)
            && (answer.message.Some? ==> Decode(answer.message.value) == Ok(Request(id)))
  {
    OverExactly(id, deadline, inputs);
    if RequestOpen(id, deadline, inputs) {
      OpenRequestState(id, deadline, inputs);
    }
    DecodeExact(Encode(Request(id)), Request(id));
  }

  /** What a call other than asking for the message is to return, given what came before. */
  ghost function RequestReply(id: AttemptId, open: bool, sent: bool, deadline: nat, next: RequestInput): RequestEvent {
    if !open then RequestIgnoredInput(AlreadyResolved)
    else if LateRequest(deadline, next) then BecameTimedOut
    else
      match next
      case AskMessage(_) => Outbound(None)
      case MarkSent(_) => if sent then RequestIgnoredInput(AlreadySent) else AwaitingResponse
      case CheckRequest(_) => RequestPending
      case CancelRequest => BecameCancelled
      case RequestTransportFailure => BecameFailed(TransportFailure)
      case Receive(raw, _) =>
        (match Decode(raw)
         case Err(e) => BecameFailed(Protocol(e))
         case Ok(message) =>
           if message.id != id then RequestIgnoredInput(AttemptIdMismatch)
           else if message == Request(id) then BecameFailed(UnexpectedMessage)
           else if !sent then RequestIgnoredInput(NotAwaitingResponse)
           else if message == RequestAccepted(id) then BecameReady
           else BecameRejected(message.reason))
  }

  /** Over every trace, each other call returns what the calls before it make of it. */
  lemma RequestAnswers(id: AttemptId, deadline: nat, inputs: seq<RequestInput>, next: RequestInput)
    requires !next.AskMessage?
    ensures RequestAnswer(id, deadline, inputs, next) ==
            RequestReply(id, RequestOpen(id, deadline, inputs), SentIn(deadline, inputs), deadline, next)
  {
    OverExactly(id, deadline, inputs);
    if RequestOpen(id, deadline, inputs) {
      OpenRequestState(id, deadline, inputs);
    }
  }

  // ---------- responder ----------

  function ResponseAnswer(id: AttemptId, deadline: nat, inputs: seq<ResponseInput>, next: ResponseInput)
    : ResponseEvent
  {
    ResponseStep(id, deadline, ResponseRun(id, deadline, inputs), next).1
  }

  lemma ResponseOverExactly(id: AttemptId, deadline: nat, inputs: seq<ResponseInput>)
    ensures ResponseTerminal(ResponseRun(id, deadline, inputs)) <==> !ResponseOpen(deadline, inputs)
  {
    if ResponseOpen(deadline, inputs) {
      OpenResponseState(id, deadline, inputs);
    } else {
      var r := FirstResponseVerdict(deadline, inputs);
      FirstResponseVerdictDecides(id, deadline, inputs, r);
    }
  }

  /** What a call is to return, given what came before. */
  ghost function ResponseReply(id: AttemptId, open: bool, accepted: bool, deadline: nat, next: ResponseInput)
    : ResponseEvent
  {
    if !open then ResponseIgnoredInput(ResponseResolved)
    else if LateResponse(deadline, next) then ResponseBecameTimedOut
    else
      match next
      case Accept(_) =>
        if accepted then ResponseIgnoredInput(DecisionAlreadyMade) else AcceptedWith(Encode(RequestAccepted(id)))
      case Reject(reason, _) =>
        if accepted then ResponseIgnoredInput(DecisionAlreadyMade)
        else RejectedWith(Encode(RequestRejected(id, reason)))
      case MarkReplySent(_) => if accepted then ResponseBecameReady else ResponseIgnoredInput(NoAcceptedReply)
      case CheckResponse(_) => ResponsePending
      case CancelResponse => ResponseBecameCancelled
      case ResponseTransportFailure => ResponseBecameFailed
  }

  /** Over every trace, each call on a responder returns what the calls before it make of it. */
  lemma ResponseAnswers(id: AttemptId, deadline: nat, inputs: seq<ResponseInput>, next: ResponseInput)
    ensures ResponseAnswer(id, deadline, inputs, next) ==
            ResponseReply(id, ResponseOpen(deadline, inputs), AcceptedIn(deadline, inputs), deadline, next)
  {
    ResponseOverExactly(id, deadline, inputs);
    if ResponseOpen(deadline, inputs) {
      OpenResponseState(id, deadline, inputs);
    }
  }

  /** A presented message starts an attempt exactly when it is a request, and otherwise says what is wrong with it. */
  lemma PresentedExactly(raw: seq<Byte>, id: AttemptId)
    ensures FromRequest(raw) == Ok(id) <==> raw == Encode(Request(id))
    ensures FromRequest(raw) == Err(NotARequest) <==>
            Decode(raw).Ok? && forall i: AttemptId :: raw != Encode(Request(i))
    ensures forall e :: FromRequest(raw) == Err(BadMessage(e)) <==> Decode(raw) == Err(e)
  {
    DecodeExact(raw, Request(id));
    if Decode(raw).Ok? {
      DecodeExact(raw, Decode(raw).value);
      forall i: AttemptId
        ensures raw == Encode(Request(i)) <==> Decode(raw) == Ok(Request(i))
      {
        DecodeExact(raw, Request(i));
      }
    }
  }

  // ---------- both sides ----------

  type World = PairingNetwork.World
  type Action = PairingNetwork.Action

  lemma Append(actions: seq<Action>, a: Action)
    requires PairingNetwork.Enabled(PairingNetwork.After(actions), a)
    ensures PairingNetwork.After(actions + [a]) == PairingNetwork.Next(PairingNetwork.After(actions), a)
  {
    assert (actions + [a])[..|actions|] == actions;
  }

  /** The request is asked for, marked sent and presented to a responder. */
  function Presenting(id: AttemptId, ours: nat, theirs: nat, at: nat): seq<Action> {
    [PairingNetwork.Initiate(id, ours)] + [PairingNetwork.InitiatorCall(id, AskMessage(at))]
    + [PairingNetwork.InitiatorCall(id, MarkSent(at))] + [PairingNetwork.Present(Encode(Request(id)), theirs)]
  }

  lemma PresentingLeaves(id: AttemptId, ours: nat, theirs: nat, at: nat)
    requires at < ours
    ensures PairingNetwork.After(Presenting(id, ours, theirs, at)) ==
            PairingNetwork.World(map[id := PairingNetwork.Initiator(ours, AwaitingRemoteResponse)],
                                 [PairingNetwork.Responder(id, theirs, AwaitingDecision, PairingNetwork.Undecided)],
                                 {Encode(Request(id))})
  {
    var a := [PairingNetwork.Initiate(id, ours)];
    var b := a + [PairingNetwork.InitiatorCall(id, AskMessage(at))];
    var c := b + [PairingNetwork.InitiatorCall(id, MarkSent(at))];
    assert a[..0] == [];
    Append([], PairingNetwork.Initiate(id, ours));
    assert [] + [PairingNetwork.Initiate(id, ours)] == a;
    Append(a, PairingNetwork.InitiatorCall(id, AskMessage(at)));
    Append(b, PairingNetwork.InitiatorCall(id, MarkSent(at)));
    PresentedExactly(Encode(Request(id)), id);
    Append(c, PairingNetwork.Present(Encode(Request(id)), theirs));
  }

  /** In time on both sides, an accepted request makes the initiator and its responder ready. */
  lemma BothReady(id: AttemptId, ours: nat, theirs: nat, at: nat) returns (actions: seq<Action>)
    requires at < ours && at < theirs
    ensures var w := PairingNetwork.After(actions);
            && id in w.initiators && w.initiators[id].state == RequestReady
            && |w.responders| == 1 && w.responders[0].id == id && w.responders[0].state == ResponseReady
  {
    var reply := Encode(RequestAccepted(id));
    var a := Presenting(id, ours, theirs, at);
    var b := a + [PairingNetwork.ResponderCall(0, Accept(at))];
    var c := b + [PairingNetwork.ResponderCall(0, MarkReplySent(at))];
    actions := c + [PairingNetwork.InitiatorCall(id, Receive(reply, at))];
    PresentingLeaves(id, ours, theirs, at);
    Append(a, PairingNetwork.ResponderCall(0, Accept(at)));
    Append(b, PairingNetwork.ResponderCall(0, MarkReplySent(at)));
    DecodeExact(reply, RequestAccepted(id));
    Append(c, PairingNetwork.InitiatorCall(id, Receive(reply, at)));
  }

  /** In time on both sides, a refusal reaches the initiator with its reason. */
  lemma BothRejected(id: AttemptId, ours: nat, theirs: nat, at: nat, reason: Reason) returns (actions: seq<Action>)
    requires at < ours && at < theirs
    ensures var w := PairingNetwork.After(actions);
            && id in w.initiators && w.initiators[id].state == RequestRejectedBy(reason)
            && |w.responders| == 1 && w.responders[0].id == id && w.responders[0].state == ResponseRejected(reason)
  {
    var reply := Encode(RequestRejected(id, reason));
    var a := Presenting(id, ours, theirs, at);
    var b := a + [PairingNetwork.ResponderCall(0, Reject(reason, at))];
    actions := b + [PairingNetwork.InitiatorCall(id, Receive(reply, at))];
    PresentingLeaves(id, ours, theirs, at);
    Append(a, PairingNetwork.ResponderCall(0, Reject(reason, at)));
    DecodeExact(reply, RequestRejected(id, reason));
    Append(b, PairingNetwork.InitiatorCall(id, Receive(reply, at)));
  }
}
