/**
 The pairing-request phase as two state machines, one for each side. Each public
 call is an input; a step gives the next state and what the call returns.
 */
module PairingMachines {
  import opened Results
  import opened Bytes
  import opened PairingWire

  // ---------- initiator ----------

  datatype RequestFailure = Protocol(error: MessageError) | UnexpectedMessage | TransportFailure

  datatype RequestState =
    | RequestCreated
    | AwaitingRemoteResponse
    | RequestReady
    | RequestRejectedBy(reason: Reason)
    | RequestCancelled
    | RequestTimedOut
    | RequestFailed(failure: RequestFailure)

  datatype RequestIgnored = AlreadyResolved | AlreadySent | NotAwaitingResponse | AttemptIdMismatch

  datatype RequestEvent =
    | RequestPending
    | AwaitingResponse
    | BecameReady
    | BecameRejected(reason: Reason)
    | BecameCancelled
    | BecameTimedOut
    | BecameFailed(failure: RequestFailure)
    | RequestIgnoredInput(ignored: RequestIgnored)
    | Outbound(message: Option<seq<Byte>>)

  datatype RequestInput =
    | AskMessage(now: nat)
    | MarkSent(now: nat)
    | Receive(raw: seq<Byte>, now: nat)
    | CheckRequest(now: nat)
    | CancelRequest
    | RequestTransportFailure

  predicate RequestTerminal(state: RequestState) { !state.RequestCreated? && !state.AwaitingRemoteResponse? }

  predicate RequestTimed(input: RequestInput) { !input.CancelRequest? && !input.RequestTransportFailure? }

  function Fail(failure: RequestFailure): (RequestState, RequestEvent) {
    (RequestFailed(failure), BecameFailed(failure))
  }

  function OnMessage(id: AttemptId, state: RequestState, raw: seq<Byte>): (RequestState, RequestEvent) {
    match Decode(raw)
    case Err(e) => Fail(Protocol(e))
    case Ok(message) =>
      if message.id != id then (state, RequestIgnoredInput(AttemptIdMismatch))
      else
        match message
        case Request(_) => Fail(UnexpectedMessage)
        case RequestAccepted(_) =>
          if state.RequestCreated? then (state, RequestIgnoredInput(NotAwaitingResponse))
          else (RequestReady, BecameReady)
        case RequestRejected(_, reason) =>
          if state.RequestCreated? then (state, RequestIgnoredInput(NotAwaitingResponse))
          else (RequestRejectedBy(reason), BecameRejected(reason))
  }

  function RequestStep(id: AttemptId, deadline: nat, state: RequestState, input: RequestInput)
    : (RequestState, RequestEvent)
  {
    if RequestTerminal(state) then
      (state, if input.AskMessage? then Outbound(None) else RequestIgnoredInput(AlreadyResolved))
    else if RequestTimed(input) && input.now >= deadline then
      (RequestTimedOut, if input.AskMessage? then Outbound(None) else BecameTimedOut)
    else
      match input
      case AskMessage(_) => (state, Outbound(if state.RequestCreated? then Some(Encode(Request(id))) else None))
      case MarkSent(_) =>
        if state.RequestCreated? then (AwaitingRemoteResponse, AwaitingResponse)
        else (state, RequestIgnoredInput(AlreadySent))
      case Receive(raw, _) => OnMessage(id, state, raw)
      case CheckRequest(_) => (state, RequestPending)
      case CancelRequest => (RequestCancelled, BecameCancelled)
      case RequestTransportFailure => Fail(TransportFailure)
  }

  class PairingRequest {
    const attemptId: AttemptId
    const deadline: nat
    var state: RequestState

    constructor (attemptId: AttemptId, deadline: nat)
      ensures this.attemptId == attemptId && this.deadline == deadline && state == RequestCreated
    {
      this.attemptId, this.deadline, state := attemptId, deadline, RequestCreated;
    }

    /** The check every time-aware call makes first. */
    method ShortCircuit(now: nat) returns (event: Option<RequestEvent>)
      modifies this`state
      ensures RequestTerminal(old(state)) ==>
                state == old(state) && event == Some(RequestIgnoredInput(AlreadyResolved))
      ensures !RequestTerminal(old(state)) && now >= deadline ==>
                state == RequestTimedOut && event == Some(BecameTimedOut)
      ensures !RequestTerminal(old(state)) && now < deadline ==> state == old(state) && event == None
    {
      if RequestTerminal(state) {
        return Some(RequestIgnoredInput(AlreadyResolved));
      }
      if now >= deadline {
        state := RequestTimedOut;
        return Some(BecameTimedOut);
      }
      return None;
    }

    method RequestMessage(now: nat) returns (message: Option<seq<Byte>>)
      modifies this`state
      ensures (state, Outbound(message)) == RequestStep(attemptId, deadline, old(state), AskMessage(now))
    {
      var early := ShortCircuit(now);
      if early.Some? {
        return None;
      }
      message := None;
      if state.RequestCreated? {
        var bytes := EncodeMessage(Request(attemptId));
        message := Some(bytes);
      }
    }

    method MarkRequestSent(now: nat) returns (event: RequestEvent)
      modifies this`state
      ensures (state, event) == RequestStep(attemptId, deadline, old(state), MarkSent(now))
    {
      var early := ShortCircuit(now);
      if early.Some? {
        return early.value;
      }
      if state.RequestCreated? {
        state := AwaitingRemoteResponse;
        return AwaitingResponse;
      }
      return RequestIgnoredInput(AlreadySent);
    }

    method HandleRemoteMessage(raw: seq<Byte>, now: nat) returns (event: RequestEvent)
      modifies this`state
      ensures (state, event) == RequestStep(attemptId, deadline, old(state), Receive(raw, now))
    {
      var early := ShortCircuit(now);
      if early.Some? {
        return early.value;
      }
      var decoded := Decode(raw);
      if decoded.Err? {
        state := RequestFailed(Protocol(decoded.error));
        return BecameFailed(Protocol(decoded.error));
      }
      if decoded.value.id != attemptId {
        return RequestIgnoredInput(AttemptIdMismatch);
      }
      match decoded.value {
        case Request(_) =>
          state := RequestFailed(UnexpectedMessage);
          event := BecameFailed(UnexpectedMessage);
        case RequestAccepted(_) =>
          if state.RequestCreated? {
            return RequestIgnoredInput(NotAwaitingResponse);
          }
          state := RequestReady;
          event := BecameReady;
        case RequestRejected(_, reason) =>
          if state.RequestCreated? {
            return RequestIgnoredInput(NotAwaitingResponse);
          }
          state := RequestRejectedBy(reason);
          event := BecameRejected(reason);
      }
    }

    method CheckDeadline(now: nat) returns (event: RequestEvent)
      modifies this`state
      ensures (state, event) == RequestStep(attemptId, deadline, old(state), CheckRequest(now))
    {
      var early := ShortCircuit(now);
      event := if early.Some? then early.value else RequestPending;
    }

    method Cancel() returns (event: RequestEvent)
      modifies this`state
      ensures (state, event) == RequestStep(attemptId, deadline, old(state), CancelRequest)
    {
      if RequestTerminal(state) {
        return RequestIgnoredInput(AlreadyResolved);
      }
      state := RequestCancelled;
      return BecameCancelled;
    }

    method NoteTransportFailure() returns (event: RequestEvent)
      modifies this`state
      ensures (state, event) == RequestStep(attemptId, deadline, old(state), RequestTransportFailure)
    {
      if RequestTerminal(state) {
        return RequestIgnoredInput(AlreadyResolved);
      }
      state := RequestFailed(TransportFailure);
      return BecameFailed(TransportFailure);
    }
  }

  // ---------- responder ----------

  datatype ResponseState =
    | AwaitingDecision
    | AcceptedAwaitingSend
    | ResponseReady
    | ResponseRejected(reason: Reason)
    | ResponseCancelled
    | ResponseTimedOut
    | ResponseFailed

  datatype ResponseIgnored = ResponseResolved | DecisionAlreadyMade | NoAcceptedReply

  datatype ResponseEvent =
    | ResponsePending
    | AcceptedWith(reply: seq<Byte>)
    | RejectedWith(reply: seq<Byte>)
    | ResponseBecameReady
    | ResponseBecameCancelled
    | ResponseBecameTimedOut
    | ResponseBecameFailed
    | ResponseIgnoredInput(ignored: ResponseIgnored)

  datatype ResponseInput =
    | Accept(now: nat)
    | Reject(reason: Reason, now: nat)
    | MarkReplySent(now: nat)
    | CheckResponse(now: nat)
    | CancelResponse
    | ResponseTransportFailure

  datatype ResponseError = BadMessage(error: MessageError) | NotARequest

  /** Only a valid request message starts an attempt, and its id is the attempt's id. */
  function FromRequest(request: seq<Byte>): Result<AttemptId, ResponseError> {
    match Decode(request)
    case Err(e) => Err(BadMessage(e))
    case Ok(Request(id)) => Ok(id)
    case Ok(_) => Err(NotARequest)
  }

  predicate ResponseTerminal(state: ResponseState) { !state.AwaitingDecision? && !state.AcceptedAwaitingSend? }

  predicate ResponseTimed(input: ResponseInput) { !input.CancelResponse? && !input.ResponseTransportFailure? }

  function ResponseStep(id: AttemptId, deadline: nat, state: ResponseState, input: ResponseInput)
    : (ResponseState, ResponseEvent)
  {
    if ResponseTerminal(state) then (state, ResponseIgnoredInput(ResponseResolved))
    else if ResponseTimed(input) && input.now >= deadline then (ResponseTimedOut, ResponseBecameTimedOut)
    else
      match input
      case Accept(_) =>
        if state.AwaitingDecision? then (AcceptedAwaitingSend, AcceptedWith(Encode(RequestAccepted(id))))
        else (state, ResponseIgnoredInput(DecisionAlreadyMade))
      case Reject(reason, _) =>
        if state.AwaitingDecision? then (ResponseRejected(reason), RejectedWith(Encode(RequestRejected(id, reason))))
        else (state, ResponseIgnoredInput(DecisionAlreadyMade))
      case MarkReplySent(_) =>
        if state.AcceptedAwaitingSend? then (ResponseReady, ResponseBecameReady)
        else (state, ResponseIgnoredInput(NoAcceptedReply))
      case CheckResponse(_) => (state, ResponsePending)
      case CancelResponse => (ResponseCancelled, ResponseBecameCancelled)
      case ResponseTransportFailure => (ResponseFailed, ResponseBecameFailed)
  }

  class PairingResponse {
    const attemptId: AttemptId
    const deadline: nat
    var state: ResponseState

    constructor (attemptId: AttemptId, deadline: nat)
      ensures this.attemptId == attemptId && this.deadline == deadline && state == AwaitingDecision
    {
      this.attemptId, this.deadline, state := attemptId, deadline, AwaitingDecision;
    }

    method ShortCircuit(now: nat) returns (event: Option<ResponseEvent>)
      modifies this`state
      ensures ResponseTerminal(old(state)) ==>
                state == old(state) && event == Some(ResponseIgnoredInput(ResponseResolved))
      ensures !ResponseTerminal(old(state)) && now >= deadline ==>
                state == ResponseTimedOut && event == Some(ResponseBecameTimedOut)
      ensures !ResponseTerminal(old(state)) && now < deadline ==> state == old(state) && event == None
    {
      if ResponseTerminal(state) {
        return Some(ResponseIgnoredInput(ResponseResolved));
      }
      if now >= deadline {
        state := ResponseTimedOut;
        return Some(ResponseBecameTimedOut);
      }
      return None;
    }

    method AcceptRequest(now: nat) returns (event: ResponseEvent)
      modifies this`state
      ensures (state, event) == ResponseStep(attemptId, deadline, old(state), Accept(now))
    {
      var early := ShortCircuit(now);
      if early.Some? {
        return early.value;
      }
      if !state.AwaitingDecision? {
        return ResponseIgnoredInput(DecisionAlreadyMade);
      }
      state := AcceptedAwaitingSend;
      var reply := EncodeMessage(RequestAccepted(attemptId));
      return AcceptedWith(reply);
    }

    method RejectRequest(reason: Reason, now: nat) returns (event: ResponseEvent)
      modifies this`state
      ensures (state, event) == ResponseStep(attemptId, deadline, old(state), Reject(reason, now))
    {
      var early := ShortCircuit(now);
      if early.Some? {
        return early.value;
      }
      if !state.AwaitingDecision? {
        return ResponseIgnoredInput(DecisionAlreadyMade);
      }
      state := ResponseRejected(reason);
      var reply := EncodeMessage(RequestRejected(attemptId, reason));
      return RejectedWith(reply);
    }

    method MarkSent(now: nat) returns (event: ResponseEvent)
      modifies this`state
      ensures (state, event) == ResponseStep(attemptId, deadline, old(state), MarkReplySent(now))
    {
      var early := ShortCircuit(now);
      if early.Some? {
        return early.value;
      }
      if !state.AcceptedAwaitingSend? {
        return ResponseIgnoredInput(NoAcceptedReply);
      }
      state := ResponseReady;
      return ResponseBecameReady;
    }

    method CheckDeadline(now: nat) returns (event: ResponseEvent)
      modifies this`state
      ensures (state, event) == ResponseStep(attemptId, deadline, old(state), CheckResponse(now))
    {
      var early := ShortCircuit(now);
      event := if early.Some? then early.value else ResponsePending;
    }

    method Cancel() returns (event: ResponseEvent)
      modifies this`state
      ensures (state, event) == ResponseStep(attemptId, deadline, old(state), CancelResponse)
    {
      if ResponseTerminal(state) {
        return ResponseIgnoredInput(ResponseResolved);
      }
      state := ResponseCancelled;
      return ResponseBecameCancelled;
    }

    method NoteTransportFailure() returns (event: ResponseEvent)
      modifies this`state
      ensures (state, event) == ResponseStep(attemptId, deadline, old(state), ResponseTransportFailure)
    {
      if ResponseTerminal(state) {
        return ResponseIgnoredInput(ResponseResolved);
      }
      state := ResponseFailed;
      return ResponseBecameFailed;
    }
  }

  /** Decodes and checks an incoming request before any responder state exists. */
  method PresentRequest(request: seq<Byte>, deadline: nat) returns (r: Result<PairingResponse, ResponseError>)
    ensures r.Ok? <==> FromRequest(request).Ok?
    ensures r.Ok? ==> && fresh(r.value) && r.value.attemptId == FromRequest(request).value
                      && r.value.deadline == deadline && r.value.state == AwaitingDecision
    ensures r.Err? ==> r.error == FromRequest(request).error
  {
    var id := FromRequest(request);
    match id {
      case Err(e) => return Err(e);
      case Ok(attemptId) =>
        var response := new PairingResponse(attemptId, deadline);
        return Ok(response);
    }
  }
}
