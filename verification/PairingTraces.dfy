/** Each pairing machine alone, over every trace of inputs. */
module PairingTraces {
  import opened Results
  import opened Bytes
  import opened PairingWire
  import opened PairingMachines

  // ---------- initiator ----------

  function RequestRun(id: AttemptId, deadline: nat, inputs: seq<RequestInput>): RequestState {
    if inputs == [] then RequestCreated
    else RequestStep(id, deadline, RequestRun(id, deadline, inputs[..|inputs| - 1]), inputs[|inputs| - 1]).0
  }

  /** The request was marked sent in time. */
  predicate SentIn(deadline: nat, inputs: seq<RequestInput>) {
    exists i | 0 <= i < |inputs| :: inputs[i].MarkSent? && inputs[i].now < deadline
  }

  /** A call that brings its own time brings one at or past the deadline. */
  predicate LateRequest(deadline: nat, input: RequestInput) {
    match input
    case AskMessage(now) => now >= deadline
    case MarkSent(now) => now >= deadline
    case Receive(_, now) => now >= deadline
    case CheckRequest(now) => now >= deadline
    case CancelRequest => false
    case RequestTransportFailure => false
  }

  /** How an input would end an attempt that is still open, if it would. */
  function RequestVerdict(id: AttemptId, deadline: nat, sent: bool, input: RequestInput): Option<RequestState> {
    if LateRequest(deadline, input) then Some(RequestTimedOut)
    else
      match input
      case CancelRequest => Some(RequestCancelled)
      case RequestTransportFailure => Some(RequestFailed(TransportFailure))
      case Receive(raw, _) =>
        (match Decode(raw)
         case Err(e) => Some(RequestFailed(Protocol(e)))
         case Ok(message) =>
           if message.id != id then None
           else if message.Request? then Some(RequestFailed(UnexpectedMessage))
           else if !sent then None
           else if message.RequestAccepted? then Some(RequestReady)
           else Some(RequestRejectedBy(message.reason)))
      case _ => None
  }

  /** No input of the trace ends the attempt. */
  ghost predicate RequestOpen(id: AttemptId, deadline: nat, inputs: seq<RequestInput>) {
    forall i | 0 <= i < |inputs| :: RequestVerdict(id, deadline, SentIn(deadline, inputs[..i]), inputs[i]) == None
  }

  lemma OpenPrefix(id: AttemptId, deadline: nat, inputs: seq<RequestInput>)
    requires inputs != [] && RequestOpen(id, deadline, inputs)
    ensures RequestOpen(id, deadline, inputs[..|inputs| - 1])
  {
    var before := inputs[..|inputs| - 1];
    forall i | 0 <= i < |before|
      ensures RequestVerdict(id, deadline, SentIn(deadline, before[..i]), before[i]) == None
    {
      assert before[..i] == inputs[..i];
    }
  }

  lemma SentStep(deadline: nat, inputs: seq<RequestInput>)
    requires inputs != []
    ensures var last := inputs[|inputs| - 1];
            SentIn(deadline, inputs) <==>
            SentIn(deadline, inputs[..|inputs| - 1]) || (last.MarkSent? && last.now < deadline)
  {
    var before := inputs[..|inputs| - 1];
    if SentIn(deadline, before) {
      var i :| 0 <= i < |before| && before[i].MarkSent? && before[i].now < deadline;
      assert inputs[i] == before[i];
    }
    if SentIn(deadline, inputs) {
      var i :| 0 <= i < |inputs| && inputs[i].MarkSent? && inputs[i].now < deadline;
      assert i < |before| ==> before[i] == inputs[i];
    }
  }

  /** While no input ends it, the state only records whether the request was marked sent. */
  lemma {:induction false} OpenRequestState(id: AttemptId, deadline: nat, inputs: seq<RequestInput>)
    requires RequestOpen(id, deadline, inputs)
    ensures RequestRun(id, deadline, inputs) ==
            if SentIn(deadline, inputs) then AwaitingRemoteResponse else RequestCreated
  {
    if inputs == [] {
    } else {
      var n := |inputs| - 1;
      OpenPrefix(id, deadline, inputs);
      OpenRequestState(id, deadline, inputs[..n]);
      SentStep(deadline, inputs);
      assert RequestVerdict(id, deadline, SentIn(deadline, inputs[..n]), inputs[n]) == None;
    }
  }

  lemma {:induction false} RequestAbsorbs(id: AttemptId, deadline: nat, inputs: seq<RequestInput>, n: nat)
    requires n <= |inputs| && RequestTerminal(RequestRun(id, deadline, inputs[..n]))
    ensures RequestRun(id, deadline, inputs) == RequestRun(id, deadline, inputs[..n])
    decreases |inputs|
  {
    if n < |inputs| {
      var before := inputs[..|inputs| - 1];
      assert before[..n] == inputs[..n];
      RequestAbsorbs(id, deadline, before, n);
    } else {
      assert inputs[..n] == inputs;
    }
  }

  /** The final state is the verdict of the first input that ends the attempt, whatever follows. */
  lemma FirstVerdictDecides(id: AttemptId, deadline: nat, inputs: seq<RequestInput>, r: nat)
    requires r < |inputs| && RequestOpen(id, deadline, inputs[..r])
    requires RequestVerdict(id, deadline, SentIn(deadline, inputs[..r]), inputs[r]).Some?
    ensures RequestRun(id, deadline, inputs) ==
            RequestVerdict(id, deadline, SentIn(deadline, inputs[..r]), inputs[r]).value
  {
    OpenRequestState(id, deadline, inputs[..r]);
    assert inputs[..r + 1][..r] == inputs[..r];
    RequestAbsorbs(id, deadline, inputs, r + 1);
  }

  lemma {:induction false} FirstVerdict(id: AttemptId, deadline: nat, inputs: seq<RequestInput>) returns (r: nat)
    requires !RequestOpen(id, deadline, inputs)
    ensures r < |inputs| && RequestOpen(id, deadline, inputs[..r])
    ensures RequestVerdict(id, deadline, SentIn(deadline, inputs[..r]), inputs[r]).Some?
  {
    var before := inputs[..|inputs| - 1];
    if RequestOpen(id, deadline, before) {
      r := |inputs| - 1;
      forall i | 0 <= i < r
        ensures RequestVerdict(id, deadline, SentIn(deadline, inputs[..i]), inputs[i]) == None
      {
        assert before[i] == inputs[i] && before[..i] == inputs[..i];
      }
    } else {
      r := FirstVerdict(id, deadline, before);
      assert before[..r] == inputs[..r];
    }
  }

  /** An accept for this attempt arrives in time after a timely mark-sent, and nothing before it ended the attempt. */
  ghost predicate AcceptedAt(id: AttemptId, deadline: nat, inputs: seq<RequestInput>, r: nat) {
    && r < |inputs| && RequestOpen(id, deadline, inputs[..r])
    && inputs[r].Receive? && inputs[r].now < deadline && inputs[r].raw == Encode(RequestAccepted(id))
    && exists i | 0 <= i < r :: inputs[i].MarkSent? && inputs[i].now < deadline
  }

  /** An initiator is ready exactly when such an accept exists. */
  lemma ReadyExactly(id: AttemptId, deadline: nat, inputs: seq<RequestInput>)
    ensures RequestRun(id, deadline, inputs) == RequestReady <==> exists r :: AcceptedAt(id, deadline, inputs, r)
  {
    if RequestRun(id, deadline, inputs) == RequestReady {
      if RequestOpen(id, deadline, inputs) {
        OpenRequestState(id, deadline, inputs);
      }
      var r := FirstVerdict(id, deadline, inputs);
      FirstVerdictDecides(id, deadline, inputs, r);
      DecodeExact(inputs[r].raw, RequestAccepted(id));
      assert Decode(inputs[r].raw).value == RequestAccepted(id);
      SentBefore(deadline, inputs, r);
      assert AcceptedAt(id, deadline, inputs, r);
    }
    if r: nat :| AcceptedAt(id, deadline, inputs, r) {
      DecodeExact(inputs[r].raw, RequestAccepted(id));
      SentBefore(deadline, inputs, r);
      FirstVerdictDecides(id, deadline, inputs, r);
    }
  }

  lemma SentBefore(deadline: nat, inputs: seq<RequestInput>, r: nat)
    requires r <= |inputs|
    ensures SentIn(deadline, inputs[..r]) <==> exists i | 0 <= i < r :: inputs[i].MarkSent? && inputs[i].now < deadline
  {
    if SentIn(deadline, inputs[..r]) {
      var i :| 0 <= i < r && inputs[..r][i].MarkSent? && inputs[..r][i].now < deadline;
      assert inputs[i] == inputs[..r][i];
    }
    if i :| 0 <= i < r && inputs[i].MarkSent? && inputs[i].now < deadline {
      assert inputs[..r][i] == inputs[i];
    }
  }

  // ---------- responder ----------

  function ResponseRun(id: AttemptId, deadline: nat, inputs: seq<ResponseInput>): ResponseState {
    if inputs == [] then AwaitingDecision
    else ResponseStep(id, deadline, ResponseRun(id, deadline, inputs[..|inputs| - 1]), inputs[|inputs| - 1]).0
  }

  /** The reply bytes a trace hands to the transport. */
  function Replies(id: AttemptId, deadline: nat, inputs: seq<ResponseInput>): seq<seq<Byte>> {
    if inputs == [] then []
    else
      var n := |inputs| - 1;
      var event := ResponseStep(id, deadline, ResponseRun(id, deadline, inputs[..n]), inputs[n]).1;
      Replies(id, deadline, inputs[..n]) + if event.AcceptedWith? || event.RejectedWith? then [event.reply] else []
  }

  predicate AcceptedIn(deadline: nat, inputs: seq<ResponseInput>) {
    exists i | 0 <= i < |inputs| :: inputs[i].Accept? && inputs[i].now < deadline
  }

  predicate LateResponse(deadline: nat, input: ResponseInput) {
    match input
    case Accept(now) => now >= deadline
    case Reject(_, now) => now >= deadline
    case MarkReplySent(now) => now >= deadline
    case CheckResponse(now) => now >= deadline
    case CancelResponse => false
    case ResponseTransportFailure => false
  }

  /** How an input would end an open attempt, given whether the request was already accepted. */
  function ResponseVerdict(deadline: nat, accepted: bool, input: ResponseInput): Option<ResponseState> {
    if LateResponse(deadline, input) then Some(ResponseTimedOut)
    else
      match input
      case CancelResponse => Some(ResponseCancelled)
      case ResponseTransportFailure => Some(ResponseFailed)
      case Reject(reason, _) => if accepted then None else Some(ResponseRejected(reason))
      case MarkReplySent(_) => if accepted then Some(ResponseReady) else None
      case _ => None
  }

  ghost predicate ResponseOpen(deadline: nat, inputs: seq<ResponseInput>) {
    forall i | 0 <= i < |inputs| :: ResponseVerdict(deadline, AcceptedIn(deadline, inputs[..i]), inputs[i]) == None
  }

  lemma AcceptedStep(deadline: nat, inputs: seq<ResponseInput>)
    requires inputs != []
    ensures var last := inputs[|inputs| - 1];
            AcceptedIn(deadline, inputs) <==>
            AcceptedIn(deadline, inputs[..|inputs| - 1]) || (last.Accept? && last.now < deadline)
  {
    var before := inputs[..|inputs| - 1];
    if AcceptedIn(deadline, before) {
      var i :| 0 <= i < |before| && before[i].Accept? && before[i].now < deadline;
      assert inputs[i] == before[i];
    }
    if AcceptedIn(deadline, inputs) {
      var i :| 0 <= i < |inputs| && inputs[i].Accept? && inputs[i].now < deadline;
      assert i < |before| ==> before[i] == inputs[i];
    }
  }

  lemma ResponseOpenPrefix(deadline: nat, inputs: seq<ResponseInput>)
    requires inputs != [] && ResponseOpen(deadline, inputs)
    ensures ResponseOpen(deadline, inputs[..|inputs| - 1])
  {
    var before := inputs[..|inputs| - 1];
    forall i | 0 <= i < |before|
      ensures ResponseVerdict(deadline, AcceptedIn(deadline, before[..i]), before[i]) == None
    {
      assert before[..i] == inputs[..i];
    }
  }

  lemma {:induction false} OpenResponseState(id: AttemptId, deadline: nat, inputs: seq<ResponseInput>)
    requires ResponseOpen(deadline, inputs)
    ensures ResponseRun(id, deadline, inputs) ==
            if AcceptedIn(deadline, inputs) then AcceptedAwaitingSend else AwaitingDecision
  {
    if inputs == [] {
    } else {
      var n := |inputs| - 1;
      ResponseOpenPrefix(deadline, inputs);
      OpenResponseState(id, deadline, inputs[..n]);
      AcceptedStep(deadline, inputs);
      assert ResponseVerdict(deadline, AcceptedIn(deadline, inputs[..n]), inputs[n]) == None;
    }
  }

  lemma {:induction false} ResponseAbsorbs(id: AttemptId, deadline: nat, inputs: seq<ResponseInput>, n: nat)
    requires n <= |inputs| && ResponseTerminal(ResponseRun(id, deadline, inputs[..n]))
    ensures ResponseRun(id, deadline, inputs) == ResponseRun(id, deadline, inputs[..n])
    decreases |inputs|
  {
    if n < |inputs| {
      var before := inputs[..|inputs| - 1];
      assert before[..n] == inputs[..n];
      ResponseAbsorbs(id, deadline, before, n);
    } else {
      assert inputs[..n] == inputs;
    }
  }

  /** A responder's final state, too, is the verdict of its first ending input; ready needs accept, then mark-sent. */
  lemma FirstResponseVerdictDecides(id: AttemptId, deadline: nat, inputs: seq<ResponseInput>, r: nat)
    requires r < |inputs| && ResponseOpen(deadline, inputs[..r])
    requires ResponseVerdict(deadline, AcceptedIn(deadline, inputs[..r]), inputs[r]).Some?
    ensures ResponseRun(id, deadline, inputs) ==
            ResponseVerdict(deadline, AcceptedIn(deadline, inputs[..r]), inputs[r]).value
  {
    OpenResponseState(id, deadline, inputs[..r]);
    assert inputs[..r + 1][..r] == inputs[..r];
    ResponseAbsorbs(id, deadline, inputs, r + 1);
  }

  lemma {:induction false} FirstResponseVerdict(deadline: nat, inputs: seq<ResponseInput>) returns (r: nat)
    requires !ResponseOpen(deadline, inputs)
    ensures r < |inputs| && ResponseOpen(deadline, inputs[..r])
    ensures ResponseVerdict(deadline, AcceptedIn(deadline, inputs[..r]), inputs[r]).Some?
  {
    var before := inputs[..|inputs| - 1];
    if ResponseOpen(deadline, before) {
      r := |inputs| - 1;
      forall i | 0 <= i < r
        ensures ResponseVerdict(deadline, AcceptedIn(deadline, inputs[..i]), inputs[i]) == None
      {
        assert before[i] == inputs[i] && before[..i] == inputs[..i];
      }
    } else {
      r := FirstResponseVerdict(deadline, before);
      assert before[..r] == inputs[..r];
    }
  }

  /** A timely mark-sent follows a timely accept, and nothing before it ended the attempt. */
  ghost predicate SentAt(deadline: nat, inputs: seq<ResponseInput>, r: nat) {
    && r < |inputs| && ResponseOpen(deadline, inputs[..r])
    && inputs[r].MarkReplySent? && inputs[r].now < deadline && AcceptedIn(deadline, inputs[..r])
  }

  /** A responder is ready exactly when such a mark-sent exists. */
  lemma ResponseReadyExactly(id: AttemptId, deadline: nat, inputs: seq<ResponseInput>)
    ensures ResponseRun(id, deadline, inputs) == ResponseReady <==> exists r :: SentAt(deadline, inputs, r)
  {
    if ResponseRun(id, deadline, inputs) == ResponseReady {
      if ResponseOpen(deadline, inputs) {
        OpenResponseState(id, deadline, inputs);
      }
      var r := FirstResponseVerdict(deadline, inputs);
      FirstResponseVerdictDecides(id, deadline, inputs, r);
      assert SentAt(deadline, inputs, r);
    }
    if r: nat :| SentAt(deadline, inputs, r) {
      FirstResponseVerdictDecides(id, deadline, inputs, r);
    }
  }

  /**
   A responder emits at most one reply over its whole life. The reply carries the
   request's id; it is a rejection exactly when the final state is that rejection.
   */
  lemma {:induction false} AtMostOneReply(id: AttemptId, deadline: nat, inputs: seq<ResponseInput>)
    ensures var state, replies := ResponseRun(id, deadline, inputs), Replies(id, deadline, inputs);
            && (state.AwaitingDecision? ==> replies == [])
            && (state.AcceptedAwaitingSend? || state.ResponseReady? ==> replies == [Encode(RequestAccepted(id))])
            && (state.ResponseRejected? ==> replies == [Encode(RequestRejected(id, state.reason))])
            && (replies == [] || replies == [Encode(RequestAccepted(id))]
                || (state.ResponseRejected? && replies == [Encode(RequestRejected(id, state.reason))]))
  {
    if inputs == [] {
    } else {
      AtMostOneReply(id, deadline, inputs[..|inputs| - 1]);
    }
  }
}
