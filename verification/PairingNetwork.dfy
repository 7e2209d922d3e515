/**
 Both pairing machines composed over a network that may drop, duplicate, delay and
 reorder messages but does not invent bytes.

 The network is the set of all messages ever handed to a transport. Delivering any
 of them, at any later time and any number of times, covers delay, reordering and
 duplication; never delivering one is a loss. Attempt ids of distinct initiators
 are distinct, as fresh random tokens are assumed to be. Each caller supplies its
 own times, with no relation between callers.
 */
module PairingNetwork {
  import opened Bytes
  import opened PairingWire
  import opened PairingMachines

  datatype Initiator = Initiator(deadline: nat, state: RequestState)

  datatype Decision = Undecided | Accepted(at: nat) | Refused(reason: Reason, at: nat)

  /** `decision` is history: the local decision, kept even after the attempt ends in another way. */
  datatype Responder = Responder(id: AttemptId, deadline: nat, state: ResponseState, decision: Decision)

  datatype World = World(initiators: map<AttemptId, Initiator>, responders: seq<Responder>, network: set<seq<Byte>>)

  datatype Action =
    | Initiate(id: AttemptId, deadline: nat)
    | InitiatorCall(id: AttemptId, input: RequestInput)
    | Present(raw: seq<Byte>, deadline: nat)
    | ResponderCall(index: nat, call: ResponseInput)

  /** What a caller can do next: only messages of the network can be delivered. */
  predicate Enabled(w: World, a: Action) {
    match a
    case Initiate(id, _) => id !in w.initiators
    case InitiatorCall(id, input) => id in w.initiators && (input.Receive? ==> input.raw in w.network)
    case Present(raw, _) => raw in w.network && FromRequest(raw).Ok?
    case ResponderCall(index, _) => index < |w.responders|
  }

  function Emitted(event: ResponseEvent): set<seq<Byte>> {
    if event.AcceptedWith? || event.RejectedWith? then {event.reply} else {}
  }

  function Decide(decision: Decision, call: ResponseInput, event: ResponseEvent): Decision {
    if event.AcceptedWith? && call.Accept? then Accepted(call.now)
    else if event.RejectedWith? && call.Reject? then Refused(call.reason, call.now)
    else decision
  }

  function Next(w: World, a: Action): World
    requires Enabled(w, a)
  {
    match a
    case Initiate(id, deadline) => w.(initiators := w.initiators[id := Initiator(deadline, RequestCreated)])
    case InitiatorCall(id, input) =>
      var i := w.initiators[id];
      var (state, event) := RequestStep(id, i.deadline, i.state, input);
      var sent := if event.Outbound? && event.message.Some? then {event.message.value} else {};
      w.(initiators := w.initiators[id := i.(state := state)], network := w.network + sent)
    case Present(raw, deadline) =>
      w.(responders := w.responders + [Responder(FromRequest(raw).value, deadline, AwaitingDecision, Undecided)])
    case ResponderCall(index, call) =>
      var r := w.responders[index];
      var (state, event) := ResponseStep(r.id, r.deadline, r.state, call);
      w.(responders := w.responders[index := r.(state := state, decision := Decide(r.decision, call, event))],
         network := w.network + Emitted(event))
  }

  function After(actions: seq<Action>): World {
    if actions == [] then World(map[], [], {})
    else
      var w := After(actions[..|actions| - 1]);
      var a := actions[|actions| - 1];
      if Enabled(w, a) then Next(w, a) else w
  }

  // ---------- invariant ----------

  ghost predicate SomeoneAccepted(w: World, id: AttemptId) {
    exists i | 0 <= i < |w.responders| :: AcceptedFor(w.responders[i], id)
  }

  ghost predicate SomeoneRefused(w: World, id: AttemptId, reason: Reason) {
    exists i | 0 <= i < |w.responders| :: RefusedFor(w.responders[i], id, reason)
  }

  predicate AcceptedFor(r: Responder, id: AttemptId) {
    r.id == id && r.decision.Accepted? && r.decision.at < r.deadline
  }

  predicate RefusedFor(r: Responder, id: AttemptId, reason: Reason) {
    r.id == id && r.decision.Refused? && r.decision.reason == reason && r.decision.at < r.deadline
  }

  /** Every message in the network was sent by someone entitled to send it. */
  ghost predicate Genuine(w: World, raw: seq<Byte>) {
    match Decode(raw)
    case Err(_) => false
    case Ok(Request(id)) => id in w.initiators
    case Ok(RequestAccepted(id)) => SomeoneAccepted(w, id)
    case Ok(RequestRejected(id, reason)) => SomeoneRefused(w, id, reason)
  }

  predicate ResponderInv(r: Responder) {
    match r.decision
    case Undecided => !r.state.AcceptedAwaitingSend? && !r.state.ResponseReady? && !r.state.ResponseRejected?
    case Accepted(at) => at < r.deadline && !r.state.AwaitingDecision? && !r.state.ResponseRejected?
    case Refused(reason, at) => at < r.deadline && r.state == ResponseRejected(reason)
  }

  ghost predicate InitiatorInv(w: World, id: AttemptId, i: Initiator) {
    && (i.state.RequestReady? ==> SomeoneAccepted(w, id))
    && (i.state.RequestRejectedBy? ==> SomeoneRefused(w, id, i.state.reason))
    && (i.state.RequestFailed? ==> !i.state.failure.Protocol?)
  }

  ghost predicate Inv(w: World) {
    && (forall raw | raw in w.network :: Genuine(w, raw))
    && (forall k | 0 <= k < |w.responders| :: ResponderInv(w.responders[k]) && w.responders[k].id in w.initiators)
    && (forall id | id in w.initiators :: InitiatorInv(w, id, w.initiators[id]))
  }

  /** Decisions are never withdrawn, so what they justify stays justified. */
  ghost predicate Grows(w: World, v: World) {
    && w.initiators.Keys <= v.initiators.Keys
    && |w.responders| <= |v.responders|
    && forall k | 0 <= k < |w.responders| ::
         && v.responders[k].id == w.responders[k].id && v.responders[k].deadline == w.responders[k].deadline
         && (!w.responders[k].decision.Undecided? ==> v.responders[k].decision == w.responders[k].decision)
  }

  lemma DecisionsStay(w: World, v: World, id: AttemptId, reason: Reason)
    requires Grows(w, v)
    ensures SomeoneAccepted(w, id) ==> SomeoneAccepted(v, id)
    ensures SomeoneRefused(w, id, reason) ==> SomeoneRefused(v, id, reason)
  {
    if SomeoneAccepted(w, id) {
      var k :| 0 <= k < |w.responders| && AcceptedFor(w.responders[k], id);
      assert AcceptedFor(v.responders[k], id);
    }
    if SomeoneRefused(w, id, reason) {
      var k :| 0 <= k < |w.responders| && RefusedFor(w.responders[k], id, reason);
      assert RefusedFor(v.responders[k], id, reason);
    }
  }

  lemma GenuineStays(w: World, v: World, raw: seq<Byte>)
    requires Grows(w, v) && Genuine(w, raw)
    ensures Genuine(v, raw)
  {
    match Decode(raw).value
    case Request(_) =>
    case RequestAccepted(id) => DecisionsStay(w, v, id, Unspecified);
    case RequestRejected(id, reason) => DecisionsStay(w, v, id, reason);
  }

  lemma InitiatorStays(w: World, v: World, id: AttemptId, i: Initiator)
    requires Grows(w, v) && InitiatorInv(w, id, i)
    ensures InitiatorInv(v, id, i)
  {
    DecisionsStay(w, v, id, if i.state.RequestRejectedBy? then i.state.reason else Unspecified);
  }

  /** One call on a responder: decisions are made once, in time, and the reply says what was decided. */
  lemma ResponderStep(r: Responder, call: ResponseInput)
    requires ResponderInv(r)
    ensures var (state, event) := ResponseStep(r.id, r.deadline, r.state, call);
            var after := r.(state := state, decision := Decide(r.decision, call, event));
            && ResponderInv(after)
            && (!r.decision.Undecided? ==> after.decision == r.decision)
            && (event.AcceptedWith? ==> AcceptedFor(after, r.id) && event.reply == Encode(RequestAccepted(r.id)))
            && (event.RejectedWith? ==> call.Reject? && RefusedFor(after, r.id, call.reason)
                                        && event.reply == Encode(RequestRejected(r.id, call.reason)))
  {
  }

  lemma ResponderCallGenuine(w: World, index: nat, call: ResponseInput)
    requires Inv(w) && Enabled(w, ResponderCall(index, call))
    ensures var v := Next(w, ResponderCall(index, call));
            Grows(w, v) && forall raw | raw in v.network :: Genuine(v, raw)
  {
    var v := Next(w, ResponderCall(index, call));
    var r := w.responders[index];
    ResponderStep(r, call);
    var event := ResponseStep(r.id, r.deadline, r.state, call).1;
    assert Grows(w, v);
    forall raw | raw in v.network
      ensures Genuine(v, raw)
    {
      if raw in w.network {
        GenuineStays(w, v, raw);
      } else if event.AcceptedWith? {
        DecodeExact(raw, RequestAccepted(r.id));
        assert AcceptedFor(v.responders[index], r.id);
      } else {
        DecodeExact(raw, RequestRejected(r.id, call.reason));
        assert RefusedFor(v.responders[index], r.id, call.reason);
      }
    }
  }

  /** A genuine message, delivered at any time, moves an initiator only to a state it justifies. */
  lemma InitiatorStep(w: World, id: AttemptId, i: Initiator, input: RequestInput)
    requires InitiatorInv(w, id, i) && (input.Receive? ==> Genuine(w, input.raw))
    ensures InitiatorInv(w, id, i.(state := RequestStep(id, i.deadline, i.state, input).0))
    ensures var event := RequestStep(id, i.deadline, i.state, input).1;
            event.Outbound? && event.message.Some? ==> event.message.value == Encode(Request(id))
  {
  }

  lemma InitiatorCallGenuine(w: World, id: AttemptId, input: RequestInput)
    requires Inv(w) && Enabled(w, InitiatorCall(id, input))
    ensures var v := Next(w, InitiatorCall(id, input)); Grows(w, v) && forall raw | raw in v.network :: Genuine(v, raw)
  {
    var v := Next(w, InitiatorCall(id, input));
    InitiatorStep(w, id, w.initiators[id], input);
    assert Grows(w, v);
    forall raw | raw in v.network
      ensures Genuine(v, raw)
    {
      if raw in w.network {
        GenuineStays(w, v, raw);
      } else {
        DecodeExact(raw, Request(id));
      }
    }
  }

  lemma PresentedIsInitiated(w: World, raw: seq<Byte>)
    requires Genuine(w, raw) && FromRequest(raw).Ok?
    ensures FromRequest(raw).value in w.initiators
  {
  }

  lemma StepGenuine(w: World, a: Action)
    requires Inv(w) && Enabled(w, a)
    ensures var v := Next(w, a); Grows(w, v) && forall raw | raw in v.network :: Genuine(v, raw)
  {
    match a
    case InitiatorCall(id, input) => InitiatorCallGenuine(w, id, input);
    case ResponderCall(index, call) => ResponderCallGenuine(w, index, call);
    case _ =>
      var v := Next(w, a);
      assert Grows(w, v);
      forall raw | raw in v.network
        ensures Genuine(v, raw)
      {
        GenuineStays(w, v, raw);
      }
  }

  lemma StepResponders(w: World, a: Action)
    requires Inv(w) && Enabled(w, a)
    ensures var v := Next(w, a);
            forall k | 0 <= k < |v.responders| :: ResponderInv(v.responders[k]) && v.responders[k].id in v.initiators
  {
    match a
    case Present(raw, _) => PresentedIsInitiated(w, raw);
    case ResponderCall(index, call) => ResponderStep(w.responders[index], call);
    case _ =>
  }

  lemma StepInitiators(w: World, a: Action)
    requires Inv(w) && Enabled(w, a)
    ensures var v := Next(w, a); forall id | id in v.initiators :: InitiatorInv(v, id, v.initiators[id])
  {
    var v := Next(w, a);
    StepGenuine(w, a);
    forall id | id in v.initiators
      ensures InitiatorInv(v, id, v.initiators[id])
    {
      if a.InitiatorCall? && a.id == id {
        InitiatorStep(w, id, w.initiators[id], a.input);
        InitiatorStays(w, v, id, v.initiators[id]);
      } else if id in w.initiators {
        InitiatorStays(w, v, id, w.initiators[id]);
      }
    }
  }

  lemma {:induction false} RunSafe(actions: seq<Action>)
    ensures Inv(After(actions))
  {
    if actions == [] {
    } else {
      var w := After(actions[..|actions| - 1]);
      var a := actions[|actions| - 1];
      RunSafe(actions[..|actions| - 1]);
      if Enabled(w, a) {
        StepGenuine(w, a);
        StepResponders(w, a);
        StepInitiators(w, a);
      }
    }
  }

  // ---------- what callers may rely on ----------

  /**
   An initiator that is ready was accepted, in time, by some responder of its own
   attempt; one that is rejected was refused, in time, for exactly that reason; and
   no initiator ever fails because of a malformed message.
   */
  lemma OutcomeJustified(actions: seq<Action>, id: AttemptId)
    requires id in After(actions).initiators
    ensures var w := After(actions); var state := w.initiators[id].state;
            && (state.RequestReady? ==> SomeoneAccepted(w, id))
            && (state.RequestRejectedBy? ==> SomeoneRefused(w, id, state.reason))
            && (state.RequestFailed? ==> !state.failure.Protocol?)
  {
    RunSafe(actions);
  }

  /** A single responder never ends opposite to its initiator. */
  lemma NeverOpposite(actions: seq<Action>, id: AttemptId, k: nat)
    requires var w := After(actions);
             && id in w.initiators && k < |w.responders| && w.responders[k].id == id
             && forall j | 0 <= j < |w.responders| && w.responders[j].id == id :: j == k
    ensures var w := After(actions);
            && (w.initiators[id].state.RequestReady? ==>
                  w.responders[k].decision.Accepted? && !w.responders[k].state.ResponseRejected?)
            && (w.initiators[id].state.RequestRejectedBy? ==>
                  w.responders[k].state == ResponseRejected(w.initiators[id].state.reason))
            && (w.responders[k].state.ResponseReady? ==> !w.initiators[id].state.RequestRejectedBy?)
            && (w.responders[k].state.ResponseRejected? ==> !w.initiators[id].state.RequestReady?)
  {
    RunSafe(actions);
    assert InitiatorInv(After(actions), id, After(actions).initiators[id]);
  }

  /** A reply to another attempt changes nothing: before the deadline the state stays, and later only time decides. */
  lemma OtherRepliesIgnored(actions: seq<Action>, id: AttemptId, raw: seq<Byte>, now: nat)
    requires var w := After(actions);
             && id in w.initiators && raw in w.network && (Decode(raw).Ok? ==> Decode(raw).value.id != id)
    ensures var i := After(actions).initiators[id];
            var after := RequestStep(id, i.deadline, i.state, Receive(raw, now)).0;
            after == RequestStep(id, i.deadline, i.state, CheckRequest(now)).0
            && (now < i.deadline ==> after == i.state)
  {
    RunSafe(actions);
    assert Genuine(After(actions), raw);
  }
}
