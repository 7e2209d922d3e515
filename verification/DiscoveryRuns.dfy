/** The browser's map and the lifecycle state driven together by raw events and expiries. */
module DiscoveryRuns {
  import opened Results
  import opened DiscoveredPeers
  import opened DiscoveredPeerLaws
  import opened DiscoveredPeerRefinement
  import Browser

  datatype Input = Raw(event: Browser.RawEvent, at: nat) | Tick(at: nat, staleAfter: nat)

  /** `expired` is history: keys that expired and were neither resolved nor removed since. */
  datatype Session = Session(peers: Browser.Peers, records: Records, expired: set<Key>)

  ghost function Start(): Session { Session(map[], map[], {}) }

  /** The lifecycle call an input leads to, if the browser reports anything. */
  ghost function CallOf(s: Session, input: Input): Option<Call> {
    match input
    case Raw(event, at) =>
      (match Browser.Translate(s.peers, event).1
       case None => None
       case Some(reported) => Some(Apply(reported, at)))
    case Tick(at, staleAfter) => Some(ExpireAt(at, staleAfter))
  }

  ghost function ExpiredBy(s: Session, call: Call): set<Key> {
    match call
    case Apply(Error(_), _) => s.expired
    case Apply(Removed(key), _) => s.expired - {key}
    case Apply(event, _) => s.expired - {event.peer.key}
    case ExpireAt(now, staleAfter) => s.expired + StaleKeys(Shown(s.records), now, staleAfter)
  }

  ghost function SessionStep(s: Session, input: Input): Session {
    var peers := if input.Raw? then Browser.Translate(s.peers, input.event).0 else s.peers;
    match CallOf(s, input)
    case None => s.(peers := peers)
    case Some(call) => Session(peers, Step(ByAgeAndCount, s.records, call).0, ExpiredBy(s, call))
  }

  ghost function SessionAfter(inputs: seq<Input>): Session {
    if inputs == [] then Start() else SessionStep(SessionAfter(inputs[..|inputs| - 1]), inputs[|inputs| - 1])
  }

  ghost predicate InputsNondecreasing(inputs: seq<Input>) {
    forall i, j | 0 <= i < j < |inputs| :: inputs[i].at <= inputs[j].at
  }

  ghost predicate InputsIncreasing(inputs: seq<Input>) {
    forall i, j | 0 <= i < j < |inputs| :: inputs[i].at < inputs[j].at
  }

  // ---------- nondecreasing times ----------

  /** What is visible is what the browser last resolved for that key. */
  ghost predicate VisibleAgree(s: Session) {
    forall k | k in Shown(s.records) :: k in s.peers && s.peers[k] == Shown(s.records)[k].peer
  }

  lemma ObserveAgrees(m: Records, peer: Peer, at: nat)
    requires StampedBy(m, at)
    ensures var after := Shown(Observe(m, peer, at).0);
            && (peer.key in after ==> after[peer.key].peer == peer)
            && after - {peer.key} == Shown(m) - {peer.key}
  {
  }

  lemma RemoveAgrees(m: Records, key: Key, at: nat)
    requires StampedBy(m, at)
    ensures Shown(Remove(m, key, at).0) == Shown(m) - {key}
  {
  }

  /** What one call shows, when no record is later than it. */
  lemma StepShown(m: Records, call: Call)
    requires StampedBy(m, call.at)
    ensures var after := Shown(Step(ByAgeAndCount, m, call).0);
            match call
            case Apply(Error(_), _) => after == Shown(m)
            case Apply(Removed(key), _) => after == Shown(m) - {key}
            case Apply(event, _) =>
              && (event.peer.key in after ==> after[event.peer.key].peer == event.peer)
              && after - {event.peer.key} == Shown(m) - {event.peer.key}
            case ExpireAt(now, staleAfter) => after == Shown(m) - StaleKeys(Shown(m), now, staleAfter)
  {
    PruningShows(ByAgeAndCount, m, call.at);
    var kept := Prune(ByAgeAndCount, m, call.at);
    match call
    case Apply(Error(_), _) =>
    case Apply(Removed(key), at) =>
      RemoveAgrees(kept, key, at);
      PruningShows(ByAgeAndCount, Remove(kept, key, at).0, at);
    case ExpireAt(now, staleAfter) =>
      ExpireShows(ByAgeAndCount, m, now, staleAfter);
    case Apply(event, at) =>
      ObserveAgrees(kept, event.peer, at);
  }

  /** The browser's map moves with the call it reports. */
  lemma CallAgrees(s: Session, after: Session, call: Call)
    requires VisibleAgree(s)
    requires match call
             case Apply(Error(_), _) => after.peers == s.peers && Shown(after.records) == Shown(s.records)
             case Apply(Removed(key), _) =>
               after.peers == s.peers - {key} && Shown(after.records) == Shown(s.records) - {key}
             case Apply(event, _) =>
               && after.peers == s.peers[event.peer.key := event.peer]
               && (event.peer.key in Shown(after.records) ==> Shown(after.records)[event.peer.key].peer == event.peer)
               && Shown(after.records) - {event.peer.key} == Shown(s.records) - {event.peer.key}
             case ExpireAt(now, staleAfter) =>
               && after.peers == s.peers
               && Shown(after.records) == Shown(s.records) - StaleKeys(Shown(s.records), now, staleAfter)
    ensures VisibleAgree(after)
  {
    var before, now := Shown(s.records), Shown(after.records);
    forall k | k in now
      ensures k in after.peers && after.peers[k] == now[k].peer
    {
      match call
      case Apply(Error(_), _) =>
      case Apply(Removed(key), _) => assert k in before;
      case ExpireAt(_, _) => assert k in before;
      case Apply(event, _) =>
        if k != event.peer.key {
          assert k in now - {event.peer.key};
          assert k in before && before[k] == now[k];
        }
    }
  }

  /** The browser's half of a step follows from what it reports. */
  lemma StepReports(s: Session, input: Input)
    ensures var after := SessionStep(s, input);
            match CallOf(s, input)
            case None => after == s
            case Some(Apply(Error(_), _)) => after.peers == s.peers
            case Some(Apply(Removed(key), _)) => after.peers == s.peers - {key}
            case Some(Apply(event, _)) => after.peers == s.peers[event.peer.key := event.peer]
            case Some(ExpireAt(_, _)) => after.peers == s.peers
    ensures CallOf(s, input).Some? ==>
              var after, call := SessionStep(s, input), CallOf(s, input).value;
              && call.at == input.at
              && after.records == Step(ByAgeAndCount, s.records, call).0 && after.expired == ExpiredBy(s, call)
  {
    if input.Raw? {
      Browser.EventsTellChanges(s.peers, input.event);
    }
  }

  lemma SessionStepAgrees(s: Session, input: Input)
    requires VisibleAgree(s) && StampedBy(s.records, input.at)
    ensures VisibleAgree(SessionStep(s, input)) && StampedBy(SessionStep(s, input).records, input.at)
  {
    var call := CallOf(s, input);
    StepReports(s, input);
    if call.Some? {
      var after := SessionStep(s, input);
      StepShown(s.records, call.value);
      StepStamps(ByAgeAndCount, s.records, call.value);
      CallAgrees(s, after, call.value);
    }
  }

  lemma SessionStepFiled(s: Session, input: Input)
    requires Browser.Filed(s.peers)
    ensures Browser.Filed(SessionStep(s, input).peers)
  {
    if input.Raw? {
      Browser.TranslateKeepsFiled(s.peers, input.event);
    }
  }

  /** With nondecreasing times, every visible peer is the browser's stored peer for that key. */
  lemma {:induction false} VisibleIsStored(inputs: seq<Input>)
    requires InputsNondecreasing(inputs)
    ensures VisibleAgree(SessionAfter(inputs)) && Browser.Filed(SessionAfter(inputs).peers)
    ensures inputs != [] ==> StampedBy(SessionAfter(inputs).records, inputs[|inputs| - 1].at)
  {
    if inputs == [] {
    } else {
      VisibleIsStored(inputs[..|inputs| - 1]);
      SessionStepAgrees(SessionAfter(inputs[..|inputs| - 1]), inputs[|inputs| - 1]);
      SessionStepFiled(SessionAfter(inputs[..|inputs| - 1]), inputs[|inputs| - 1]);
    }
  }

  // ---------- strictly increasing times ----------

  /** The browser knows the visible keys and, besides them, exactly the expired ones. */
  ghost predicate KeysAgree(s: Session) {
    && s.peers.Keys == Shown(s.records).Keys + s.expired
    && Shown(s.records).Keys !! s.expired
    && VisibleAgree(s)
    && Browser.Filed(s.peers)
  }

  ghost predicate Before(s: Session, at: nat) { forall k | k in s.records :: s.records[k].lastTransitionAt < at }

  lemma SessionStepKeys(s: Session, input: Input)
    requires KeysAgree(s) && Before(s, input.at)
    ensures KeysAgree(SessionStep(s, input)) && StampedBy(SessionStep(s, input).records, input.at)
  {
    SessionStepAgrees(s, input);
    SessionStepFiled(s, input);
    StepReports(s, input);
    var call := CallOf(s, input);
    if call.Some? {
      StepIsPlain(ByAgeAndCount, s.records, call.value);
      PlainKeys(s, SessionStep(s, input), call.value);
    }
  }

  /** The keys shown after a call by the plain map. */
  lemma PlainStepKeys(shown: map<Key, Visible>, call: Call)
    ensures var after := PlainStep(shown, call).0;
            match call
            case Apply(Error(_), _) => after == shown
            case Apply(Removed(key), _) => after.Keys == shown.Keys - {key}
            case ExpireAt(now, staleAfter) =>
              && after.Keys == shown.Keys - StaleKeys(shown, now, staleAfter)
              && StaleKeys(shown, now, staleAfter) <= shown.Keys
            case Apply(event, _) => after.Keys == shown.Keys + {event.peer.key}
  {
  }

  lemma PlainKeys(s: Session, after: Session, call: Call)
    requires s.peers.Keys == Shown(s.records).Keys + s.expired && Shown(s.records).Keys !! s.expired
    requires Shown(after.records) == PlainStep(Shown(s.records), call).0 && after.expired == ExpiredBy(s, call)
    requires match call
             case Apply(Error(_), _) => after.peers == s.peers
             case Apply(Removed(key), _) => after.peers == s.peers - {key}
             case Apply(event, _) => after.peers == s.peers[event.peer.key := event.peer]
             case ExpireAt(_, _) => after.peers == s.peers
    ensures after.peers.Keys == Shown(after.records).Keys + after.expired
    ensures Shown(after.records).Keys !! after.expired
  {
    PlainStepKeys(Shown(s.records), call);
    match call
    case Apply(Error(_), _) =>
    case Apply(Removed(key), _) => assert after.peers.Keys == s.peers.Keys - {key};
    case ExpireAt(_, _) =>
    case Apply(event, _) => assert after.peers.Keys == s.peers.Keys + {event.peer.key};
  }

  /**
   With strictly increasing times, the browser's extra keys are exactly those that
   expired and were not resolved or removed since.
   */
  lemma {:induction false} ExtraKeysAreExpired(inputs: seq<Input>)
    requires InputsIncreasing(inputs)
    ensures KeysAgree(SessionAfter(inputs))
    ensures inputs != [] ==> StampedBy(SessionAfter(inputs).records, inputs[|inputs| - 1].at)
  {
    if inputs == [] {
    } else {
      ExtraKeysAreExpired(inputs[..|inputs| - 1]);
      SessionStepKeys(SessionAfter(inputs[..|inputs| - 1]), inputs[|inputs| - 1]);
    }
  }

  // ---------- the expired keys, told from the run alone ----------

  /** Input number `i` is a tick at which the lifecycle reported `k` as expired. */
  ghost predicate ReportsExpired(inputs: seq<Input>, i: nat, k: Key)
    requires i < |inputs|
  {
    && inputs[i].Tick?
    && Removed(k, Expired) in Step(ByAgeAndCount, SessionAfter(inputs[..i]).records,
                                   ExpireAt(inputs[i].at, inputs[i].staleAfter)).1
  }

  /** What the browser reported for input number `j` is about `k`: a resolution or a removal. */
  ghost predicate Concerns(inputs: seq<Input>, j: nat, k: Key)
    requires j < |inputs|
  {
    && inputs[j].Raw?
    && match Browser.Translate(SessionAfter(inputs[..j]).peers, inputs[j].event).1
       case None => false
       case Some(Error(_)) => false
       case Some(Removed(key)) => key == k
       case Some(reported) => reported.peer.key == k
  }

  type Moments = int -> bool

  /** One of the first `n` moments counts as a start, and none between it and `n` as an end. */
  ghost predicate Lasting(starts: Moments, ends: Moments, n: nat) {
    exists i :: 0 <= i < n && starts(i) && forall j | i < j < n :: !ends(j)
  }

  /** The key was reported expired among the first `n` inputs, and nothing reported since is about it. */
  ghost predicate ExpiredSince(inputs: seq<Input>, n: nat, k: Key)
    requires n <= |inputs|
  {
    Lasting(i => 0 <= i < |inputs| && ReportsExpired(inputs, i, k),
            j => 0 <= j < |inputs| && Concerns(inputs, j, k), n)
  }

  lemma LastingStep(starts: Moments, ends: Moments, n: nat)
    ensures Lasting(starts, ends, n + 1) <==> starts(n) || (Lasting(starts, ends, n) && !ends(n))
  {
    if Lasting(starts, ends, n) && !ends(n) {
      var i :| 0 <= i < n && starts(i) && forall j | i < j < n :: !ends(j);
      assert starts(i) && forall j | i < j < n + 1 :: !ends(j);
    }
  }

  lemma ExpiredStep(s: Session, input: Input, k: Key)
    ensures k in SessionStep(s, input).expired <==>
            match input
            case Tick(at, staleAfter) => k in s.expired || k in StaleKeys(Shown(s.records), at, staleAfter)
            case Raw(event, _) =>
              (match Browser.Translate(s.peers, event).1
               case None => k in s.expired
               case Some(Error(_)) => k in s.expired
               case Some(Removed(key)) => k in s.expired && key != k
               case Some(reported) => k in s.expired && reported.peer.key != k)
  {
  }

  lemma TickReports(inputs: seq<Input>, i: nat, k: Key)
    requires i < |inputs| && inputs[i].Tick?
    ensures ReportsExpired(inputs, i, k) <==>
            k in StaleKeys(Shown(SessionAfter(inputs[..i]).records), inputs[i].at, inputs[i].staleAfter)
  {
    var m := SessionAfter(inputs[..i]).records;
    ExpireShows(ByAgeAndCount, m, inputs[i].at, inputs[i].staleAfter);
    ExpiryReports(StaleKeys(Shown(m), inputs[i].at, inputs[i].staleAfter));
  }

  /** One input starts or ends the time in which a key counts as expired just as the reports say. */
  lemma ExpiredByReports(inputs: seq<Input>, n: nat, k: Key)
    requires n < |inputs|
    ensures k in SessionAfter(inputs[..n + 1]).expired <==>
            ReportsExpired(inputs, n, k) || (k in SessionAfter(inputs[..n]).expired && !Concerns(inputs, n, k))
  {
    assert inputs[..n + 1][..n] == inputs[..n];
    ExpiredStep(SessionAfter(inputs[..n]), inputs[n], k);
    if inputs[n].Tick? {
      TickReports(inputs, n, k);
    }
  }

  lemma {:induction false} ExpiredIsSince(inputs: seq<Input>, n: nat, k: Key)
    requires n <= |inputs|
    ensures k in SessionAfter(inputs[..n]).expired <==> ExpiredSince(inputs, n, k)
  {
    if n == 0 {
    } else {
      ExpiredIsSince(inputs, n - 1, k);
      ExpiredByReports(inputs, n - 1, k);
      LastingStep(i => 0 <= i < |inputs| && ReportsExpired(inputs, i, k),
                  j => 0 <= j < |inputs| && Concerns(inputs, j, k), n - 1);
    }
  }

  /**
   With strictly increasing times, a key that the browser has and the lifecycle does
   not show is exactly one that was reported expired with no report about it since.
   */
  lemma ExtraKeysExactly(inputs: seq<Input>, k: Key)
    requires InputsIncreasing(inputs)
    ensures var s := SessionAfter(inputs);
            k in s.peers && k !in Shown(s.records) <==> ExpiredSince(inputs, |inputs|, k)
  {
    ExtraKeysAreExpired(inputs);
    ExpiredIsSince(inputs, |inputs|, k);
    assert inputs[..|inputs|] == inputs;
  }

  // ---------- a session is a run of the lifecycle ----------

  /** The lifecycle calls that a session makes. */
  ghost function Reported(inputs: seq<Input>): seq<Call> {
    if inputs == [] then []
    else
      var before, last := inputs[..|inputs| - 1], inputs[|inputs| - 1];
      match CallOf(SessionAfter(before), last)
      case None => Reported(before)
      case Some(call) => Reported(before) + [call]
  }

  lemma CallIsGenuine(s: Session, input: Input)
    requires Browser.Filed(s.peers) && CallOf(s, input).Some?
    ensures Genuine(CallOf(s, input).value) && CallOf(s, input).value.at == input.at
  {
    if input.Raw? {
      Browser.EventsTellChanges(s.peers, input.event);
      Browser.TranslateKeepsFiled(s.peers, input.event);
    }
  }

  /** The lifecycle of a session is where its calls lead, and those are genuine. */
  lemma {:induction false} SessionIsRun(inputs: seq<Input>)
    ensures SessionAfter(inputs).records == After(ByAgeAndCount, Reported(inputs))
    ensures GenuineCalls(Reported(inputs)) && Browser.Filed(SessionAfter(inputs).peers)
  {
    if inputs == [] {
    } else {
      var n := |inputs| - 1;
      var s, calls := SessionAfter(inputs[..n]), Reported(inputs[..n]);
      SessionIsRun(inputs[..n]);
      SessionStepFiled(s, inputs[n]);
      var call := CallOf(s, inputs[n]);
      if call.Some? {
        CallIsGenuine(s, inputs[n]);
        assert (calls + [call.value])[..|calls|] == calls;
      }
    }
  }

  /** All calls so far were made by `last`, in order. */
  ghost predicate OrderedBy(calls: seq<Call>, last: nat) {
    TimesNondecreasing(calls) && forall i | 0 <= i < |calls| :: calls[i].at <= last
  }

  lemma OrderedNext(calls: seq<Call>, last: nat, call: Call)
    requires OrderedBy(calls, last) && last <= call.at
    ensures OrderedBy(calls + [call], call.at)
  {
  }

  /** One input adds at most one call, at its own time. */
  lemma ReportedNext(inputs: seq<Input>)
    requires inputs != []
    ensures var n := |inputs| - 1;
            || Reported(inputs) == Reported(inputs[..n])
            || exists call: Call :: call.at == inputs[n].at && Reported(inputs) == Reported(inputs[..n]) + [call]
  {
    var n := |inputs| - 1;
    SessionIsRun(inputs[..n]);
    var call := CallOf(SessionAfter(inputs[..n]), inputs[n]);
    if call.Some? {
      CallIsGenuine(SessionAfter(inputs[..n]), inputs[n]);
      assert Reported(inputs) == Reported(inputs[..n]) + [call.value];
    }
  }

  lemma {:induction false} ReportedTimes(inputs: seq<Input>)
    requires InputsNondecreasing(inputs)
    ensures OrderedBy(Reported(inputs), if inputs == [] then 0 else inputs[|inputs| - 1].at)
  {
    if inputs == [] {
    } else {
      var n := |inputs| - 1;
      var last := if n == 0 then 0 else inputs[n - 1].at;
      ReportedTimes(inputs[..n]);
      ReportedNext(inputs);
      var calls := Reported(inputs[..n]);
      if Reported(inputs) != calls {
        var call: Call :| call.at == inputs[n].at && Reported(inputs) == calls + [call];
        OrderedNext(calls, last, call);
      }
    }
  }

  /**
   For every session with nondecreasing times, the observations a browser can report
   are answered as never pruning would answer them if and only if no moment is crowded.
   */
  lemma SessionPruningExactly(inputs: seq<Input>)
    requires InputsNondecreasing(inputs)
    ensures GenuineAgree(Reported(inputs)) <==> AlwaysCalm(ByAgeAndCount, Reported(inputs))
  {
    SessionIsRun(inputs);
    ReportedTimes(inputs);
    PruningObservableExactly(Reported(inputs));
  }

  // ---------- one vocabulary ----------

  /** The transition the lifecycle reports for what the browser reported. */
  ghost function Expected(s: Session, event: Browser.BrowserEvent): Transition {
    match event
    case Added(peer) => Appeared(peer.key)
    case Updated(peer) => if peer.key in s.expired then Appeared(peer.key) else Updated(peer.key)
    case Refreshed(peer) => if peer.key in s.expired then Appeared(peer.key) else Refreshed(peer.key)
    case Removed(key) => if key in s.expired then Noop(key, AlreadyAbsent) else Removed(key, Explicit)
    case Error(error) => Rejected(error)
  }

  /**
   With strictly increasing times the two layers name every change alike: added is
   appeared, updated is updated, refreshed is refreshed, removed is removed, except
   that a key that expired in between appears again or is already absent.
   */
  lemma EventsMapToTransitions(inputs: seq<Input>, event: Browser.RawEvent, at: nat)
    requires InputsIncreasing(inputs + [Raw(event, at)])
    ensures var s := SessionAfter(inputs);
            match Browser.Translate(s.peers, event).1
            case None => true
            case Some(reported) => Step(ByAgeAndCount, s.records, Apply(reported, at)).1 == [Expected(s, reported)]
  {
    var s := SessionAfter(inputs);
    var all := inputs + [Raw(event, at)];
    assert forall i | 0 <= i < |inputs| :: all[i] == inputs[i];
    assert all[|inputs|].at == at;
    ExtraKeysAreExpired(inputs);
    Browser.EventsTellChanges(s.peers, event);
    var reported := Browser.Translate(s.peers, event).1;
    if reported.Some? {
      StepIsPlain(ByAgeAndCount, s.records, Apply(reported.value, at));
    }
  }

  /** The same under nondecreasing times, when an observation can meet a tombstone of its own moment. */
  ghost function ExpectedAt(s: Session, event: Browser.BrowserEvent, at: nat): Transition {
    match event
    case Error(error) => Rejected(error)
    case Removed(key) => if key in Shown(s.records) then Removed(key, Explicit) else Noop(key, AlreadyAbsent)
    case _ =>
      var key := event.peer.key;
      if key in StampedAt(s.records, at) then Noop(key, Stale)
      else if key !in Shown(s.records) then Appeared(key)
      else if event.Updated? then Updated(key)
      else Refreshed(key)
  }

  /**
   With nondecreasing times, an observation is stale exactly when a tombstone of its
   key carries its very time; otherwise a shown peer is updated or refreshed as the
   browser says, any other appears, and an added peer is never one that is shown.
   */
  lemma EventsMapExactly(inputs: seq<Input>, event: Browser.RawEvent, at: nat)
    requires InputsNondecreasing(inputs + [Raw(event, at)])
    ensures var s := SessionAfter(inputs);
            match Browser.Translate(s.peers, event).1
            case None => true
            case Some(reported) =>
              && Step(ByAgeAndCount, s.records, Apply(reported, at)).1 == [ExpectedAt(s, reported, at)]
              && (reported.Added? ==> reported.peer.key !in Shown(s.records))
  {
    var s := SessionAfter(inputs);
    var all := inputs + [Raw(event, at)];
    assert forall i | 0 <= i < |inputs| :: all[i] == inputs[i];
    assert all[|inputs|].at == at;
    VisibleIsStored(inputs);
    SessionIsRun(inputs);
    RunInvariants(Reported(inputs));
    Browser.EventsTellChanges(s.peers, event);
    var reported := Browser.Translate(s.peers, event).1;
    if reported.Some? {
      FirstPruneByAge(s.records, at);
      ReplyExactly(s, reported.value, at);
    }
  }

  /** What one call answers when no record is later than it. */
  lemma ReplyExactly(s: Session, event: Browser.BrowserEvent, at: nat)
    requires StampedBy(s.records, at) && Prune(ByAgeAndCount, s.records, at) == AgePrune(s.records, at)
    requires VisibleAgree(s)
    requires event.Added? ==> event.peer.key !in s.peers
    requires event.Updated? ==> event.peer.key in s.peers && s.peers[event.peer.key] != event.peer
    requires event.Refreshed? ==> event.peer.key in s.peers && s.peers[event.peer.key] == event.peer
    ensures Step(ByAgeAndCount, s.records, Apply(event, at)).1 == [ExpectedAt(s, event, at)]
  {
  }
}
