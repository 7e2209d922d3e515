/** Tombstones and pruning against two simpler references: records that are never pruned, and a plain map. */
module DiscoveredPeerRefinement {
  import opened Results
  import opened Ordering
  import opened DiscoveredPeers
  import opened DiscoveredPeerLaws
  import Browser
  import DiscoveryMetadata

  ghost predicate TimesNondecreasing(calls: seq<Call>) {
    forall i, j | 0 <= i < j < |calls| :: calls[i].at <= calls[j].at
  }

  ghost predicate TimesIncreasing(calls: seq<Call>) {
    forall i, j | 0 <= i < j < |calls| :: calls[i].at < calls[j].at
  }

  /** No record is stamped after `last`. */
  ghost predicate StampedBy(m: Records, last: nat) {
    forall k | k in m :: m[k].lastTransitionAt <= last
  }

  lemma StepStamps(pruning: Pruning, m: Records, call: Call)
    requires StampedBy(m, call.at)
    ensures StampedBy(Step(pruning, m, call).0, call.at)
  {
  }

  // ---------- never pruning ----------

  /**
   `m` has everything `r` has except tombstones that are already older than any
   coming call, and nothing else.
   */
  ghost predicate Forgets(m: Records, r: Records, last: nat) {
    && (forall k | k in m :: k in r && m[k] == r[k])
    && (forall k | k in r && k !in m :: r[k].visible.None? && r[k].lastTransitionAt < last)
  }

  lemma ForgetsShows(m: Records, r: Records, last: nat)
    requires Forgets(m, r, last)
    ensures Shown(m) == Shown(r)
  {
  }

  ghost function StampedAt(m: Records, at: nat): set<Key> {
    set k | k in m && m[k].visible.None? && m[k].lastTransitionAt == at
  }

  lemma AgePruneForgets(m: Records, r: Records, now: nat)
    requires Forgets(m, r, now) && StampedBy(r, now)
    ensures Forgets(AgePrune(m, now), r, now)
  {
  }

  /** Counting never evicts a tombstone of the present moment unless more than 256 were made in it. */
  lemma CountPruneForgets(m: Records, r: Records, now: nat)
    requires Forgets(m, r, now) && StampedBy(r, now) && |StampedAt(r, now)| <= MAX_RETAINED_TOMBSTONES
    ensures Forgets(CountPrune(m), r, now)
  {
    forall k | k in m && k !in CountPrune(m)
      ensures m[k].lastTransitionAt < now
    {
      if m[k].lastTransitionAt == now {
        BelowIrreflexive(StampOf(m, k));
        forall j | j in Newer(m, k)
          ensures j in StampedAt(r, now) - {k}
        {
          assert m[j].lastTransitionAt == now;
        }
        SubsetSize(Newer(m, k), StampedAt(r, now) - {k});
      }
    }
  }

  /** The moment of the call produced at most 256 tombstones in the unpruned reference. */
  ghost predicate Calm(pruning: Pruning, reference: Records, at: nat) {
    pruning.ByAgeAndCount? ==> |StampedAt(reference, at)| <= MAX_RETAINED_TOMBSTONES
  }

  lemma PruneForgets(pruning: Pruning, m: Records, r: Records, now: nat)
    requires Forgets(m, r, now) && StampedBy(r, now) && Calm(pruning, r, now)
    ensures Forgets(Prune(pruning, m, now), r, now)
  {
    AgePruneForgets(m, r, now);
    if pruning.ByAgeAndCount? {
      CountPruneForgets(AgePrune(m, now), r, now);
    }
  }

  lemma FirstPruneForgets(pruning: Pruning, m: Records, r: Records, now: nat)
    requires Forgets(m, r, now) && StampedBy(r, now) && (pruning.ByAgeAndCount? ==> Bounded(m))
    ensures Forgets(Prune(pruning, m, now), r, now)
  {
    AgePruneForgets(m, r, now);
    if pruning.ByAgeAndCount? {
      FirstPruneByAge(m, now);
    }
  }

  lemma RemoveForgets(m: Records, r: Records, key: Key, at: nat)
    requires Forgets(m, r, at) && StampedBy(r, at)
    ensures Forgets(Remove(m, key, at).0, Remove(r, key, at).0, at)
    ensures Remove(m, key, at).1 == Remove(r, key, at).1
  {
  }

  lemma ObserveForgets(m: Records, r: Records, peer: Peer, at: nat)
    requires Forgets(m, r, at) && StampedBy(r, at)
    ensures Forgets(Observe(m, peer, at).0, Observe(r, peer, at).0, at)
    ensures Observe(m, peer, at).1 == Observe(r, peer, at).1
  {
  }

  lemma ExpireForgets(m: Records, r: Records, now: nat, staleAfter: nat)
    requires Forgets(m, r, now)
    ensures ExpiredKeys(m, now, staleAfter) == ExpiredKeys(r, now, staleAfter)
    ensures var expired := ExpiredKeys(m, now, staleAfter);
            Forgets(Expire(m, expired, now), Expire(r, expired, now), now)
  {
    assert ExpiredKeys(m, now, staleAfter) == ExpiredKeys(r, now, staleAfter);
  }

  /** One call keeps the pruned and the unpruned records together and answers the same. */
  lemma StepForgets(pruning: Pruning, m: Records, r: Records, call: Call)
    requires Forgets(m, r, call.at) && StampedBy(r, call.at)
    requires pruning.ByAgeAndCount? ==> Bounded(m)
    requires Calm(pruning, Step(Never, r, call).0, call.at)
    ensures Forgets(Step(pruning, m, call).0, Step(Never, r, call).0, call.at)
    ensures Step(pruning, m, call).1 == Step(Never, r, call).1
  {
    var now := call.at;
    var kept := Prune(pruning, m, now);
    FirstPruneForgets(pruning, m, r, now);
    StepStamps(Never, r, call);
    var after := Step(Never, r, call).0;
    match call
    case Apply(Error(_), _) =>
    case Apply(Removed(key), at) =>
      RemoveForgets(kept, r, key, now);
      PruneForgets(pruning, Remove(kept, key, at).0, after, now);
    case ExpireAt(_, staleAfter) =>
      ExpireForgets(kept, r, now, staleAfter);
      PruneForgets(pruning, Expire(kept, ExpiredKeys(kept, now, staleAfter), now), after, now);
    case Apply(event, at) =>
      ObserveForgets(kept, r, event.peer, now);
  }

  /** The number of tombstones made in any one moment of the run stays within the bound. */
  ghost predicate AlwaysCalm(pruning: Pruning, calls: seq<Call>) {
    forall i | 0 <= i < |calls| :: CalmAt(pruning, calls, i)
  }

  ghost predicate CalmAt(pruning: Pruning, calls: seq<Call>, i: nat)
    requires i < |calls|
  {
    Calm(pruning, After(Never, calls[..i + 1]), calls[i].at)
  }

  lemma PrefixCalm(pruning: Pruning, calls: seq<Call>, n: nat)
    requires AlwaysCalm(pruning, calls) && n <= |calls|
    ensures AlwaysCalm(pruning, calls[..n])
  {
    forall i | 0 <= i < n
      ensures CalmAt(pruning, calls[..n], i)
    {
      assert CalmAt(pruning, calls, i);
      assert calls[..n][..i + 1] == calls[..i + 1];
    }
  }

  lemma {:induction false} RunForgets(pruning: Pruning, calls: seq<Call>)
    requires TimesNondecreasing(calls) && AlwaysCalm(pruning, calls)
    ensures calls == [] ==> After(pruning, calls) == After(Never, calls) == map[]
    ensures calls != [] ==> var last := calls[|calls| - 1].at;
                            && Forgets(After(pruning, calls), After(Never, calls), last)
                            && StampedBy(After(Never, calls), last)
    ensures calls != [] ==> Reply(pruning, calls, |calls| - 1) == Reply(Never, calls, |calls| - 1)
  {
    if calls == [] {
    } else {
      var n := |calls| - 1;
      var before := calls[..n];
      PrefixCalm(pruning, calls, n);
      RunForgets(pruning, before);
      if pruning.ByAgeAndCount? {
        RunInvariants(before);
      }
      assert calls[..n + 1] == calls;
      assert CalmAt(pruning, calls, n);
      StepForgets(pruning, After(pruning, before), After(Never, before), calls[n]);
      StepStamps(Never, After(Never, before), calls[n]);
    }
  }

  /**
   With nondecreasing call times, pruning by age answers every call and shows every
   peer as a state that never prunes would.
   */
  lemma AgePruningUnobservable(calls: seq<Call>)
    requires TimesNondecreasing(calls)
    ensures Shown(After(ByAge, calls)) == Shown(After(Never, calls))
    ensures forall i | 0 <= i < |calls| :: Reply(ByAge, calls, i) == Reply(Never, calls, i)
  {
    PrunedRepliesAgree(ByAge, calls);
  }

  /**
   The same holds for the program's pruning by age and count, as long as no single
   moment of the run leaves more than 256 tombstones in the unpruned reference.
   */
  lemma PruningUnobservable(calls: seq<Call>)
    requires TimesNondecreasing(calls) && AlwaysCalm(ByAgeAndCount, calls)
    ensures Shown(After(ByAgeAndCount, calls)) == Shown(After(Never, calls))
    ensures forall i | 0 <= i < |calls| :: Reply(ByAgeAndCount, calls, i) == Reply(Never, calls, i)
  {
    PrunedRepliesAgree(ByAgeAndCount, calls);
  }

  lemma ReplyAgrees(pruning: Pruning, calls: seq<Call>, i: nat)
    requires TimesNondecreasing(calls) && AlwaysCalm(pruning, calls) && i < |calls|
    ensures Reply(pruning, calls, i) == Reply(Never, calls, i)
  {
    var prefix := calls[..i + 1];
    PrefixCalm(pruning, calls, i + 1);
    RunForgets(pruning, prefix);
    assert prefix[..i] == calls[..i];
  }

  lemma PrunedRepliesAgree(pruning: Pruning, calls: seq<Call>)
    requires TimesNondecreasing(calls) && AlwaysCalm(pruning, calls)
    ensures Shown(After(pruning, calls)) == Shown(After(Never, calls))
    ensures forall i | 0 <= i < |calls| :: Reply(pruning, calls, i) == Reply(Never, calls, i)
  {
    RunForgets(pruning, calls);
    if calls != [] {
      ForgetsShows(After(pruning, calls), After(Never, calls), calls[|calls| - 1].at);
    }
    forall i | 0 <= i < |calls|
      ensures Reply(pruning, calls, i) == Reply(Never, calls, i)
    {
      ReplyAgrees(pruning, calls, i);
    }
  }

  // ---------- when counting shows ----------

  /** `m` is part of `r`, and lacks only tombstones of it. */
  ghost predicate LacksTombstones(m: Records, r: Records) {
    && (forall k | k in m :: k in r && m[k] == r[k])
    && (forall k | k in r && k !in m :: r[k].visible.None?)
  }

  lemma PruneLacks(m: Records, r: Records, now: nat)
    requires Forgets(m, r, now)
    ensures LacksTombstones(Prune(ByAgeAndCount, m, now), r)
  {
  }

  /** A call from agreeing records leaves less than the unpruned reference only by tombstones. */
  lemma StepLacks(m: Records, r: Records, call: Call)
    requires Forgets(m, r, call.at) && StampedBy(r, call.at) && Bounded(m)
    ensures LacksTombstones(Step(ByAgeAndCount, m, call).0, Step(Never, r, call).0)
  {
    var now := call.at;
    var kept := Prune(ByAgeAndCount, m, now);
    var after := Step(Never, r, call).0;
    FirstPruneForgets(ByAgeAndCount, m, r, now);
    match call
    case Apply(Error(_), _) =>
    case Apply(Removed(key), at) =>
      RemoveForgets(kept, r, key, now);
      PruneLacks(Remove(kept, key, at).0, after, now);
    case ExpireAt(_, staleAfter) =>
      ExpireForgets(kept, r, now, staleAfter);
      PruneLacks(Expire(kept, ExpiredKeys(kept, now, staleAfter), now), after, now);
    case Apply(event, at) =>
      ObserveForgets(kept, r, event.peer, now);
  }

  /** An observation tells the two apart exactly if the tombstone that would refuse it was evicted. */
  lemma EvictionObservable(m: Records, r: Records, peer: Peer, now: nat)
    requires Bounded(m) && StampedBy(r, now) && LacksTombstones(m, r)
    ensures var observation := Apply(Browser.Added(peer), now);
            var evicted := peer.key in StampedAt(r, now) && peer.key !in m;
            && (!evicted ==> Step(ByAgeAndCount, m, observation).1 == Step(Never, r, observation).1)
            && (evicted ==> Step(ByAgeAndCount, m, observation).1 == [Appeared(peer.key)]
                            && Step(Never, r, observation).1 == [Noop(peer.key, Stale)])
  {
    FirstPruneByAge(m, now);
  }

  /** An observation of `peer` right after the run, at the time of its last call. */
  ghost function Probe(calls: seq<Call>, peer: Peer): seq<Call>
    requires calls != []
  {
    calls + [Apply(Browser.Added(peer), calls[|calls| - 1].at)]
  }

  /** Pruning by age and count answers the observation as never pruning would. */
  ghost predicate ProbeAgrees(calls: seq<Call>, peer: Peer)
    requires calls != []
  {
    Reply(ByAgeAndCount, Probe(calls, peer), |calls|) == Reply(Never, Probe(calls, peer), |calls|)
  }

  /** What the last call of a run leaves, when every earlier moment was calm. */
  lemma LastCallLacks(calls: seq<Call>)
    requires TimesNondecreasing(calls) && calls != [] && AlwaysCalm(ByAgeAndCount, calls[..|calls| - 1])
    ensures LacksTombstones(After(ByAgeAndCount, calls), After(Never, calls))
    ensures StampedBy(After(Never, calls), calls[|calls| - 1].at)
  {
    var n := |calls| - 1;
    RunForgets(ByAgeAndCount, calls[..n]);
    RunInvariants(calls[..n]);
    StepLacks(After(ByAgeAndCount, calls[..n]), After(Never, calls[..n]), calls[n]);
    StepStamps(Never, After(Never, calls[..n]), calls[n]);
  }

  lemma ProbeReplies(calls: seq<Call>, peer: Peer)
    requires calls != []
    ensures var last := Apply(Browser.Added(peer), calls[|calls| - 1].at);
            var m, r := After(ByAgeAndCount, calls), After(Never, calls);
            && Reply(ByAgeAndCount, Probe(calls, peer), |calls|) == Step(ByAgeAndCount, m, last).1
            && Reply(Never, Probe(calls, peer), |calls|) == Step(Never, r, last).1
  {
    assert Probe(calls, peer)[..|calls|] == calls;
  }

  // ---------- what the browser can hand over ----------

  /** The keys and peers that a caller can get hold of: they passed the browser's validation. */
  ghost predicate Genuine(call: Call) {
    match call
    case Apply(Error(_), _) => true
    case Apply(Removed(key), _) => Browser.AcceptedKey(key)
    case Apply(event, _) => Browser.WellFormed(event.peer)
    case ExpireAt(_, _) => true
  }

  ghost predicate GenuineCalls(calls: seq<Call>) { forall i | 0 <= i < |calls| :: Genuine(calls[i]) }

  lemma StepKeys(m: Records, call: Call)
    requires Genuine(call) && forall k | k in m :: Browser.AcceptedKey(k)
    ensures forall k | k in Step(Never, m, call).0 :: Browser.AcceptedKey(k)
  {
  }

  /** Every record of a genuine run is filed under an accepted key. */
  lemma {:induction false} KeysAccepted(calls: seq<Call>)
    requires GenuineCalls(calls)
    ensures forall k | k in After(Never, calls) :: Browser.AcceptedKey(k)
  {
    if calls == [] {
    } else {
      var n := |calls| - 1;
      KeysAccepted(calls[..n]);
      StepKeys(After(Never, calls[..n]), calls[n]);
    }
  }

  /** A peer with a given key, one endpoint and no hints. */
  function PeerOf(key: Key): Peer {
    Browser.DiscoveredPeer(key, PlainMetadata(), 1, [PlainEndpoint()], 1)
  }

  function PlainMetadata(): DiscoveryMetadata.Metadata {
    DiscoveryMetadata.Metadata(Browser.INITIAL_RANGE, None, None)
  }

  function PlainEndpoint(): Browser.Endpoint { Browser.Endpoint(Browser.V4(1), None) }

  lemma PeerOfWellFormed(key: Key)
    ensures Browser.WellFormed(PeerOf(key)) <==> Browser.AcceptedKey(key)
  {
  }

  // ---------- the exact condition ----------

  /** More than 256 tombstones of the last moment force one out, and every observation of its key shows it. */
  lemma CrowdEvicts(calls: seq<Call>) returns (key: Key)
    requires TimesNondecreasing(calls) && calls != [] && AlwaysCalm(ByAgeAndCount, calls[..|calls| - 1])
    requires !CalmAt(ByAgeAndCount, calls, |calls| - 1)
    ensures key in StampedAt(After(Never, calls), calls[|calls| - 1].at)
    ensures forall peer: Peer | peer.key == key ::
              && Reply(ByAgeAndCount, Probe(calls, peer), |calls|) == [Appeared(key)]
              && Reply(Never, Probe(calls, peer), |calls|) == [Noop(key, Stale)]
  {
    var last := calls[|calls| - 1].at;
    var m, r := After(ByAgeAndCount, calls), After(Never, calls);
    assert calls[..|calls|] == calls;
    LastCallLacks(calls);
    RunInvariants(calls);
    var crowd := StampedAt(r, last);
    if crowd <= Tombstones(m) {
      SubsetSize(crowd, Tombstones(m));
      assert false;
    }
    key :| key in crowd && key !in Tombstones(m);
    forall peer: Peer | peer.key == key
      ensures Reply(ByAgeAndCount, Probe(calls, peer), |calls|) == [Appeared(key)]
      ensures Reply(Never, Probe(calls, peer), |calls|) == [Noop(key, Stale)]
    {
      ProbeReplies(calls, peer);
      EvictionObservable(m, r, peer, last);
    }
  }

  /** In a genuine run, a browser can report an observation that shows it. */
  lemma CrowdShows(calls: seq<Call>) returns (peer: Peer)
    requires TimesNondecreasing(calls) && calls != [] && AlwaysCalm(ByAgeAndCount, calls[..|calls| - 1])
    requires !CalmAt(ByAgeAndCount, calls, |calls| - 1)
    ensures !ProbeAgrees(calls, peer)
    ensures GenuineCalls(calls) ==> Browser.WellFormed(peer)
  {
    var key := CrowdEvicts(calls);
    peer := PeerOf(key);
    if GenuineCalls(calls) {
      KeysAccepted(calls);
      PeerOfWellFormed(key);
    }
  }

  /**
   Where every earlier moment was calm, the observations at the time of the last call
   are answered as never pruning would answer them if and only if this moment is calm
   too: at most 256 tombstones carry its time. In a genuine run it is enough to ask
   for the observations a browser can report.
   */
  lemma LastMomentExact(calls: seq<Call>)
    requires TimesNondecreasing(calls) && calls != [] && AlwaysCalm(ByAgeAndCount, calls[..|calls| - 1])
    ensures (forall peer :: ProbeAgrees(calls, peer)) <==> CalmAt(ByAgeAndCount, calls, |calls| - 1)
    ensures GenuineCalls(calls) ==>
              ((forall peer | Browser.WellFormed(peer) :: ProbeAgrees(calls, peer))
               <==> CalmAt(ByAgeAndCount, calls, |calls| - 1))
  {
    if CalmAt(ByAgeAndCount, calls, |calls| - 1) {
      forall peer
        ensures ProbeAgrees(calls, peer)
      {
        CalmProbeAgrees(calls, peer);
      }
    } else {
      var peer := CrowdShows(calls);
      assert !ProbeAgrees(calls, peer);
    }
  }

  lemma CalmProbeAgrees(calls: seq<Call>, peer: Peer)
    requires TimesNondecreasing(calls) && calls != []
    requires AlwaysCalm(ByAgeAndCount, calls[..|calls| - 1]) && CalmAt(ByAgeAndCount, calls, |calls| - 1)
    ensures ProbeAgrees(calls, peer)
  {
    var n := |calls| - 1;
    LastCallCalm(calls);
    RunForgets(ByAgeAndCount, calls);
    RunInvariants(calls);
    ProbeReplies(calls, peer);
    EvictionObservable(After(ByAgeAndCount, calls), After(Never, calls), peer, calls[n].at);
  }

  lemma CalmPrefixAgrees(calls: seq<Call>, n: nat, peer: Peer)
    requires TimesNondecreasing(calls) && AlwaysCalm(ByAgeAndCount, calls) && 0 < n <= |calls|
    ensures ProbeAgrees(calls[..n], peer)
  {
    PrefixCalm(ByAgeAndCount, calls, n);
    PrefixCalm(ByAgeAndCount, calls[..n], n - 1);
    assert CalmAt(ByAgeAndCount, calls[..n], n - 1);
    CalmProbeAgrees(calls[..n], peer);
  }

  lemma LastCallCalm(calls: seq<Call>)
    requires calls != [] && AlwaysCalm(ByAgeAndCount, calls[..|calls| - 1])
    requires CalmAt(ByAgeAndCount, calls, |calls| - 1)
    ensures AlwaysCalm(ByAgeAndCount, calls)
  {
    var n := |calls| - 1;
    forall i | 0 <= i < |calls|
      ensures CalmAt(ByAgeAndCount, calls, i)
    {
      if i < n {
        assert CalmAt(ByAgeAndCount, calls[..n], i);
        assert calls[..n][..i + 1] == calls[..i + 1];
      }
    }
  }

  lemma LastCallCrowded(calls: seq<Call>)
    requires calls != [] && AlwaysCalm(ByAgeAndCount, calls[..|calls| - 1]) && !AlwaysCalm(ByAgeAndCount, calls)
    ensures calls[..|calls|] == calls && !CalmAt(ByAgeAndCount, calls, |calls| - 1)
  {
    if CalmAt(ByAgeAndCount, calls, |calls| - 1) {
      LastCallCalm(calls);
    }
  }

  lemma {:induction false} FirstCrowd(calls: seq<Call>) returns (n: nat)
    requires !AlwaysCalm(ByAgeAndCount, calls)
    ensures n < |calls| && AlwaysCalm(ByAgeAndCount, calls[..n]) && !CalmAt(ByAgeAndCount, calls[..n + 1], n)
  {
    var last := |calls| - 1;
    if AlwaysCalm(ByAgeAndCount, calls[..last]) {
      LastCallCrowded(calls);
      n := last;
    } else {
      n := FirstCrowd(calls[..last]);
      assert calls[..last][..n] == calls[..n] && calls[..last][..n + 1] == calls[..n + 1];
    }
  }

  /** Every observation, made at any time of the run, is answered as never pruning would answer it. */
  ghost predicate AllAgree(calls: seq<Call>) {
    forall n, peer | 0 < n <= |calls| :: ProbeAgrees(calls[..n], peer)
  }

  /** The same for the observations a browser can report. */
  ghost predicate GenuineAgree(calls: seq<Call>) {
    forall n, peer | 0 < n <= |calls| && Browser.WellFormed(peer) :: ProbeAgrees(calls[..n], peer)
  }

  /**
   The exact condition, for every run with nondecreasing times: observations made at
   any time of the run are answered as never pruning would answer them if and only if
   no moment of the run leaves more than 256 tombstones in the unpruned reference. For
   a genuine run this is so of the genuine observations alone.
   */
  lemma PruningObservableExactly(calls: seq<Call>)
    requires TimesNondecreasing(calls)
    ensures AllAgree(calls) <==> AlwaysCalm(ByAgeAndCount, calls)
    ensures GenuineCalls(calls) ==> (GenuineAgree(calls) <==> AlwaysCalm(ByAgeAndCount, calls))
  {
    if AlwaysCalm(ByAgeAndCount, calls) {
      forall n, peer | 0 < n <= |calls|
        ensures ProbeAgrees(calls[..n], peer)
      {
        CalmPrefixAgrees(calls, n, peer);
      }
    } else {
      var n := FirstCrowd(calls);
      assert calls[..n + 1][..n] == calls[..n];
      var peer := CrowdShows(calls[..n + 1]);
      assert !ProbeAgrees(calls[..n + 1], peer);
    }
  }

  // ---------- a plain map ----------

  /** The lifecycle with no tombstones at all: just the visible peers. */
  ghost function PlainStep(shown: map<Key, Visible>, call: Call): (map<Key, Visible>, seq<Transition>) {
    match call
    case Apply(Error(error), _) => (shown, [Rejected(error)])
    case Apply(Removed(key), _) =>
      (shown - {key}, [if key in shown then Removed(key, Explicit) else Noop(key, AlreadyAbsent)])
    case Apply(event, at) =>
      var key := event.peer.key;
      (shown[key := Visible(event.peer, at)],
       [if key !in shown then Appeared(key)
        else if shown[key].peer == event.peer then Refreshed(key)
        else Updated(key)])
    case ExpireAt(now, staleAfter) =>
      var stale := StaleKeys(shown, now, staleAfter);
      (shown - stale, ExpiryOf(SortedKeys(stale)))
  }

  ghost function PlainAfter(calls: seq<Call>): map<Key, Visible> {
    if calls == [] then map[] else PlainStep(PlainAfter(calls[..|calls| - 1]), calls[|calls| - 1]).0
  }

  lemma RemoveIsPlain(m: Records, key: Key, at: nat)
    requires forall k | k in m :: m[k].lastTransitionAt < at
    ensures Shown(Remove(m, key, at).0) == Shown(m) - {key}
    ensures Remove(m, key, at).1 == if key in Shown(m) then Removed(key, Explicit) else Noop(key, AlreadyAbsent)
  {
  }

  lemma ObserveIsPlain(m: Records, peer: Peer, at: nat)
    requires forall k | k in m :: m[k].lastTransitionAt < at
    ensures Shown(Observe(m, peer, at).0) == Shown(m)[peer.key := Visible(peer, at)]
    ensures Observe(m, peer, at).1 == if peer.key !in Shown(m) then Appeared(peer.key)
                                      else if Shown(m)[peer.key].peer == peer then Refreshed(peer.key)
                                      else Updated(peer.key)
  {
  }

  /** A call later than every record acts on the visible peers alone. */
  lemma StepIsPlain(pruning: Pruning, m: Records, call: Call)
    requires forall k | k in m :: m[k].lastTransitionAt < call.at
    ensures Shown(Step(pruning, m, call).0) == PlainStep(Shown(m), call).0
    ensures Step(pruning, m, call).1 == PlainStep(Shown(m), call).1
  {
    PruningShows(pruning, m, call.at);
    var kept := Prune(pruning, m, call.at);
    match call
    case Apply(Error(_), _) =>
    case Apply(Removed(key), at) =>
      RemoveIsPlain(kept, key, at);
      PruningShows(pruning, Remove(kept, key, at).0, at);
    case ExpireAt(now, staleAfter) =>
      ExpireShows(pruning, m, now, staleAfter);
    case Apply(event, at) =>
      ObserveIsPlain(kept, event.peer, at);
  }

  lemma {:induction false} RunIsPlain(pruning: Pruning, calls: seq<Call>)
    requires TimesIncreasing(calls)
    ensures Shown(After(pruning, calls)) == PlainAfter(calls)
    ensures calls != [] ==> StampedBy(After(pruning, calls), calls[|calls| - 1].at)
  {
    if calls == [] {
    } else {
      var n := |calls| - 1;
      RunIsPlain(pruning, calls[..n]);
      StepIsPlain(pruning, After(pruning, calls[..n]), calls[n]);
      StepStamps(pruning, After(pruning, calls[..n]), calls[n]);
    }
  }

  /** With strictly increasing call times, tombstones and both prunes are invisible: a plain map does the same. */
  lemma TombstonesUnobservable(calls: seq<Call>)
    requires TimesIncreasing(calls)
    ensures Shown(After(ByAgeAndCount, calls)) == PlainAfter(calls)
    ensures forall i | 0 <= i < |calls| ::
              Reply(ByAgeAndCount, calls, i) == PlainStep(PlainAfter(calls[..i]), calls[i]).1
  {
    RunIsPlain(ByAgeAndCount, calls);
    forall i | 0 <= i < |calls|
      ensures Reply(ByAgeAndCount, calls, i) == PlainStep(PlainAfter(calls[..i]), calls[i]).1
    {
      PlainReply(calls, i);
    }
  }

  lemma PlainReply(calls: seq<Call>, i: nat)
    requires TimesIncreasing(calls) && i < |calls|
    ensures Reply(ByAgeAndCount, calls, i) == PlainStep(PlainAfter(calls[..i]), calls[i]).1
  {
    RunIsPlain(ByAgeAndCount, calls[..i]);
    StepIsPlain(ByAgeAndCount, After(ByAgeAndCount, calls[..i]), calls[i]);
  }
}
