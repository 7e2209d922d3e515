/**
 Sessions that make eviction by count observable: more services than tombstones are
 kept come and go at one instant, and one of them is resolved again at that instant.
 */
module DiscoveryExamples {
  import opened Results
  import opened Ordering
  import opened DiscoveredPeers
  import opened DiscoveredPeerLaws
  import opened DiscoveredPeerRefinement
  import opened DiscoveryRuns
  import Browser
  import DiscoveryLaws
  import DiscoveryMetadata
  import Utf8

  /** One more than the tombstones that are kept. */
  const CROWD: nat := MAX_RETAINED_TOMBSTONES + 1

  type Service = Browser.RawService

  // ---------- the session ----------

  function Resolving(service: Service): Input { Raw(Browser.RawResolved(service), 0) }

  function Removing(service: Service): Input { Raw(Browser.RawRemoved(service.fullname), 0) }

  /** Each service is resolved and then removed, all at time zero. */
  function CrowdInputs(services: seq<Service>): (r: seq<Input>)
    ensures forall i | 0 <= i < |r| :: r[i].at == 0
  {
    if services == [] then []
    else
      var n := |services| - 1;
      CrowdInputs(services[..n]) + [Resolving(services[n])] + [Removing(services[n])]
  }

  function Adding(peer: Peer): Call { Apply(Browser.Added(peer), 0) }

  function Leaving(peer: Peer): Call { Apply(Browser.Removed(peer.key), 0) }

  function CrowdCalls(peers: seq<Peer>): (r: seq<Call>)
    ensures forall i | 0 <= i < |r| :: r[i].at == 0
    ensures peers != [] ==> r != []
  {
    if peers == [] then []
    else
      var n := |peers| - 1;
      CrowdCalls(peers[..n]) + [Adding(peers[n])] + [Leaving(peers[n])]
  }

  ghost predicate ResolveTo(services: seq<Service>, peers: seq<Peer>) {
    |services| == |peers| && forall i | 0 <= i < |peers| :: Browser.BuildPeer(services[i]) == Ok(peers[i])
  }

  lemma SessionNext(inputs: seq<Input>, input: Input)
    ensures SessionAfter(inputs + [input]) == SessionStep(SessionAfter(inputs), input)
    ensures Reported(inputs + [input]) ==
            match CallOf(SessionAfter(inputs), input)
            case None => Reported(inputs)
            case Some(call) => Reported(inputs) + [call]
  {
    assert (inputs + [input])[..|inputs|] == inputs;
  }

  lemma BuiltKey(service: Service)
    requires Browser.BuildPeer(service).Ok?
    ensures Browser.NewKey(service.fullname) == Some(Browser.BuildPeer(service).value.key)
  {
  }

  lemma Comes(inputs: seq<Input>, service: Service, peer: Peer)
    requires SessionAfter(inputs).peers == map[] && Browser.BuildPeer(service) == Ok(peer)
    ensures CallOf(SessionAfter(inputs), Resolving(service)) == Some(Adding(peer))
  {
  }

  /** To a browser that knows nobody, a service that comes and goes is one added and one removed peer. */
  lemma ComesAndGoes(inputs: seq<Input>, service: Service, peer: Peer)
    requires SessionAfter(inputs).peers == map[] && Browser.BuildPeer(service) == Ok(peer)
    ensures var all := inputs + [Resolving(service)] + [Removing(service)];
            && SessionAfter(all).peers == map[]
            && Reported(all) == Reported(inputs) + [Adding(peer)] + [Leaving(peer)]
  {
    BuiltKey(service);
    Comes(inputs, service, peer);
    var resolved := inputs + [Resolving(service)];
    SessionNext(inputs, Resolving(service));
    assert SessionAfter(resolved).peers == map[peer.key := peer];
    SessionNext(resolved, Removing(service));
    assert SessionAfter(resolved + [Removing(service)]).peers == map[];
  }

  /** The browser reports each resolution as added and each removal as removed, and is left with nothing. */
  lemma {:induction false} SessionMakes(services: seq<Service>, peers: seq<Peer>)
    requires ResolveTo(services, peers)
    ensures Made(CrowdInputs(services), CrowdCalls(peers))
  {
    if services == [] {
    } else {
      var n := |services| - 1;
      ResolvePrefix(services, peers);
      SessionMakes(services[..n], peers[..n]);
      OneMoreMade(CrowdInputs(services[..n]), CrowdCalls(peers[..n]), services[n], peers[n]);
      assert Made(CrowdInputs(services), CrowdCalls(peers));
    }
  }

  /** To a browser left with nothing, these inputs make these calls. */
  ghost predicate Made(inputs: seq<Input>, calls: seq<Call>) {
    Reported(inputs) == calls && SessionAfter(inputs).peers == map[]
  }

  lemma ResolvePrefix(services: seq<Service>, peers: seq<Peer>)
    requires ResolveTo(services, peers) && services != []
    ensures ResolveTo(services[..|services| - 1], peers[..|services| - 1])
    ensures Browser.BuildPeer(services[|services| - 1]) == Ok(peers[|services| - 1])
  {
  }

  lemma OneMoreMade(inputs: seq<Input>, calls: seq<Call>, service: Service, peer: Peer)
    requires Made(inputs, calls) && Browser.BuildPeer(service) == Ok(peer)
    ensures Made(inputs + [Resolving(service)] + [Removing(service)], calls + [Adding(peer)] + [Leaving(peer)])
  {
    ComesAndGoes(inputs, service, peer);
  }

  // ---------- what it leaves ----------

  ghost predicate DistinctPeers(peers: seq<Peer>) {
    forall i, j | 0 <= i < j < |peers| :: peers[i].key != peers[j].key
  }

  ghost function KeysOf(peers: seq<Peer>): set<Key> { set i | 0 <= i < |peers| :: peers[i].key }

  lemma KeysNext(peers: seq<Peer>)
    requires peers != []
    ensures var n := |peers| - 1; KeysOf(peers) == KeysOf(peers[..n]) + {peers[n].key}
    ensures DistinctPeers(peers) ==>
              var n := |peers| - 1; DistinctPeers(peers[..n]) && peers[n].key !in KeysOf(peers[..n])
  {
  }

  lemma {:induction false} KeysCount(peers: seq<Peer>)
    requires DistinctPeers(peers)
    ensures |KeysOf(peers)| == |peers|
  {
    if peers == [] {
    } else {
      KeysNext(peers);
      KeysCount(peers[..|peers| - 1]);
    }
  }

  /** One tombstone of time zero for each key. */
  ghost function Gone(keys: set<Key>): Records { map k | k in keys :: PeerRecord(None, 0) }

  lemma OneMore(keys: set<Key>, peer: Peer)
    requires peer.key !in keys
    ensures var added := Step(Never, Gone(keys), Adding(peer)).0;
            StampedAt(added, 0) == keys && Step(Never, added, Leaving(peer)).0 == Gone(keys + {peer.key})
  {
  }

  lemma GoneStamps(keys: set<Key>)
    ensures StampedAt(Gone(keys), 0) == keys
  {
  }

  lemma AfterAppend(calls: seq<Call>, call: Call)
    ensures After(Never, calls + [call]) == Step(Never, After(Never, calls), call).0
  {
    assert (calls + [call])[..|calls|] == calls;
  }

  lemma {:induction false} CrowdLeaves(peers: seq<Peer>)
    requires DistinctPeers(peers)
    ensures After(Never, CrowdCalls(peers)) == Gone(KeysOf(peers))
  {
    if peers == [] {
    } else {
      var n := |peers| - 1;
      KeysNext(peers);
      CrowdLeaves(peers[..n]);
      AfterAppend(CrowdCalls(peers[..n]), Adding(peers[n]));
      AfterAppend(CrowdCalls(peers[..n]) + [Adding(peers[n])], Leaving(peers[n]));
      OneMore(KeysOf(peers[..n]), peers[n]);
    }
  }

  // ---------- when it is crowded ----------

  /** A call after a calm run keeps it calm exactly if it leaves no crowd. */
  lemma CalmNext(calls: seq<Call>, call: Call)
    requires AlwaysCalm(ByAgeAndCount, calls)
    ensures var all := calls + [call];
            && all[..|calls|] == calls
            && (CalmAt(ByAgeAndCount, all, |calls|)
                <==> |StampedAt(Step(Never, After(Never, calls), call).0, call.at)| <= MAX_RETAINED_TOMBSTONES)
            && (CalmAt(ByAgeAndCount, all, |calls|) ==> AlwaysCalm(ByAgeAndCount, all))
  {
    var all := calls + [call];
    assert all[..|calls| + 1] == all && all[..|calls|] == calls;
    AfterAppend(calls, call);
    if CalmAt(ByAgeAndCount, all, |calls|) {
      LastCallCalm(all);
    }
  }

  /** One more peer that comes and goes crowds the moment exactly if 256 keys were gone before. */
  lemma OneMoreCalm(calls: seq<Call>, keys: set<Key>, peer: Peer)
    requires AlwaysCalm(ByAgeAndCount, calls) && After(Never, calls) == Gone(keys)
    requires peer.key !in keys && |keys| <= MAX_RETAINED_TOMBSTONES
    ensures var almost := calls + [Adding(peer)];
            var all := almost + [Leaving(peer)];
            && AlwaysCalm(ByAgeAndCount, almost) && all[..|almost|] == almost
            && (CalmAt(ByAgeAndCount, all, |almost|) <==> |keys| < MAX_RETAINED_TOMBSTONES)
            && (|keys| < MAX_RETAINED_TOMBSTONES ==> AlwaysCalm(ByAgeAndCount, all))
  {
    OneMore(keys, peer);
    GoneStamps(keys + {peer.key});
    CalmNext(calls, Adding(peer));
    AfterAppend(calls, Adding(peer));
    CalmNext(calls + [Adding(peer)], Leaving(peer));
  }

  lemma {:induction false} CrowdCalm(peers: seq<Peer>)
    requires DistinctPeers(peers) && |peers| <= MAX_RETAINED_TOMBSTONES
    ensures AlwaysCalm(ByAgeAndCount, CrowdCalls(peers))
  {
    if peers == [] {
    } else {
      var n := |peers| - 1;
      KeysNext(peers);
      KeysCount(peers[..n]);
      CrowdCalm(peers[..n]);
      CrowdLeaves(peers[..n]);
      OneMoreCalm(CrowdCalls(peers[..n]), KeysOf(peers[..n]), peers[n]);
    }
  }

  /** After 257 peers came and went, one of them is let in again at once, where it would be refused as stale. */
  lemma CrowdAppears(peers: seq<Peer>) returns (i: nat)
    requires DistinctPeers(peers) && |peers| == CROWD
    ensures i < |peers| && !AlwaysCalm(ByAgeAndCount, CrowdCalls(peers))
    ensures var calls, key := CrowdCalls(peers), peers[i].key;
            && Step(ByAgeAndCount, After(ByAgeAndCount, calls), Adding(peers[i])).1 == [Appeared(key)]
            && Step(Never, After(Never, calls), Adding(peers[i])).1 == [Noop(key, Stale)]
  {
    var n := |peers| - 1;
    var calls := CrowdCalls(peers);
    KeysNext(peers);
    KeysCount(peers[..n]);
    CrowdCalm(peers[..n]);
    CrowdLeaves(peers[..n]);
    OneMoreCalm(CrowdCalls(peers[..n]), KeysOf(peers[..n]), peers[n]);
    CrowdLeaves(peers);
    var key := CrowdEvicts(calls);
    assert key in KeysOf(peers);
    i :| 0 <= i < |peers| && peers[i].key == key;
    ProbeReplies(calls, peers[i]);
  }

  /**
   After 257 services came and went at one instant, one of them is resolved again at
   that instant: the browser reports it as added, the lifecycle lets it appear, and a
   lifecycle that never prunes would refuse it as stale.
   */
  lemma {:induction false} CrowdedSession(services: seq<Service>, peers: seq<Peer>) returns (i: nat)
    requires ResolveTo(services, peers) && DistinctPeers(peers) && |services| == CROWD
    ensures i < CROWD && InputsNondecreasing(CrowdInputs(services) + [Resolving(services[i])])
    ensures var s, never := SessionAfter(CrowdInputs(services)), After(Never, Reported(CrowdInputs(services)));
            && CallOf(s, Resolving(services[i])) == Some(Adding(peers[i]))
            && Step(ByAgeAndCount, s.records, Adding(peers[i])).1 == [Appeared(peers[i].key)]
            && Step(Never, never, Adding(peers[i])).1 == [Noop(peers[i].key, Stale)]
    ensures !AlwaysCalm(ByAgeAndCount, Reported(CrowdInputs(services)))
  {
    i := CrowdAppears(peers);
    SessionRuns(services, peers);
    Comes(CrowdInputs(services), services[i], peers[i]);
  }

  lemma SessionRuns(services: seq<Service>, peers: seq<Peer>)
    requires ResolveTo(services, peers)
    ensures Reported(CrowdInputs(services)) == CrowdCalls(peers)
    ensures SessionAfter(CrowdInputs(services)).records == After(ByAgeAndCount, CrowdCalls(peers))
    ensures SessionAfter(CrowdInputs(services)).peers == map[]
  {
    SessionMakes(services, peers);
    SessionIsRun(CrowdInputs(services));
  }

  // ---------- such services ----------

  /** Two letters and the service suffix: a fullname, and the key it yields. */
  function LetterKey(i: nat): Key
    requires i < 676
  {
    [97 + i / 26, 97 + i % 26] + Browser.KeySuffix()
  }

  function LetterService(i: nat): Service
    requires i < 676
  {
    Browser.RawService(LetterKey(i), 1, [PlainEndpoint()], DiscoveryMetadata.ToTxt(PlainMetadata()))
  }

  lemma LetterKeysDiffer(i: nat, j: nat)
    requires i < j < 676
    ensures LetterKey(i) != LetterKey(j)
  {
    assert LetterKey(i)[0] == 97 + i / 26 && LetterKey(i)[1] == 97 + i % 26;
    assert LetterKey(j)[0] == 97 + j / 26 && LetterKey(j)[1] == 97 + j % 26;
  }

  lemma LetterKeyAccepted(i: nat)
    requires i < 676
    ensures Browser.NewKey(LetterKey(i)) == Some(LetterKey(i))
  {
    Browser.EncodeAscii(LetterKey(i));
    Browser.SuffixedKey(LetterKey(i), [97 + i / 26, 97 + i % 26]);
  }

  lemma OneEndpoint(e: Browser.Endpoint)
    ensures Browser.OrderedSet([e]) == [e]
  {
    Browser.OrderedSetExact([e]);
    StrictlySortedUnique(Browser.OrderedSet([e]), [e], Browser.EndpointKey);
  }

  /** A service with one endpoint and printed metadata resolves to the peer that says the same. */
  lemma OneEndpointResolves(fullname: Utf8.Text, key: Key, m: DiscoveryMetadata.Metadata, e: Browser.Endpoint)
    requires Browser.NewKey(fullname) == Some(key)
    requires DiscoveryMetadata.ValidMetadata(m) && m.protocols == Browser.INITIAL_RANGE
    ensures Browser.BuildPeer(Browser.RawService(fullname, 1, [e], DiscoveryMetadata.ToTxt(m)))
            == Ok(Browser.DiscoveredPeer(key, m, 1, [e], 1))
  {
    DiscoveryLaws.RoundTrip(m);
    OneEndpoint(e);
  }

  /** There are 257 services as the session needs them. */
  lemma CrowdExists() returns (services: seq<Service>, peers: seq<Peer>)
    ensures ResolveTo(services, peers) && DistinctPeers(peers) && |services| == CROWD
  {
    services := seq(CROWD, i requires 0 <= i < CROWD => LetterService(i));
    peers := seq(CROWD, i requires 0 <= i < CROWD => PeerOf(LetterKey(i)));
    forall i | 0 <= i < CROWD
      ensures Browser.BuildPeer(services[i]) == Ok(peers[i])
    {
      LetterKeyAccepted(i);
      OneEndpointResolves(LetterKey(i), LetterKey(i), PlainMetadata(), PlainEndpoint());
    }
    forall i, j | 0 <= i < j < CROWD
      ensures peers[i].key != peers[j].key
    {
      LetterKeysDiffer(i, j);
    }
  }
}
