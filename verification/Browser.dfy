/** Browsing: raw DNS-SD resolutions coalesced into one validated peer for each transient key. */
module Browser {
  import opened Results
  import opened Bytes
  import opened Ordering
  import opened DiscoveryMetadata
  import opened DiscoveryLaws
  import Utf8
  import DisplayText

  const MAX_DISCOVERED_ENDPOINTS: nat := 16
  const MAX_TRANSIENT_DISCOVERY_KEY_BYTES: nat := 255

  // ---------- transient keys ----------

  /** A validated service fullname, as UTF-8. */
  type Key = seq<Byte>

  function KeySuffix(): (r: seq<Byte>)
    ensures |r| == 28 && forall i | 0 <= i < |r| :: 32 < r[i] < 127 && LowerByte(r[i]) == r[i]
  {
    Ascii("._local-transfer._tcp.local.")
  }

  /** Accepts a bounded fullname of the service type and rewrites its suffix in lower case. */
  function NewKey(value: Utf8.Text): Option<Key> {
    var bytes := Utf8.Encode(value);
    if |bytes| < |KeySuffix()| then None
    else
      var instance := |bytes| - |KeySuffix()|;
      if || |bytes| > MAX_TRANSIENT_DISCOVERY_KEY_BYTES
         || !(Utf8.CharBoundary(bytes, instance) && EqualIgnoringCase(bytes[instance..], KeySuffix()))
         || instance == 0
         || DisplayText.HasControl(value)
      then None
      else Some(bytes[..instance] + KeySuffix())
  }

  lemma {:induction false} EncodeAscii(text: Utf8.Text)
    requires forall i | 0 <= i < |text| :: text[i] < 0x80
    ensures Utf8.Encode(text) == text
  {
    if text == [] {
    } else {
      EncodeAscii(text[1..]);
      assert text == [text[0]] + text[1..];
    }
  }

  lemma PrefixControlFree(value: Utf8.Text, n: nat, suffix: Utf8.Text)
    requires n <= |value| && !DisplayText.HasControl(value) && !DisplayText.HasControl(suffix)
    ensures !DisplayText.HasControl(value[..n] + suffix)
  {
    var text := value[..n] + suffix;
    forall i | 0 <= i < |text|
      ensures !DisplayText.IsControl(text[i])
    {
      assert text[i] == if i < n then value[i] else suffix[i - n];
    }
  }

  lemma SuffixedKey(text: Utf8.Text, instance: seq<Byte>)
    requires Utf8.Encode(text) == instance + KeySuffix() && instance != []
    requires |instance + KeySuffix()| <= MAX_TRANSIENT_DISCOVERY_KEY_BYTES && !DisplayText.HasControl(text)
    ensures NewKey(text) == Some(instance + KeySuffix())
  {
    var bytes := instance + KeySuffix();
    assert bytes[|instance|..] == KeySuffix() && bytes[..|instance|] == instance;
    assert bytes[|instance|] == KeySuffix()[0];
  }

  lemma EncodeSuffixed(instance: Utf8.Text)
    ensures Utf8.Encode(instance + KeySuffix()) == Utf8.Encode(instance) + KeySuffix()
    ensures !DisplayText.HasControl(KeySuffix())
  {
    Utf8.EncodeConcat(instance, KeySuffix());
    EncodeAscii(KeySuffix());
  }

  /** A key is the encoding of a fullname that would yield the same key again. */
  lemma KeyIsCanonical(value: Utf8.Text) returns (canonical: Utf8.Text)
    requires NewKey(value).Some?
    ensures Utf8.Encode(canonical) == NewKey(value).value && NewKey(canonical) == NewKey(value)
  {
    var bytes := Utf8.Encode(value);
    var instance := |bytes| - |KeySuffix()|;
    var n := Utf8.BoundaryIsPrefix(value, instance);
    canonical := value[..n] + KeySuffix();
    EncodeSuffixed(value[..n]);
    PrefixControlFree(value, n, KeySuffix());
    SuffixedKey(canonical, bytes[..instance]);
  }

  /** The fullname is a nonempty instance, then the service suffix in any letter case. */
  ghost predicate InstanceOf(value: Utf8.Text, instance: Utf8.Text) {
    instance != [] && instance <= value && EqualIgnoringCase(Utf8.Encode(value[|instance|..]), KeySuffix())
  }

  /** A fullname is accepted exactly when it is bounded, free of controls and so split; only its suffix is rewritten. */
  lemma NewKeyExact(value: Utf8.Text)
    ensures NewKey(value).Some? <==>
            && |Utf8.Encode(value)| <= 255 && !DisplayText.HasControl(value)
            && exists instance :: InstanceOf(value, instance)
    ensures forall instance | InstanceOf(value, instance) && NewKey(value).Some? ::
              NewKey(value) == Some(Utf8.Encode(instance) + KeySuffix())
  {
    if NewKey(value).Some? {
      var instance := AcceptedInstance(value);
    }
    if |Utf8.Encode(value)| <= MAX_TRANSIENT_DISCOVERY_KEY_BYTES && !DisplayText.HasControl(value) {
      forall instance | InstanceOf(value, instance)
        ensures NewKey(value) == Some(Utf8.Encode(instance) + KeySuffix())
      {
        InstanceSplits(value, instance);
        SplitAccepted(value, |Utf8.Encode(instance)|);
      }
    }
  }

  lemma SplitAccepted(value: Utf8.Text, offset: nat)
    requires |Utf8.Encode(value)| <= MAX_TRANSIENT_DISCOVERY_KEY_BYTES && !DisplayText.HasControl(value)
    requires SplitsAt(value, offset)
    ensures NewKey(value) == Some(Utf8.Encode(value)[..offset] + KeySuffix())
  {
  }

  /** The byte offset at which the key constructor looks for the suffix, and finds it. */
  ghost predicate SplitsAt(value: Utf8.Text, offset: nat) {
    var bytes := Utf8.Encode(value);
    && 0 < offset && offset + |KeySuffix()| == |bytes| && Utf8.CharBoundary(bytes, offset)
    && EqualIgnoringCase(bytes[offset..], KeySuffix())
  }

  lemma InstanceSplits(value: Utf8.Text, instance: Utf8.Text)
    requires InstanceOf(value, instance)
    ensures SplitsAt(value, |Utf8.Encode(instance)|)
    ensures Utf8.Encode(value)[..|Utf8.Encode(instance)|] == Utf8.Encode(instance)
  {
    var rest := value[|instance|..];
    assert value == instance + rest && value[..|instance|] == instance;
    Utf8.EncodeConcat(instance, rest);
    Utf8.PrefixIsBoundary(value, |instance|);
    assert |Utf8.Encode(rest)| == |Lower(Utf8.Encode(rest))| == |KeySuffix()|;
    assert Utf8.Encode(value)[|Utf8.Encode(instance)|..] == Utf8.Encode(rest);
  }

  lemma AcceptedInstance(value: Utf8.Text) returns (instance: Utf8.Text)
    requires NewKey(value).Some?
    ensures InstanceOf(value, instance)
  {
    var bytes := Utf8.Encode(value);
    var offset := |bytes| - |KeySuffix()|;
    var n := Utf8.BoundaryIsPrefix(value, offset);
    instance := value[..n];
    assert value == instance + value[n..];
    Utf8.EncodeConcat(instance, value[n..]);
    assert bytes[offset..] == Utf8.Encode(value[n..]);
  }

  // ---------- peers ----------

  datatype IpAddr = V4(bits: nat) | V6(bits: nat)

  datatype Endpoint = Endpoint(address: IpAddr, scope: Option<nat>)

  /** The derived order: IPv4 before IPv6, then the address, then no scope before any scope. */
  function EndpointKey(e: Endpoint): seq<int> {
    [if e.address.V4? then 0 else 1, e.address.bits,
     if e.scope.None? then 0 else 1, if e.scope.None? then 0 else e.scope.value]
  }

  lemma EndpointKeyInjective(a: Endpoint, b: Endpoint)
    requires EndpointKey(a) == EndpointKey(b)
    ensures a == b
  {
    assert EndpointKey(a)[0] == EndpointKey(b)[0] && EndpointKey(a)[1] == EndpointKey(b)[1];
    assert EndpointKey(a)[2] == EndpointKey(b)[2] && EndpointKey(a)[3] == EndpointKey(b)[3];
  }

  /** The distinct endpoints, keeping the last of each group of equals. */
  function Distinct(endpoints: seq<Endpoint>): seq<Endpoint> {
    if endpoints == [] then []
    else if endpoints[0] in endpoints[1..] then Distinct(endpoints[1..])
    else [endpoints[0]] + Distinct(endpoints[1..])
  }

  /** An ordered set of endpoints, in increasing order. */
  function OrderedSet(endpoints: seq<Endpoint>): seq<Endpoint> { SortBy(Distinct(endpoints), EndpointKey) }

  lemma {:induction false} DistinctExact(endpoints: seq<Endpoint>)
    ensures DistinctKeys(Distinct(endpoints), EndpointKey)
    ensures forall e :: e in Distinct(endpoints) <==> e in endpoints
  {
    if endpoints == [] {
    } else {
      var first, rest := endpoints[0], Distinct(endpoints[1..]);
      DistinctExact(endpoints[1..]);
      assert endpoints == [first] + endpoints[1..];
      if first !in endpoints[1..] {
        forall j | 0 <= j < |rest|
          ensures EndpointKey(first) != EndpointKey(rest[j])
        {
          assert rest[j] in rest;
          if EndpointKey(first) == EndpointKey(rest[j]) {
            EndpointKeyInjective(first, rest[j]);
          }
        }
      }
    }
  }

  lemma OrderedSetExact(endpoints: seq<Endpoint>)
    ensures StrictlySorted(OrderedSet(endpoints), EndpointKey)
    ensures forall e :: e in OrderedSet(endpoints) <==> e in endpoints
  {
    DistinctExact(endpoints);
    SortByStrict(Distinct(endpoints), EndpointKey);
    SameElements(OrderedSet(endpoints), Distinct(endpoints));
  }

  datatype DiscoveredPeer = DiscoveredPeer(
    key: Key, metadata: Metadata, port: nat, endpoints: seq<Endpoint>, protocolMajor: nat)

  const INITIAL_RANGE: ProtocolRange := ProtocolRange(INITIAL_PROTOCOL_MAJOR, INITIAL_PROTOCOL_MAJOR)

  /** Some fullname yields this key. */
  ghost predicate AcceptedKey(key: Key) { exists fullname :: NewKey(fullname) == Some(key) }

  ghost predicate WellFormed(peer: DiscoveredPeer) {
    && AcceptedKey(peer.key)
    && ValidMetadata(peer.metadata)
    && peer.port != 0
    && 0 < |peer.endpoints| <= MAX_DISCOVERED_ENDPOINTS && StrictlySorted(peer.endpoints, EndpointKey)
    && peer.metadata.protocols.Contains(peer.protocolMajor) && INITIAL_RANGE.Contains(peer.protocolMajor)
  }

  // ---------- events ----------

  datatype ErrorKind =
    | InvalidTransientKey | MalformedResolution | InvalidPort | EndpointLimit
    | MetadataRejected(error: MetadataError) | IncompatibleProtocol | Infrastructure

  datatype BrowserError = BrowserError(kind: ErrorKind, key: Option<Key>)

  datatype BrowserEvent =
    | Added(peer: DiscoveredPeer)
    | Updated(peer: DiscoveredPeer)
    | Refreshed(peer: DiscoveredPeer)
    | Removed(key: Key)
    | Error(error: BrowserError)

  datatype RawService = RawService(fullname: Utf8.Text, port: nat, endpoints: seq<Endpoint>, txt: seq<TxtEntry>)

  datatype RawEvent =
    | RawResolved(service: RawService)
    | RawRemoved(fullname: Utf8.Text)
    | RawError(error: BrowserError)

  // ---------- coalescing ----------

  type Peers = map<Key, DiscoveredPeer>

  /** Validates one resolution; nothing is remembered unless every check passes. */
  function BuildPeer(raw: RawService): Result<DiscoveredPeer, BrowserError> {
    match NewKey(raw.fullname)
    case None => Err(BrowserError(InvalidTransientKey, None))
    case Some(key) =>
      if raw.port == 0 then Err(BrowserError(InvalidPort, Some(key)))
      else
        var endpoints := OrderedSet(raw.endpoints);
        if endpoints == [] then Err(BrowserError(MalformedResolution, Some(key)))
        else if |endpoints| > MAX_DISCOVERED_ENDPOINTS then Err(BrowserError(EndpointLimit, Some(key)))
        else
          match FromTxt(raw.txt)
          case Err(e) => Err(BrowserError(MetadataRejected(e), Some(key)))
          case Ok(metadata) =>
            (match INITIAL_RANGE.HighestCompatible(metadata.protocols)
             case None => Err(BrowserError(IncompatibleProtocol, Some(key)))
             case Some(major) => Ok(DiscoveredPeer(key, metadata, raw.port, endpoints, major)))
  }

  /** Every accepted peer is well formed and its endpoints are exactly the resolved ones. */
  lemma BuiltPeerWellFormed(raw: RawService)
    requires BuildPeer(raw).Ok?
    ensures var peer := BuildPeer(raw).value;
            && WellFormed(peer) && NewKey(raw.fullname) == Some(peer.key)
            && FromTxt(raw.txt) == Ok(peer.metadata) && raw.port == peer.port
            && forall e :: e in peer.endpoints <==> e in raw.endpoints
  {
    OrderedSetExact(raw.endpoints);
    ParsedIsValid(raw.txt);
    assert AcceptedKey(BuildPeer(raw).value.key);
  }

  /** A resolution is accepted exactly when each of its parts is. */
  lemma BuildPeerExact(raw: RawService)
    ensures BuildPeer(raw).Ok? <==>
            && NewKey(raw.fullname).Some? && raw.port != 0
            && 0 < |set e | e in raw.endpoints| <= 16
            && FromTxt(raw.txt).Ok? && FromTxt(raw.txt).value.protocols.Contains(1)
  {
    var endpoints := OrderedSet(raw.endpoints);
    OrderedSetExact(raw.endpoints);
    StrictlySortedCount(endpoints, EndpointKey);
    assert (set e | e in raw.endpoints) == (set e | e in endpoints);
  }

  function Coalesce(peers: Peers, peer: DiscoveredPeer): BrowserEvent {
    if peer.key !in peers then Added(peer)
    else if peers[peer.key] == peer then Refreshed(peer)
    else Updated(peer)
  }

  function Translate(peers: Peers, raw: RawEvent): (Peers, Option<BrowserEvent>) {
    match raw
    case RawResolved(service) =>
      (match BuildPeer(service)
       case Err(e) => (peers, Some(Error(e)))
       case Ok(peer) => (peers[peer.key := peer], Some(Coalesce(peers, peer))))
    case RawRemoved(fullname) =>
      (match NewKey(fullname)
       case None => (peers, Some(Error(BrowserError(InvalidTransientKey, None))))
       case Some(key) => if key in peers then (peers - {key}, Some(Removed(key))) else (peers, None))
    case RawError(e) => (peers, Some(Error(e)))
  }

  class BrowserState {
    var peers: Peers

    constructor ()
      ensures peers == map[]
    {
      peers := map[];
    }

    /** Remembers a resolution that passes validation and says whether it is new, changed or repeated. */
    method Resolve(service: RawService) returns (r: Result<BrowserEvent, BrowserError>)
      modifies this
      ensures BuildPeer(service).Err? ==> r == Err(BuildPeer(service).error) && peers == old(peers)
      ensures BuildPeer(service).Ok? ==> var peer := BuildPeer(service).value;
                                         r == Ok(Coalesce(old(peers), peer)) && peers == old(peers)[peer.key := peer]
    {
      var built := BuildPeer(service);
      if built.Err? {
        return Err(built.error);
      }
      var peer := built.value;
      if peer.key in peers {
        if peers[peer.key] == peer {
          return Ok(Refreshed(peer));
        }
        peers := peers[peer.key := peer];
        return Ok(Updated(peer));
      }
      peers := peers[peer.key := peer];
      return Ok(Added(peer));
    }

    method TranslateEvent(raw: RawEvent) returns (event: Option<BrowserEvent>)
      modifies this
      ensures (peers, event) == Translate(old(peers), raw)
    {
      match raw {
        case RawResolved(service) =>
          var r := Resolve(service);
          match r {
            case Ok(e) => event := Some(e);
            case Err(error) => event := Some(Error(error));
          }
        case RawRemoved(fullname) =>
          var key := NewKey(fullname);
          if key.None? {
            return Some(Error(BrowserError(InvalidTransientKey, None)));
          }
          if key.value !in peers {
            return None;
          }
          peers := peers - {key.value};
          event := Some(Removed(key.value));
        case RawError(error) =>
          event := Some(Error(error));
      }
    }
  }

  /** Each remembered peer is well formed and filed under its own key. */
  ghost predicate Filed(peers: Peers) {
    forall k | k in peers :: peers[k].key == k && WellFormed(peers[k])
  }

  lemma TranslateKeepsFiled(peers: Peers, raw: RawEvent)
    requires Filed(peers)
    ensures Filed(Translate(peers, raw).0)
  {
    if raw.RawResolved? && BuildPeer(raw.service).Ok? {
      BuiltPeerWellFormed(raw.service);
    }
  }

  /** What each reported event says about the peers remembered before and after it. */
  lemma EventsTellChanges(peers: Peers, raw: RawEvent)
    ensures var after := Translate(peers, raw).0;
            match Translate(peers, raw).1
            case Some(Added(peer)) => peer.key !in peers && after == peers[peer.key := peer]
            case Some(Updated(peer)) => peer.key in peers && peers[peer.key] != peer && after == peers[peer.key := peer]
            case Some(Refreshed(peer)) =>
              peer.key in peers && peers[peer.key] == peer && after == peers[peer.key := peer] == peers
            case Some(Removed(key)) => key in peers && after == peers - {key}
            case _ => after == peers
    ensures raw.RawRemoved? && NewKey(raw.fullname).Some? ==> NewKey(raw.fullname).value !in Translate(peers, raw).0
    ensures raw.RawResolved? && BuildPeer(raw.service).Ok? ==>
              var peer, after := BuildPeer(raw.service).value, Translate(peers, raw).0;
              peer.key in after && after[peer.key] == peer
  {
  }

  // ---------- refusals, order and bytes ----------

  /** The suffix of every key: ._local-transfer._tcp.local. */
  lemma SuffixBytes()
    ensures KeySuffix() == [46, 95, 108, 111, 99, 97, 108, 45, 116, 114, 97, 110, 115, 102, 101, 114, 46,
                            95, 116, 99, 112, 46, 108, 111, 99, 97, 108, 46]
  {
  }

  lemma BelowCons(x: int, xs: seq<int>, y: int, ys: seq<int>)
    ensures Below([x] + xs, [y] + ys) <==> x < y || (x == y && Below(xs, ys))
  {
    assert ([x] + xs)[1..] == xs && ([y] + ys)[1..] == ys;
  }

  /** Endpoints are ordered by family, IPv4 first, then by address, then without a scope before any scope. */
  lemma EndpointOrder(a: Endpoint, b: Endpoint)
    ensures Below(EndpointKey(a), EndpointKey(b)) <==>
            || (a.address.V4? && b.address.V6?)
            || (a.address.V4? == b.address.V4? && a.address.bits < b.address.bits)
            || (a.address == b.address && a.scope.None? && b.scope.Some?)
            || (a.address == b.address && a.scope.Some? && b.scope.Some? && a.scope.value < b.scope.value)
  {
    var x, y := EndpointKey(a), EndpointKey(b);
    BelowCons(x[0], x[1..], y[0], y[1..]);
    BelowCons(x[1], x[2..], y[1], y[2..]);
    BelowCons(x[2], x[3..], y[2], y[3..]);
    BelowCons(x[3], [], y[3], []);
    assert x == [x[0]] + x[1..] && x[1..] == [x[1]] + x[2..] && x[2..] == [x[2]] + x[3..] && x[3..] == [x[3]] + [];
    assert y == [y[0]] + y[1..] && y[1..] == [y[1]] + y[2..] && y[2..] == [y[2]] + y[3..] && y[3..] == [y[3]] + [];
  }

  /** Why a resolution is refused: the first of its parts that is wrong, with the key once that is known. */
  lemma BuildPeerRefuses(raw: RawService)
    ensures var key, count := NewKey(raw.fullname), |set e | e in raw.endpoints|;
            BuildPeer(raw).Err? ==>
              BuildPeer(raw).error ==
              BrowserError(if key.None? then InvalidTransientKey
                           else if raw.port == 0 then InvalidPort
                           else if count == 0 then MalformedResolution
                           else if count > 16 then EndpointLimit
                           else if FromTxt(raw.txt).Err? then MetadataRejected(FromTxt(raw.txt).error)
                           else IncompatibleProtocol,
                           key)
  {
    var endpoints := OrderedSet(raw.endpoints);
    OrderedSetExact(raw.endpoints);
    StrictlySortedCount(endpoints, EndpointKey);
    assert (set e | e in raw.endpoints) == (set e | e in endpoints);
  }

  /** What is reported for each raw event, and which peers are remembered after it. */
  lemma TranslateExact(peers: Peers, raw: RawEvent)
    ensures var (after, reported) := Translate(peers, raw);
            match raw
            case RawError(e) => after == peers && reported == Some(Error(e))
            case RawRemoved(fullname) =>
              (match NewKey(fullname)
               case None => after == peers && reported == Some(Error(BrowserError(InvalidTransientKey, None)))
               case Some(key) =>
                 && after == peers - {key}
                 && reported == if key in peers then Some(Removed(key)) else None)
            case RawResolved(service) =>
              (match BuildPeer(service)
               case Err(e) => after == peers && reported == Some(Error(e))
               case Ok(peer) =>
                 && peer.key in after && after[peer.key] == peer && after - {peer.key} == peers - {peer.key}
                 && reported == Some(if peer.key !in peers then Added(peer)
                                     else if peers[peer.key] == peer then Refreshed(peer)
                                     else Updated(peer)))
  {
  }
}
