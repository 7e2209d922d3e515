/**
 Lifecycle of discovered peers: what is visible, and bounded tombstones for what
 recently left. Times are nanoseconds on a timeline the caller owns.
 */
module DiscoveredPeers {
  import opened Results
  import opened Ordering
  import Browser

  type Key = Browser.Key
  type Peer = Browser.DiscoveredPeer

  const MAX_RETAINED_TOMBSTONES: nat := 256
  const TOMBSTONE_RETENTION: nat := 300_000_000_000

  datatype Visible = Visible(peer: Peer, lastObservedAt: nat)

  datatype PeerRecord = PeerRecord(visible: Option<Visible>, lastTransitionAt: nat)

  datatype RemovalReason = Explicit | Expired

  datatype NoopReason = AlreadyAbsent | Stale

  datatype Transition =
    | Appeared(key: Key)
    | Refreshed(key: Key)
    | Updated(key: Key)
    | Removed(key: Key, reason: RemovalReason)
    | Noop(key: Key, noop: NoopReason)
    | Rejected(error: Browser.BrowserError)

  type Records = map<Key, PeerRecord>

  // ---------- orders ----------

  function KeyOrder(k: Key): seq<int> { k }

  /** Tombstones are ordered by time, then by key. */
  function StampOrder(stamp: (nat, Key)): seq<int> { [stamp.0] + stamp.1 }

  /** The keys of a set in increasing order. */
  ghost function SortedKeys(s: set<Key>): (r: seq<Key>)
    ensures StrictlySorted(r, KeyOrder)
    ensures forall k :: k in r <==> k in s
  {
    if s == {} then []
    else
      var k :| k in s;
      var rest := SortedKeys(s - {k});
      InsertByStrict(k, rest, KeyOrder);
      assert forall x :: x in InsertBy(k, rest, KeyOrder) <==> x in multiset(InsertBy(k, rest, KeyOrder));
      assert forall x :: x in rest <==> x in multiset(rest);
      InsertBy(k, rest, KeyOrder)
  }

  // ---------- pruning ----------

  ghost function Tombstones(m: Records): set<Key> { set k | k in m && m[k].visible.None? }

  ghost function VisibleKeys(m: Records): set<Key> { set k | k in m && m[k].visible.Some? }

  /** What callers can see: the visible peers with the time each was last observed. */
  ghost function Shown(m: Records): map<Key, Visible> {
    map k | k in m && m[k].visible.Some? :: m[k].visible.value
  }

  predicate WithinHorizon(record: PeerRecord, now: nat) {
    || record.visible.Some?
    || now < record.lastTransitionAt
    || now - record.lastTransitionAt <= TOMBSTONE_RETENTION
  }

  /** The tombstones that come after the record of `k` in stamp order. */
  ghost function Newer(m: Records, k: Key): set<Key>
    requires k in m
  {
    set j | j in m && m[j].visible.None?
            && Below(StampOrder((m[k].lastTransitionAt, k)), StampOrder((m[j].lastTransitionAt, j)))
  }

  ghost function AgePrune(m: Records, now: nat): Records {
    map k | k in m && WithinHorizon(m[k], now) :: m[k]
  }

  /** Keeps every visible record, and a tombstone as long as fewer than 256 are newer. */
  ghost function CountPrune(m: Records): Records {
    map k | k in m && (m[k].visible.Some? || |Newer(m, k)| < MAX_RETAINED_TOMBSTONES) :: m[k]
  }

  /** The program prunes by age and then by count; the weaker forms are reference points for it. */
  datatype Pruning = Never | ByAge | ByAgeAndCount

  ghost function Prune(pruning: Pruning, m: Records, now: nat): Records {
    match pruning
    case Never => m
    case ByAge => AgePrune(m, now)
    case ByAgeAndCount => CountPrune(AgePrune(m, now))
  }

  // ---------- lifecycle ----------

  function Observe(m: Records, peer: Peer, at: nat): (Records, Transition) {
    var key := peer.key;
    var seen := m[key := PeerRecord(Some(Visible(peer, at)), at)];
    if key !in m then (seen, Appeared(key))
    else if at < m[key].lastTransitionAt then (m, Noop(key, Stale))
    else if m[key].visible.None? && at == m[key].lastTransitionAt then (m, Noop(key, Stale))
    else if m[key].visible.None? then (seen, Appeared(key))
    else if m[key].visible.value.peer == peer then (seen, Refreshed(key))
    else (seen, Updated(key))
  }

  function Remove(m: Records, key: Key, at: nat): (Records, Transition) {
    var gone := m[key := PeerRecord(None, at)];
    if key !in m then (gone, Noop(key, AlreadyAbsent))
    else if at < m[key].lastTransitionAt then (m, Noop(key, Stale))
    else if m[key].visible.Some? then (gone, Removed(key, Explicit))
    else (gone, Noop(key, AlreadyAbsent))
  }

  predicate IsStale(visible: Visible, now: nat, staleAfter: nat) {
    now >= visible.lastObservedAt && now - visible.lastObservedAt >= staleAfter
  }

  ghost function ExpiredKeys(m: Records, now: nat, staleAfter: nat): set<Key> {
    set k | k in m && m[k].visible.Some? && IsStale(m[k].visible.value, now, staleAfter)
  }

  ghost function Expire(m: Records, expired: set<Key>, now: nat): Records {
    map k | k in m :: if k in expired then PeerRecord(None, now) else m[k]
  }

  function ExpiryOf(keys: seq<Key>): (r: seq<Transition>)
    ensures |r| == |keys| && forall i | 0 <= i < |keys| :: r[i] == Removed(keys[i], Expired)
  {
    seq(|keys|, i requires 0 <= i < |keys| => Removed(keys[i], Expired))
  }

  datatype Call = Apply(event: Browser.BrowserEvent, at: nat) | ExpireAt(at: nat, staleAfter: nat)

  /** One public call: the new records and the transitions it returns. */
  ghost function Step(pruning: Pruning, m: Records, call: Call): (Records, seq<Transition>) {
    match call
    case Apply(Error(error), _) => (m, [Rejected(error)])
    case Apply(Removed(key), at) =>
      var (after, transition) := Remove(Prune(pruning, m, at), key, at);
      (Prune(pruning, after, at), [transition])
    case Apply(event, at) =>
      var (after, transition) := Observe(Prune(pruning, m, at), event.peer, at);
      (after, [transition])
    case ExpireAt(now, staleAfter) =>
      var kept := Prune(pruning, m, now);
      var expired := ExpiredKeys(kept, now, staleAfter);
      (Prune(pruning, Expire(kept, expired, now), now), ExpiryOf(SortedKeys(expired)))
  }

  // ---------- cardinality of what is newer ----------

  ghost predicate StampsOf(m: Records, stamps: seq<(nat, Key)>) {
    && (forall i | 0 <= i < |stamps| ::
          stamps[i].1 in m && m[stamps[i].1].visible.None? && m[stamps[i].1].lastTransitionAt == stamps[i].0)
    && (forall k | k in m && m[k].visible.None? :: (m[k].lastTransitionAt, k) in stamps)
  }

  ghost function KeysFrom(stamps: seq<(nat, Key)>, from: nat): set<Key>
    requires from <= |stamps|
  {
    set i | from <= i < |stamps| :: stamps[i].1
  }

  ghost function KeysBefore(stamps: seq<(nat, Key)>, to: nat): set<Key>
    requires to <= |stamps|
  {
    set i | 0 <= i < to :: stamps[i].1
  }

  ghost predicate OneStampEach(stamps: seq<(nat, Key)>) {
    forall i, j | 0 <= i < j < |stamps| :: stamps[i].1 != stamps[j].1
  }

  lemma SortedStampsDistinct(m: Records, stamps: seq<(nat, Key)>)
    requires StampsOf(m, stamps) && StrictlySorted(stamps, StampOrder)
    ensures OneStampEach(stamps)
  {
    StrictlySortedDistinct(stamps, StampOrder);
    assert forall i, j | 0 <= i < |stamps| && 0 <= j < |stamps| && stamps[i].1 == stamps[j].1 :: stamps[i] == stamps[j];
  }

  lemma {:induction false} KeysFromSize(stamps: seq<(nat, Key)>, from: nat)
    requires OneStampEach(stamps) && from <= |stamps|
    ensures |KeysFrom(stamps, from)| == |stamps| - from
    decreases |stamps| - from
  {
    if from < |stamps| {
      KeysFromSize(stamps, from + 1);
      assert KeysFrom(stamps, from) == KeysFrom(stamps, from + 1) + {stamps[from].1};
    }
  }

  /** In the sorted list of stamps, exactly the later ones are newer. */
  lemma NewerInSortedStamps(m: Records, stamps: seq<(nat, Key)>, i: nat)
    requires StampsOf(m, stamps) && StrictlySorted(stamps, StampOrder) && i < |stamps|
    ensures Newer(m, stamps[i].1) == KeysFrom(stamps, i + 1)
  {
    var k := stamps[i].1;
    forall j
      ensures j in Newer(m, k) <==> j in KeysFrom(stamps, i + 1)
    {
      if j in Newer(m, k) {
        var n :| 0 <= n < |stamps| && stamps[n] == (m[j].lastTransitionAt, j);
        if n <= i {
          StrictlySortedIsSorted(stamps, StampOrder);
          BelowIrreflexive(StampOrder(stamps[i]));
        }
      }
    }
  }

  lemma SameMembers<T>(xs: seq<T>, ys: seq<T>, i: nat)
    requires multiset(xs) == multiset(ys) && i < |xs|
    ensures xs[i] in ys
  {
    SameElements(xs, ys);
    assert xs[i] in xs;
  }

  lemma SortedStamps(m: Records, stamps: seq<(nat, Key)>)
    requires StampsOf(m, stamps)
    ensures StampsOf(m, SortBy(stamps, StampOrder))
  {
    var sorted := SortBy(stamps, StampOrder);
    SameElements(sorted, stamps);
    forall i | 0 <= i < |sorted|
      ensures sorted[i].1 in m && m[sorted[i].1].visible.None? && m[sorted[i].1].lastTransitionAt == sorted[i].0
    {
      SameMembers(sorted, stamps, i);
    }
  }

  function Excess(stamps: seq<(nat, Key)>): (n: nat)
    ensures n <= |stamps|
  {
    if |stamps| > MAX_RETAINED_TOMBSTONES then |stamps| - MAX_RETAINED_TOMBSTONES else 0
  }

  ghost function Evict(m: Records, stamps: seq<(nat, Key)>): Records { m - KeysBefore(stamps, Excess(stamps)) }

  /** Dropping the oldest stamps beyond the bound is exactly pruning by count. */
  lemma OldestEvicted(m: Records, stamps: seq<(nat, Key)>)
    requires StampsOf(m, stamps) && StrictlySorted(stamps, StampOrder)
    ensures Evict(m, stamps) == CountPrune(m)
  {
    SortedStampsDistinct(m, stamps);
    forall k | k in m
      ensures k in KeysBefore(stamps, Excess(stamps)) <==>
              m[k].visible.None? && |Newer(m, k)| >= MAX_RETAINED_TOMBSTONES
    {
      if m[k].visible.None? {
        var i :| 0 <= i < |stamps| && stamps[i] == (m[k].lastTransitionAt, k);
        NewerInSortedStamps(m, stamps, i);
        KeysFromSize(stamps, i + 1);
      }
    }
  }

  lemma NoExcess(m: Records, stamps: seq<(nat, Key)>)
    requires |stamps| <= MAX_RETAINED_TOMBSTONES
    ensures Evict(m, stamps) == m
  {
    assert KeysBefore(stamps, 0) == {};
  }

  // ---------- expiring one key after another ----------

  ghost function FirstOf(keys: seq<Key>, n: nat): set<Key>
    requires n <= |keys|
  {
    set i | 0 <= i < n :: keys[i]
  }

  lemma FirstOfStep(keys: seq<Key>, n: nat)
    requires n < |keys| && DistinctKeys(keys, KeyOrder)
    ensures FirstOf(keys, n + 1) == FirstOf(keys, n) + {keys[n]} && keys[n] !in FirstOf(keys, n)
  {
    assert forall i | 0 <= i < n :: KeyOrder(keys[i]) != KeyOrder(keys[n]);
  }

  lemma ExpireOne(kept: Records, done: set<Key>, key: Key, now: nat)
    requires key in VisibleKeys(kept) && key !in done
    ensures Expire(kept, done + {key}, now) == Expire(kept, done, now)[key := PeerRecord(None, now)]
    ensures |VisibleKeys(Expire(kept, done + {key}, now))| == |VisibleKeys(Expire(kept, done, now))| - 1
  {
    var before, after := Expire(kept, done, now), Expire(kept, done + {key}, now);
    assert key in VisibleKeys(before);
    assert VisibleKeys(after) == VisibleKeys(before) - {key};
  }

  // ---------- the program's state ----------

  lemma NowVisible(m: Records, key: Key, record: PeerRecord)
    requires record.visible.Some?
    ensures var already := key in m && m[key].visible.Some?;
            |VisibleKeys(m[key := record])| == |VisibleKeys(m)| + if already then 0 else 1
  {
    assert VisibleKeys(m[key := record]) == VisibleKeys(m) + {key};
  }

  class DiscoveredPeerState {
    var records: Records
    var visibleCount: nat

    ghost predicate Valid()
      reads this
    {
      && (forall k | k in records && records[k].visible.Some? :: records[k].visible.value.peer.key == k)
      && visibleCount == |VisibleKeys(records)|
    }

    constructor ()
      ensures Valid() && records == map[] && visibleCount == 0
    {
      records, visibleCount := map[], 0;
    }

    function Get(key: Key): (r: Option<Peer>)
      reads this
      ensures r.Some? <==> key in Shown(records)
      ensures r.Some? ==> r.value == Shown(records)[key].peer
    {
      if key in records && records[key].visible.Some? then Some(records[key].visible.value.peer) else None
    }

    /** The tombstones with their times, in no particular order. */
    method CollectTombstones() returns (stamps: seq<(nat, Key)>)
      ensures StampsOf(records, stamps)
      ensures DistinctKeys(stamps, StampOrder)
      ensures forall i, j | 0 <= i < j < |stamps| :: stamps[i].1 != stamps[j].1
    {
      stamps := [];
      var todo := records.Keys;
      while todo != {}
        invariant todo <= records.Keys
        invariant forall i | 0 <= i < |stamps| ::
                    && stamps[i].1 in records && stamps[i].1 !in todo && records[stamps[i].1].visible.None?
                    && records[stamps[i].1].lastTransitionAt == stamps[i].0
        invariant forall k | k in records && k !in todo && records[k].visible.None? ::
                    (records[k].lastTransitionAt, k) in stamps
        invariant forall i, j | 0 <= i < j < |stamps| :: stamps[i].1 != stamps[j].1
        decreases |todo|
      {
        var k :| k in todo;
        todo := todo - {k};
        if records[k].visible.None? {
          stamps := stamps + [(records[k].lastTransitionAt, k)];
        }
      }
      forall i, j | 0 <= i < j < |stamps|
        ensures StampOrder(stamps[i]) != StampOrder(stamps[j])
      {
        assert StampOrder(stamps[i])[1..] == stamps[i].1 && StampOrder(stamps[j])[1..] == stamps[j].1;
      }
    }

    /** Drops the records of the first `excess` stamps. */
    method RemoveOldest(stamps: seq<(nat, Key)>, excess: nat)
      requires excess <= |stamps|
      modifies this`records
      ensures records == old(records) - KeysBefore(stamps, excess)
    {
      for n := 0 to excess
        invariant records == old(records) - KeysBefore(stamps, n)
      {
        assert KeysBefore(stamps, n + 1) == KeysBefore(stamps, n) + {stamps[n].1};
        records := records - {stamps[n].1};
      }
    }

    /** Sorts the tombstones and drops the oldest beyond the bound. */
    method EvictByCount()
      modifies this`records
      ensures records == CountPrune(old(records))
    {
      var tombstones := CollectTombstones();
      SortedEviction(records, tombstones);
      tombstones := SortBy(tombstones, StampOrder);
      if |tombstones| > MAX_RETAINED_TOMBSTONES {
        RemoveOldest(tombstones, |tombstones| - MAX_RETAINED_TOMBSTONES);
      } else {
        NoExcess(records, tombstones);
      }
    }

    method PruneTombstones(now: nat)
      requires Valid()
      modifies this`records
      ensures records == Prune(ByAgeAndCount, old(records), now)
      ensures Valid()
    {
      ghost var before := records;
      records := map k | k in records && WithinHorizon(records[k], now) :: records[k];
      assert records == AgePrune(before, now);
      EvictByCount();
      PruneKeepsVisible(before, now);
    }

    method ObservePeer(peer: Peer, at: nat) returns (transition: Transition)
      requires Valid()
      modifies this
      ensures (records, transition) == Observe(old(records), peer, at)
      ensures Valid()
    {
      var key := peer.key;
      if key in records {
        var record := records[key];
        if at < record.lastTransitionAt {
          return Noop(key, Stale);
        }
        if record.visible.None? && at == record.lastTransitionAt {
          return Noop(key, Stale);
        }
        match record.visible {
          case Some(visible) =>
            transition := if visible.peer == peer then Refreshed(key) else Updated(key);
          case None =>
            visibleCount := visibleCount + 1;
            transition := Appeared(key);
        }
      } else {
        visibleCount := visibleCount + 1;
        transition := Appeared(key);
      }
      NowVisible(records, key, PeerRecord(Some(Visible(peer, at)), at));
      records := records[key := PeerRecord(Some(Visible(peer, at)), at)];
    }

    method RemovePeer(key: Key, at: nat) returns (transition: Transition)
      requires Valid()
      modifies this
      ensures (records, transition) == Remove(old(records), key, at)
      ensures Valid()
    {
      ghost var before := VisibleKeys(records);
      if key !in records {
        records := records[key := PeerRecord(None, at)];
        assert VisibleKeys(records) == before;
        return Noop(key, AlreadyAbsent);
      }
      var record := records[key];
      if at < record.lastTransitionAt {
        return Noop(key, Stale);
      }
      if record.visible.Some? {
        assert key in before;
        records := records[key := PeerRecord(None, at)];
        assert VisibleKeys(records) == before - {key};
        visibleCount := visibleCount - 1;
        return Removed(key, Explicit);
      }
      var latest := if record.lastTransitionAt < at then at else record.lastTransitionAt;
      records := records[key := record.(lastTransitionAt := latest)];
      assert VisibleKeys(records) == before;
      return Noop(key, AlreadyAbsent);
    }

    method ApplyEvent(event: Browser.BrowserEvent, at: nat) returns (transition: Transition)
      requires Valid()
      modifies this
      ensures (records, [transition]) == Step(ByAgeAndCount, old(records), Apply(event, at))
      ensures Valid()
    {
      match event {
        case Error(error) =>
          transition := Rejected(error);
        case Removed(key) =>
          PruneTombstones(at);
          transition := RemovePeer(key, at);
          PruneTombstones(at);
        case Added(peer) =>
          PruneTombstones(at);
          transition := ObservePeer(peer, at);
        case Updated(peer) =>
          PruneTombstones(at);
          transition := ObservePeer(peer, at);
        case Refreshed(peer) =>
          PruneTombstones(at);
          transition := ObservePeer(peer, at);
      }
    }

    /** The visible keys that have outlived their window, in no particular order. */
    method CollectExpired(now: nat, staleAfter: nat) returns (keys: seq<Key>)
      ensures forall k :: k in keys <==> k in ExpiredKeys(records, now, staleAfter)
      ensures DistinctKeys(keys, KeyOrder)
    {
      keys := [];
      var todo := records.Keys;
      while todo != {}
        invariant todo <= records.Keys
        invariant forall k :: k in keys <==> k in ExpiredKeys(records, now, staleAfter) && k !in todo
        invariant DistinctKeys(keys, KeyOrder)
        decreases |todo|
      {
        var k :| k in todo;
        todo := todo - {k};
        if records[k].visible.Some? && IsStale(records[k].visible.value, now, staleAfter) {
          assert forall i | 0 <= i < |keys| :: keys[i] in keys;
          keys := keys + [k];
        }
      }
    }

    /** Hides the given visible peers one after another. */
    method ExpireKeys(keys: seq<Key>, now: nat) returns (transitions: seq<Transition>)
      requires Valid() && DistinctKeys(keys, KeyOrder) && forall k | k in keys :: k in VisibleKeys(records)
      modifies this
      ensures records == Expire(old(records), FirstOf(keys, |keys|), now)
      ensures transitions == ExpiryOf(keys)
      ensures Valid()
    {
      transitions := [];
      ghost var kept := records;
      assert Expire(kept, FirstOf(keys, 0), now) == kept;
      for n := 0 to |keys|
        invariant records == Expire(kept, FirstOf(keys, n), now)
        invariant visibleCount == |VisibleKeys(records)|
        invariant transitions == ExpiryOf(keys[..n])
      {
        var key := keys[n];
        assert key in keys;
        FirstOfStep(keys, n);
        ExpireOne(kept, FirstOf(keys, n), key, now);
        records := records[key := PeerRecord(None, now)];
        visibleCount := visibleCount - 1;
        transitions := transitions + [Removed(key, Expired)];
        assert keys[..n + 1] == keys[..n] + [key];
      }
      assert keys[..|keys|] == keys;
    }

    method ExpirePeers(now: nat, staleAfter: nat) returns (transitions: seq<Transition>)
      requires Valid()
      modifies this
      ensures (records, transitions) == Step(ByAgeAndCount, old(records), ExpireAt(now, staleAfter))
      ensures Valid()
    {
      PruneTombstones(now);
      var expired := CollectExpired(now, staleAfter);
      SortedCollection(expired, ExpiredKeys(records, now, staleAfter));
      expired := SortBy(expired, KeyOrder);
      assert FirstOf(expired, |expired|) == ExpiredKeys(records, now, staleAfter) by {
        assert forall k :: k in expired <==> k in FirstOf(expired, |expired|);
      }
      transitions := ExpireKeys(expired, now);
      PruneTombstones(now);
    }
  }

  lemma PruneKeepsVisible(m: Records, now: nat)
    ensures VisibleKeys(AgePrune(m, now)) == VisibleKeys(m)
    ensures VisibleKeys(CountPrune(m)) == VisibleKeys(m)
    ensures VisibleKeys(CountPrune(AgePrune(m, now))) == VisibleKeys(m)
  {
  }

  /** Sorting the collected stamps and dropping the excess is exactly pruning by count. */
  lemma SortedEviction(m: Records, stamps: seq<(nat, Key)>)
    requires StampsOf(m, stamps) && DistinctKeys(stamps, StampOrder)
    ensures Evict(m, SortBy(stamps, StampOrder)) == CountPrune(m)
  {
    SortByStrict(stamps, StampOrder);
    SortedStamps(m, stamps);
    OldestEvicted(m, SortBy(stamps, StampOrder));
  }

  /** Collecting a set in any order and sorting gives its keys in increasing order. */
  lemma SortedCollection(keys: seq<Key>, s: set<Key>)
    requires DistinctKeys(keys, KeyOrder) && forall k :: k in keys <==> k in s
    ensures SortBy(keys, KeyOrder) == SortedKeys(s) && DistinctKeys(SortBy(keys, KeyOrder), KeyOrder)
    ensures forall k :: k in SortBy(keys, KeyOrder) <==> k in s
  {
    SortByStrict(keys, KeyOrder);
    SameElements(SortBy(keys, KeyOrder), keys);
    StrictlySortedUnique(SortBy(keys, KeyOrder), SortedKeys(s), KeyOrder);
    StrictlySortedDistinct(SortBy(keys, KeyOrder), KeyOrder);
  }
}
