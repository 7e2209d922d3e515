/** What the discovery lifecycle promises over every run of public calls, at arbitrary caller times. */
module DiscoveredPeerLaws {
  import opened Results
  import opened Ordering
  import opened DiscoveredPeers
  import Browser

  // ---------- finite sets of tombstones ----------

  lemma {:induction false} SubsetSize<T>(a: set<T>, b: set<T>)
    requires a <= b
    ensures |a| <= |b|
    decreases |a|
  {
    if a == {} {
    } else {
      var x :| x in a;
      SubsetSize(a - {x}, b - {x});
    }
  }

  ghost function StampOf(m: Records, k: Key): seq<int>
    requires k in m
  {
    StampOrder((m[k].lastTransitionAt, k))
  }

  /** Tombstones are ordered by time, and at the same time by key. */
  lemma StampsInOrder(a: (nat, Key), b: (nat, Key))
    ensures Below(StampOrder(a), StampOrder(b)) <==> a.0 < b.0 || (a.0 == b.0 && Below(a.1, b.1))
  {
    assert StampOrder(a)[1..] == a.1 && StampOrder(b)[1..] == b.1;
  }

  lemma StampsDiffer(m: Records, j: Key, k: Key)
    requires j in m && k in m && j != k
    ensures Below(StampOf(m, j), StampOf(m, k)) || Below(StampOf(m, k), StampOf(m, j))
  {
    BelowTotal(StampOf(m, j), StampOf(m, k));
    assert StampOf(m, j)[1..] == j && StampOf(m, k)[1..] == k;
  }

  lemma {:induction false} Oldest(m: Records, s: set<Key>) returns (k: Key)
    requires s != {} && s <= m.Keys
    ensures k in s && forall j | j in s && j != k :: Below(StampOf(m, k), StampOf(m, j))
    decreases |s|
  {
    k :| k in s;
    if s != {k} {
      var rest := Oldest(m, s - {k});
      StampsDiffer(m, k, rest);
      forall j | j in s && j != k && j != rest && Below(StampOf(m, k), StampOf(m, rest))
        ensures Below(StampOf(m, k), StampOf(m, j))
      {
        BelowTransitive(StampOf(m, k), StampOf(m, rest), StampOf(m, j));
      }
      if Below(StampOf(m, rest), StampOf(m, k)) {
        k := rest;
      }
    }
  }

  lemma {:induction false} Newest(m: Records, s: set<Key>) returns (k: Key)
    requires s != {} && s <= m.Keys
    ensures k in s && forall j | j in s && j != k :: Below(StampOf(m, j), StampOf(m, k))
    decreases |s|
  {
    k :| k in s;
    if s != {k} {
      var rest := Newest(m, s - {k});
      StampsDiffer(m, k, rest);
      forall j | j in s && j != k && j != rest && Below(StampOf(m, rest), StampOf(m, k))
        ensures Below(StampOf(m, j), StampOf(m, k))
      {
        BelowTransitive(StampOf(m, j), StampOf(m, rest), StampOf(m, k));
      }
      if Below(StampOf(m, k), StampOf(m, rest)) {
        k := rest;
      }
    }
  }

  // ---------- exact pruning ----------

  lemma SurvivorsBounded(m: Records)
    ensures |Tombstones(CountPrune(m))| <= MAX_RETAINED_TOMBSTONES
  {
    var survivors := Tombstones(CountPrune(m));
    if survivors != {} {
      var x := Oldest(m, survivors);
      assert survivors - {x} <= Newer(m, x);
      SubsetSize(survivors - {x}, Newer(m, x));
    }
  }

  lemma NoneEvictedBelowBound(m: Records)
    requires |Tombstones(CountPrune(m))| < MAX_RETAINED_TOMBSTONES
    ensures CountPrune(m) == m
  {
    var survivors, all := Tombstones(CountPrune(m)), Tombstones(m);
    if all - survivors != {} {
      var y := Newest(m, all - survivors);
      forall j | j in Newer(m, y)
        ensures j in survivors
      {
        BelowAsymmetric(StampOf(m, y), StampOf(m, j));
      }
      SubsetSize(Newer(m, y), survivors);
      assert false;
    }
    forall k | k in m
      ensures k in CountPrune(m)
    {
      if m[k].visible.None? {
        assert k in all;
        assert k !in all - survivors;
        assert k in survivors;
      }
    }
  }

  lemma EvictedOlder(m: Records, x: Key, y: Key)
    requires x in Tombstones(CountPrune(m)) && y in Tombstones(m) && y !in CountPrune(m)
    ensures Below(StampOf(m, y), StampOf(m, x))
  {
    StampsDiffer(m, x, y);
    if Below(StampOf(m, x), StampOf(m, y)) {
      forall j | j in Newer(m, y)
        ensures j in Newer(m, x)
      {
        BelowTransitive(StampOf(m, x), StampOf(m, y), StampOf(m, j));
      }
      SubsetSize(Newer(m, y), Newer(m, x));
      assert false;
    }
  }

  /**
   Pruning at `now` keeps every visible record and, of the tombstones within the
   age horizon, exactly the greatest min(256, n) by time and key.
   */
  lemma PruneExact(m: Records, now: nat)
    ensures var aged := AgePrune(m, now); var kept := Prune(ByAgeAndCount, m, now);
            && Shown(kept) == Shown(m)
            && (forall k | k in kept :: k in m && kept[k] == m[k])
            && (forall k :: k in Tombstones(aged) <==>
                            k in Tombstones(m) && now <= m[k].lastTransitionAt + 300_000_000_000)
            && Tombstones(kept) <= Tombstones(aged)
            && |Tombstones(kept)| == (if |Tombstones(aged)| < 256 then |Tombstones(aged)| else 256)
            && (forall x, y | x in Tombstones(kept) && y in Tombstones(aged) - Tombstones(kept) ::
                  Below(StampOf(m, y), StampOf(m, x)))
  {
    var aged := AgePrune(m, now);
    var kept := CountPrune(aged);
    SurvivorsBounded(aged);
    SubsetSize(Tombstones(kept), Tombstones(aged));
    if |Tombstones(kept)| < 256 {
      NoneEvictedBelowBound(aged);
    }
    forall x, y | x in Tombstones(kept) && y in Tombstones(aged) - Tombstones(kept)
      ensures Below(StampOf(m, y), StampOf(m, x))
    {
      EvictedOlder(aged, x, y);
    }
    assert Shown(kept) == Shown(m);
  }

  /** Within the bound, pruning by count drops nothing. */
  lemma WithinBoundUnchanged(m: Records)
    requires |Tombstones(m)| <= MAX_RETAINED_TOMBSTONES
    ensures CountPrune(m) == m
  {
    forall k | k in m && m[k].visible.None?
      ensures |Newer(m, k)| < MAX_RETAINED_TOMBSTONES
    {
      BelowIrreflexive(StampOf(m, k));
      assert Newer(m, k) <= Tombstones(m) - {k};
      SubsetSize(Newer(m, k), Tombstones(m) - {k});
    }
  }

  // ---------- invariants of every run ----------

  /** A visible record was last observed at its last transition, and is filed under its own key. */
  ghost predicate RecordInv(m: Records) {
    forall k | k in m && m[k].visible.Some? ::
      m[k].visible.value.peer.key == k && m[k].visible.value.lastObservedAt == m[k].lastTransitionAt
  }

  ghost predicate Bounded(m: Records) { |Tombstones(m)| <= MAX_RETAINED_TOMBSTONES }

  ghost function After(pruning: Pruning, calls: seq<Call>): Records {
    if calls == [] then map[] else Step(pruning, After(pruning, calls[..|calls| - 1]), calls[|calls| - 1]).0
  }

  /** What call number `i` of a run returns. */
  ghost function Reply(pruning: Pruning, calls: seq<Call>, i: nat): seq<Transition>
    requires i < |calls|
  {
    Step(pruning, After(pruning, calls[..i]), calls[i]).1
  }

  lemma AfterNext(pruning: Pruning, calls: seq<Call>, i: nat)
    requires i < |calls|
    ensures After(pruning, calls[..i + 1]) == Step(pruning, After(pruning, calls[..i]), calls[i]).0
  {
    assert calls[..i + 1][..i] == calls[..i];
  }

  lemma StepKeepsRecordInv(pruning: Pruning, m: Records, call: Call)
    requires RecordInv(m)
    ensures RecordInv(Step(pruning, m, call).0)
  {
    var kept := Prune(pruning, m, call.at);
    PruneKeepsRecordInv(pruning, m, call.at);
    match call
    case Apply(Error(_), _) =>
    case Apply(Removed(key), at) =>
      PruneKeepsRecordInv(pruning, Remove(kept, key, at).0, at);
    case ExpireAt(now, staleAfter) =>
      PruneKeepsRecordInv(pruning, Expire(kept, ExpiredKeys(kept, now, staleAfter), now), now);
    case Apply(event, at) =>
  }

  lemma PruneKeepsRecordInv(pruning: Pruning, m: Records, now: nat)
    requires RecordInv(m)
    ensures RecordInv(Prune(pruning, m, now))
  {
  }

  lemma StepKeepsBound(m: Records, call: Call)
    requires Bounded(m)
    ensures Bounded(Step(ByAgeAndCount, m, call).0)
  {
    match call
    case Apply(Error(_), _) =>
    case Apply(Removed(key), at) =>
      SurvivorsBounded(AgePrune(Remove(Prune(ByAgeAndCount, m, at), key, at).0, at));
    case ExpireAt(now, staleAfter) =>
      var kept := Prune(ByAgeAndCount, m, now);
      SurvivorsBounded(AgePrune(Expire(kept, ExpiredKeys(kept, now, staleAfter), now), now));
    case Apply(event, at) =>
      var kept := Prune(ByAgeAndCount, m, at);
      SurvivorsBounded(AgePrune(m, at));
      SubsetSize(Tombstones(Observe(kept, event.peer, at).0), Tombstones(kept));
  }

  /** Every public call leaves at most 256 tombstones and times that agree, whatever times the caller passes. */
  lemma {:induction false} RunInvariants(calls: seq<Call>)
    ensures RecordInv(After(ByAgeAndCount, calls)) && Bounded(After(ByAgeAndCount, calls))
  {
    if calls == [] {
      assert Tombstones(map[]) == {};
    } else {
      var before := calls[..|calls| - 1];
      RunInvariants(before);
      StepKeepsRecordInv(ByAgeAndCount, After(ByAgeAndCount, before), calls[|calls| - 1]);
      StepKeepsBound(After(ByAgeAndCount, before), calls[|calls| - 1]);
    }
  }

  // ---------- what is left is recent ----------

  /** No tombstone is more than 300 seconds older than `now`. */
  ghost predicate Recent(m: Records, now: nat) {
    forall k | k in m && m[k].visible.None? :: now <= m[k].lastTransitionAt + 300_000_000_000
  }

  lemma PruneRecent(m: Records, now: nat)
    ensures Recent(Prune(ByAgeAndCount, m, now), now)
  {
    PruneExact(m, now);
    forall k | k in Prune(ByAgeAndCount, m, now) && Prune(ByAgeAndCount, m, now)[k].visible.None?
      ensures now <= Prune(ByAgeAndCount, m, now)[k].lastTransitionAt + 300_000_000_000
    {
      assert k in Tombstones(AgePrune(m, now));
    }
  }

  /** After any call but an error, at any time, no tombstone is left that is over 300 seconds old at that time. */
  lemma TombstonesRecent(calls: seq<Call>)
    requires calls != []
    requires var last := calls[|calls| - 1]; last.Apply? ==> !last.event.Error?
    ensures Recent(After(ByAgeAndCount, calls), calls[|calls| - 1].at)
  {
    StepRecent(After(ByAgeAndCount, calls[..|calls| - 1]), calls[|calls| - 1]);
  }

  lemma StepRecent(m: Records, call: Call)
    requires call.Apply? ==> !call.event.Error?
    ensures Recent(Step(ByAgeAndCount, m, call).0, call.at)
  {
    var kept := Prune(ByAgeAndCount, m, call.at);
    match call
    case Apply(Error(_), _) =>
    case Apply(Removed(key), at) => PruneRecent(Remove(kept, key, at).0, at);
    case ExpireAt(now, staleAfter) => PruneRecent(Expire(kept, ExpiredKeys(kept, now, staleAfter), now), now);
    case Apply(event, at) => PruneRecent(m, at);
  }

  /** The prune at the start of a call only drops tombstones past the age horizon. */
  lemma FirstPruneByAge(m: Records, now: nat)
    requires Bounded(m)
    ensures Prune(ByAgeAndCount, m, now) == AgePrune(m, now)
    ensures |Tombstones(AgePrune(m, now))| <= MAX_RETAINED_TOMBSTONES
  {
    SubsetSize(Tombstones(AgePrune(m, now)), Tombstones(m));
    WithinBoundUnchanged(AgePrune(m, now));
  }

  /** The time of a retained key never goes back; for expiry this rests on the times agreeing. */
  lemma TimesNeverDecrease(m: Records, call: Call, k: Key)
    requires RecordInv(m) && Bounded(m) && k in m && k in Step(ByAgeAndCount, m, call).0
    ensures m[k].lastTransitionAt <= Step(ByAgeAndCount, m, call).0[k].lastTransitionAt
  {
    FirstPruneByAge(m, call.at);
  }

  // ---------- expiry ----------

  lemma PruningShows(pruning: Pruning, m: Records, now: nat)
    ensures Shown(Prune(pruning, m, now)) == Shown(m)
    ensures forall k | k in Prune(pruning, m, now) :: k in m && Prune(pruning, m, now)[k] == m[k]
    ensures forall k | k in m && m[k].visible.Some? :: k in Prune(pruning, m, now)
  {
  }

  /** Expired keys depend only on what is shown. */
  ghost function StaleKeys(shown: map<Key, Visible>, now: nat, staleAfter: nat): set<Key> {
    set k | k in shown && IsStale(shown[k], now, staleAfter)
  }

  lemma ExpireShows(pruning: Pruning, m: Records, now: nat, staleAfter: nat)
    ensures var (after, transitions) := Step(pruning, m, ExpireAt(now, staleAfter));
            && Shown(after) == Shown(m) - StaleKeys(Shown(m), now, staleAfter)
            && transitions == ExpiryOf(SortedKeys(StaleKeys(Shown(m), now, staleAfter)))
  {
    PruningShows(pruning, m, now);
    var kept := Prune(pruning, m, now);
    var expired := ExpiredKeys(kept, now, staleAfter);
    StaleAreExpired(kept, now, staleAfter);
    PruningShows(pruning, Expire(kept, expired, now), now);
  }

  lemma StaleAreExpired(m: Records, now: nat, staleAfter: nat)
    ensures var expired := ExpiredKeys(m, now, staleAfter);
            expired == StaleKeys(Shown(m), now, staleAfter) && Shown(Expire(m, expired, now)) == Shown(m) - expired
  {
  }

  /** Each key of the set is reported as expired, and nothing else is. */
  ghost predicate ReportsExactly(transitions: seq<Transition>, expired: set<Key>) {
    && (forall k | k in expired :: Removed(k, Expired) in transitions)
    && (forall t | t in transitions :: t.Removed? && t.reason.Expired? && t.key in expired)
  }

  ghost predicate InKeyOrder(transitions: seq<Transition>) {
    forall i, j | 0 <= i < j < |transitions| ::
      transitions[i].Removed? && transitions[j].Removed? && Below(transitions[i].key, transitions[j].key)
  }

  lemma ExpiryReports(expired: set<Key>)
    ensures ReportsExactly(ExpiryOf(SortedKeys(expired)), expired) && InKeyOrder(ExpiryOf(SortedKeys(expired)))
    ensures expired == {} ==> ExpiryOf(SortedKeys(expired)) == []
  {
    ExpiryOfSorted(SortedKeys(expired), expired);
  }

  lemma ExpiryOfSorted(keys: seq<Key>, expired: set<Key>)
    requires StrictlySorted(keys, KeyOrder) && forall k :: k in keys <==> k in expired
    ensures ReportsExactly(ExpiryOf(keys), expired) && InKeyOrder(ExpiryOf(keys))
    ensures expired == {} ==> ExpiryOf(keys) == []
  {
    var transitions := ExpiryOf(keys);
    forall k | k in expired
      ensures Removed(k, Expired) in transitions
    {
      var i :| 0 <= i < |keys| && keys[i] == k;
      assert transitions[i] == Removed(k, Expired);
    }
    assert keys != [] ==> keys[0] in keys;
    assert forall i | 0 <= i < |keys| :: keys[i] in keys;
    forall i, j | 0 <= i < j < |transitions|
      ensures Below(transitions[i].key, transitions[j].key)
    {
      assert Below(KeyOrder(keys[i]), KeyOrder(keys[j]));
    }
  }

  /**
   Expiry removes exactly the visible keys whose window has elapsed, reports each
   once in increasing key order, leaves every other visible peer untouched, and an
   immediate repeat reports nothing.
   */
  lemma ExpireExact(pruning: Pruning, m: Records, now: nat, staleAfter: nat)
    ensures var (after, transitions) := Step(pruning, m, ExpireAt(now, staleAfter));
            var stale := set k | k in Shown(m) && now >= Shown(m)[k].lastObservedAt
                                 && now - Shown(m)[k].lastObservedAt >= staleAfter;
            && Shown(after) == Shown(m) - stale
            && ReportsExactly(transitions, stale) && InKeyOrder(transitions)
            && Step(pruning, after, ExpireAt(now, staleAfter)).1 == []
  {
    var after := Step(pruning, m, ExpireAt(now, staleAfter)).0;
    var stale := StaleKeys(Shown(m), now, staleAfter);
    assert stale == set k | k in Shown(m) && now >= Shown(m)[k].lastObservedAt
                            && now - Shown(m)[k].lastObservedAt >= staleAfter;
    ExpireShows(pruning, m, now, staleAfter);
    ExpiryReports(stale);
    ExpireShows(pruning, after, now, staleAfter);
    assert StaleKeys(Shown(m) - stale, now, staleAfter) == {};
    ExpiryReports({});
  }

  // ---------- no resurrection ----------

  predicate Observes(call: Call, k: Key) {
    call.Apply? && (call.event.Added? || call.event.Updated? || call.event.Refreshed?) && call.event.peer.key == k
  }

  /** The tombstone of `k` stamped `t` is gone after a call at `now`, for one of the two allowed reasons. */
  ghost predicate Forgotten(after: Records, now: nat, k: Key, t: nat) {
    && k !in after
    && (|| now > t + TOMBSTONE_RETENTION
        || (&& |Tombstones(after)| == MAX_RETAINED_TOMBSTONES
            && forall j | j in Tombstones(after) :: Below(StampOrder((t, k)), StampOf(after, j))))
  }

  /** Pruning forgets a tombstone only by age or because 256 newer ones remain. */
  lemma PruneForgets(m: Records, now: nat, k: Key)
    requires k in Tombstones(m)
    ensures var after := Prune(ByAgeAndCount, m, now);
            if k in after then after[k] == m[k] else Forgotten(after, now, k, m[k].lastTransitionAt)
  {
    var aged := AgePrune(m, now);
    PruneExact(m, now);
    SurvivorsBounded(aged);
    if |Tombstones(CountPrune(aged))| < MAX_RETAINED_TOMBSTONES {
      NoneEvictedBelowBound(aged);
    }
    var after := CountPrune(aged);
    if k in aged && k !in after {
      assert k in Tombstones(aged) - Tombstones(after);
      forall j | j in Tombstones(after)
        ensures Below(StampOrder((m[k].lastTransitionAt, k)), StampOf(after, j))
      {
        assert StampOf(after, j) == StampOf(m, j);
      }
    }
  }

  /** What one call can do to a tombstone, at any time the caller passes. */
  lemma TombstoneStep(m: Records, call: Call, k: Key)
    requires RecordInv(m) && Bounded(m) && k in Tombstones(m)
    ensures var after := Step(ByAgeAndCount, m, call).0; var t := m[k].lastTransitionAt;
            || (k in Tombstones(after) && t <= after[k].lastTransitionAt)
            || (k in after && after[k].visible.Some? && Observes(call, k) && call.at > t)
            || Forgotten(after, call.at, k, t)
  {
    var t := m[k].lastTransitionAt;
    FirstPruneByAge(m, call.at);
    var kept := AgePrune(m, call.at);
    if call.Apply? && call.event.Removed? {
      var gone := Remove(kept, call.event.key, call.at).0;
      if k in gone {
        PruneForgets(gone, call.at, k);
        LaterStamp(Step(ByAgeAndCount, m, call).0, k, t, gone[k].lastTransitionAt);
      } else {
        PruningShows(ByAgeAndCount, gone, call.at);
      }
    } else if call.ExpireAt? {
      var gone := Expire(kept, ExpiredKeys(kept, call.at, call.staleAfter), call.at);
      if k in gone {
        PruneForgets(gone, call.at, k);
      } else {
        PruningShows(ByAgeAndCount, gone, call.at);
      }
    }
  }

  /** A reason that holds for a later stamp of the key holds for an earlier one. */
  lemma LaterStamp(after: Records, k: Key, t: nat, later: nat)
    requires t <= later
    ensures forall j | j in after && Below(StampOrder((later, k)), StampOf(after, j)) ::
              Below(StampOrder((t, k)), StampOf(after, j))
  {
    forall j | j in after && Below(StampOrder((later, k)), StampOf(after, j))
      ensures Below(StampOrder((t, k)), StampOf(after, j))
    {
      if t < later {
        assert Below(StampOrder((t, k)), StampOrder((later, k)));
        BelowTransitive(StampOrder((t, k)), StampOrder((later, k)), StampOf(after, j));
      }
    }
  }

  /** Call number `n` either observed the key after `t`, or ended with its tombstone forgotten. */
  ghost predicate Excuses(calls: seq<Call>, n: nat, k: Key, t: nat)
    requires n < |calls|
  {
    || (Observes(calls[n], k) && calls[n].at > t)
    || Forgotten(After(ByAgeAndCount, calls[..n + 1]), calls[n].at, k, t)
  }

  /**
   No resurrection, whatever times the caller passes, even backwards: a key that
   left at `t` is visible again only after an observation later than `t`, or after
   its tombstone was dropped past the age horizon or in favour of 256 newer ones.
   */
  lemma {:induction false} NoResurrection(calls: seq<Call>, i: nat, j: nat, k: Key)
    requires i <= j <= |calls|
    requires k in Tombstones(After(ByAgeAndCount, calls[..i]))
    requires k in Shown(After(ByAgeAndCount, calls[..j]))
    ensures var t := After(ByAgeAndCount, calls[..i])[k].lastTransitionAt;
            exists n | i <= n < j :: Excuses(calls, n, k, t)
    decreases j - i
  {
    var m := After(ByAgeAndCount, calls[..i]);
    var t := m[k].lastTransitionAt;
    if i < j {
      RunInvariants(calls[..i]);
      AfterNext(ByAgeAndCount, calls, i);
      TombstoneStep(m, calls[i], k);
      var after := After(ByAgeAndCount, calls[..i + 1]);
      if k in Tombstones(after) && t <= after[k].lastTransitionAt {
        NoResurrection(calls, i + 1, j, k);
        var later := after[k].lastTransitionAt;
        var n :| i + 1 <= n < j && Excuses(calls, n, k, later);
        LaterStamp(After(ByAgeAndCount, calls[..n + 1]), k, t, later);
        assert Excuses(calls, n, k, t);
      } else {
        assert Excuses(calls, i, k, t);
      }
    }
  }

  // ---------- one call in a reachable state, at any time ----------

  /** Every other key keeps its record, unless its tombstone is dropped. */
  ghost predicate OthersKept(m: Records, after: Records, now: nat, changed: set<Key>) {
    && (forall k | k in after && k !in changed :: k in m && after[k] == m[k])
    && (forall k | k in m && k !in changed && k !in after ::
          m[k].visible.None? && Forgotten(after, now, k, m[k].lastTransitionAt))
  }

  /** The key is left with a tombstone of this time, unless 256 later ones crowd it out. */
  ghost predicate LeftAt(after: Records, key: Key, at: nat) {
    if key in after then after[key] == PeerRecord(None, at) else Forgotten(after, at, key, at)
  }

  lemma PruneKeepsOthers(m: Records, after: Records, now: nat)
    requires after == Prune(ByAgeAndCount, m, now)
    ensures forall k | k in after :: k in m && after[k] == m[k]
    ensures forall k | k in m && k !in after :: m[k].visible.None? && Forgotten(after, now, k, m[k].lastTransitionAt)
  {
    PruneExact(m, now);
    forall k | k in m && k !in after
      ensures m[k].visible.None? && Forgotten(after, now, k, m[k].lastTransitionAt)
    {
      if m[k].visible.None? {
        PruneForgets(m, now, k);
      }
    }
  }

  /**
   In any reachable state an observation is refused as stale exactly when the key's
   record is later, or is a tombstone of the very same time; the prune that comes
   first never drops the tombstone that would refuse it. Otherwise the peer is shown
   with this time, and the reply tells whether it was hidden, the same or different.
   No other key changes.
   */
  lemma StaleExact(calls: seq<Call>, event: Browser.BrowserEvent, at: nat)
    requires event.Added? || event.Updated? || event.Refreshed?
    ensures var m, peer := After(ByAgeAndCount, calls), event.peer;
            var (after, reply) := Step(ByAgeAndCount, m, Apply(event, at));
            var refused := peer.key in m && (at < m[peer.key].lastTransitionAt
                                             || (m[peer.key].visible.None? && at == m[peer.key].lastTransitionAt));
            && (refused <==> reply == [Noop(peer.key, Stale)])
            && (refused ==> peer.key in after && after[peer.key] == m[peer.key])
            && (!refused ==> peer.key in Shown(after) && Shown(after)[peer.key] == Visible(peer, at))
  {
    var m := After(ByAgeAndCount, calls);
    RunInvariants(calls);
    FirstPruneByAge(m, at);
  }

  lemma ObservationExact(calls: seq<Call>, event: Browser.BrowserEvent, at: nat)
    requires event.Added? || event.Updated? || event.Refreshed?
    ensures var m, peer := After(ByAgeAndCount, calls), event.peer;
            var (after, reply) := Step(ByAgeAndCount, m, Apply(event, at));
            && OthersKept(m, after, at, {peer.key})
            && (reply != [Noop(peer.key, Stale)] ==>
                  && after[peer.key] == PeerRecord(Some(Visible(peer, at)), at)
                  && reply == [if peer.key !in Shown(m) then Appeared(peer.key)
                               else if Shown(m)[peer.key].peer == peer then Refreshed(peer.key)
                               else Updated(peer.key)])
  {
    var m := After(ByAgeAndCount, calls);
    var kept := Prune(ByAgeAndCount, m, at);
    StaleExact(calls, event, at);
    RunInvariants(calls);
    FirstPruneByAge(m, at);
    PruneKeepsOthers(m, kept, at);
    ForgottenAfterObserving(kept, Observe(kept, event.peer, at).0, event.peer.key, at);
  }

  /** Showing one key takes no reason away from the tombstones that were dropped by age. */
  lemma ForgottenAfterObserving(kept: Records, after: Records, key: Key, now: nat)
    requires forall k | k in after && k != key :: k in kept && after[k] == kept[k]
    requires forall k | k in kept && k != key :: k in after
    ensures forall k, t: nat | k != key && k !in kept && now > t + TOMBSTONE_RETENTION :: Forgotten(after, now, k, t)
  {
  }

  /**
   In any reachable state a removal is refused as stale exactly when the key's record
   is later; otherwise it leaves a tombstone of this time, hides the peer, and the
   reply tells whether there was one to hide. No other key changes.
   */
  lemma RemovalExact(calls: seq<Call>, key: Key, at: nat)
    ensures var m := After(ByAgeAndCount, calls);
            var (after, reply) := Step(ByAgeAndCount, m, Apply(Browser.Removed(key), at));
            var refused := key in m && at < m[key].lastTransitionAt;
            && OthersKept(m, after, at, {key})
            && reply == [if refused then Noop(key, Stale)
                         else if key in Shown(m) then Removed(key, Explicit)
                         else Noop(key, AlreadyAbsent)]
            && (if refused then KeptOrForgotten(m, after, key, at) else LeftAt(after, key, at))
  {
    var m := After(ByAgeAndCount, calls);
    RunInvariants(calls);
    FirstPruneByAge(m, at);
    RemovalStep(m, key, at);
  }

  ghost predicate KeptOrForgotten(m: Records, after: Records, key: Key, now: nat)
    requires key in m
  {
    if key in after then after[key] == m[key]
    else m[key].visible.None? && Forgotten(after, now, key, m[key].lastTransitionAt)
  }

  lemma RemovalStep(m: Records, key: Key, at: nat)
    requires Prune(ByAgeAndCount, m, at) == AgePrune(m, at)
    ensures var (after, reply) := Step(ByAgeAndCount, m, Apply(Browser.Removed(key), at));
            var refused := key in m && at < m[key].lastTransitionAt;
            && OthersKept(m, after, at, {key})
            && reply == [if refused then Noop(key, Stale)
                         else if key in Shown(m) then Removed(key, Explicit)
                         else Noop(key, AlreadyAbsent)]
            && (if refused then KeptOrForgotten(m, after, key, at) else LeftAt(after, key, at))
  {
    var kept := AgePrune(m, at);
    var gone := Remove(kept, key, at).0;
    var after := Prune(ByAgeAndCount, gone, at);
    PruneKeepsOthers(gone, after, at);
  }

  /**
   Expiry leaves each expired key a tombstone of this time, and no other key changes;
   an error changes nothing at all.
   */
  lemma ExpiryLeaves(calls: seq<Call>, now: nat, staleAfter: nat)
    ensures var m := After(ByAgeAndCount, calls);
            var after := Step(ByAgeAndCount, m, ExpireAt(now, staleAfter)).0;
            var stale := StaleKeys(Shown(m), now, staleAfter);
            OthersKept(m, after, now, stale) && forall k | k in stale :: LeftAt(after, k, now)
  {
    var m := After(ByAgeAndCount, calls);
    RunInvariants(calls);
    FirstPruneByAge(m, now);
    var kept := AgePrune(m, now);
    var expired := ExpiredKeys(kept, now, staleAfter);
    StaleAreExpired(kept, now, staleAfter);
    PruningShows(ByAgeAndCount, m, now);
    PruneKeepsOthers(Expire(kept, expired, now), Prune(ByAgeAndCount, Expire(kept, expired, now), now), now);
  }

  lemma ErrorChangesNothing(calls: seq<Call>, error: Browser.BrowserError, at: nat)
    ensures var m := After(ByAgeAndCount, calls);
            Step(ByAgeAndCount, m, Apply(Browser.Error(error), at)) == (m, [Rejected(error)])
  {
  }
}
