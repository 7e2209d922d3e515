/** Safety of the trusted-peer store over every run of every number of processes. */
module TrustedPeerRuns {
  import opened Results
  import opened Ordering
  import opened TrustedPeerCodec
  import opened TrustedPeerLaws
  import opened TrustedPeerMutation
  import opened TrustedPeerStore

  // ---------- the invariant ----------

  /** A file written by a commit: canonical records with these contents, readable or not as stated. */
  ghost predicate Shows(file: File, contents: Contents, readable: bool) {
    exists rs: seq<Record> :: Writes(rs, file, contents, readable)
  }

  ghost predicate Writes(rs: seq<Record>, file: File, contents: Contents, readable: bool) {
    && Canonical(rs) && UniqueIdentities(rs) && AsMap(rs) == contents
    && file == Some(Encode(rs)) && (AllShort(rs) <==> readable)
  }

  ghost predicate LockInv(s: State) {
    forall p: Process :: HoldsLock(PhaseOf(s, p)) <==> s.lock == Some(p)
  }

  ghost predicate HistoryInv(base: Contents, file: File, s: State) {
    && |s.versions| == |s.commits| + 1
    && s.versions[0] == file
    && s.file == s.versions[|s.commits|]
    && VersionsInv(Shows, base, s.versions, s.commits)
    && OnlyLastUnreadable(s.commits)
  }

  /** What a version is to be, given the contents it should show and whether it can be read. */
  type Claim = (File, Contents, bool) -> bool

  /** Every version after the first is as claimed for the replay of the commits up to it. */
  ghost predicate VersionsInv(claim: Claim, base: Contents, versions: seq<File>, commits: seq<Mutation>)
    requires |versions| == |commits| + 1
  {
    forall k | 0 <= k < |commits| :: VersionInv(claim, base, versions, commits, k)
  }

  ghost predicate VersionInv(claim: Claim, base: Contents, versions: seq<File>, commits: seq<Mutation>, k: nat)
    requires |versions| == |commits| + 1 && k < |commits|
  {
    claim(versions[k + 1], Replay(base, commits[..k + 1]), ReadableMutation(commits[k]))
  }

  ghost predicate OnlyLastUnreadable(commits: seq<Mutation>) {
    forall k | 0 <= k < |commits| - 1 :: ReadableMutation(commits[k])
  }

  /** What is true of a mutation that ran between `since` and `until` commits with this outcome. */
  ghost predicate MutationDone(base: Contents, versions: seq<File>, commits: seq<Mutation>, m: Mutation,
                               since: nat, until: nat, commit: Option<nat>, outcome: Outcome)
  {
    && since <= until <= |commits|
    && (commit.Some? ==> since <= commit.value < until && CommittedAt(base, commits, m, commit.value))
    && match outcome
       case Stored => m.Put? && commit.Some?
       case Removed => m.Delete? && commit.Some?
       case AlreadyAbsent => m.Delete? && commit.None? && AbsentSometime(base, commits, m.identity, since, until)
       case Loaded(_) => false
       case Failed(failure) =>
         && (failure != Io ==> commit.None?)
         && (failure.Unreadable? ==> BadVersion(versions, since, until, failure.error))
         && (failure.Refused? ==> && failure.error == CapacityExceeded(MAX_TRUSTED_PEERS + 1) && m.Put?
                                  && FullSometime(base, commits, m.record.identity, since, until))
  }

  /** Some version of that span is refused with this error. */
  ghost predicate BadVersion(versions: seq<File>, since: nat, until: nat, error: StoreError) {
    exists n | since <= n <= until && n < |versions| :: Load(versions[n]) == Err(error)
  }

  ghost predicate FullSometime(base: Contents, commits: seq<Mutation>, id: Identity, since: nat, until: nat)
    requires since <= until <= |commits|
  {
    exists n: nat | since <= n <= until :: FullWithout(Replay(base, commits[..n]), id)
  }

  /** Commit number `k` is this mutation, and a removal really removed something. */
  ghost predicate CommittedAt(base: Contents, commits: seq<Mutation>, m: Mutation, k: nat) {
    && k < |commits| && commits[k] == m
    && (m.Delete? ==> m.identity in Replay(base, commits[..k]))
  }

  ghost predicate AbsentSometime(base: Contents, commits: seq<Mutation>, id: Identity, since: nat, until: nat)
    requires since <= until <= |commits|
  {
    exists n: nat | since <= n <= until :: id !in Replay(base, commits[..n])
  }

  ghost predicate PhaseInv(base: Contents, s: State, phase: Phase) {
    match phase
    case Idle => true
    case Requested(op, since) => since <= |s.commits| && (op.Mutate? ==> ValidMutation(op.mutation))
    case Locked(m, since) => since <= |s.commits| && ValidMutation(m)
    case Opened(m, since, content) => since <= |s.commits| && ValidMutation(m) && content == s.file
    case Prepared(m, since, bytes) =>
      && since <= |s.commits| && ValidMutation(m)
      && Load(s.file).Ok? && WriteBytes(Plan(Load(s.file).value, m)) == Ok(bytes)
      && (m.Delete? ==> Get(Load(s.file).value, m.identity).Some?)
    case Replaced(m, since, at) => since <= at && CommittedAt(base, s.commits, m, at)
    case Finishing(m, since, commit, outcome) =>
      MutationDone(base, s.versions, s.commits, m, since, |s.commits|, commit, outcome)
    case Reading(since, seen, content) =>
      since <= seen <= |s.commits| && seen < |s.versions| && content == s.versions[seen]
  }

  ghost predicate ReadDone(s: State, c: Call) {
    && c.since <= c.until <= |s.commits| && c.until < |s.versions| && c.commit.None?
    && match c.outcome
       case Loaded(rs) => exists n | c.since <= n <= c.until :: Load(s.versions[n]) == Ok(rs)
       case Failed(Io) => true
       case Failed(Unreadable(error)) => BadVersion(s.versions, c.since, c.until, error)
       case _ => false
  }

  ghost predicate CallInv(base: Contents, s: State, c: Call) {
    match c.op
    case Mutate(m) => MutationDone(base, s.versions, s.commits, m, c.since, c.until, c.commit, c.outcome)
    case Read => ReadDone(s, c)
  }

  function CommitOf(phase: Phase): Option<nat> {
    match phase
    case Replaced(_, _, at) => Some(at)
    case Finishing(_, _, commit, _) => commit
    case _ => None
  }

  /** No commit belongs to two calls. */
  ghost predicate OwnInv(s: State) {
    && (forall i, j | 0 <= i < j < |s.calls| && s.calls[i].commit.Some? :: s.calls[i].commit != s.calls[j].commit)
    && (forall p, i | p in s.phases && 0 <= i < |s.calls| && CommitOf(s.phases[p]).Some? ::
          s.calls[i].commit != CommitOf(s.phases[p]))
  }

  ghost predicate Inv(s0: State, s: State)
    requires Initial(s0)
  {
    && LockInv(s)
    && HistoryInv(InitialContents(s0), s0.file, s)
    && (forall p | p in s.phases :: PhaseInv(InitialContents(s0), s, s.phases[p]))
    && (forall i | 0 <= i < |s.calls| :: CallInv(InitialContents(s0), s, s.calls[i]))
    && OwnInv(s)
  }

  // ---------- versions and loads ----------

  /** Each version reads back as the replay of the commits up to it, unless the last of them has a long label. */
  lemma VersionLoads(s0: State, s: State, k: nat)
    requires Initial(s0) && HistoryInv(InitialContents(s0), s0.file, s) && k <= |s.commits|
    ensures Load(s.versions[k]).Ok? <==> k == 0 || ReadableMutation(s.commits[k - 1])
    ensures Load(s.versions[k]).Ok? ==>
              var rs := Load(s.versions[k]).value;
              && Canonical(rs) && AllShort(rs) && UniqueIdentities(rs)
              && AsMap(rs) == Replay(InitialContents(s0), s.commits[..k])
  {
    if k == 0 {
      LoadCanonical(s0.file);
    } else {
      assert VersionInv(Shows, InitialContents(s0), s.versions, s.commits, k - 1);
      var rs: seq<Record> :|
        Writes(rs, s.versions[k], Replay(InitialContents(s0), s.commits[..k]), ReadableMutation(s.commits[k - 1]));
      WrittenLoads(rs, s.versions[k], Replay(InitialContents(s0), s.commits[..k]), ReadableMutation(s.commits[k - 1]));
    }
  }

  lemma WrittenLoads(rs: seq<Record>, file: File, contents: Contents, readable: bool)
    requires Writes(rs, file, contents, readable)
    ensures Load(file).Ok? <==> readable
    ensures readable ==> Load(file) == Ok(rs) && AllShort(rs) && Canonical(rs)
    ensures UniqueIdentities(rs) && AsMap(rs) == contents
  {
    DecodeEncode(rs);
  }

  lemma GetFindsContents(rs: seq<Record>, id: Identity)
    requires StrictlySorted(rs, RecordKey) && UniqueIdentities(rs)
    ensures Get(rs, id).Some? <==> id in AsMap(rs)
  {
    GetAgreesWithLinearSearch(rs, id);
    LinearSearchExact(rs, id);
    if id in AsMap(rs) {
      assert Record(id, AsMap(rs)[id]) in rs;
    }
  }

  lemma CurrentLoad(s0: State, s: State)
    requires Initial(s0) && HistoryInv(InitialContents(s0), s0.file, s) && Load(s.file).Ok?
    ensures Canonical(Load(s.file).value) && AllShort(Load(s.file).value) && UniqueIdentities(Load(s.file).value)
    ensures AsMap(Load(s.file).value) == Replay(InitialContents(s0), s.commits)
  {
    VersionLoads(s0, s, |s.commits|);
    assert s.commits[..|s.commits|] == s.commits;
  }

  // ---------- growth: facts about the past survive new commits ----------

  lemma BadVersionStays(versions: seq<File>, more: seq<File>, since: nat, until: nat, error: StoreError)
    requires versions <= more && BadVersion(versions, since, until, error)
    ensures BadVersion(more, since, until, error)
  {
    var n :| since <= n <= until && n < |versions| && Load(versions[n]) == Err(error);
    assert Load(more[n]) == Err(error);
  }

  lemma DoneGrows(base: Contents, versions: seq<File>, commits: seq<Mutation>, later: seq<File>, more: seq<Mutation>,
                  m: Mutation, since: nat, until: nat, commit: Option<nat>, outcome: Outcome)
    requires MutationDone(base, versions, commits, m, since, until, commit, outcome) && versions <= later
    ensures MutationDone(base, later, commits + more, m, since, until, commit, outcome)
  {
    var all := commits + more;
    forall n | 0 <= n <= |commits|
      ensures all[..n] == commits[..n]
    {
    }
    if outcome.AlreadyAbsent? {
      var n: nat :| since <= n <= until && m.identity !in Replay(base, commits[..n]);
      assert m.identity !in Replay(base, all[..n]);
    } else if outcome.Failed? && outcome.failure.Unreadable? {
      BadVersionStays(versions, later, since, until, outcome.failure.error);
    } else if outcome.Failed? && outcome.failure.Refused? {
      var id := m.record.identity;
      var n: nat :| since <= n <= until && FullWithout(Replay(base, commits[..n]), id);
      assert FullWithout(Replay(base, all[..n]), id);
    }
  }

  /** `t` continues `s`: nothing of the history is rewritten. */
  ghost predicate Extends(s: State, t: State) {
    && s.commits <= t.commits && s.versions <= t.versions
    && |s.versions| == |s.commits| + 1 && |t.versions| == |t.commits| + 1
  }

  lemma CallGrows(base: Contents, s: State, t: State, c: Call)
    requires Extends(s, t) && CallInv(base, s, c)
    ensures CallInv(base, t, c)
  {
    if c.op.Mutate? {
      DoneGrows(base, s.versions, s.commits, t.versions, t.commits[|s.commits|..],
                c.op.mutation, c.since, c.until, c.commit, c.outcome);
      assert t.commits == s.commits + t.commits[|s.commits|..];
    } else if c.outcome.Loaded? {
      var n :| c.since <= n <= c.until && Load(s.versions[n]) == Ok(c.outcome.records);
      assert Load(t.versions[n]) == Ok(c.outcome.records);
    } else if c.outcome.failure.Unreadable? {
      BadVersionStays(s.versions, t.versions, c.since, c.until, c.outcome.failure.error);
    }
  }

  // ---------- every step keeps the invariant ----------

  lemma LockStep(s: State, a: Action)
    requires LockInv(s) && Step(s, a).Some?
    ensures LockInv(Step(s, a).value)
  {
    var t := Step(s, a).value;
    forall q: Process
      ensures HoldsLock(PhaseOf(t, q)) <==> t.lock == Some(q)
    {
      assert HoldsLock(PhaseOf(s, q)) <==> s.lock == Some(q);
      assert HoldsLock(PhaseOf(s, a.p)) <==> s.lock == Some(a.p);
      assert q != a.p ==> PhaseOf(t, q) == PhaseOf(s, q);
    }
  }

  lemma StepExtends(s0: State, s: State, a: Action)
    requires Initial(s0) && HistoryInv(InitialContents(s0), s0.file, s) && Step(s, a).Some?
    ensures Extends(s, Step(s, a).value)
    ensures var t := Step(s, a).value; t.versions[0] == s.versions[0] && t.file == t.versions[|t.commits|]
    ensures !a.Replace? ==> var t := Step(s, a).value;
                            t.commits == s.commits && t.versions == s.versions && t.file == s.file
  {
  }

  /** A rename appends a version that shows exactly the contents after the new commit. */
  lemma ReplaceShows(s0: State, s: State, phase: Phase)
    requires Initial(s0) && HistoryInv(InitialContents(s0), s0.file, s)
    requires phase.Prepared? && PhaseInv(InitialContents(s0), s, phase)
    ensures Shows(Some(phase.bytes), Replay(InitialContents(s0), s.commits + [phase.mutation]),
                  ReadableMutation(phase.mutation))
    ensures phase.mutation.Delete? ==> phase.mutation.identity in Replay(InitialContents(s0), s.commits)
  {
    var base, m := InitialContents(s0), phase.mutation;
    var rs := Load(s.file).value;
    CurrentLoad(s0, s);
    WriteFits(rs, m);
    PlanCommits(rs, m);
    var out := SortBy(Plan(rs, m), RecordKey);
    DecodeEncode(out);
    assert (s.commits + [m])[..|s.commits|] == s.commits;
    assert Writes(out, Some(phase.bytes), Replay(base, s.commits + [m]), ReadableMutation(m));
    if m.Delete? {
      GetFindsContents(rs, m.identity);
    }
  }

  lemma ReplaceVersions(claim: Claim, base: Contents, s: State, t: State, m: Mutation)
    requires |s.versions| == |s.commits| + 1 && VersionsInv(claim, base, s.versions, s.commits)
    requires t.commits == s.commits + [m] && t.versions == s.versions + [t.file]
    requires claim(t.file, Replay(base, t.commits), ReadableMutation(m))
    ensures VersionsInv(claim, base, t.versions, t.commits)
  {
    forall k | 0 <= k < |t.commits|
      ensures VersionInv(claim, base, t.versions, t.commits, k)
    {
      if k < |s.commits| {
        assert VersionInv(claim, base, s.versions, s.commits, k);
        assert t.commits[..k + 1] == s.commits[..k + 1];
      } else {
        assert t.commits[..k + 1] == t.commits;
      }
    }
  }

  lemma LoadableReadable(s0: State, s: State)
    requires Initial(s0) && HistoryInv(InitialContents(s0), s0.file, s) && Load(s.file).Ok?
    ensures forall k | 0 <= k < |s.commits| :: ReadableMutation(s.commits[k])
  {
    VersionLoads(s0, s, |s.commits|);
  }

  lemma RenameEffect(s: State, a: Action)
    requires a.Replace? && Step(s, a).Some?
    ensures a.p in s.phases && s.phases[a.p].Prepared?
    ensures var phase, t := s.phases[a.p], Step(s, a).value;
            && t.file == Some(phase.bytes) && t.commits == s.commits + [phase.mutation]
            && t.versions == s.versions + [Some(phase.bytes)]
  {
  }

  lemma RenameStep(s0: State, s: State, t: State, phase: Phase)
    requires Initial(s0) && HistoryInv(InitialContents(s0), s0.file, s)
    requires phase.Prepared? && PhaseInv(InitialContents(s0), s, phase)
    requires t.file == Some(phase.bytes) && t.commits == s.commits + [phase.mutation]
    requires t.versions == s.versions + [Some(phase.bytes)]
    ensures Shows(t.file, Replay(InitialContents(s0), t.commits), ReadableMutation(phase.mutation))
    ensures OnlyLastUnreadable(t.commits)
  {
    ReplaceShows(s0, s, phase);
    LoadableReadable(s0, s);
  }

  lemma HistoryStep(s0: State, s: State, a: Action, t: State)
    requires Initial(s0) && Inv(s0, s) && Step(s, a) == Some(t)
    ensures |t.versions| == |t.commits| + 1
    ensures VersionsInv(Shows, InitialContents(s0), t.versions, t.commits) && OnlyLastUnreadable(t.commits)
  {
    var base := InitialContents(s0);
    if a.Replace? {
      RenameEffect(s, a);
      var phase := s.phases[a.p];
      assert PhaseInv(base, s, phase);
      RenameStep(s0, s, t, phase);
      ReplaceVersions(Shows, base, s, t, phase.mutation);
    } else {
      StepExtends(s0, s, a);
      assert t.versions == s.versions && t.commits == s.commits;
    }
  }

  /** A process that does not act keeps its part of the invariant. */
  lemma OtherPhase(s0: State, s: State, a: Action, q: Process)
    requires Initial(s0) && Inv(s0, s) && Step(s, a).Some? && q != a.p && q in s.phases
    ensures var t := Step(s, a).value; q in t.phases && PhaseInv(InitialContents(s0), t, t.phases[q])
  {
    var t := Step(s, a).value;
    StepExtends(s0, s, a);
    assert t.phases[q] == s.phases[q] && PhaseInv(InitialContents(s0), s, s.phases[q]);
    if a.Replace? {
      assert HoldsLock(PhaseOf(s, a.p)) && PhaseOf(s, q) == s.phases[q];
      assert !HoldsLock(PhaseOf(s, q));
    }
  }

  lemma PreparePhase(s0: State, s: State, phase: Phase)
    requires Initial(s0) && HistoryInv(InitialContents(s0), s0.file, s)
    requires phase.Opened? && PhaseInv(InitialContents(s0), s, phase)
    ensures PhaseInv(InitialContents(s0), s, AfterLoad(phase.mutation, phase.since, phase.content))
  {
    var n := |s.commits|;
    if Load(s.file).Ok? {
      var rs, contents := Load(s.file).value, Replay(InitialContents(s0), s.commits[..n]);
      CurrentLoad(s0, s);
      assert s.commits[..n] == s.commits;
      PrepareRefused(rs, phase.mutation, contents);
      LoadedPhase(InitialContents(s0), s, phase, rs, contents);
    } else {
      assert Load(s.versions[n]).Err?;
    }
  }

  /** The phase after a successful load, from what the loaded list says. */
  lemma LoadedPhase(base: Contents, s: State, phase: Phase, rs: seq<Record>, contents: Contents)
    requires phase.Opened? && PhaseInv(base, s, phase)
    requires Load(s.file) == Ok(rs) && contents == Replay(base, s.commits[..|s.commits|])
    requires Refusals(rs, phase.mutation, contents)
    ensures PhaseInv(base, s, AfterLoad(phase.mutation, phase.since, phase.content))
  {
  }

  ghost predicate Refusals(rs: seq<Record>, m: Mutation, contents: Contents) {
    && (m.Delete? ==> (Get(rs, m.identity).Some? <==> m.identity in contents))
    && (WriteBytes(Plan(rs, m)).Err? ==>
          && WriteBytes(Plan(rs, m)) == Err(CapacityExceeded(MAX_TRUSTED_PEERS + 1))
          && m.Put? && FullWithout(contents, m.record.identity))
  }

  /** From a loaded list a mutation finds nothing to remove, or is refused, only if the contents say so. */
  lemma PrepareRefused(rs: seq<Record>, m: Mutation, contents: Contents)
    requires Canonical(rs) && AllShort(rs) && UniqueIdentities(rs) && AsMap(rs) == contents && ValidMutation(m)
    ensures Refusals(rs, m, contents)
  {
    RefusedExactly(rs, m);
    if m.Delete? {
      GetFindsContents(rs, m.identity);
    }
  }

  lemma ActingPhase(s0: State, s: State, a: Action)
    requires Initial(s0) && Inv(s0, s) && Step(s, a).Some?
    ensures var t := Step(s, a).value; a.p in t.phases && PhaseInv(InitialContents(s0), t, t.phases[a.p])
  {
    var t := Step(s, a).value;
    var phase := PhaseOf(s, a.p);
    var base := InitialContents(s0);
    if a.Prepare? {
      PreparePhase(s0, s, phase);
      assert t.phases[a.p] == AfterLoad(phase.mutation, phase.since, phase.content);
      SamePhaseInv(base, s, t, t.phases[a.p]);
    } else if a.Replace? {
      ReplaceShows(s0, s, phase);
      assert t.commits[..|s.commits|] == s.commits;
    }
  }

  lemma SamePhaseInv(base: Contents, s: State, t: State, phase: Phase)
    requires PhaseInv(base, s, phase)
    requires t.commits == s.commits && t.versions == s.versions && t.file == s.file
    ensures PhaseInv(base, t, phase)
  {
  }

  /** A call that returns meets its promise at the moment it returns. */
  lemma ReturningCall(s0: State, s: State, a: Action)
    requires Initial(s0) && Inv(s0, s) && Step(s, a).Some?
    ensures var t := Step(s, a).value;
            t.calls == s.calls || (|t.calls| == |s.calls| + 1 && t.calls[..|s.calls|] == s.calls
                                   && CallInv(InitialContents(s0), t, t.calls[|s.calls|])
                                   && t.calls[|s.calls|].commit == CommitOf(PhaseOf(s, a.p)))
  {
    var t := Step(s, a).value;
    var phase := PhaseOf(s, a.p);
    if a.FinishRead? {
      var c := t.calls[|s.calls|];
      assert phase.since <= phase.seen <= c.until && Load(t.versions[phase.seen]) == Load(phase.content);
    }
  }

  lemma CallStep(s0: State, s: State, a: Action)
    requires Initial(s0) && Inv(s0, s) && Step(s, a).Some?
    ensures var t := Step(s, a).value; forall i | 0 <= i < |t.calls| :: CallInv(InitialContents(s0), t, t.calls[i])
  {
    var t := Step(s, a).value;
    ReturningCall(s0, s, a);
    StepExtends(s0, s, a);
    forall i | 0 <= i < |t.calls|
      ensures CallInv(InitialContents(s0), t, t.calls[i])
    {
      if i < |s.calls| {
        assert t.calls[i] == s.calls[i];
        CallGrows(InitialContents(s0), s, t, s.calls[i]);
      }
    }
  }

  lemma CallCommitBound(s0: State, s: State, i: nat)
    requires Initial(s0) && Inv(s0, s) && i < |s.calls| && s.calls[i].commit.Some?
    ensures s.calls[i].commit.value < |s.commits|
  {
    assert CallInv(InitialContents(s0), s, s.calls[i]);
  }

  lemma OwnStep(s0: State, s: State, a: Action)
    requires Initial(s0) && Inv(s0, s) && Step(s, a).Some?
    ensures OwnInv(Step(s, a).value)
  {
    PhasesOwnStep(s0, s, a);
    CallsOwnStep(s0, s, a);
  }

  lemma PhasesOwnStep(s0: State, s: State, a: Action)
    requires Initial(s0) && Inv(s0, s) && Step(s, a).Some?
    ensures var t := Step(s, a).value;
            forall p, i | p in t.phases && 0 <= i < |t.calls| && CommitOf(t.phases[p]).Some? ::
              t.calls[i].commit != CommitOf(t.phases[p])
  {
    var t := Step(s, a).value;
    forall p, i | p in t.phases && 0 <= i < |t.calls| && CommitOf(t.phases[p]).Some?
      ensures t.calls[i].commit != CommitOf(t.phases[p])
    {
      if p == a.p {
        ActorOwnStep(s0, s, a, i);
      } else {
        OtherOwnStep(s0, s, a, p, i);
      }
    }
  }

  lemma ActorOwnStep(s0: State, s: State, a: Action, i: nat)
    requires Initial(s0) && Inv(s0, s) && Step(s, a).Some? && i < |Step(s, a).value.calls|
    ensures var t := Step(s, a).value;
            a.p in t.phases && CommitOf(t.phases[a.p]).Some? ==> t.calls[i].commit != CommitOf(t.phases[a.p])
  {
    if i < |s.calls| && a.Replace? && s.calls[i].commit.Some? {
      CallCommitBound(s0, s, i);
    }
  }

  lemma OtherOwnStep(s0: State, s: State, a: Action, p: Process, i: nat)
    requires Initial(s0) && Inv(s0, s) && Step(s, a).Some? && i < |Step(s, a).value.calls|
    requires p != a.p && p in Step(s, a).value.phases && CommitOf(Step(s, a).value.phases[p]).Some?
    ensures Step(s, a).value.calls[i].commit != CommitOf(Step(s, a).value.phases[p])
  {
    assert HoldsLock(PhaseOf(s, p)) <==> s.lock == Some(p);
    assert HoldsLock(PhaseOf(s, a.p)) <==> s.lock == Some(a.p);
  }

  lemma CallsOwnStep(s0: State, s: State, a: Action)
    requires Initial(s0) && Inv(s0, s) && Step(s, a).Some?
    ensures var t := Step(s, a).value;
            forall i, j | 0 <= i < j < |t.calls| && t.calls[i].commit.Some? :: t.calls[i].commit != t.calls[j].commit
  {
    var t := Step(s, a).value;
    ReturningCall(s0, s, a);
    forall i, j | 0 <= i < j < |t.calls| && t.calls[i].commit.Some?
      ensures t.calls[i].commit != t.calls[j].commit
    {
      assert t.calls[i] == s.calls[i];
      if j == |s.calls| && a.p in s.phases {
        assert CommitOf(s.phases[a.p]).Some? ==> s.calls[i].commit != CommitOf(s.phases[a.p]);
      }
    }
  }

  lemma StepPreserves(s0: State, s: State, a: Action)
    requires Initial(s0) && Inv(s0, s) && Step(s, a).Some?
    ensures Inv(s0, Step(s, a).value)
  {
    var t := Step(s, a).value;
    LockStep(s, a);
    HistoryStep(s0, s, a, t);
    StepExtends(s0, s, a);
    CallStep(s0, s, a);
    OwnStep(s0, s, a);
    forall q | q in t.phases
      ensures PhaseInv(InitialContents(s0), t, t.phases[q])
    {
      if q == a.p {
        ActingPhase(s0, s, a);
      } else {
        OtherPhase(s0, s, a, q);
      }
    }
  }

  /** Every state of every run satisfies the invariant. */
  lemma {:induction false} RunSafe(s0: State, actions: seq<Action>)
    requires Initial(s0)
    ensures Inv(s0, After(s0, actions))
  {
    if actions != [] {
      var before := actions[..|actions| - 1];
      RunSafe(s0, before);
      if Step(After(s0, before), actions[|actions| - 1]).Some? {
        StepPreserves(s0, After(s0, before), actions[|actions| - 1]);
      }
    } else {
      assert s0.phases == map[];
    }
  }

  // ---------- what callers may rely on ----------

  /**
   The file can be read if and only if every committed label is at most 128 bytes,
   and then it holds exactly the replay of the commits: no update is lost.
   */
  lemma FileIsReplay(s0: State, actions: seq<Action>)
    requires Initial(s0)
    ensures var s := After(s0, actions);
            && (Load(s.file).Ok? <==> forall k | 0 <= k < |s.commits| :: ReadableMutation(s.commits[k]))
            && (Load(s.file).Ok? ==>
                  && UniqueIdentities(Load(s.file).value)
                  && AsMap(Load(s.file).value) == Replay(InitialContents(s0), s.commits))
  {
    var s := After(s0, actions);
    RunSafe(s0, actions);
    VersionLoads(s0, s, |s.commits|);
    if Load(s.file).Ok? {
      CurrentLoad(s0, s);
    }
  }

  /**
   Each returned call took effect once, at a moment between its start and its
   return. A successful `store` or `remove` owns a commit of its own; a busy,
   unreadable or refused call owns none; only a failed flush may own a commit.
   A read returned one whole version, the replay of the commits up to it. A call that
   found the file unreadable names the error of a version current during the call,
   and a mutation is refused only for a new identity while the store was full.
   */
  lemma CallsLinearize(s0: State, actions: seq<Action>, i: nat)
    requires Initial(s0) && i < |After(s0, actions).calls|
    ensures var s := After(s0, actions); var c := s.calls[i];
            && c.since <= c.until <= |s.commits|
            && (c.op.Mutate? ==> MutationDone(InitialContents(s0), s.versions, s.commits, c.op.mutation,
                                              c.since, c.until, c.commit, c.outcome))
            && (c.op.Read? ==> ReadDone(s, c))
            && (c.outcome.Loaded? ==> exists n | c.since <= n <= c.until ::
                  ReadsVersion(InitialContents(s0), s.commits, n, c.outcome.records))
            && (c.commit.Some? ==> forall j | 0 <= j < |s.calls| && j != i :: s.calls[j].commit != c.commit)
  {
    var s := After(s0, actions);
    var c := s.calls[i];
    RunSafe(s0, actions);
    assert CallInv(InitialContents(s0), s, c);
    if c.outcome.Loaded? {
      var n :| c.since <= n <= c.until && Load(s.versions[n]) == Ok(c.outcome.records);
      VersionLoads(s0, s, n);
      assert ReadsVersion(InitialContents(s0), s.commits, n, c.outcome.records);
    }
  }

  /** As long as every committed label is short, no call ever finds the file unreadable. */
  lemma NeverUnreadable(s0: State, actions: seq<Action>, i: nat)
    requires Initial(s0) && i < |After(s0, actions).calls|
    requires forall m | m in After(s0, actions).commits :: ReadableMutation(m)
    ensures var outcome := After(s0, actions).calls[i].outcome; outcome.Failed? ==> !outcome.failure.Unreadable?
  {
    var s := After(s0, actions);
    var c := s.calls[i];
    RunSafe(s0, actions);
    assert CallInv(InitialContents(s0), s, c);
    forall n | 0 <= n < |s.versions|
      ensures Load(s.versions[n]).Ok?
    {
      VersionLoads(s0, s, n);
    }
  }

  ghost predicate ReadsVersion(base: Contents, commits: seq<Mutation>, n: int, rs: seq<Record>) {
    && 0 <= n <= |commits| && UniqueIdentities(rs) && AsMap(rs) == Replay(base, commits[..n])
  }

  // ---------- where commits come from ----------

  ghost predicate Begun(actions: seq<Action>, m: Mutation) {
    exists p: Process :: Begin(p, Mutate(m)) in actions
  }

  function MutationOf(phase: Phase): Option<Mutation> {
    match phase
    case Requested(Mutate(m), _) => Some(m)
    case Locked(m, _) => Some(m)
    case Opened(m, _, _) => Some(m)
    case Prepared(m, _, _) => Some(m)
    case _ => None
  }

  ghost predicate Sourced(s: State, actions: seq<Action>) {
    && (forall m | m in s.commits :: Begun(actions, m))
    && (forall p | p in s.phases && MutationOf(s.phases[p]).Some? :: Begun(actions, MutationOf(s.phases[p]).value))
  }

  lemma BegunEarlier(earlier: seq<Action>, a: Action, m: Mutation)
    requires Begun(earlier, m)
    ensures Begun(earlier + [a], m)
  {
    var p: Process :| Begin(p, Mutate(m)) in earlier;
    assert Begin(p, Mutate(m)) in earlier + [a];
  }

  lemma StepSourced(s: State, earlier: seq<Action>, a: Action)
    requires Sourced(s, earlier)
    ensures Sourced(s, earlier + [a])
    ensures Step(s, a).Some? ==> Sourced(Step(s, a).value, earlier + [a])
  {
    forall m | Begun(earlier, m)
      ensures Begun(earlier + [a], m)
    {
      BegunEarlier(earlier, a, m);
    }
    assert a in earlier + [a];
  }

  /** Nothing is committed that no process asked for. */
  lemma {:induction false} CommitsWereBegun(s0: State, actions: seq<Action>)
    requires Initial(s0)
    ensures Sourced(After(s0, actions), actions)
  {
    if actions == [] {
    } else {
      var n := |actions| - 1;
      CommitsWereBegun(s0, actions[..n]);
      StepSourced(After(s0, actions[..n]), actions[..n], actions[n]);
      assert actions == actions[..n] + [actions[n]];
    }
  }

  // ---------- what commits mean to later ones ----------

  /** An identity whose removal was committed is trusted again only through a later commit that stores it. */
  lemma {:induction false} RemovedStaysRemoved(base: Contents, commits: seq<Mutation>, i: nat, id: Identity)
    requires i < |commits| && commits[i] == Delete(id)
    requires forall k | i < k < |commits| && commits[k].Put? :: commits[k].record.identity != id
    ensures id !in Replay(base, commits)
    decreases |commits|
  {
    var before := commits[..|commits| - 1];
    if i < |before| {
      assert forall k | 0 <= k < |before| :: before[k] == commits[k];
      RemovedStaysRemoved(base, before, i, id);
    }
  }

  /** A committed record stays, label and all, until a later commit for the same identity. */
  lemma {:induction false} StoredStaysStored(base: Contents, commits: seq<Mutation>, i: nat)
    requires i < |commits| && commits[i].Put?
    requires forall k | i < k < |commits| ::
               var id := if commits[k].Put? then commits[k].record.identity else commits[k].identity;
               id != commits[i].record.identity
    ensures var r, contents := commits[i].record, Replay(base, commits);
            r.identity in contents && contents[r.identity] == r.labelText
    decreases |commits|
  {
    var before := commits[..|commits| - 1];
    if i < |before| {
      assert forall k | 0 <= k < |before| :: before[k] == commits[k];
      StoredStaysStored(base, before, i);
    }
  }

  /** Two histories that leave the same contents leave the same bytes. */
  lemma BytesAreCanonical(s0: State, actions: seq<Action>, t0: State, others: seq<Action>)
    requires Initial(s0) && Initial(t0)
    requires After(s0, actions).commits != [] && After(t0, others).commits != []
    requires Replay(InitialContents(s0), After(s0, actions).commits) ==
             Replay(InitialContents(t0), After(t0, others).commits)
    ensures After(s0, actions).file == After(t0, others).file
  {
    var a := WrittenRecords(s0, actions);
    var b := WrittenRecords(t0, others);
    ContentsDetermineRecords(a, b);
  }

  lemma WrittenRecords(s0: State, actions: seq<Action>) returns (rs: seq<Record>)
    requires Initial(s0) && After(s0, actions).commits != []
    ensures Canonical(rs) && UniqueIdentities(rs) && After(s0, actions).file == Some(Encode(rs))
    ensures AsMap(rs) == Replay(InitialContents(s0), After(s0, actions).commits)
  {
    RunSafe(s0, actions);
    rs := LastVersion(InitialContents(s0), After(s0, actions));
  }

  lemma LastVersion(base: Contents, s: State) returns (rs: seq<Record>)
    requires |s.versions| == |s.commits| + 1 && VersionsInv(Shows, base, s.versions, s.commits) && s.commits != []
    ensures Writes(rs, s.versions[|s.commits|], Replay(base, s.commits), ReadableMutation(s.commits[|s.commits| - 1]))
  {
    var n := |s.commits|;
    assert VersionInv(Shows, base, s.versions, s.commits, n - 1);
    assert s.commits[..n] == s.commits;
    rs :| Writes(rs, s.versions[n], Replay(base, s.commits), ReadableMutation(s.commits[n - 1]));
  }

  /** Once a label over 128 bytes is committed, no continuation of the run ever replaces the file again. */
  lemma {:induction false} LongLabelFreezesStore(s0: State, actions: seq<Action>, more: seq<Action>)
    requires Initial(s0)
    requires exists k | 0 <= k < |After(s0, actions).commits| :: !ReadableMutation(After(s0, actions).commits[k])
    ensures After(s0, actions + more).file == After(s0, actions).file
    ensures After(s0, actions + more).commits == After(s0, actions).commits
    decreases |more|
  {
    if more == [] {
      assert actions + more == actions;
    } else {
      var before := more[..|more| - 1];
      LongLabelFreezesStore(s0, actions, before);
      assert (actions + more)[..|actions + more| - 1] == actions + before;
      var s := After(s0, actions + before);
      FileIsReplay(s0, actions + before);
      RunSafe(s0, actions + before);
      var a := (actions + more)[|actions + more| - 1];
      assert a.p in s.phases ==> PhaseInv(InitialContents(s0), s, s.phases[a.p]);
    }
  }

  // ---------- a corrupt store fails closed ----------

  /** The ways a call can fail on a file that is refused with `error`. */
  predicate FailsClosed(outcome: Outcome, error: StoreError) {
    outcome in {Failed(Io), Failed(Busy), Failed(Unreadable(error))}
  }

  ghost predicate Untouched(s0: State, s: State, error: StoreError) {
    && s.file == s0.file && s.versions == s0.versions && s.commits == []
    && (forall p | p in s.phases ::
          match s.phases[p]
          case Opened(_, _, content) => content == s0.file
          case Reading(_, _, content) => content == s0.file
          case Finishing(_, _, commit, outcome) => commit == None && FailsClosed(outcome, error)
          case Prepared(_, _, _) => false
          case Replaced(_, _, _) => false
          case _ => true)
    && (forall c | c in s.calls :: c.commit == None && FailsClosed(c.outcome, error))
  }

  lemma StepUntouched(s0: State, s: State, error: StoreError, a: Action)
    requires Load(s0.file) == Err(error) && Untouched(s0, s, error) && Step(s, a).Some?
    ensures Untouched(s0, Step(s, a).value, error)
  {
    var t := Step(s, a).value;
    assert a.p in s.phases ==> PhaseOf(s, a.p) == s.phases[a.p];
    assert forall q | q in t.phases && q != a.p :: q in s.phases && t.phases[q] == s.phases[q];
  }

  /**
   From a file that cannot be read, no run of any number of processes replaces it or
   commits anything, and every call that returns reports a failure: the file's own
   error, a busy lock, or input and output.
   */
  lemma {:induction false} CorruptStaysClosed(s0: State, actions: seq<Action>, error: StoreError)
    requires Fresh(s0) && Load(s0.file) == Err(error)
    ensures var s := After(s0, actions);
            && s.file == s0.file && s.commits == []
            && forall c | c in s.calls :: c.commit == None && FailsClosed(c.outcome, error)
    ensures Untouched(s0, After(s0, actions), error)
  {
    if actions == [] {
    } else {
      var n := |actions| - 1;
      CorruptStaysClosed(s0, actions[..n], error);
      var s := After(s0, actions[..n]);
      if Step(s, actions[n]).Some? {
        StepUntouched(s0, s, error, actions[n]);
      }
    }
  }

  /** At most one process is between taking the lock and dropping it. */
  lemma MutualExclusion(s0: State, actions: seq<Action>, p: Process, q: Process)
    requires Initial(s0)
    requires var s := After(s0, actions); HoldsLock(PhaseOf(s, p)) && HoldsLock(PhaseOf(s, q))
    ensures p == q
  {
    RunSafe(s0, actions);
  }
}
