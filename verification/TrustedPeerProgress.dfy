/** Calls on the trusted-peer store finish when nothing gets in their way, and fail only for a reason. */
module TrustedPeerProgress {
  import opened Results
  import opened Bytes
  import opened Ordering
  import opened TrustedPeerCodec
  import opened TrustedPeerLaws
  import opened TrustedPeerMutation
  import opened TrustedPeerStore
  import opened TrustedPeerRuns

  // ---------- failures have a cause ----------

  predicate FailingStep(a: Action) { a.LockFails? || a.StepFails? || a.SyncFails? || a.ReadFails? }

  /** A step of `p` failed since its latest call began. */
  function Troubled(s0: State, actions: seq<Action>, p: Process): bool {
    if actions == [] then false
    else
      var before, a := actions[..|actions| - 1], actions[|actions| - 1];
      if a.p != p || Step(After(s0, before), a).None? then Troubled(s0, before, p)
      else if a.Begin? then false
      else FailingStep(a) || Troubled(s0, before, p)
  }

  ghost predicate Excused(s: State, p: Process, troubled: bool) {
    p in s.phases && s.phases[p].Finishing? ==>
      && (s.phases[p].outcome == Failed(Io) ==> troubled)
      && s.phases[p].outcome != Failed(Busy)
  }

  /** What a process makes of the file it loaded is never blamed on the machine or on others. */
  lemma LoadBlamesNobody(m: Mutation, since: nat, content: File)
    ensures var phase := AfterLoad(m, since, content);
            phase.Finishing? ==> phase.outcome != Failed(Io) && phase.outcome != Failed(Busy)
  {
  }

  lemma StepExcused(s: State, a: Action, p: Process, troubled: bool)
    requires Step(s, a).Some? && Excused(s, p, troubled)
    ensures var after := if a.p != p then troubled else if a.Begin? then false else FailingStep(a) || troubled;
            Excused(Step(s, a).value, p, after)
  {
    if a.Prepare? && a.p == p {
      var phase := PhaseOf(s, p);
      LoadBlamesNobody(phase.mutation, phase.since, phase.content);
    }
  }

  lemma {:induction false} RunExcused(s0: State, actions: seq<Action>, p: Process)
    requires Fresh(s0)
    ensures Excused(After(s0, actions), p, Troubled(s0, actions, p))
  {
    if actions == [] {
    } else {
      var n := |actions| - 1;
      RunExcused(s0, actions[..n], p);
      var s := After(s0, actions[..n]);
      if Step(s, actions[n]).Some? {
        StepExcused(s, actions[n], p, Troubled(s0, actions[..n], p));
      }
    }
  }

  lemma {:induction false} RunLocks(s0: State, actions: seq<Action>)
    requires Fresh(s0)
    ensures LockInv(After(s0, actions))
  {
    if actions == [] {
    } else {
      var n := |actions| - 1;
      RunLocks(s0, actions[..n]);
      if Step(After(s0, actions[..n]), actions[n]).Some? {
        LockStep(After(s0, actions[..n]), actions[n]);
      }
    }
  }

  /** Action number `n` of the run is the one with which call number `i` returns. */
  ghost predicate ReturnsAt(s0: State, actions: seq<Action>, n: nat, i: nat) {
    && n < |actions|
    && var s, t, end := After(s0, actions[..n]), After(s0, actions[..n + 1]), After(s0, actions);
       |s.calls| == i && |t.calls| == i + 1 && i < |end.calls| && t.calls[i] == end.calls[i]
  }

  lemma StepCalls(s: State, a: Action)
    requires Step(s, a).Some?
    ensures var t := Step(s, a).value; |t.calls| <= |s.calls| + 1 && s.calls <= t.calls
  {
  }

  lemma {:induction false} EveryCallReturns(s0: State, actions: seq<Action>, i: nat) returns (n: nat)
    requires Fresh(s0) && i < |After(s0, actions).calls|
    ensures ReturnsAt(s0, actions, n, i)
  {
    var last := |actions| - 1;
    var s := After(s0, actions[..last]);
    if Step(s, actions[last]).Some? {
      StepCalls(s, actions[last]);
    }
    if i < |s.calls| {
      n := EveryCallReturns(s0, actions[..last], i);
      assert actions[..last][..n] == actions[..n] && actions[..last][..n + 1] == actions[..n + 1];
    } else {
      n := last;
      assert actions[..n + 1] == actions;
    }
  }

  /**
   Over every run, a call reports an input or output failure only if a step of its
   process failed during that call, and a busy store only if another process held
   the lock at that moment.
   */
  lemma FailuresHaveCauses(s0: State, actions: seq<Action>, i: nat) returns (n: nat)
    requires Fresh(s0) && i < |After(s0, actions).calls|
    ensures ReturnsAt(s0, actions, n, i)
    ensures var outcome, p := After(s0, actions).calls[i].outcome, actions[n].p;
            && (outcome == Failed(Io) ==> Troubled(s0, actions[..n + 1], p))
            && (outcome == Failed(Busy) ==> actions[n].TryLock? && HeldByOther(After(s0, actions[..n]), p))
  {
    n := EveryCallReturns(s0, actions, i);
    var s := After(s0, actions[..n]);
    assert actions[..n + 1][..n] == actions[..n];
    RunExcused(s0, actions[..n], actions[n].p);
    RunLocks(s0, actions[..n]);
    ReturnExcused(s0, actions[..n], actions[n]);
  }

  /** A call returns a failure that its own step met, or that it carried since an earlier one. */
  lemma ReturnedOutcome(s: State, a: Action)
    requires Step(s, a).Some? && |Step(s, a).value.calls| > |s.calls|
    ensures var outcome, phase := Step(s, a).value.calls[|s.calls|].outcome, PhaseOf(s, a.p);
            var carried := a.p in s.phases && phase.Finishing? && outcome == phase.outcome;
            && (outcome == Failed(Io) ==> FailingStep(a) || carried)
            && (outcome == Failed(Busy) ==> (a.TryLock? && s.lock.Some? && phase.Requested?) || carried)
    ensures !a.Begin?
  {
  }

  lemma ReturnExcused(s0: State, before: seq<Action>, a: Action)
    requires var s := After(s0, before); Step(s, a).Some? && |Step(s, a).value.calls| > |s.calls|
    requires LockInv(After(s0, before)) && Excused(After(s0, before), a.p, Troubled(s0, before, a.p))
    ensures var s := After(s0, before); var outcome := Step(s, a).value.calls[|s.calls|].outcome;
            && (outcome == Failed(Io) ==> Troubled(s0, before + [a], a.p))
            && (outcome == Failed(Busy) ==> a.TryLock? && HeldByOther(s, a.p))
  {
    assert (before + [a])[..|before|] == before;
    ReturnedOutcome(After(s0, before), a);
    assert HoldsLock(PhaseOf(After(s0, before), a.p)) <==> After(s0, before).lock == Some(a.p);
  }

  predicate HeldByOther(s: State, p: Process) { s.lock.Some? && s.lock.value != p }

  // ---------- every step can fail ----------

  /** The failures and crashes that the runs allow for, whatever the state. */
  lemma StepsCanFail(s: State, p: Process)
    ensures var phase := PhaseOf(s, p);
            && (phase.Requested? ==>
                  && Step(s, LockFails(p)).Some?
                  && Step(s, LockFails(p)).value.calls ==
                     s.calls + [Call(phase.op, phase.since, |s.commits|, None, Failed(Io))])
            && (phase.Locked? || phase.Opened? || phase.Prepared? ==>
                  && Step(s, StepFails(p)).Some?
                  && PhaseOf(Step(s, StepFails(p)).value, p) ==
                     Finishing(phase.mutation, phase.since, None, Failed(Io)))
            && (phase.Replaced? ==>
                  && Step(s, SyncFails(p)).Some?
                  && PhaseOf(Step(s, SyncFails(p)).value, p) ==
                     Finishing(phase.mutation, phase.since, Some(phase.at), Failed(Io)))
            && (phase.Reading? ==>
                  && Step(s, ReadFails(p)).Some?
                  && Step(s, ReadFails(p)).value.calls ==
                     s.calls + [Call(Read, phase.since, |s.commits|, None, Failed(Io))])
    ensures Step(s, Crash(p)) ==
            Some(s.(phases := s.phases[p := Idle], lock := if s.lock == Some(p) then None else s.lock))
  {
  }

  // ---------- undisturbed calls ----------

  lemma AfterNext(s0: State, actions: seq<Action>, n: nat, s: State, t: State)
    requires n < |actions| && After(s0, actions[..n]) == s && Step(s, actions[n]) == Some(t)
    ensures After(s0, actions[..n + 1]) == t
  {
    assert actions[..n + 1][..n] == actions[..n];
  }

  lemma AfterSame(s0: State, actions: seq<Action>, n: nat, s: State)
    requires n < |actions| && After(s0, actions[..n]) == s && Step(s, actions[n]) == None
    ensures After(s0, actions[..n + 1]) == s
  {
    assert actions[..n + 1][..n] == actions[..n];
  }

  /** One mutation by `p`, step after step, with nobody else in between. */
  function Alone(p: Process, m: Mutation): seq<Action> {
    [Begin(p, Mutate(m)), TryLock(p), Open(p), Prepare(p), Replace(p), Sync(p), Return(p)]
  }

  /** `s` with the lock taken by `p`, which is in this phase. */
  function Holding(s: State, p: Process, phase: Phase): State { s.(lock := Some(p), phases := s.phases[p := phase]) }

  lemma OnePhase(phases: map<Process, Phase>, p: Process, was: Phase, phase: Phase)
    ensures phases[p := was][p := phase] == phases[p := phase]
  {
  }

  lemma AloneLocks(s: State, p: Process, m: Mutation)
    requires PhaseOf(s, p).Idle? && s.lock == None && ValidMutation(m)
    ensures After(s, Alone(p, m)[..2]) == Holding(s, p, Locked(m, |s.commits|))
  {
    var actions, n := Alone(p, m), |s.commits|;
    var begun := MoveTo(s, p, Requested(Mutate(m), n));
    assert actions[..0] == [];
    AfterNext(s, actions, 0, s, begun);
    OnePhase(s.phases, p, Requested(Mutate(m), n), Locked(m, n));
    AfterNext(s, actions, 1, begun, Holding(s, p, Locked(m, n)));
  }

  lemma AlonePrepares(s: State, p: Process, m: Mutation)
    requires PhaseOf(s, p).Idle? && s.lock == None && ValidMutation(m)
    ensures After(s, Alone(p, m)[..4]) == Holding(s, p, AfterLoad(m, |s.commits|, s.file))
  {
    var actions, n := Alone(p, m), |s.commits|;
    AloneLocks(s, p, m);
    OnePhase(s.phases, p, Locked(m, n), Opened(m, n, s.file));
    AfterNext(s, actions, 2, Holding(s, p, Locked(m, n)), Holding(s, p, Opened(m, n, s.file)));
    OnePhase(s.phases, p, Opened(m, n, s.file), AfterLoad(m, n, s.file));
    AfterNext(s, actions, 3, Holding(s, p, Opened(m, n, s.file)), Holding(s, p, AfterLoad(m, n, s.file)));
  }

  /** `s` after the call of `p` returned without touching the file. */
  function Returning(s: State, p: Process, op: Operation, outcome: Outcome): State {
    s.(phases := s.phases[p := Idle], calls := s.calls + [Call(op, |s.commits|, |s.commits|, None, outcome)])
  }

  /** `s` after the mutation of `p` put these bytes in place and returned. */
  function Committing(s: State, p: Process, m: Mutation, bytes: seq<Byte>, outcome: Outcome): State {
    var n := |s.commits|;
    s.(file := Some(bytes), commits := s.commits + [m], versions := s.versions + [Some(bytes)],
       phases := s.phases[p := Idle], calls := s.calls + [Call(Mutate(m), n, n + 1, Some(n), outcome)])
  }

  /** A process that is finishing has nothing to rename or flush any more; it returns. */
  lemma FinishingSteps(s: State, p: Process, m: Mutation, outcome: Outcome)
    requires s.lock == None
    ensures var finishing := Holding(s, p, Finishing(m, |s.commits|, None, outcome));
            && Step(finishing, Replace(p)) == None && Step(finishing, Sync(p)) == None
            && Step(finishing, Return(p)) == Some(Returning(s, p, Mutate(m), outcome))
  {
    OnePhase(s.phases, p, Finishing(m, |s.commits|, None, outcome), Idle);
  }

  lemma AloneWaits(s: State, p: Process, m: Mutation, outcome: Outcome)
    requires PhaseOf(s, p).Idle? && s.lock == None && ValidMutation(m)
    requires AfterLoad(m, |s.commits|, s.file) == Finishing(m, |s.commits|, None, outcome)
    ensures After(s, Alone(p, m)[..5]) == Holding(s, p, Finishing(m, |s.commits|, None, outcome))
  {
    AlonePrepares(s, p, m);
    FinishingSteps(s, p, m, outcome);
    AfterSame(s, Alone(p, m), 4, Holding(s, p, Finishing(m, |s.commits|, None, outcome)));
  }

  lemma AloneStillWaits(s: State, p: Process, m: Mutation, outcome: Outcome)
    requires PhaseOf(s, p).Idle? && s.lock == None && ValidMutation(m)
    requires AfterLoad(m, |s.commits|, s.file) == Finishing(m, |s.commits|, None, outcome)
    ensures After(s, Alone(p, m)[..6]) == Holding(s, p, Finishing(m, |s.commits|, None, outcome))
  {
    AloneWaits(s, p, m, outcome);
    FinishingSteps(s, p, m, outcome);
    AfterSame(s, Alone(p, m), 5, Holding(s, p, Finishing(m, |s.commits|, None, outcome)));
  }

  lemma AloneStops(s: State, p: Process, m: Mutation, outcome: Outcome)
    requires PhaseOf(s, p).Idle? && s.lock == None && ValidMutation(m)
    requires AfterLoad(m, |s.commits|, s.file) == Finishing(m, |s.commits|, None, outcome)
    ensures After(s, Alone(p, m)) == Returning(s, p, Mutate(m), outcome)
  {
    var actions := Alone(p, m);
    AloneStillWaits(s, p, m, outcome);
    FinishingSteps(s, p, m, outcome);
    AfterNext(s, actions, 6, Holding(s, p, Finishing(m, |s.commits|, None, outcome)),
              Returning(s, p, Mutate(m), outcome));
    assert actions[..7] == actions;
  }

  function Renamed(s: State, p: Process, m: Mutation, bytes: seq<Byte>, phase: Phase): State {
    Holding(s, p, phase).(file := Some(bytes), commits := s.commits + [m], versions := s.versions + [Some(bytes)])
  }

  lemma AloneSteps(s: State, p: Process, m: Mutation, bytes: seq<Byte>)
    requires s.lock == None
    ensures var n := |s.commits|;
            var outcome := if m.Put? then Stored else Removed;
            var replaced := Renamed(s, p, m, bytes, Replaced(m, n, n));
            var finishing := Renamed(s, p, m, bytes, Finishing(m, n, Some(n), outcome));
            && Step(Holding(s, p, Prepared(m, n, bytes)), Replace(p)) == Some(replaced)
            && Step(replaced, Sync(p)) == Some(finishing)
            && Step(finishing, Return(p)) == Some(Committing(s, p, m, bytes, outcome))
  {
    var n := |s.commits|;
    var outcome := if m.Put? then Stored else Removed;
    OnePhase(s.phases, p, Prepared(m, n, bytes), Replaced(m, n, n));
    OnePhase(s.phases, p, Replaced(m, n, n), Finishing(m, n, Some(n), outcome));
    OnePhase(s.phases, p, Finishing(m, n, Some(n), outcome), Idle);
  }

  lemma AloneRenames(s: State, p: Process, m: Mutation, bytes: seq<Byte>)
    requires PhaseOf(s, p).Idle? && s.lock == None && ValidMutation(m)
    requires AfterLoad(m, |s.commits|, s.file) == Prepared(m, |s.commits|, bytes)
    ensures var n := |s.commits|; After(s, Alone(p, m)[..5]) == Renamed(s, p, m, bytes, Replaced(m, n, n))
  {
    var actions, n := Alone(p, m), |s.commits|;
    AlonePrepares(s, p, m);
    AloneSteps(s, p, m, bytes);
    AfterNext(s, actions, 4, Holding(s, p, Prepared(m, n, bytes)), Renamed(s, p, m, bytes, Replaced(m, n, n)));
  }

  lemma AloneSyncs(s: State, p: Process, m: Mutation, bytes: seq<Byte>)
    requires PhaseOf(s, p).Idle? && s.lock == None && ValidMutation(m)
    requires AfterLoad(m, |s.commits|, s.file) == Prepared(m, |s.commits|, bytes)
    ensures var n, outcome := |s.commits|, if m.Put? then Stored else Removed;
            After(s, Alone(p, m)[..6]) == Renamed(s, p, m, bytes, Finishing(m, n, Some(n), outcome))
  {
    var actions, n := Alone(p, m), |s.commits|;
    var outcome := if m.Put? then Stored else Removed;
    AloneRenames(s, p, m, bytes);
    AloneSteps(s, p, m, bytes);
    AfterNext(s, actions, 5, Renamed(s, p, m, bytes, Replaced(m, n, n)),
              Renamed(s, p, m, bytes, Finishing(m, n, Some(n), outcome)));
  }

  lemma AloneCommits(s: State, p: Process, m: Mutation, bytes: seq<Byte>)
    requires PhaseOf(s, p).Idle? && s.lock == None && ValidMutation(m)
    requires AfterLoad(m, |s.commits|, s.file) == Prepared(m, |s.commits|, bytes)
    ensures After(s, Alone(p, m)) == Committing(s, p, m, bytes, if m.Put? then Stored else Removed)
  {
    var actions, n := Alone(p, m), |s.commits|;
    var outcome := if m.Put? then Stored else Removed;
    AloneSyncs(s, p, m, bytes);
    AloneSteps(s, p, m, bytes);
    AfterNext(s, actions, 6, Renamed(s, p, m, bytes, Finishing(m, n, Some(n), outcome)),
              Committing(s, p, m, bytes, outcome));
    assert actions[..7] == actions;
  }

  /** The contents after a mutation, said without its steps. */
  ghost function Mutated(contents: Contents, m: Mutation): Contents {
    if m.Put? then contents[m.record.identity := m.record.labelText] else contents - {m.identity}
  }

  predicate Readable(m: Mutation) { m.Put? ==> Short(m.record) }

  /** What a process is to do with a loaded file, from the contents alone. */
  ghost predicate Decided(phase: Phase, contents: Contents, m: Mutation, since: nat) {
    if m.Put? && |contents| == 128 && m.record.identity !in contents then
      phase == Finishing(m, since, None, Failed(Refused(CapacityExceeded(129))))
    else if m.Delete? && m.identity !in contents then
      phase == Finishing(m, since, None, AlreadyAbsent)
    else
      && phase.Prepared? && phase == Prepared(m, since, phase.bytes)
      && Shows(Some(phase.bytes), Mutated(contents, m), Readable(m))
  }

  lemma LoadDecides(m: Mutation, since: nat, file: File, rs: seq<Record>)
    requires ValidMutation(m) && Load(file) == Ok(rs)
    ensures UniqueIdentities(rs) && Decided(AfterLoad(m, since, file), AsMap(rs), m, since)
  {
    LoadCanonical(file);
    PrepareRefused(rs, m, AsMap(rs));
    RefusedExactly(rs, m);
    if WriteBytes(Plan(rs, m)).Ok? {
      PreparedWrites(rs, m);
    }
    PhaseDecides(m, since, file, rs);
  }

  lemma PhaseDecides(m: Mutation, since: nat, file: File, rs: seq<Record>)
    requires Load(file) == Ok(rs) && UniqueIdentities(rs) && Refusals(rs, m, AsMap(rs))
    requires WriteBytes(Plan(rs, m)).Err? <==> m.Put? && FullWithout(AsMap(rs), m.record.identity)
    requires WriteBytes(Plan(rs, m)).Ok? ==>
               Shows(Some(WriteBytes(Plan(rs, m)).value), Mutated(AsMap(rs), m), Readable(m))
    ensures Decided(AfterLoad(m, since, file), AsMap(rs), m, since)
  {
  }

  lemma PreparedWrites(rs: seq<Record>, m: Mutation)
    requires Canonical(rs) && AllShort(rs) && UniqueIdentities(rs) && ValidMutation(m)
    requires WriteBytes(Plan(rs, m)).Ok?
    ensures Shows(Some(WriteBytes(Plan(rs, m)).value), Mutated(AsMap(rs), m), Readable(m))
  {
    var out := SortBy(Plan(rs, m), RecordKey);
    WriteFits(rs, m);
    PlanCommits(rs, m);
    DecodeEncode(out);
    assert Writes(out, Some(Encode(out)), Mutated(AsMap(rs), m), Readable(m));
  }

  /** The file can be read and has these contents. */
  ghost predicate Holds(file: File, contents: Contents) {
    Load(file).Ok? && UniqueIdentities(Load(file).value) && AsMap(Load(file).value) == contents
  }

  /** What has become of `s` when a mutation of `p` completed on a readable file with these contents. */
  ghost predicate Completed(s: State, t: State, p: Process, m: Mutation, contents: Contents) {
    if m.Put? && |contents| == 128 && m.record.identity !in contents then
      t == Returning(s, p, Mutate(m), Failed(Refused(CapacityExceeded(129))))
    else if m.Delete? && m.identity !in contents then
      t == Returning(s, p, Mutate(m), AlreadyAbsent)
    else
      && t.file.Some? && t == Committing(s, p, m, t.file.value, if m.Put? then Stored else Removed)
      && if Readable(m) then Holds(t.file, Mutated(contents, m)) else Load(t.file).Err?
  }

  lemma UnreadableCompletes(s: State, p: Process, m: Mutation, error: StoreError)
    requires PhaseOf(s, p).Idle? && s.lock == None && ValidMutation(m) && Load(s.file) == Err(error)
    ensures After(s, Alone(p, m)) == Returning(s, p, Mutate(m), Failed(Unreadable(error)))
  {
    AloneStops(s, p, m, Failed(Unreadable(error)));
  }

  /**
   From any state with a free lock and a readable file, the undisturbed steps of a
   mutation complete. A new identity is refused by a full store; an absent identity
   is reported absent; in every other case the mutation is committed, and the new
   file holds the old contents with just that mutation made, and can be read unless
   the new label is over 128 bytes.
   */
  lemma MutationCompletes(s: State, p: Process, m: Mutation, rs: seq<Record>)
    requires PhaseOf(s, p).Idle? && s.lock == None && ValidMutation(m) && Load(s.file) == Ok(rs)
    ensures UniqueIdentities(rs) && Completed(s, After(s, Alone(p, m)), p, m, AsMap(rs))
  {
    LoadDecides(m, |s.commits|, s.file, rs);
    var phase := AfterLoad(m, |s.commits|, s.file);
    if phase.Prepared? {
      AloneCommits(s, p, m, phase.bytes);
      ShownHolds(Some(phase.bytes), Mutated(AsMap(rs), m), Readable(m));
    } else {
      AloneStops(s, p, m, phase.outcome);
    }
  }

  lemma ShownHolds(file: File, contents: Contents, readable: bool)
    requires Shows(file, contents, readable)
    ensures if readable then Holds(file, contents) else Load(file).Err?
  {
    var out: seq<Record> :| Writes(out, file, contents, readable);
    WrittenLoads(out, file, contents, readable);
  }

  function ReadOutcome(file: File): Outcome {
    match Load(file)
    case Ok(rs) => Loaded(rs)
    case Err(e) => Failed(Unreadable(e))
  }

  /** From any state, whoever holds the lock, an undisturbed read returns what the file holds. */
  lemma ReadCompletes(s: State, p: Process)
    requires PhaseOf(s, p).Idle?
    ensures After(s, [Begin(p, Read), OpenToRead(p), FinishRead(p)]) == Returning(s, p, Read, ReadOutcome(s.file))
  {
    var actions, n := [Begin(p, Read), OpenToRead(p), FinishRead(p)], |s.commits|;
    assert actions[..0] == [];
    AfterNext(s, actions, 0, s, MoveTo(s, p, Requested(Read, n)));
    OnePhase(s.phases, p, Requested(Read, n), Reading(n, n, s.file));
    AfterNext(s, actions, 1, MoveTo(s, p, Requested(Read, n)), MoveTo(s, p, Reading(n, n, s.file)));
    OnePhase(s.phases, p, Reading(n, n, s.file), Idle);
    AfterNext(s, actions, 2, MoveTo(s, p, Reading(n, n, s.file)), Returning(s, p, Read, ReadOutcome(s.file)));
    assert actions[..3] == actions;
  }

  /** While another process holds the lock, a mutation gives up at once. */
  lemma BusyReturns(s: State, p: Process, m: Mutation)
    requires PhaseOf(s, p).Idle? && s.lock.Some? && ValidMutation(m)
    ensures After(s, [Begin(p, Mutate(m)), TryLock(p)]) == Returning(s, p, Mutate(m), Failed(Busy))
  {
    var actions, n := [Begin(p, Mutate(m)), TryLock(p)], |s.commits|;
    assert actions[..0] == [];
    AfterNext(s, actions, 0, s, MoveTo(s, p, Requested(Mutate(m), n)));
    OnePhase(s.phases, p, Requested(Mutate(m), n), Idle);
    AfterNext(s, actions, 1, MoveTo(s, p, Requested(Mutate(m), n)), Returning(s, p, Mutate(m), Failed(Busy)));
    assert actions[..2] == actions;
  }
}
