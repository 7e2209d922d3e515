/**
 The trusted-peer store as a protocol between any number of processes.

 A mutation takes the advisory lock without waiting, loads the file, prepares the
 new bytes in a temporary file, renames it over the store, flushes, and drops the
 lock. A reader opens the file without the lock and reads through its pinned
 descriptor. Every step below is one atomic file-system action of one process,
 and any process may fail or crash between two of them.

 `commits`, `versions` and `calls` are history: the mutations renamed into place
 so far, the file after each of them, and the calls that have returned.
 */
module TrustedPeerStore {
  import opened Results
  import opened Bytes
  import opened TrustedPeerCodec
  import opened TrustedPeerLaws
  import opened TrustedPeerMutation

  type Process = nat
  type File = Option<seq<Byte>>

  /** A missing file is an empty store. */
  function Load(file: File): Result<seq<Record>, StoreError> {
    match file
    case None => Ok([])
    case Some(bytes) => Decode(bytes)
  }

  datatype Operation = Mutate(mutation: Mutation) | Read

  datatype Failure = Busy | Io | Unreadable(error: StoreError) | Refused(error: StoreError)

  datatype Outcome = Stored | Removed | AlreadyAbsent | Loaded(records: seq<Record>) | Failed(failure: Failure)

  /**
   Where a process is inside a call. `since` is the number of commits when the
   call began, `seen` the number when it opened the file.
   */
  datatype Phase =
    | Idle
    | Requested(op: Operation, since: nat)
    | Locked(mutation: Mutation, since: nat)
    | Opened(mutation: Mutation, since: nat, content: File)
    | Prepared(mutation: Mutation, since: nat, bytes: seq<Byte>)
    | Replaced(mutation: Mutation, since: nat, at: nat)
    | Finishing(mutation: Mutation, since: nat, commit: Option<nat>, outcome: Outcome)
    | Reading(since: nat, seen: nat, content: File)

  /** A returned call: it ran between `since` and `until` commits, and owns commit number `commit` if any. */
  datatype Call = Call(op: Operation, since: nat, until: nat, commit: Option<nat>, outcome: Outcome)

  datatype State = State(
    file: File,
    lock: Option<Process>,
    phases: map<Process, Phase>,
    commits: seq<Mutation>,
    versions: seq<File>,
    calls: seq<Call>)

  datatype Action =
    | Begin(p: Process, op: Operation)
    | TryLock(p: Process)
    | LockFails(p: Process)
    | Open(p: Process)
    | Prepare(p: Process)
    | StepFails(p: Process)
    | Replace(p: Process)
    | Sync(p: Process)
    | SyncFails(p: Process)
    | Return(p: Process)
    | OpenToRead(p: Process)
    | FinishRead(p: Process)
    | ReadFails(p: Process)
    | Crash(p: Process)

  function PhaseOf(s: State, p: Process): Phase {
    if p in s.phases then s.phases[p] else Idle
  }

  predicate HoldsLock(phase: Phase) {
    phase.Locked? || phase.Opened? || phase.Prepared? || phase.Replaced? || phase.Finishing?
  }

  function MoveTo(s: State, p: Process, phase: Phase): State { s.(phases := s.phases[p := phase]) }

  /** The call of `p` returns. */
  function Returned(s: State, p: Process, op: Operation, since: nat, commit: Option<nat>, outcome: Outcome): State {
    MoveTo(s.(calls := s.calls + [Call(op, since, |s.commits|, commit, outcome)]), p, Idle)
  }

  /** What a mutation does once it has opened the file: decode, modify, check, write a temporary file. */
  function AfterLoad(m: Mutation, since: nat, content: File): Phase {
    match Load(content)
    case Err(e) => Finishing(m, since, None, Failed(Unreadable(e)))
    case Ok(records) =>
      if m.Delete? && Get(records, m.identity).None? then Finishing(m, since, None, AlreadyAbsent)
      else
        match WriteBytes(Plan(records, m))
        case Err(e) => Finishing(m, since, None, Failed(Refused(e)))
        case Ok(bytes) => Prepared(m, since, bytes)
  }

  function Success(m: Mutation): Outcome { if m.Put? then Stored else Removed }

  /** The state after an action, if a process is at the point where it can take it. */
  function Step(s: State, a: Action): Option<State> {
    var phase := PhaseOf(s, a.p);
    match a
    case Begin(p, op) =>
      if phase.Idle? && (op.Mutate? ==> ValidMutation(op.mutation))
      then Some(MoveTo(s, p, Requested(op, |s.commits|))) else None
    case TryLock(p) =>
      if !(phase.Requested? && phase.op.Mutate?) then None
      else if s.lock.None? then Some(MoveTo(s.(lock := Some(p)), p, Locked(phase.op.mutation, phase.since)))
      else Some(Returned(s, p, phase.op, phase.since, None, Failed(Busy)))
    case LockFails(p) =>
      if phase.Requested? then Some(Returned(s, p, phase.op, phase.since, None, Failed(Io))) else None
    case Open(p) =>
      if phase.Locked? then Some(MoveTo(s, p, Opened(phase.mutation, phase.since, s.file))) else None
    case Prepare(p) =>
      if phase.Opened? then Some(MoveTo(s, p, AfterLoad(phase.mutation, phase.since, phase.content))) else None
    case StepFails(p) =>
      if phase.Locked? || phase.Opened? || phase.Prepared?
      then Some(MoveTo(s, p, Finishing(phase.mutation, phase.since, None, Failed(Io)))) else None
    case Replace(p) =>
      if phase.Prepared? then
        Some(MoveTo(s.(file := Some(phase.bytes), commits := s.commits + [phase.mutation],
                       versions := s.versions + [Some(phase.bytes)]),
                    p, Replaced(phase.mutation, phase.since, |s.commits|)))
      else None
    case Sync(p) =>
      if phase.Replaced?
      then Some(MoveTo(s, p, Finishing(phase.mutation, phase.since, Some(phase.at), Success(phase.mutation)))) else None
    case SyncFails(p) =>
      if phase.Replaced?
      then Some(MoveTo(s, p, Finishing(phase.mutation, phase.since, Some(phase.at), Failed(Io)))) else None
    case Return(p) =>
      if phase.Finishing? then
        Some(Returned(s.(lock := None), p, Mutate(phase.mutation), phase.since, phase.commit, phase.outcome))
      else None
    case OpenToRead(p) =>
      if phase.Requested? && phase.op.Read? then Some(MoveTo(s, p, Reading(phase.since, |s.commits|, s.file))) else None
    case FinishRead(p) =>
      if phase.Reading? then
        var outcome :=
          match Load(phase.content)
          case Ok(records) => Loaded(records)
          case Err(e) => Failed(Unreadable(e));
        Some(Returned(s, p, Read, phase.since, None, outcome))
      else None
    case ReadFails(p) =>
      if phase.Reading? then Some(Returned(s, p, Read, phase.since, None, Failed(Io))) else None
    case Crash(p) =>
      Some(MoveTo(if s.lock == Some(p) then s.(lock := None) else s, p, Idle))
  }

  /** Nobody has done anything yet. */
  predicate Fresh(s: State) {
    s.lock == None && s.phases == map[] && s.commits == [] && s.calls == [] && s.versions == [s.file]
  }

  /** The usual start: no file, or one that can be read. */
  predicate Initial(s: State) { Fresh(s) && Load(s.file).Ok? }

  /** The states of a run, given by its actions; a disabled action leaves the state unchanged. */
  function After(s0: State, actions: seq<Action>): State {
    if actions == [] then s0
    else
      var s := After(s0, actions[..|actions| - 1]);
      match Step(s, actions[|actions| - 1])
      case Some(next) => next
      case None => s
  }

  // ---------- what the commits mean ----------

  ghost function InitialContents(s0: State): Contents
    requires Initial(s0)
  {
    LoadCanonical(s0.file);
    AsMap(Load(s0.file).value)
  }

  /** The mutations applied in commit order. */
  ghost function Replay(contents: Contents, commits: seq<Mutation>): Contents {
    if commits == [] then contents
    else Commit(Replay(contents, commits[..|commits| - 1]), commits[|commits| - 1])
  }

  lemma LoadCanonical(file: File)
    requires Load(file).Ok?
    ensures Canonical(Load(file).value) && AllShort(Load(file).value) && UniqueIdentities(Load(file).value)
  {
    if file.Some? {
      DecodeNormalises(file.value);
    }
    SortedUnique(Load(file).value);
  }
}
