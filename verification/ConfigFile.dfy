/**
 A small configuration file that several processes create and read at once.

 Both the device identifier and the display name are kept this way. Loading reads
 the file; when it is absent, the caller writes its own value to a temporary file
 and publishes it without clobbering; whoever loses that race reads again.
 Updating publishes by a rename that does clobber. Each step below is one atomic
 file-system action, and any process may fail or crash between two of them.

 `publications`, `versions` and `calls` are history: how each version came about,
 the file after each of them, and the calls that have returned.
 */
module ConfigFile {
  import opened Results
  import opened Bytes

  type Process = nat
  type File = Option<seq<Byte>>
  /** How a value is laid out in the file. */
  type Layout<!V> = V -> seq<Byte>

  const NEWLINE := 10

  /** The contents without one final newline. */
  function StripNewline<T(==)>(contents: seq<T>, newline: T): seq<T> {
    if contents != [] && contents[|contents| - 1] == newline then contents[..|contents| - 1] else contents
  }

  datatype Operation<V> = LoadOrCreate | Update(value: V)

  datatype Failure = Io | Vanished

  datatype Outcome<V> = Read(content: seq<Byte>) | Written(value: V) | Failed(failure: Failure)

  datatype Publication<V> = Created(value: V) | Updated(value: V)

  /** Where a process is inside a call that began at version `since`. */
  datatype Phase<V> =
    | Idle
    | Looking(since: nat)
    | Missing(since: nat)
    | Creating(since: nat, value: V)
    | Raced(since: nat)
    | Updating(since: nat, value: V)
    | Opened(since: nat, seen: nat, content: seq<Byte>)
    | Published(op: Operation<V>, since: nat, at: nat, value: V)

  /** A returned call: it ran from version `since` to version `until`, and read or published `version` if any. */
  datatype Call<V> = Call(op: Operation<V>, since: nat, until: nat, version: Option<nat>, outcome: Outcome<V>)

  datatype State<V> = State(
    file: File,
    phases: map<Process, Phase<V>>,
    publications: seq<Publication<V>>,
    versions: seq<File>,
    calls: seq<Call<V>>)

  datatype Action<V> =
    | Begin(p: Process, op: Operation<V>)
    | Open(p: Process)
    | Prepare(p: Process, proposal: V)
    | Publish(p: Process)
    | Finish(p: Process)
    | Fail(p: Process)
    | Crash(p: Process)

  function PhaseOf<V>(s: State<V>, p: Process): Phase<V> {
    if p in s.phases then s.phases[p] else Idle
  }

  function MoveTo<V>(s: State<V>, p: Process, phase: Phase<V>): State<V> { s.(phases := s.phases[p := phase]) }

  function OperationOf<V>(phase: Phase<V>): Operation<V> {
    match phase
    case Updating(_, value) => Update(value)
    case Published(op, _, _, _) => op
    case _ => LoadOrCreate
  }

  /** The call of `p` returns. */
  function Returned<V>(s: State<V>, p: Process, version: Option<nat>, outcome: Outcome<V>): State<V>
    requires !PhaseOf(s, p).Idle?
  {
    var phase := PhaseOf(s, p);
    MoveTo(s.(calls := s.calls + [Call(OperationOf(phase), phase.since, |s.publications|, version, outcome)]), p, Idle)
  }

  /** `p` publishes `value` under the file's name and still has to flush it. */
  function Publishing<V>(layout: Layout<V>, s: State<V>, p: Process, publication: Publication<V>): State<V>
    requires !PhaseOf(s, p).Idle?
  {
    var file := Some(layout(publication.value));
    var t := s.(file := file, publications := s.publications + [publication], versions := s.versions + [file]);
    MoveTo(t, p, Published(OperationOf(PhaseOf(s, p)), PhaseOf(s, p).since, |t.publications|, publication.value))
  }

  /** The state after an action, if a process is at the point where it can take it. */
  function Step<V>(layout: Layout<V>, s: State<V>, a: Action<V>): Option<State<V>> {
    var phase := PhaseOf(s, a.p);
    var now := |s.publications|;
    match a
    case Begin(p, op) =>
      if !phase.Idle? then None
      else Some(MoveTo(s, p, match op case LoadOrCreate => Looking(now) case Update(value) => Updating(now, value)))
    case Open(p) =>
      if !(phase.Looking? || phase.Raced?) then None
      else
        (match s.file
         case Some(content) => Some(MoveTo(s, p, Opened(phase.since, now, content)))
         case None =>
           if phase.Looking? then Some(MoveTo(s, p, Missing(phase.since)))
           else Some(Returned(s, p, None, Failed(Vanished))))
    case Prepare(p, proposal) =>
      if phase.Missing? then Some(MoveTo(s, p, Creating(phase.since, proposal))) else None
    case Publish(p) =>
      if phase.Updating? then Some(Publishing(layout, s, p, Updated(phase.value)))
      else if !phase.Creating? then None
      else if s.file.None? then Some(Publishing(layout, s, p, Created(phase.value)))
      else Some(MoveTo(s, p, Raced(phase.since)))
    case Finish(p) =>
      if phase.Opened? then Some(Returned(s, p, Some(phase.seen), Read(phase.content)))
      else if phase.Published? then Some(Returned(s, p, Some(phase.at), Written(phase.value)))
      else None
    case Fail(p) =>
      if phase.Idle? then None
      else Some(Returned(s, p, if phase.Published? then Some(phase.at) else None, Failed(Io)))
    case Crash(p) => Some(MoveTo(s, p, Idle))
  }

  predicate Initial<V>(s: State<V>) {
    s.phases == map[] && s.publications == [] && s.calls == [] && s.versions == [s.file]
  }

  /** The state after a run, given by its actions; a disabled action leaves the state unchanged. */
  function After<V>(layout: Layout<V>, s0: State<V>, actions: seq<Action<V>>): State<V> {
    if actions == [] then s0
    else
      var s := After(layout, s0, actions[..|actions| - 1]);
      match Step(layout, s, actions[|actions| - 1])
      case Some(next) => next
      case None => s
  }

  // ---------- what every step keeps ----------

  /** The versions are the first file followed by one file a publication; only the first can be a creation. */
  ghost predicate Chained<V>(layout: Layout<V>, s: State<V>) {
    && |s.versions| == |s.publications| + 1
    && s.versions[|s.publications|] == s.file
    && (forall i | 0 <= i < |s.publications| :: s.versions[i + 1] == Some(layout(s.publications[i].value)))
    && (forall i | 0 <= i < |s.publications| && s.publications[i].Created? :: i == 0 && s.versions[0].None?)
  }

  /** The publication that a call of this operation makes. */
  function PublicationOf<V>(op: Operation<V>, value: V): Publication<V> {
    if op.Update? then Updated(value) else Created(value)
  }

  ghost predicate ReadAt<V>(s: State<V>, since: nat, seen: nat, until: nat, content: seq<Byte>) {
    since <= seen <= until <= |s.publications| && seen < |s.versions| && s.versions[seen] == Some(content)
  }

  ghost predicate PublishedAt<V>(s: State<V>, op: Operation<V>, since: nat, at: nat, until: nat, value: V) {
    && since < at <= until <= |s.publications|
    && s.publications[at - 1] == PublicationOf(op, value)
    && (op.Update? ==> value == op.value)
  }

  ghost predicate PhaseSafe<V>(s: State<V>, phase: Phase<V>) {
    && (phase.Idle? || phase.since <= |s.publications|)
    && (phase.Raced? ==> s.file.Some?)
    && (phase.Opened? ==> ReadAt(s, phase.since, phase.seen, |s.publications|, phase.content))
    && (phase.Published? ==> PublishedAt(s, phase.op, phase.since, phase.at, |s.publications|, phase.value))
  }

  /**
   What a returned call tells its caller: a read saw one whole version that was
   current during the call, a write is in the history, and a file seen once does
   not vanish.
   */
  ghost predicate CallSafe<V>(s: State<V>, c: Call<V>) {
    match c.outcome
    case Read(content) =>
      c.op.LoadOrCreate? && c.version.Some? && ReadAt(s, c.since, c.version.value, c.until, content)
    case Written(value) =>
      c.version.Some? && PublishedAt(s, c.op, c.since, c.version.value, c.until, value)
    case Failed(failure) => failure == Io
  }

  ghost predicate Safe<V>(layout: Layout<V>, s: State<V>) {
    && Chained(layout, s)
    && (forall p | p in s.phases :: PhaseSafe(s, s.phases[p]))
    && (forall i | 0 <= i < |s.calls| :: CallSafe(s, s.calls[i]))
  }

  /** `t` has the history of `s` and possibly more, and a file that existed still does. */
  ghost predicate Extends<V>(s: State<V>, t: State<V>) {
    && |s.versions| <= |t.versions| && t.versions[..|s.versions|] == s.versions
    && |s.publications| <= |t.publications| && t.publications[..|s.publications|] == s.publications
    && |s.calls| <= |t.calls| && t.calls[..|s.calls|] == s.calls
    && (s.file.Some? ==> t.file.Some?)
  }

  lemma StepExtends<V>(layout: Layout<V>, s: State<V>, a: Action<V>)
    ensures Step(layout, s, a).Some? ==> Extends(s, Step(layout, s, a).value)
  {
  }

  lemma PhaseStaysSafe<V>(s: State<V>, t: State<V>, phase: Phase<V>)
    requires Extends(s, t) && PhaseSafe(s, phase)
    ensures PhaseSafe(t, phase)
  {
    if phase.Opened? {
      assert s.versions[phase.seen] == t.versions[..|s.versions|][phase.seen];
    } else if phase.Published? {
      assert s.publications[phase.at - 1] == t.publications[..|s.publications|][phase.at - 1];
    }
  }

  lemma CallStaysSafe<V>(s: State<V>, t: State<V>, c: Call<V>)
    requires Extends(s, t) && CallSafe(s, c)
    ensures CallSafe(t, c)
  {
    match c.outcome
    case Read(content) => assert s.versions[c.version.value] == t.versions[..|s.versions|][c.version.value];
    case Written(value) =>
      assert s.publications[c.version.value - 1] == t.publications[..|s.publications|][c.version.value - 1];
    case Failed(_) =>
  }

  lemma StepChained<V>(layout: Layout<V>, s: State<V>, a: Action<V>)
    requires Chained(layout, s)
    ensures Step(layout, s, a).Some? ==> Chained(layout, Step(layout, s, a).value)
  {
    var n := |s.publications|;
    assert n > 0 ==> s.versions[n - 1 + 1] == Some(layout(s.publications[n - 1].value));
  }

  /** The actor's own phase and its new call, if any, are safe. */
  lemma ActorSafe<V>(layout: Layout<V>, s: State<V>, a: Action<V>, t: State<V>)
    requires Safe(layout, s) && Step(layout, s, a) == Some(t) && Chained(layout, t)
    ensures PhaseSafe(t, PhaseOf(t, a.p))
    ensures |t.calls| <= |s.calls| + 1 && (|t.calls| > |s.calls| ==> CallSafe(t, t.calls[|s.calls|]))
  {
    assert PhaseSafe(s, PhaseOf(s, a.p));
  }

  lemma StepSafe<V>(layout: Layout<V>, s: State<V>, a: Action<V>, t: State<V>)
    requires Safe(layout, s) && Step(layout, s, a) == Some(t)
    ensures Safe(layout, t)
  {
    StepChained(layout, s, a);
    StepExtends(layout, s, a);
    ActorSafe(layout, s, a, t);
    forall p | p in t.phases
      ensures PhaseSafe(t, t.phases[p])
    {
      if p != a.p {
        PhaseStaysSafe(s, t, s.phases[p]);
      }
    }
    forall i | 0 <= i < |t.calls|
      ensures CallSafe(t, t.calls[i])
    {
      if i < |s.calls| {
        CallStaysSafe(s, t, s.calls[i]);
        assert t.calls[..|s.calls|][i] == t.calls[i];
      }
    }
  }

  /** Every reachable state is safe, whatever the interleaving, failures and crashes. */
  lemma {:induction false} RunSafe<V>(layout: Layout<V>, s0: State<V>, actions: seq<Action<V>>)
    requires Initial(s0)
    ensures Safe(layout, After(layout, s0, actions))
  {
    if actions == [] {
    } else {
      var n := |actions| - 1;
      RunSafe(layout, s0, actions[..n]);
      var s := After(layout, s0, actions[..n]);
      var next := Step(layout, s, actions[n]);
      if next.Some? {
        StepSafe(layout, s, actions[n], next.value);
      }
    }
  }

  /** History only grows along a run. */
  lemma {:induction false} RunExtends<V>(layout: Layout<V>, s0: State<V>, actions: seq<Action<V>>, n: nat)
    requires n <= |actions|
    ensures Extends(After(layout, s0, actions[..n]), After(layout, s0, actions))
  {
    if n == |actions| {
      assert actions[..n] == actions;
    } else {
      var m := |actions| - 1;
      RunExtends(layout, s0, actions[..m], n);
      assert actions[..m][..n] == actions[..n];
      StepExtends(layout, After(layout, s0, actions[..m]), actions[m]);
      var first, s, t := After(layout, s0, actions[..n]), After(layout, s0, actions[..m]), After(layout, s0, actions);
      assert t.versions[..|first.versions|] == s.versions[..|first.versions|];
      assert t.publications[..|first.publications|] == s.publications[..|first.publications|];
      assert t.calls[..|first.calls|] == s.calls[..|first.calls|];
    }
  }

  // ---------- each publication has one owner ----------

  /** The publication that `p` still has to flush, or zero. */
  function Pending<V>(s: State<V>, p: Process): nat {
    if PhaseOf(s, p).Published? then PhaseOf(s, p).at else 0
  }

  /** The publication that call number `i` reported written, or zero. */
  function Reported<V>(s: State<V>, i: nat): nat
    requires i < |s.calls|
  {
    if s.calls[i].outcome.Written? && s.calls[i].version.Some? then s.calls[i].version.value else 0
  }

  ghost predicate OneOwner<V>(s: State<V>) {
    && (forall p, q | p != q && Pending(s, p) > 0 :: Pending(s, p) != Pending(s, q))
    && (forall p, i | 0 <= i < |s.calls| && Pending(s, p) > 0 :: Reported(s, i) != Pending(s, p))
    && (forall i, j | 0 <= i < j < |s.calls| && Reported(s, i) > 0 :: Reported(s, i) != Reported(s, j))
  }

  /** One step changes the claims of its own process only; a new claim is on a new publication or is handed on. */
  ghost predicate ClaimsStep<V>(s: State<V>, t: State<V>, actor: Process) {
    && (forall p | p != actor :: Pending(t, p) == Pending(s, p))
    && (forall i | 0 <= i < |s.calls| :: i < |t.calls| && Reported(t, i) == Reported(s, i))
    && |t.calls| <= |s.calls| + 1
    && Pending(t, actor) in {0, |s.publications| + 1}
    && (|t.calls| > |s.calls| ==> Pending(t, actor) == 0 && Reported(t, |s.calls|) in {0, Pending(s, actor)})
  }

  lemma StepClaims<V>(layout: Layout<V>, s: State<V>, a: Action<V>, t: State<V>)
    requires Step(layout, s, a) == Some(t)
    ensures ClaimsStep(s, t, a.p)
  {
    assert forall p | p != a.p :: PhaseOf(t, p) == PhaseOf(s, p);
    assert t.calls == s.calls || t.calls[..|s.calls|] == s.calls;
  }

  lemma ClaimsBounded<V>(layout: Layout<V>, s: State<V>)
    requires Safe(layout, s)
    ensures forall p :: Pending(s, p) <= |s.publications|
    ensures forall i | 0 <= i < |s.calls| :: Reported(s, i) <= |s.publications|
  {
    assert forall p | p in s.phases :: PhaseSafe(s, s.phases[p]);
    assert forall i | 0 <= i < |s.calls| :: CallSafe(s, s.calls[i]);
  }

  lemma OneOwnerKept<V>(layout: Layout<V>, s: State<V>, t: State<V>, actor: Process)
    requires Safe(layout, s) && OneOwner(s) && ClaimsStep(s, t, actor)
    ensures OneOwner(t)
  {
    ClaimsBounded(layout, s);
  }

  /** Each publication is claimed by at most one returned call, so at most one call ever creates the file. */
  lemma {:induction false} RunOneOwner<V>(layout: Layout<V>, s0: State<V>, actions: seq<Action<V>>)
    requires Initial(s0)
    ensures OneOwner(After(layout, s0, actions))
  {
    if actions == [] {
    } else {
      var n := |actions| - 1;
      RunOneOwner(layout, s0, actions[..n]);
      RunSafe(layout, s0, actions[..n]);
      var s := After(layout, s0, actions[..n]);
      var next := Step(layout, s, actions[n]);
      if next.Some? {
        StepClaims(layout, s, actions[n], next.value);
        OneOwnerKept(layout, s, next.value, actions[n].p);
      }
    }
  }

  ghost predicate Creates<V>(c: Call<V>) { c.op.LoadOrCreate? && c.outcome.Written? }

  lemma OneCreator<V>(layout: Layout<V>, s0: State<V>, actions: seq<Action<V>>, i: nat, j: nat)
    requires Initial(s0)
    requires i < |After(layout, s0, actions).calls| && j < |After(layout, s0, actions).calls|
    requires Creates(After(layout, s0, actions).calls[i]) && Creates(After(layout, s0, actions).calls[j])
    ensures i == j
  {
    RunSafe(layout, s0, actions);
    RunOneOwner(layout, s0, actions);
    var s := After(layout, s0, actions);
    assert CallSafe(s, s.calls[i]) && CallSafe(s, s.calls[j]);
    assert Reported(s, i) == 1 && Reported(s, j) == 1;
  }

  // ---------- where published values come from ----------

  ghost predicate Offered<V>(actions: seq<Action<V>>, value: V) { exists p: Process :: Prepare(p, value) in actions }

  ghost predicate Requested<V>(actions: seq<Action<V>>, value: V) {
    exists p: Process :: Begin(p, Update(value)) in actions
  }

  ghost predicate Sourced<V>(s: State<V>, actions: seq<Action<V>>) {
    && (forall i | 0 <= i < |s.publications| ::
          if s.publications[i].Created? then Offered(actions, s.publications[i].value)
          else Requested(actions, s.publications[i].value))
    && (forall p | p in s.phases ::
          && (s.phases[p].Creating? ==> Offered(actions, s.phases[p].value))
          && (s.phases[p].Updating? ==> Requested(actions, s.phases[p].value)))
  }

  lemma MoreActions<V>(actions: seq<Action<V>>, more: Action<V>, value: V)
    ensures Offered(actions, value) ==> Offered(actions + [more], value)
    ensures Requested(actions, value) ==> Requested(actions + [more], value)
  {
    if Offered(actions, value) {
      var p: Process :| Prepare(p, value) in actions;
      assert Prepare(p, value) in actions + [more];
    }
    if Requested(actions, value) {
      var p: Process :| Begin(p, Update(value)) in actions;
      assert Begin(p, Update(value)) in actions + [more];
    }
  }

  /** Nothing is published that no process offered as a fresh value or asked for as an update. */
  lemma {:induction false} RunSourced<V>(layout: Layout<V>, s0: State<V>, actions: seq<Action<V>>)
    requires Initial(s0)
    ensures Sourced(After(layout, s0, actions), actions)
  {
    if actions == [] {
    } else {
      var n := |actions| - 1;
      var earlier, a := actions[..n], actions[n];
      RunSourced(layout, s0, earlier);
      assert actions == earlier + [a];
      SourcedStep(layout, After(layout, s0, earlier), earlier, a);
    }
  }

  lemma SourcedStep<V>(layout: Layout<V>, s: State<V>, earlier: seq<Action<V>>, a: Action<V>)
    requires Sourced(s, earlier)
    ensures Sourced(match Step(layout, s, a) case Some(next) => next case None => s, earlier + [a])
  {
    forall value: V
      ensures Offered(earlier, value) ==> Offered(earlier + [a], value)
      ensures Requested(earlier, value) ==> Requested(earlier + [a], value)
    {
      MoreActions(earlier, a, value);
    }
    assert a in earlier + [a];
  }
}
