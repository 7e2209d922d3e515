/** Calls on a small configuration file finish when nothing gets in their way, and fail only for a reason. */
module ConfigProgress {
  import opened Results
  import opened Bytes
  import opened ConfigFile

  // ---------- failures have a cause ----------

  /** Action number `n` of the run is the one with which call number `i` returns. */
  ghost predicate ReturnsAt<V>(layout: Layout<V>, s0: State<V>, actions: seq<Action<V>>, n: nat, i: nat) {
    && n < |actions|
    && var s, t := After(layout, s0, actions[..n]), After(layout, s0, actions[..n + 1]);
       var end := After(layout, s0, actions);
       |s.calls| == i && |t.calls| == i + 1 && i < |end.calls| && t.calls[i] == end.calls[i]
  }

  lemma {:induction false} EveryCallReturns<V>(layout: Layout<V>, s0: State<V>, actions: seq<Action<V>>, i: nat)
    returns (n: nat)
    requires Initial(s0) && i < |After(layout, s0, actions).calls|
    ensures ReturnsAt(layout, s0, actions, n, i)
  {
    var last := |actions| - 1;
    var s := After(layout, s0, actions[..last]);
    StepExtends(layout, s, actions[last]);
    if i < |s.calls| {
      n := EveryCallReturns(layout, s0, actions[..last], i);
      assert actions[..last][..n] == actions[..n] && actions[..last][..n + 1] == actions[..n + 1];
      assert After(layout, s0, actions).calls[..|s.calls|] == s.calls;
    } else {
      n := last;
      assert actions[..n + 1] == actions;
    }
  }

  lemma ReturnBlames<V>(layout: Layout<V>, s: State<V>, a: Action<V>)
    requires Step(layout, s, a).Some? && |Step(layout, s, a).value.calls| > |s.calls|
    ensures Step(layout, s, a).value.calls[|s.calls|].outcome == Failed(Io) <==> a.Fail?
  {
  }

  /** Over every run, a call reports an input or output failure exactly if a step of its process failed. */
  lemma FailuresHaveCauses<V>(layout: Layout<V>, s0: State<V>, actions: seq<Action<V>>, i: nat) returns (n: nat)
    requires Initial(s0) && i < |After(layout, s0, actions).calls|
    ensures ReturnsAt(layout, s0, actions, n, i)
    ensures After(layout, s0, actions).calls[i].outcome == Failed(Io) <==> actions[n].Fail?
  {
    n := EveryCallReturns(layout, s0, actions, i);
    assert actions[..n + 1][..n] == actions[..n];
    ReturnBlames(layout, After(layout, s0, actions[..n]), actions[n]);
  }

  /** Any process inside a call can fail, and any process can crash; neither changes the file. */
  lemma StepsCanFail<V>(layout: Layout<V>, s: State<V>, p: Process)
    ensures var phase := PhaseOf(s, p);
            !phase.Idle? ==>
              && Step(layout, s, Fail(p)).Some?
              && Step(layout, s, Fail(p)).value.file == s.file
              && |Step(layout, s, Fail(p)).value.calls| == |s.calls| + 1
              && Step(layout, s, Fail(p)).value.calls[|s.calls|].outcome == Failed(Io)
    ensures Step(layout, s, Crash(p)) == Some(s.(phases := s.phases[p := Idle]))
  {
  }

  // ---------- undisturbed calls ----------

  lemma AfterNext<V>(layout: Layout<V>, s0: State<V>, actions: seq<Action<V>>, n: nat, s: State<V>, t: State<V>)
    requires n < |actions| && After(layout, s0, actions[..n]) == s
    requires match Step(layout, s, actions[n]) case Some(next) => next == t case None => s == t
    ensures After(layout, s0, actions[..n + 1]) == t
  {
    assert actions[..n + 1][..n] == actions[..n];
  }

  lemma OnePhase<V>(phases: map<Process, Phase<V>>, p: Process, was: Phase<V>, phase: Phase<V>)
    ensures phases[p := was][p := phase] == phases[p := phase]
  {
  }

  /** A load by `p`, step after step, with nobody else in between. */
  function AloneLoad<V>(p: Process, proposal: V): seq<Action<V>> {
    [Begin(p, LoadOrCreate), Open(p), Prepare(p, proposal), Publish(p), Finish(p)]
  }

  /** `s` after a call of `p` returned without changing the file. */
  function Reading<V>(s: State<V>, p: Process, since: nat, content: seq<Byte>): State<V> {
    var n := |s.publications|;
    s.(phases := s.phases[p := Idle], calls := s.calls + [Call(LoadOrCreate, since, n, Some(n), Read(content))])
  }

  /** `s` after `p` published a value and returned. */
  function Writing<V>(layout: Layout<V>, s: State<V>, p: Process, op: Operation<V>, value: V): State<V> {
    var n, file := |s.publications|, Some(layout(value));
    var publication := if op.Update? then Updated(value) else Created(value);
    s.(file := file, publications := s.publications + [publication], versions := s.versions + [file],
       phases := s.phases[p := Idle], calls := s.calls + [Call(op, n, n + 1, Some(n + 1), Written(value))])
  }

  /** An undisturbed load of a file that is there returns its contents, and changes nothing. */
  lemma LoadReads<V>(layout: Layout<V>, s: State<V>, p: Process, proposal: V, content: seq<Byte>)
    requires PhaseOf(s, p).Idle? && s.file == Some(content)
    ensures After(layout, s, AloneLoad(p, proposal)) == Reading(s, p, |s.publications|, content)
  {
    var actions, n := AloneLoad(p, proposal), |s.publications|;
    var found := MoveTo(s, p, Opened(n, n, content));
    LoadOpens(layout, s, p, proposal, content);
    AfterNext(layout, s, actions, 3, found, found);
    OnePhase(s.phases, p, Opened(n, n, content), Idle);
    AfterNext(layout, s, actions, 4, found, Reading(s, p, n, content));
    assert actions[..5] == actions;
  }

  lemma LoadOpens<V>(layout: Layout<V>, s: State<V>, p: Process, proposal: V, content: seq<Byte>)
    requires PhaseOf(s, p).Idle? && s.file == Some(content)
    ensures var n := |s.publications|;
            After(layout, s, AloneLoad(p, proposal)[..3]) == MoveTo(s, p, Opened(n, n, content))
  {
    var actions, n := AloneLoad(p, proposal), |s.publications|;
    var looking, found := MoveTo(s, p, Looking(n)), MoveTo(s, p, Opened(n, n, content));
    assert actions[..0] == [];
    AfterNext(layout, s, actions, 0, s, looking);
    OnePhase(s.phases, p, Looking(n), Opened(n, n, content));
    AfterNext(layout, s, actions, 1, looking, found);
    AfterNext(layout, s, actions, 2, found, found);
  }

  /** `s` while `p` still has to flush what it published. */
  function Flushing<V>(layout: Layout<V>, s: State<V>, p: Process, op: Operation<V>, value: V): State<V> {
    var n := |s.publications|;
    Writing(layout, s, p, op, value).(phases := s.phases[p := Published(op, n, n + 1, value)], calls := s.calls)
  }

  lemma FlushReturns<V>(layout: Layout<V>, s: State<V>, p: Process, op: Operation<V>, value: V)
    ensures Step(layout, Flushing(layout, s, p, op, value), Finish(p)) == Some(Writing(layout, s, p, op, value))
  {
    var n := |s.publications|;
    OnePhase(s.phases, p, Published(op, n, n + 1, value), Idle);
  }

  /** An undisturbed load where there is no file creates it with the proposed value, and returns that. */
  lemma LoadCreates<V>(layout: Layout<V>, s: State<V>, p: Process, proposal: V)
    requires PhaseOf(s, p).Idle? && s.file == None
    ensures After(layout, s, AloneLoad(p, proposal)) == Writing(layout, s, p, LoadOrCreate, proposal)
  {
    var actions, n := AloneLoad(p, proposal), |s.publications|;
    assert actions[..0] == [] && actions[..5] == actions;
    AfterNext(layout, s, actions, 0, s, MoveTo(s, p, Looking(n)));
    OnePhase(s.phases, p, Looking(n), Missing(n));
    AfterNext(layout, s, actions, 1, MoveTo(s, p, Looking(n)), MoveTo(s, p, Missing(n)));
    OnePhase(s.phases, p, Missing(n), Creating(n, proposal));
    AfterNext(layout, s, actions, 2, MoveTo(s, p, Missing(n)), MoveTo(s, p, Creating(n, proposal)));
    OnePhase(s.phases, p, Creating(n, proposal), Published(LoadOrCreate, n, n + 1, proposal));
    AfterNext(layout, s, actions, 3, MoveTo(s, p, Creating(n, proposal)),
              Flushing(layout, s, p, LoadOrCreate, proposal));
    FlushReturns(layout, s, p, LoadOrCreate, proposal);
    AfterNext(layout, s, actions, 4, Flushing(layout, s, p, LoadOrCreate, proposal),
              Writing(layout, s, p, LoadOrCreate, proposal));
  }

  /** Whoever is about to create a file that has appeared meanwhile returns what the winner put there. */
  lemma LostRaceReads<V>(layout: Layout<V>, s: State<V>, p: Process, content: seq<Byte>)
    requires PhaseOf(s, p).Creating? && s.file == Some(content)
    ensures After(layout, s, [Publish(p), Open(p), Finish(p)]) == Reading(s, p, PhaseOf(s, p).since, content)
  {
    var actions, since, n := [Publish(p), Open(p), Finish(p)], PhaseOf(s, p).since, |s.publications|;
    var raced, found := MoveTo(s, p, Raced(since)), MoveTo(s, p, Opened(since, n, content));
    assert actions[..0] == [] && actions[..3] == actions;
    AfterNext(layout, s, actions, 0, s, raced);
    OnePhase(s.phases, p, Raced(since), Opened(since, n, content));
    AfterNext(layout, s, actions, 1, raced, found);
    OnePhase(s.phases, p, Opened(since, n, content), Idle);
    AfterNext(layout, s, actions, 2, found, Reading(s, p, since, content));
  }

  /** An undisturbed update replaces whatever is there, and returns the new value. */
  lemma UpdateWrites<V>(layout: Layout<V>, s: State<V>, p: Process, value: V)
    requires PhaseOf(s, p).Idle?
    ensures After(layout, s, [Begin(p, Update(value)), Publish(p), Finish(p)]) ==
            Writing(layout, s, p, Update(value), value)
  {
    var actions, n := [Begin(p, Update(value)), Publish(p), Finish(p)], |s.publications|;
    assert actions[..0] == [] && actions[..3] == actions;
    AfterNext(layout, s, actions, 0, s, MoveTo(s, p, Updating(n, value)));
    OnePhase(s.phases, p, Updating(n, value), Published(Update(value), n, n + 1, value));
    AfterNext(layout, s, actions, 1, MoveTo(s, p, Updating(n, value)), Flushing(layout, s, p, Update(value), value));
    FlushReturns(layout, s, p, Update(value), value);
    AfterNext(layout, s, actions, 2, Flushing(layout, s, p, Update(value), value),
              Writing(layout, s, p, Update(value), value));
  }
}
