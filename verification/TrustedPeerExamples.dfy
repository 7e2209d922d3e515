/** Concrete runs of the trusted-peer store that reach its two surprises: an unreadable label and a failed flush. */
module TrustedPeerExamples {
  import opened Results
  import opened Bytes
  import Utf8
  import opened Ordering
  import DisplayText
  import opened TrustedPeerCodec
  import opened TrustedPeerLaws
  import opened TrustedPeerMutation
  import opened TrustedPeerStore
  import opened TrustedPeerRuns
  import opened TrustedPeerProgress

  /** No file, nobody holding the lock, nothing done yet. */
  function Empty(): State { State(None, None, map[], [], [None], []) }

  /** One process stores `r`, alone; the flush after its rename succeeds or fails. */
  function StoreRun(r: Record, flushed: bool): seq<Action> {
    [Begin(0, Mutate(Put(r))), TryLock(0), Open(0), Prepare(0), Replace(0),
     if flushed then Sync(0) else SyncFails(0), Return(0)]
  }

  lemma FirstWrite(r: Record)
    requires ValidRecord(r)
    ensures AfterLoad(Put(r), 0, None) == Prepared(Put(r), 0, Encode([r]))
    ensures Decode(Encode([r])).Ok? <==> Short(r)
    ensures Short(r) ==> Decode(Encode([r])) == Ok([r])
  {
    assert Plan([], Put(r)) == [r] && SortBy([r], RecordKey) == [r];
    WriteFits([], Put(r));
    DecodeEncode([r]);
  }

  /** The states of the run: before the rename, and after it. */
  function During(phase: Phase): State { State(None, Some(0), map[0 := phase], [], [None], []) }

  function AfterRename(m: Mutation, bytes: seq<Byte>, phase: Phase): State {
    State(Some(bytes), Some(0), map[0 := phase], [m], [None, Some(bytes)], [])
  }

  lemma StoreRunOpens(r: Record, flushed: bool)
    requires ValidRecord(r)
    ensures After(Empty(), StoreRun(r, flushed)[..3]) == During(Opened(Put(r), 0, None))
  {
    var actions := StoreRun(r, flushed);
    var begun := Empty().(phases := map[0 := Requested(Mutate(Put(r)), 0)]);
    AfterNext(Empty(), actions, 0, Empty(), begun);
    OnePhase(map[], 0, Requested(Mutate(Put(r)), 0), Locked(Put(r), 0));
    AfterNext(Empty(), actions, 1, begun, During(Locked(Put(r), 0)));
    OnePhase(map[], 0, Locked(Put(r), 0), Opened(Put(r), 0, None));
    AfterNext(Empty(), actions, 2, During(Locked(Put(r), 0)), During(Opened(Put(r), 0, None)));
  }

  lemma PrepareStep(m: Mutation, bytes: seq<Byte>)
    requires AfterLoad(m, 0, None) == Prepared(m, 0, bytes)
    ensures Step(During(Opened(m, 0, None)), Prepare(0)) == Some(During(Prepared(m, 0, bytes)))
  {
    OnePhase(map[], 0, Opened(m, 0, None), Prepared(m, 0, bytes));
  }

  /** From the rename on, whatever the bytes are. */
  lemma RenameSteps(m: Mutation, bytes: seq<Byte>, flushed: bool)
    ensures var outcome := if flushed then Success(m) else Failed(Io);
            var flush := if flushed then Sync(0) else SyncFails(0);
            var renamed := AfterRename(m, bytes, Replaced(m, 0, 0));
            var finishing := AfterRename(m, bytes, Finishing(m, 0, Some(0), outcome));
            && Step(During(Prepared(m, 0, bytes)), Replace(0)) == Some(renamed)
            && Step(renamed, flush) == Some(finishing)
            && Step(finishing, Return(0)) == Some(Done(m, bytes, outcome))
  {
    var outcome := if flushed then Success(m) else Failed(Io);
    var call := Call(Mutate(m), 0, 1, Some(0), outcome);
    assert [] + [m] == [m] && [None] + [Some(bytes)] == [None, Some(bytes)] && [] + [call] == [call];
    OnePhase(map[], 0, Prepared(m, 0, bytes), Replaced(m, 0, 0));
    OnePhase(map[], 0, Replaced(m, 0, 0), Finishing(m, 0, Some(0), outcome));
    OnePhase(map[], 0, Finishing(m, 0, Some(0), outcome), Idle);
  }

  function Done(m: Mutation, bytes: seq<Byte>, outcome: Outcome): State {
    AfterRename(m, bytes, Idle).(lock := None, calls := [Call(Mutate(m), 0, 1, Some(0), outcome)])
  }

  lemma StoreRunDone(r: Record, flushed: bool, bytes: seq<Byte>)
    requires ValidRecord(r) && AfterLoad(Put(r), 0, None) == Prepared(Put(r), 0, bytes)
    ensures After(Empty(), StoreRun(r, flushed)) == Done(Put(r), bytes, if flushed then Stored else Failed(Io))
  {
    var actions, m := StoreRun(r, flushed), Put(r);
    var outcome := if flushed then Stored else Failed(Io);
    var renamed := AfterRename(m, bytes, Replaced(m, 0, 0));
    var finishing := AfterRename(m, bytes, Finishing(m, 0, Some(0), outcome));
    StoreRunOpens(r, flushed);
    PrepareStep(m, bytes);
    RenameSteps(m, bytes, flushed);
    AfterNext(Empty(), actions, 3, During(Opened(m, 0, None)), During(Prepared(m, 0, bytes)));
    AfterNext(Empty(), actions, 4, During(Prepared(m, 0, bytes)), renamed);
    AfterNext(Empty(), actions, 5, renamed, finishing);
    AfterNext(Empty(), actions, 6, finishing, Done(m, bytes, outcome));
    assert actions[..7] == actions;
  }

  /**
   Storing a first record puts it in place whether or not the flush succeeds: the
   call reports an error for a failed flush although its commit stands. The file can
   be read afterwards if and only if the label is at most 128 bytes.
   */
  lemma StoreRunOutcome(r: Record, flushed: bool)
    requires ValidRecord(r)
    ensures Initial(Empty())
    ensures var s := After(Empty(), StoreRun(r, flushed));
            && s.calls == [Call(Mutate(Put(r)), 0, 1, Some(0), if flushed then Stored else Failed(Io))]
            && s.commits == [Put(r)] && s.file == Some(Encode([r])) && s.lock == None
            && (Short(r) ==> Load(s.file) == Ok([r]))
            && (!Short(r) ==> Load(s.file).Err?)
  {
    FirstWrite(r);
    StoreRunDone(r, flushed, Encode([r]));
  }

  /** The label of 43 scalars U+4E2D, which take 129 bytes. */
  function LongLabel(): Utf8.Text { seq(43, _ => 0x4E2D) }

  lemma {:induction false} RepeatedSize(n: nat)
    ensures |Utf8.Encode(seq(n, _ => 0x4E2D))| == 3 * n
  {
    if n == 0 {
    } else {
      RepeatedSize(n - 1);
      var text: Utf8.Text := seq(n, _ => 0x4E2D);
      assert text[1..] == seq(n - 1, _ => 0x4E2D);
    }
  }

  function LongRecord(): Record { Record(Identity(1, [7]), Some(LongLabel())) }

  /** Validation allows the record, and no reader accepts it. */
  lemma LongRecordUnreadable()
    ensures DisplayText.Normalize(LongLabel()) == Ok(LongLabel()) && |Utf8.Encode(LongLabel())| == 129
    ensures ValidRecord(LongRecord()) && !Short(LongRecord()) && ParseRecord(EncodeRecord(LongRecord())).Err?
  {
    RepeatedSize(43);
    assert DisplayText.Valid(LongLabel());
    DisplayText.NormalizeExact(LongLabel());
    ParseEncodedRecord(LongRecord());
  }

  /** Storing that record succeeds, and from then on the store is unreadable whatever anyone does. */
  lemma LongLabelRun(more: seq<Action>)
    ensures var s := After(Empty(), StoreRun(LongRecord(), true));
            && s.calls == [Call(Mutate(Put(LongRecord())), 0, 1, Some(0), Stored)] && Load(s.file).Err?
            && After(Empty(), StoreRun(LongRecord(), true) + more).file == s.file
  {
    LongRecordUnreadable();
    StoreRunOutcome(LongRecord(), true);
    assert !ReadableMutation(After(Empty(), StoreRun(LongRecord(), true)).commits[0]);
    LongLabelFreezesStore(Empty(), StoreRun(LongRecord(), true), more);
  }
}
