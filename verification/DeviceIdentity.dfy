/**
 The stable device identifier: its canonical text, and the agreement of every
 process that loads or creates it.
 */
module DeviceIdentity {
  import opened Results
  import opened Bytes
  import opened ConfigFile
  import opened ConfigProgress
  import Utf8

  const DASH: Byte := 45

  /** Sixteen bytes carrying the version number 4. */
  type DeviceId = id: seq<Byte> | |id| == 16 && id[6] / 16 == 4
    witness [0, 0, 0, 0, 0, 0, 64, 0, 0, 0, 0, 0, 0, 0, 0, 0]

  datatype IdentityError = Invalid | Io

  /** The lowercase hyphenated form. */
  function Hyphenated(id: seq<Byte>): (r: seq<Byte>)
    requires |id| == 16
    ensures |r| == 36
  {
    Hex(id[..4]) + [DASH] + Hex(id[4..6]) + [DASH] + Hex(id[6..8]) + [DASH] + Hex(id[8..10]) + [DASH] + Hex(id[10..])
  }

  /** The sixteen bytes of hyphenated text, if its five groups decode. */
  function ParseUuid(text: seq<Byte>): (r: Option<seq<Byte>>)
    ensures r.Some? ==> |r.value| == 16
  {
    if |text| != 36 then None
    else Unhex(text[..8] + text[9..13] + text[14..18] + text[19..23] + text[24..])
  }

  /** Accepts text only in the form that printing gives back, and only version 4. */
  function ParseId(text: seq<Byte>): Result<DeviceId, IdentityError> {
    match ParseUuid(text)
    case None => Err(Invalid)
    case Some(uuid) => if text == Hyphenated(uuid) && uuid[6] / 16 == 4 then Ok(uuid) else Err(Invalid)
  }

  /** A file that is not UTF-8 cannot be read as text at all. */
  function ParsePersisted(contents: seq<Byte>): Result<DeviceId, IdentityError> {
    if Utf8.Decode(contents).None? then Err(IdentityError.Io) else ParseId(StripNewline(contents, NEWLINE))
  }

  function Persisted(id: DeviceId): seq<Byte> { Hyphenated(id) + [NEWLINE] }

  /** Five groups of lowercase digits with dashes between them, and a line feed at the end of a file. */
  lemma IdBytes(id: DeviceId)
    ensures Persisted(id) == Hex(id[..4]) + [45] + Hex(id[4..6]) + [45] + Hex(id[6..8]) + [45]
                             + Hex(id[8..10]) + [45] + Hex(id[10..]) + [10]
    ensures Hyphenated(id)[14] == '4' as int
  {
    HexDigits(id[6..8], 0);
    assert Hyphenated(id)[14] == Hex(id[6..8])[0];
  }

  lemma {:induction false} HexConcat(a: seq<Byte>, b: seq<Byte>)
    ensures Hex(a + b) == Hex(a) + Hex(b)
  {
    if a == [] {
      assert a + b == b;
    } else {
      assert (a + b)[1..] == a[1..] + b;
      HexConcat(a[1..], b);
    }
  }

  /** Parsing accepts exactly the printed forms, and inverts printing. */
  lemma ParseIdExact(text: seq<Byte>, id: DeviceId)
    ensures ParseId(text) == Ok(id) <==> text == Hyphenated(id)
  {
    if text == Hyphenated(id) {
      var a, b, c, d, e := Hex(id[..4]), Hex(id[4..6]), Hex(id[6..8]), Hex(id[8..10]), Hex(id[10..]);
      assert text[..8] == a && text[9..13] == b && text[14..18] == c && text[19..23] == d && text[24..] == e;
      HexConcat(id[..4], id[4..6]);
      HexConcat(id[..4] + id[4..6], id[6..8]);
      HexConcat(id[..4] + id[4..6] + id[6..8], id[8..10]);
      HexConcat(id[..4] + id[4..6] + id[6..8] + id[8..10], id[10..]);
      assert id[..4] + id[4..6] + id[6..8] + id[8..10] + id[10..] == id;
      UnhexExact(a + b + c + d + e, id);
    }
  }

  lemma PersistedIsText(id: DeviceId)
    ensures Utf8.Decode(Hyphenated(id)).Some? && Utf8.Decode(Persisted(id)).Some?
  {
    HexAlphabet(id[..4]);
    HexAlphabet(id[4..6]);
    HexAlphabet(id[6..8]);
    HexAlphabet(id[8..10]);
    HexAlphabet(id[10..]);
    Utf8.AsciiDecodes(Hyphenated(id));
    Utf8.AsciiDecodes(Persisted(id));
  }

  /** A file names an identifier exactly when it is its text, with or without the final newline. */
  lemma ParsePersistedExact(contents: seq<Byte>, id: DeviceId)
    ensures ParsePersisted(contents) == Ok(id) <==> contents == Persisted(id) || contents == Hyphenated(id)
  {
    var text := Hyphenated(id);
    PersistedIsText(id);
    assert Persisted(id)[..|Persisted(id)| - 1] == text;
    assert text[|text| - 1] != NEWLINE by {
      HexAlphabet(id[10..]);
      assert text[|text| - 1] == Hex(id[10..])[11];
    }
    if contents != [] && contents[|contents| - 1] == NEWLINE {
      assert contents == contents[..|contents| - 1] + [NEWLINE];
      ParseIdExact(contents[..|contents| - 1], id);
    } else {
      ParseIdExact(contents, id);
    }
  }

  // ---------- load_or_create over every run ----------

  type World = State<DeviceId>

  function After(s0: World, actions: seq<Action<DeviceId>>): World { ConfigFile.After(Persisted, s0, actions) }

  /** The file is only ever created: no process updates an identifier. */
  ghost predicate CreatesOnly(actions: seq<Action<DeviceId>>) {
    forall i | 0 <= i < |actions| && actions[i].Begin? :: actions[i].op.LoadOrCreate?
  }

  /** What a call returns to its caller. */
  function Answer(outcome: Outcome<DeviceId>): Result<DeviceId, IdentityError> {
    match outcome
    case Read(content) => ParsePersisted(content)
    case Written(id) => Ok(id)
    case Failed(_) => Err(IdentityError.Io)
  }

  lemma CreatedOnce(s0: World, actions: seq<Action<DeviceId>>)
    requires Initial(s0) && CreatesOnly(actions)
    ensures var s := After(s0, actions);
      Safe(Persisted, s) && |s.publications| <= 1 && forall i | 0 <= i < |s.publications| :: s.publications[i].Created?
  {
    var s := After(s0, actions);
    RunSafe(Persisted, s0, actions);
    RunSourced(Persisted, s0, actions);
    forall i | 0 <= i < |s.publications|
      ensures s.publications[i].Created?
    {
      if s.publications[i].Updated? {
        assert false;
      }
    }
    var last := |s.publications| - 1;
    assert last >= 0 ==> s.publications[last].Created?;
  }

  /** An identifier file, once there, keeps its bytes through every later step of every process. */
  lemma FileNeverChanges(s0: World, actions: seq<Action<DeviceId>>, n: nat)
    requires Initial(s0) && CreatesOnly(actions) && n <= |actions|
    requires After(s0, actions[..n]).file.Some?
    ensures After(s0, actions).file == After(s0, actions[..n]).file
  {
    CreatedOnce(s0, actions);
    CreatedOnce(s0, actions[..n]);
    RunExtends(Persisted, s0, actions, n);
    var s, t := After(s0, actions[..n]), After(s0, actions);
    assert s.versions[|s.publications|] == t.versions[..|s.versions|][|s.publications|];
    assert |t.publications| > 0 ==> t.publications[0].Created?;
  }

  /** A call that succeeds returns what the file holds when it returns. */
  lemma SuccessIsTheFile(s0: World, actions: seq<Action<DeviceId>>, i: nat)
    requires Initial(s0) && CreatesOnly(actions)
    requires i < |After(s0, actions).calls| && Answer(After(s0, actions).calls[i].outcome).Ok?
    ensures var s := After(s0, actions);
      s.file.Some? && ParsePersisted(s.file.value) == Answer(s.calls[i].outcome)
  {
    CreatedOnce(s0, actions);
    var s := After(s0, actions);
    var c := s.calls[i];
    assert CallSafe(s, c);
    if c.outcome.Written? {
      WrittenIsTheFile(s, c);
    } else {
      ReadIsTheFile(s, c);
    }
  }

  lemma WrittenIsTheFile(s: World, c: Call<DeviceId>)
    requires Chained(Persisted, s) && |s.publications| <= 1 && CallSafe(s, c) && c.outcome.Written?
    ensures s.file.Some? && ParsePersisted(s.file.value) == Ok(c.outcome.value)
  {
    assert s.versions[0 + 1] == Some(Persisted(s.publications[0].value));
    ParsePersistedExact(s.file.value, c.outcome.value);
  }

  lemma ReadIsTheFile(s: World, c: Call<DeviceId>)
    requires Chained(Persisted, s) && |s.publications| <= 1 && CallSafe(s, c) && c.outcome.Read?
    requires forall i | 0 <= i < |s.publications| :: s.publications[i].Created?
    ensures s.file == Some(c.outcome.content)
  {
    assert s.publications != [] ==> s.publications[0].Created?;
  }

  /**
   First-creation agreement: whatever the interleaving, failures and crashes, an
   identifier returned by one call is what the file holds from then on, and what
   every other successful call returns, earlier or later.
   */
  lemma Agreement(s0: World, actions: seq<Action<DeviceId>>, n: nat, i: nat, j: nat)
    requires Initial(s0) && CreatesOnly(actions) && n <= |actions|
    requires i < |After(s0, actions[..n]).calls| && Answer(After(s0, actions[..n]).calls[i].outcome).Ok?
    requires j < |After(s0, actions).calls| && Answer(After(s0, actions).calls[j].outcome).Ok?
    ensures var id := Answer(After(s0, actions[..n]).calls[i].outcome);
      && After(s0, actions).file.Some? && ParsePersisted(After(s0, actions).file.value) == id
      && Answer(After(s0, actions).calls[j].outcome) == id
  {
    SuccessIsTheFile(s0, actions[..n], i);
    FileNeverChanges(s0, actions, n);
    SuccessIsTheFile(s0, actions, j);
  }

  /** Existing data, valid or not, is never replaced, and invalid data makes every call fail. */
  lemma ExistingDataKept(s0: World, actions: seq<Action<DeviceId>>, j: nat)
    requires Initial(s0) && CreatesOnly(actions) && s0.file.Some?
    requires j < |After(s0, actions).calls|
    ensures var s := After(s0, actions);
            && s.file == s0.file
            && (Answer(s.calls[j].outcome).Ok? ==> Answer(s.calls[j].outcome) == ParsePersisted(s0.file.value))
  {
    assert actions[..0] == [];
    FileNeverChanges(s0, actions, 0);
    if Answer(After(s0, actions).calls[j].outcome).Ok? {
      SuccessIsTheFile(s0, actions, j);
    }
  }

  /** From an absent or valid file no call reports invalid data. */
  lemma NeverInvalid(s0: World, actions: seq<Action<DeviceId>>, j: nat)
    requires Initial(s0) && CreatesOnly(actions) && (s0.file.Some? ==> ParsePersisted(s0.file.value).Ok?)
    requires j < |After(s0, actions).calls|
    ensures Answer(After(s0, actions).calls[j].outcome) != Err(Invalid)
  {
    RunSafe(Persisted, s0, actions);
    var s := After(s0, actions);
    var c := s.calls[j];
    assert CallSafe(s, c);
    if c.outcome.Read? {
      VersionValid(s0, actions, c.version.value);
    }
  }

  lemma VersionValid(s0: World, actions: seq<Action<DeviceId>>, v: nat)
    requires Initial(s0) && CreatesOnly(actions) && (s0.file.Some? ==> ParsePersisted(s0.file.value).Ok?)
    requires v < |After(s0, actions).versions| && After(s0, actions).versions[v].Some?
    ensures ParsePersisted(After(s0, actions).versions[v].value).Ok?
  {
    CreatedOnce(s0, actions);
    FirstVersion(s0, actions);
    if v > 0 {
      var s := After(s0, actions);
      var id := s.publications[v - 1].value;
      assert s.versions[v - 1 + 1] == Some(Persisted(id));
      ParsePersistedExact(Persisted(id), id);
    }
  }

  lemma FirstVersion(s0: World, actions: seq<Action<DeviceId>>)
    requires Initial(s0)
    ensures |After(s0, actions).versions| > 0 && After(s0, actions).versions[0] == s0.file
  {
    assert actions[..0] == [];
    RunExtends(Persisted, s0, actions, 0);
    var s := After(s0, actions);
    assert s.versions[0] == s.versions[..1][0];
  }

  /** An identifier that appears where there was none is one that some caller generated, in printed form. */
  lemma FileWasGenerated(s0: World, actions: seq<Action<DeviceId>>)
    requires Initial(s0) && CreatesOnly(actions) && s0.file.None? && After(s0, actions).file.Some?
    ensures exists id: DeviceId :: Offered(actions, id) && After(s0, actions).file == Some(Persisted(id))
  {
    CreatedOnce(s0, actions);
    RunSourced(Persisted, s0, actions);
    FirstVersion(s0, actions);
    var s := After(s0, actions);
    assert s.versions[0 + 1] == Some(Persisted(s.publications[0].value));
  }

  // ---------- undisturbed calls ----------

  /**
   From any state, an undisturbed call returns the identifier that an existing file
   names, or what is wrong with it; where there is no file it returns the identifier
   it generated, which the file then names.
   */
  lemma LoadCompletes(s: World, p: Process, proposal: DeviceId)
    requires PhaseOf(s, p).Idle?
    ensures var t := After(s, AloneLoad(p, proposal));
            && |t.calls| == |s.calls| + 1
            && var answer := Answer(t.calls[|s.calls|].outcome);
               match s.file
               case Some(content) => t.file == s.file && answer == ParsePersisted(content)
               case None => t.file == Some(Persisted(proposal)) && answer == Ok(proposal)
  {
    match s.file
    case Some(content) => LoadReads(Persisted, s, p, proposal, content);
    case None => LoadCreates(Persisted, s, p, proposal);
  }

  /** Whoever loses the race to create the file returns the identifier of the winner. */
  lemma LoserAgrees(s: World, p: Process, id: DeviceId)
    requires PhaseOf(s, p).Creating? && s.file == Some(Persisted(id))
    ensures var t := After(s, [Publish(p), Open(p), Finish(p)]);
            t.file == s.file && |t.calls| == |s.calls| + 1 && Answer(t.calls[|s.calls|].outcome) == Ok(id)
  {
    LostRaceReads(Persisted, s, p, Persisted(id));
    ParsePersistedExact(Persisted(id), id);
  }

  /** Over every run, a call reports an input or output failure exactly if a step failed or the file is not text. */
  lemma IoHasCause(s0: World, actions: seq<Action<DeviceId>>, i: nat) returns (n: nat)
    requires Initial(s0) && i < |After(s0, actions).calls|
    ensures ReturnsAt(Persisted, s0, actions, n, i)
    ensures var outcome := After(s0, actions).calls[i].outcome;
            Answer(outcome) == Err(IdentityError.Io) <==>
            actions[n].Fail? || (outcome.Read? && Utf8.Decode(outcome.content).None?)
  {
    n := FailuresHaveCauses(Persisted, s0, actions, i);
    RunSafe(Persisted, s0, actions);
    assert CallSafe(After(s0, actions), After(s0, actions).calls[i]);
  }
}
