/**
 The display name of the local device: its file, the default created when there
 is none, and last-writer-wins updates, over every run of any number of processes.
 */
module DeviceNameStore {
  import opened Results
  import opened Bytes
  import opened Utf8
  import opened DisplayText
  import opened ConfigFile
  import opened ConfigProgress

  /** A validated name. */
  type DeviceName = name: Text | Valid(name) witness [65]

  const DEFAULT_NAME: DeviceName := (DefaultIsValid(); Ascii("Local Device"))

  lemma DefaultIsValid()
    ensures Valid(Ascii("Local Device"))
  {
    assert forall i | 0 <= i < 12 :: "Local Device"[i] as int >= 0x20 && ("Local Device"[i] as int) < 0x7F;
  }

  datatype NameError = Validation(error: TextError) | Invalid(error: TextError) | Io

  /** An update is refused before it touches the file. */
  function Proposed(value: Text): (r: Result<DeviceName, NameError>)
    ensures r.Ok? <==> Normalize(value).Ok?
    ensures r.Ok? ==> Normalize(value) == Ok(r.value) && !HasControl(value) && Pads(value, r.value)
    ensures r.Err? ==> r.error == Validation(Normalize(value).error)
    ensures Valid(value) ==> r == Ok(value)
  {
    NormalizeExact(value);
    if Normalize(value).Ok? then NormalizeAccepts(value, Normalize(value).value); Ok(Normalize(value).value)
    else Err(Validation(Normalize(value).error))
  }

  /** A file that is not UTF-8 cannot be read as text at all. */
  function ParsePersisted(contents: seq<Byte>): Result<DeviceName, NameError> {
    match Decode(contents)
    case None => Err(NameError.Io)
    case Some(text) =>
      NormalizeExact(StripNewline(text, NEWLINE));
      match Normalize(StripNewline(text, NEWLINE))
      case Ok(name) => Ok(name)
      case Err(e) => Err(Invalid(e))
  }

  function Persisted(name: DeviceName): seq<Byte> { Encode(name + [NEWLINE]) }

  /** The name's text and a line feed; the default is Local Device. */
  lemma NameBytes(name: DeviceName)
    ensures Persisted(name) == Encode(name) + [10]
    ensures DEFAULT_NAME == [76, 111, 99, 97, 108, 32, 68, 101, 118, 105, 99, 101]
  {
    EncodeConcat(name, [NEWLINE]);
    NewlineByte();
  }

  lemma NewlineByte()
    ensures Encode([NEWLINE]) == [10]
  {
    var text: Text := [NEWLINE];
    assert text[1..] == [] && EncodeScalar(text[0]) == [10];
  }

  /** Every validated name survives its file. */
  lemma PersistedParses(name: DeviceName)
    ensures ParsePersisted(Persisted(name)) == Ok(name)
  {
    var text: Text := name + [NEWLINE];
    DecodeExact(Encode(text), text);
    assert StripNewline(text, NEWLINE) == name;
    NormalizeExact(name);
  }

  /** The file is this text, with or without one final newline. */
  ghost predicate Says(contents: seq<Byte>, value: Text) {
    contents == Encode(value) || contents == Encode(value + [NEWLINE])
  }

  /** A file names exactly what validation makes of its text, whose final newline does not count. */
  lemma ParsePersistedExact(contents: seq<Byte>, name: DeviceName)
    ensures ParsePersisted(contents) == Ok(name) <==>
            exists value: Text :: Says(contents, value) && !HasControl(value) && Pads(value, name)
  {
    if ParsePersisted(contents) == Ok(name) {
      var value := ReadText(contents);
      NormalizeAccepts(value, name);
    }
    forall value: Text | Says(contents, value) && !HasControl(value) && Pads(value, name)
      ensures ParsePersisted(contents) == Ok(name)
    {
      SaidIsRead(contents, value);
      NormalizeAccepts(value, name);
    }
  }

  /** A file of a text and a line feed is refused for what is wrong with the text. */
  lemma RefusedForText(value: Text, error: TextError)
    ensures ParsePersisted(Encode(value + [NEWLINE])) == Err(Invalid(error)) <==> Normalize(value) == Err(error)
  {
    var text: Text := value + [NEWLINE];
    DecodeExact(Encode(text), text);
    assert StripNewline(text, NEWLINE) == value;
  }

  lemma ReadText(contents: seq<Byte>) returns (value: Text)
    requires Decode(contents).Some?
    ensures value == StripNewline(Decode(contents).value, NEWLINE) && Says(contents, value)
  {
    var text := Decode(contents).value;
    DecodeExact(contents, text);
    value := StripNewline(text, NEWLINE);
    assert value == text || value + [NEWLINE] == text;
  }

  lemma SaidIsRead(contents: seq<Byte>, value: Text)
    requires Says(contents, value) && !HasControl(value)
    ensures Decode(contents).Some? && StripNewline(Decode(contents).value, NEWLINE) == value
  {
    var ended: Text := value + [NEWLINE];
    DecodeExact(Encode(value), value);
    DecodeExact(Encode(ended), ended);
    assert value != [] ==> !IsControl(value[|value| - 1]);
    assert StripNewline(ended, NEWLINE) == value;
  }

  // ---------- runs ----------

  type World = State<DeviceName>

  function After(s0: World, actions: seq<Action<DeviceName>>): World { ConfigFile.After(Persisted, s0, actions) }

  /** Creation only ever proposes the default name. */
  ghost predicate CreatesDefault(actions: seq<Action<DeviceName>>) {
    forall i | 0 <= i < |actions| && actions[i].Prepare? :: actions[i].proposal == DEFAULT_NAME
  }

  /** What a call returns to its caller. */
  function Answer(outcome: Outcome<DeviceName>): Result<DeviceName, NameError> {
    match outcome
    case Read(content) => ParsePersisted(content)
    case Written(name) => Ok(name)
    case Failed(_) => Err(NameError.Io)
  }

  /** The default is only ever written where there was no file, as the first version. */
  lemma DefaultNeverOverwrites(s0: World, actions: seq<Action<DeviceName>>, i: nat)
    requires Initial(s0) && CreatesDefault(actions)
    requires i < |After(s0, actions).publications| && After(s0, actions).publications[i].Created?
    ensures i == 0 && s0.file.None? && After(s0, actions).publications[i].value == DEFAULT_NAME
  {
    var s := After(s0, actions);
    RunSafe(Persisted, s0, actions);
    RunSourced(Persisted, s0, actions);
    assert Chained(Persisted, s);
    assert Offered(actions, s.publications[i].value);
    assert actions[..0] == [];
    RunExtends(Persisted, s0, actions, 0);
    assert s.versions[0] == s.versions[..1][0] == s0.file;
  }

  /** Once any write has been published, the file names exactly what the last writer published. */
  lemma LastWriterWins(s0: World, actions: seq<Action<DeviceName>>)
    requires Initial(s0) && After(s0, actions).publications != []
    ensures var s := After(s0, actions);
      s.file.Some? && ParsePersisted(s.file.value) == Ok(s.publications[|s.publications| - 1].value)
  {
    var s := After(s0, actions);
    RunSafe(Persisted, s0, actions);
    var last := |s.publications| - 1;
    assert s.versions[last + 1] == Some(Persisted(s.publications[last].value));
    PersistedParses(s.publications[last].value);
  }

  /** `name` is what version number `v` of the file names. */
  ghost predicate Names(s: World, v: nat, name: DeviceName) {
    v < |s.versions| && s.versions[v].Some? && ParsePersisted(s.versions[v].value) == Ok(name)
  }

  /** A successful call returns a name that the file held at some moment of that call; an update returns its own. */
  lemma AnswersWereCurrent(s0: World, actions: seq<Action<DeviceName>>, i: nat)
    requires Initial(s0) && i < |After(s0, actions).calls| && Answer(After(s0, actions).calls[i].outcome).Ok?
    ensures var s := After(s0, actions);
      var c := s.calls[i];
      var name := Answer(c.outcome).value;
      && c.version.Some? && c.since <= c.version.value <= c.until && Names(s, c.version.value, name)
      && (c.op.Update? ==> name == c.op.value && c.since < c.version.value)
  {
    var s := After(s0, actions);
    RunSafe(Persisted, s0, actions);
    var c := s.calls[i];
    assert CallSafe(s, c);
    if c.outcome.Written? {
      var at := c.version.value;
      assert s.versions[at - 1 + 1] == Some(Persisted(s.publications[at - 1].value));
      PersistedParses(c.outcome.value);
    }
  }

  /** From an absent or readable file, the file stays readable and only input and output can fail. */
  lemma StaysReadable(s0: World, actions: seq<Action<DeviceName>>, i: nat)
    requires Initial(s0) && (s0.file.Some? ==> ParsePersisted(s0.file.value).Ok?)
    ensures var s := After(s0, actions);
      && (i < |s.versions| && s.versions[i].Some? ==> ParsePersisted(s.versions[i].value).Ok?)
      && (i < |s.calls| ==> s.calls[i].outcome.Read? ==> Answer(s.calls[i].outcome).Ok?)
  {
    var s := After(s0, actions);
    RunSafe(Persisted, s0, actions);
    assert actions[..0] == [];
    RunExtends(Persisted, s0, actions, 0);
    assert s.versions[0] == s.versions[..1][0] == s0.file;
    forall v | 0 <= v < |s.versions| && s.versions[v].Some?
      ensures ParsePersisted(s.versions[v].value).Ok?
    {
      if v > 0 {
        assert s.versions[v - 1 + 1] == Some(Persisted(s.publications[v - 1].value));
        PersistedParses(s.publications[v - 1].value);
      }
    }
    if i < |s.calls| {
      assert CallSafe(s, s.calls[i]);
    }
  }

  /** Existing data, valid or not, stays byte for byte until the first update replaces it. */
  lemma KeptUntilUpdated(s0: World, actions: seq<Action<DeviceName>>)
    requires Initial(s0) && s0.file.Some?
    ensures var s := After(s0, actions);
            || s.file == s0.file
            || (s.publications != [] && s.publications[0].Updated? && Requested(actions, s.publications[0].value))
  {
    var s := After(s0, actions);
    RunSafe(Persisted, s0, actions);
    RunSourced(Persisted, s0, actions);
    assert actions[..0] == [];
    RunExtends(Persisted, s0, actions, 0);
    assert s.versions[0] == s.versions[..1][0] == s0.file;
    assert Chained(Persisted, s);
  }

  // ---------- undisturbed calls ----------

  /** An undisturbed load returns the name of an existing file, or what is wrong with it, and else the default. */
  lemma LoadCompletes(s: World, p: Process)
    requires PhaseOf(s, p).Idle?
    ensures var t := After(s, AloneLoad(p, DEFAULT_NAME));
            && |t.calls| == |s.calls| + 1
            && var answer := Answer(t.calls[|s.calls|].outcome);
               match s.file
               case Some(content) => t.file == s.file && answer == ParsePersisted(content)
               case None => t.file == Some(Persisted(DEFAULT_NAME)) && answer == Ok(DEFAULT_NAME)
  {
    match s.file
    case Some(content) => LoadReads(Persisted, s, p, DEFAULT_NAME, content);
    case None => LoadCreates(Persisted, s, p, DEFAULT_NAME);
  }

  /** Whoever finds the file created first returns the name that is there. */
  lemma LoserReads(s: World, p: Process, name: DeviceName)
    requires PhaseOf(s, p).Creating? && s.file == Some(Persisted(name))
    ensures var t := After(s, [Publish(p), Open(p), Finish(p)]);
            t.file == s.file && |t.calls| == |s.calls| + 1 && Answer(t.calls[|s.calls|].outcome) == Ok(name)
  {
    LostRaceReads(Persisted, s, p, Persisted(name));
    PersistedParses(name);
  }

  /** An undisturbed update puts the new name in the file and returns it, whatever was there. */
  lemma UpdateCompletes(s: World, p: Process, name: DeviceName)
    requires PhaseOf(s, p).Idle?
    ensures var t := After(s, [Begin(p, Update(name)), Publish(p), Finish(p)]);
            && t.file.Some? && ParsePersisted(t.file.value) == Ok(name)
            && |t.calls| == |s.calls| + 1 && Answer(t.calls[|s.calls|].outcome) == Ok(name)
  {
    UpdateWrites(Persisted, s, p, name);
    PersistedParses(name);
  }

  /** Over every run, a call reports an input or output failure exactly if a step failed or the file is not text. */
  lemma IoHasCause(s0: World, actions: seq<Action<DeviceName>>, i: nat) returns (n: nat)
    requires Initial(s0) && i < |After(s0, actions).calls|
    ensures ReturnsAt(Persisted, s0, actions, n, i)
    ensures var outcome := After(s0, actions).calls[i].outcome;
            Answer(outcome) == Err(NameError.Io) <==>
            actions[n].Fail? || (outcome.Read? && Decode(outcome.content).None?)
  {
    n := FailuresHaveCauses(Persisted, s0, actions, i);
    RunSafe(Persisted, s0, actions);
    assert CallSafe(After(s0, actions), After(s0, actions).calls[i]);
  }
}
