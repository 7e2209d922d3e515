/** What the TXT schema promises: a round trip, and independence of order, letter case and unknown keys. */
module DiscoveryLaws {
  import opened Results
  import opened Bytes
  import opened DiscoveryMetadata
  import Utf8
  import DisplayText

  // ---------- order ----------

  lemma {:induction false} SizeOfConcat(a: seq<TxtEntry>, b: seq<TxtEntry>)
    ensures TotalSize(a + b) == TotalSize(a) + TotalSize(b)
  {
    if a == [] {
      assert a + b == b;
    } else {
      assert (a + b)[1..] == a[1..] + b;
      SizeOfConcat(a[1..], b);
    }
  }

  lemma {:induction false} ScanConcat(a: seq<TxtEntry>, b: seq<TxtEntry>, slots: Slots)
    ensures Scan(a + b, slots) == match Scan(a, slots) case Err(e) => Err(e) case Ok(s) => Scan(b, s)
  {
    if a == [] {
      assert a + b == b;
    } else {
      assert (a + b)[1..] == a[1..] + b && (a + b)[0] == a[0];
      match KnownField(a[0].key)
      case None => ScanConcat(a[1..], b, slots);
      case Some(field) => ScanConcat(a[1..], b, slots[field := a[0].value]);
    }
  }

  /** A successful scan stays the same when its entry `x` is read first instead. */
  lemma {:induction false} ScanFirst(before: seq<TxtEntry>, x: TxtEntry, slots: Slots)
    requires Scan(before + [x], slots).Ok?
    ensures Scan([x] + before, slots) == Scan(before + [x], slots)
    decreases |before|
  {
    if before == [] {
      assert before + [x] == [x] + before;
    } else {
      var h, rest := before[0], before[1..];
      assert (before + [x])[1..] == rest + [x] && (before + [x])[0] == h;
      assert ([x] + before)[1..] == before && ([x] + rest)[1..] == rest;
      var fx, fh := KnownField(x.key), KnownField(h.key);
      var after := if fh.Some? then slots[fh.value := h.value] else slots;
      ScanFirst(rest, x, after);
      if fx.Some? && fh.Some? {
        assert slots[fx.value := x.value][fh.value := h.value] == slots[fh.value := h.value][fx.value := x.value];
      }
    }
  }

  lemma MoveToFront(front: seq<TxtEntry>, x: TxtEntry, back: seq<TxtEntry>, slots: Slots)
    requires Scan(front + [x] + back, slots).Ok?
    ensures Scan([x] + (front + back), slots) == Scan(front + [x] + back, slots)
    ensures TotalSize([x] + (front + back)) == TotalSize(front + [x] + back)
  {
    ScanConcat(front + [x], back, slots);
    ScanFirst(front, x, slots);
    ScanConcat([x] + front, back, slots);
    assert [x] + front + back == [x] + (front + back);
    SizeOfConcat(front + [x], back);
    SizeOfConcat(front, [x]);
    SizeOfConcat([x] + front, back);
    SizeOfConcat([x], front);
  }

  lemma SplitAround(a: seq<TxtEntry>, b: seq<TxtEntry>) returns (front: seq<TxtEntry>, back: seq<TxtEntry>)
    requires multiset(a) == multiset(b) && a != []
    ensures b == front + [a[0]] + back && multiset(a[1..]) == multiset(front + back)
  {
    var x := a[0];
    assert a == [x] + a[1..];
    assert x in multiset(b);
    var i :| 0 <= i < |b| && b[i] == x;
    front, back := b[..i], b[i + 1..];
    assert b == front + [x] + back;
    assert multiset(b) == multiset(front) + multiset{x} + multiset(back);
    assert multiset(front + back) == multiset(front) + multiset(back);
    assert multiset(a[1..]) == multiset(a) - multiset{x} == multiset(front + back);
  }

  /** Reading any rearrangement of a record that scans gives the same slots. */
  lemma {:induction false} ScanPermuted(a: seq<TxtEntry>, b: seq<TxtEntry>, slots: Slots)
    requires multiset(a) == multiset(b) && Scan(b, slots).Ok?
    ensures Scan(a, slots) == Scan(b, slots) && TotalSize(a) == TotalSize(b)
    decreases |a|
  {
    if a == [] {
      assert |multiset(b)| == |b| == 0;
    } else {
      var front, back := SplitAround(a, b);
      MoveToFront(front, a[0], back, slots);
      assert a == [a[0]] + a[1..];
      ScanConcat([a[0]], front + back, slots);
      ScanConcat([a[0]], a[1..], slots);
      SizeOfConcat([a[0]], front + back);
      ScanPermuted(a[1..], front + back, Scan([a[0]], slots).value);
    }
  }

  /** The order of the entries matters neither for success nor for the value. */
  lemma OrderIndependent(a: seq<TxtEntry>, b: seq<TxtEntry>)
    requires multiset(a) == multiset(b)
    ensures FromTxt(a).Ok? <==> FromTxt(b).Ok?
    ensures FromTxt(a).Ok? ==> FromTxt(a) == FromTxt(b)
  {
    if FromTxt(b).Ok? {
      ScanPermuted(a, b, map[]);
    }
    if FromTxt(a).Ok? {
      ScanPermuted(b, a, map[]);
    }
  }

  // ---------- letter case ----------

  ghost predicate SameUpToCase(a: seq<TxtEntry>, b: seq<TxtEntry>) {
    && |a| == |b|
    && forall i | 0 <= i < |a| :: Lower(a[i].key) == Lower(b[i].key) && a[i].value == b[i].value
  }

  lemma {:induction false} ScanIgnoresCase(a: seq<TxtEntry>, b: seq<TxtEntry>, slots: Slots)
    requires SameUpToCase(a, b)
    ensures Scan(a, slots) == Scan(b, slots) && TotalSize(a) == TotalSize(b)
  {
    if a == [] {
    } else {
      assert |a[0].key| == |Lower(a[0].key)| == |b[0].key|;
      assert KnownField(a[0].key) == KnownField(b[0].key);
      match KnownField(a[0].key)
      case None => ScanIgnoresCase(a[1..], b[1..], slots);
      case Some(field) => ScanIgnoresCase(a[1..], b[1..], slots[field := a[0].value]);
    }
  }

  /** Changing the ASCII case of keys changes nothing, not even the error. */
  lemma CaseIndependent(a: seq<TxtEntry>, b: seq<TxtEntry>)
    requires SameUpToCase(a, b)
    ensures FromTxt(a) == FromTxt(b)
  {
    ScanIgnoresCase(a, b, map[]);
  }

  // ---------- unknown keys ----------

  /** An unknown key anywhere in the record is ignored as long as the record stays within its budget. */
  lemma UnknownKeysIgnored(front: seq<TxtEntry>, x: TxtEntry, back: seq<TxtEntry>)
    requires KnownField(x.key).None?
    requires TotalSize(front + [x] + back) <= MAX_DISCOVERY_TXT_BYTES
    ensures FromTxt(front + [x] + back) == FromTxt(front + back)
  {
    SizeOfConcat(front + [x], back);
    SizeOfConcat(front, [x]);
    SizeOfConcat(front, back);
    ScanConcat(front + [x], back, map[]);
    ScanConcat(front, [x], map[]);
    ScanConcat(front, back, map[]);
    assert forall slots: Slots :: Scan([x], slots) == Ok(slots);
  }

  /** A known key repeated in any letter case refuses the record, wherever the repetition is. */
  lemma {:induction false} DuplicatesRefused(entries: seq<TxtEntry>, i: nat, j: nat, slots: Slots)
    requires i < j < |entries| && KnownField(entries[i].key).Some?
    requires KnownField(entries[i].key) == KnownField(entries[j].key)
    ensures Scan(entries, slots).Err?
  {
    var field := KnownField(entries[i].key).value;
    ScanConcat(entries[..j], entries[j..], slots);
    assert entries == entries[..j] + entries[j..];
    if Scan(entries[..j], slots).Ok? {
      ScanKeepsField(entries[..j], i, slots);
    }
  }

  lemma {:induction false} ScanKeepsField(entries: seq<TxtEntry>, i: nat, slots: Slots)
    requires i < |entries| && KnownField(entries[i].key).Some? && Scan(entries, slots).Ok?
    ensures KnownField(entries[i].key).value in Scan(entries, slots).value
  {
    ScanConcat(entries[..i], entries[i..], slots);
    assert entries == entries[..i] + entries[i..];
    var field := KnownField(entries[i].key).value;
    var slots' := Scan(entries[..i], slots).value;
    SlotsGrow(entries[i + 1..], slots'[field := entries[i].value], field);
    assert entries[i..][1..] == entries[i + 1..];
  }

  lemma {:induction false} SlotsGrow(entries: seq<TxtEntry>, slots: Slots, field: Field)
    requires field in slots && Scan(entries, slots).Ok?
    ensures field in Scan(entries, slots).value
  {
    if entries == [] {
    } else {
      match KnownField(entries[0].key)
      case None => SlotsGrow(entries[1..], slots, field);
      case Some(f) => SlotsGrow(entries[1..], slots[f := entries[0].value], field);
    }
  }

  // ---------- round trip ----------

  lemma KeysDistinct()
    ensures forall f: Field :: KnownField(KeyOf(f)) == Some(f)
    ensures forall f: Field :: 2 <= |KeyOf(f)| <= 4
  {
    assert Lower(KeyOf(ProtocolMin))[3] == 110 && Lower(KeyOf(ProtocolMax))[3] == 120;
    assert Lower(KeyOf(Version))[0] == 100 && Lower(KeyOf(Os))[0] == 111;
    assert Lower(KeyOf(Name))[0] == 110 && Lower(KeyOf(ProtocolMin))[0] == 112 && Lower(KeyOf(ProtocolMax))[0] == 112;
    forall f: Field
      ensures KnownField(KeyOf(f)) == Some(f) && 2 <= |KeyOf(f)| <= 4
    {
      match f {
        case Version => case ProtocolMin => case ProtocolMax => case Name => case Os =>
      }
    }
  }

  function RequiredSlots(protocols: ProtocolRange): Slots {
    map[Version := ToDecimal(DISCOVERY_SCHEMA_VERSION), ProtocolMin := ToDecimal(protocols.min),
        ProtocolMax := ToDecimal(protocols.max)]
  }

  function SlotsOf(m: Metadata): Slots {
    RequiredSlots(m.protocols)
    + (if m.name.Some? then map[Name := Utf8.Encode(m.name.value)] else map[])
    + (if m.platform.Some? then map[Os := PlatformName(m.platform.value)] else map[])
  }

  lemma ScanRequired(protocols: ProtocolRange)
    ensures Scan(RequiredEntries(protocols), map[]) == Ok(RequiredSlots(protocols))
  {
    KeysDistinct();
    var entries := RequiredEntries(protocols);
    var s1: Slots := map[Version := entries[0].value];
    var s2 := s1[ProtocolMin := entries[1].value];
    assert entries == [entries[0]] + ([entries[1]] + [entries[2]]);
    ScanConcat([entries[0]], [entries[1]] + [entries[2]], map[]);
    ScanConcat([entries[1]], [entries[2]], s1);
    assert Scan([entries[2]], s2) == Ok(RequiredSlots(protocols));
  }

  lemma ScanPrinted(m: Metadata)
    ensures Scan(ToTxt(m), map[]) == Ok(SlotsOf(m))
  {
    KeysDistinct();
    ScanRequired(m.protocols);
    var required, named := RequiredEntries(m.protocols), NameEntries(m.name);
    var s1 := RequiredSlots(m.protocols);
    var s2 := s1 + (if m.name.Some? then map[Name := Utf8.Encode(m.name.value)] else map[]);
    ScanConcat(required, named, map[]);
    ScanConcat(required + named, PlatformEntries(m.platform), map[]);
    ScanOptional(named, Name, s1);
    ScanOptional(PlatformEntries(m.platform), Os, s2);
  }

  lemma ScanOptional(entries: seq<TxtEntry>, field: Field, slots: Slots)
    requires entries == [] || (|entries| == 1 && entries[0].key == KeyOf(field) && field !in slots)
    ensures Scan(entries, slots) ==
            Ok(slots + (if entries == [] then map[] else map[field := entries[0].value]))
  {
    KeysDistinct();
    if entries != [] {
      assert Scan(entries[1..], slots[field := entries[0].value]) == Ok(slots[field := entries[0].value]);
      assert slots + map[field := entries[0].value] == slots[field := entries[0].value];
    } else {
      assert slots + map[] == slots;
    }
  }

  lemma SizeOfOne(e: TxtEntry)
    ensures TotalSize([e]) == EncodedSize(e)
  {
  }

  lemma RequiredSize(protocols: ProtocolRange)
    requires protocols.min <= U16_MAX && protocols.max <= U16_MAX
    ensures TotalSize(RequiredEntries(protocols)) <= 31
  {
    KeysDistinct();
    var r := RequiredEntries(protocols);
    DecimalLength(protocols.min);
    DecimalLength(protocols.max);
    assert r == [r[0]] + [r[1]] + [r[2]];
    SizeOfConcat([r[0]] + [r[1]], [r[2]]);
    SizeOfConcat([r[0]], [r[1]]);
    SizeOfOne(r[0]);
    SizeOfOne(r[1]);
    SizeOfOne(r[2]);
  }

  lemma PrintedSize(m: Metadata)
    requires ValidMetadata(m)
    ensures TotalSize(ToTxt(m)) <= 512
  {
    KeysDistinct();
    RequiredSize(m.protocols);
    PlatformRoundTrip(m.platform);
    var r := RequiredEntries(m.protocols);
    SizeOfConcat(r, NameEntries(m.name));
    SizeOfConcat(r + NameEntries(m.name), PlatformEntries(m.platform));
  }

  /** Printing and parsing give back every valid metadata value. */
  lemma RoundTrip(m: Metadata)
    requires ValidMetadata(m)
    ensures FromTxt(ToTxt(m)) == Ok(m)
  {
    PrintedSize(m);
    ScanPrinted(m);
    ParseCanonicalU16Exact(ToDecimal(DISCOVERY_SCHEMA_VERSION), DISCOVERY_SCHEMA_VERSION);
    ParseCanonicalU16Exact(ToDecimal(m.protocols.min), m.protocols.min);
    ParseCanonicalU16Exact(ToDecimal(m.protocols.max), m.protocols.max);
    if m.name.Some? {
      Utf8.DecodeExact(Utf8.Encode(m.name.value), m.name.value);
    }
    PlatformRoundTrip(m.platform);
  }

  lemma PlatformRoundTrip(platform: Option<Platform>)
    ensures platform.Some? ==> ParsePlatform(PlatformName(platform.value)) == platform
    ensures platform.Some? ==> |PlatformName(platform.value)| <= 7
  {
    assert |PlatformName(Windows)| == 7;
    assert |PlatformName(MacOs)| == |PlatformName(Linux)| == 5;
    assert PlatformName(MacOs)[0] == 109 && PlatformName(Linux)[0] == 108;
  }

  /** Whatever is accepted is valid, so it can be printed and parsed again. */
  lemma ParsedIsValid(entries: seq<TxtEntry>)
    requires FromTxt(entries).Ok?
    ensures ValidMetadata(FromTxt(entries).value)
    ensures FromTxt(ToTxt(FromTxt(entries).value)) == FromTxt(entries)
  {
    var slots := Scan(entries, map[]).value;
    var m := FromTxt(entries).value;
    ParseCanonicalU16Exact(slots[ProtocolMax], m.protocols.max);
    RoundTrip(m);
  }

  /** Every printed entry is one that the entry constructor would accept. */
  lemma PrintedEntriesValid(m: Metadata)
    requires ValidMetadata(m)
    ensures forall e | e in ToTxt(m) :: NewEntry(e.key, e.value) == Ok(e)
  {
    RequiredEntriesValid(m.protocols);
    if m.name.Some? {
      KnownEntryValid(Name, Utf8.Encode(m.name.value));
    }
    if m.platform.Some? {
      PlatformRoundTrip(m.platform);
      KnownEntryValid(Os, PlatformName(m.platform.value));
    }
  }

  lemma RequiredEntriesValid(protocols: ProtocolRange)
    requires protocols.min <= U16_MAX && protocols.max <= U16_MAX
    ensures forall e | e in RequiredEntries(protocols) :: NewEntry(e.key, e.value) == Ok(e)
  {
    DecimalLength(DISCOVERY_SCHEMA_VERSION);
    DecimalLength(protocols.min);
    DecimalLength(protocols.max);
    KnownEntryValid(Version, ToDecimal(DISCOVERY_SCHEMA_VERSION));
    KnownEntryValid(ProtocolMin, ToDecimal(protocols.min));
    KnownEntryValid(ProtocolMax, ToDecimal(protocols.max));
  }

  lemma KnownEntryValid(f: Field, value: seq<Byte>)
    requires |value| <= MAX_DISCOVERY_NAME_BYTES
    ensures NewEntry(KeyOf(f), value) == Ok(TxtEntry(KeyOf(f), value))
  {
    KeysDistinct();
    KeyPrintable(f);
  }

  lemma KeyPrintable(f: Field)
    ensures forall i | 0 <= i < |KeyOf(f)| :: 97 <= KeyOf(f)[i] <= 122
  {
    match f {
      case Version => case ProtocolMin => case ProtocolMax => case Name => case Os =>
    }
  }

  // ---------- what is accepted ----------

  ghost predicate At(entries: seq<TxtEntry>, i: int, field: Field) {
    0 <= i < |entries| && KnownField(entries[i].key) == Some(field)
  }

  /** Some entry carries this value for the field. */
  ghost predicate Gives(entries: seq<TxtEntry>, field: Field, value: seq<Byte>) {
    exists i :: At(entries, i, field) && entries[i].value == value
  }

  ghost predicate NoFieldTwice(entries: seq<TxtEntry>) {
    forall i, j, f: Field | i < j && At(entries, i, f) :: !At(entries, j, f)
  }

  /** The slots hold exactly what the entries give. */
  ghost predicate Collected(entries: seq<TxtEntry>, slots: Slots) {
    && (forall i, f: Field | At(entries, i, f) :: f in slots && slots[f] == entries[i].value)
    && (forall f | f in slots :: Gives(entries, f, slots[f]))
  }

  lemma {:induction false} ScanCollects(entries: seq<TxtEntry>)
    requires NoFieldTwice(entries)
    ensures Scan(entries, map[]).Ok? && Collected(entries, Scan(entries, map[]).value)
  {
    if entries == [] {
    } else {
      var n := |entries| - 1;
      var before, last := entries[..n], entries[n];
      assert forall i, f: Field :: At(before, i, f) ==> At(entries, i, f);
      ScanCollects(before);
      assert entries == before + [last];
      ScanConcat(before, [last], map[]);
      CollectOneMore(before, last, Scan(before, map[]).value);
    }
  }

  lemma CollectOneMore(before: seq<TxtEntry>, last: TxtEntry, slots: Slots)
    requires NoFieldTwice(before + [last]) && Collected(before, slots)
    ensures Scan([last], slots).Ok? && Collected(before + [last], Scan([last], slots).value)
  {
    var entries, field := before + [last], KnownField(last.key);
    if field.Some? {
      if field.value in slots {
        var i :| At(before, i, field.value);
        assert At(entries, i, field.value) && At(entries, |before|, field.value);
        assert false;
      }
      assert At(entries, |before|, field.value);
    }
    assert Scan([last][1..], map[]) == Ok(map[]);
    forall f | f in slots
      ensures Gives(entries, f, slots[f])
    {
      var i :| At(before, i, f) && before[i].value == slots[f];
      assert At(entries, i, f);
    }
    assert forall i, f: Field | At(entries, i, f) :: i == |before| || At(before, i, f);
  }

  lemma ScanExact(entries: seq<TxtEntry>)
    ensures Scan(entries, map[]).Ok? <==> NoFieldTwice(entries)
    ensures Scan(entries, map[]).Ok? ==> Collected(entries, Scan(entries, map[]).value)
  {
    if NoFieldTwice(entries) {
      ScanCollects(entries);
    } else {
      var i, j, f: Field :| i < j && At(entries, i, f) && At(entries, j, f);
      DuplicatesRefused(entries, i, j, map[]);
    }
  }

  lemma GivesIsSlot(entries: seq<TxtEntry>, slots: Slots, field: Field, value: seq<Byte>)
    requires Collected(entries, slots)
    ensures Gives(entries, field, value) <==> field in slots && slots[field] == value
  {
  }

  lemma RequiredExact(slots: Slots, field: Field, value: nat)
    ensures ParseRequiredDecimal(slots, field) == Ok(value) <==>
            field in slots && slots[field] == ToDecimal(value) && value <= U16_MAX
  {
    if field in slots {
      ParseCanonicalU16Exact(slots[field], value);
    }
  }

  lemma OptionalNameExact(value: seq<Byte>, name: Utf8.Text)
    ensures ParseOptionalName(value) == Some(name) <==> value == Utf8.Encode(name) && NewHint(name) == Ok(name)
  {
    Utf8.DecodeExact(value, name);
  }

  lemma PlatformExact(value: seq<Byte>, platform: Platform)
    ensures ParsePlatform(value) == Some(platform) <==> value == PlatformName(platform)
  {
    PlatformRoundTrip(Some(platform));
  }

  /** The required fields say this range, in canonical decimal, under the supported schema version. */
  ghost predicate RequiredMean(entries: seq<TxtEntry>, protocols: ProtocolRange) {
    && Gives(entries, Version, ToDecimal(1))
    && Gives(entries, ProtocolMin, ToDecimal(protocols.min))
    && Gives(entries, ProtocolMax, ToDecimal(protocols.max))
    && protocols.min <= protocols.max <= U16_MAX
  }

  /** A hint is the usable one that an entry carries; there is none exactly when no entry carries a usable one. */
  ghost predicate HintsMean(entries: seq<TxtEntry>, name: Option<Utf8.Text>, platform: Option<Platform>) {
    && (forall text :: name == Some(text) <==> Gives(entries, Name, Utf8.Encode(text)) && NewHint(text) == Ok(text))
    && (forall p :: platform == Some(p) <==> Gives(entries, Os, PlatformName(p)))
  }

  /**
   Parsing accepts a record with this value exactly when it fits the budget, repeats
   no known key, and its fields say the value.
   */
  lemma AcceptedExactly(entries: seq<TxtEntry>, m: Metadata)
    ensures FromTxt(entries) == Ok(m) <==>
            && TotalSize(entries) <= 512 && NoFieldTwice(entries)
            && RequiredMean(entries, m.protocols) && HintsMean(entries, m.name, m.platform)
  {
    ScanExact(entries);
    if NoFieldTwice(entries) {
      var slots := Scan(entries, map[]).value;
      RequiredFromSlots(entries, slots, m.protocols);
      HintsFromSlots(entries, slots, m.name, m.platform);
    }
  }

  lemma RequiredFromSlots(entries: seq<TxtEntry>, slots: Slots, protocols: ProtocolRange)
    requires Collected(entries, slots)
    ensures RequiredMean(entries, protocols) <==>
            && ParseRequiredDecimal(slots, Version) == Ok(DISCOVERY_SCHEMA_VERSION)
            && ParseRequiredDecimal(slots, ProtocolMin) == Ok(protocols.min)
            && ParseRequiredDecimal(slots, ProtocolMax) == Ok(protocols.max)
            && protocols.min <= protocols.max
  {
    RequiredExact(slots, Version, DISCOVERY_SCHEMA_VERSION);
    RequiredExact(slots, ProtocolMin, protocols.min);
    RequiredExact(slots, ProtocolMax, protocols.max);
    GivesIsSlot(entries, slots, Version, ToDecimal(DISCOVERY_SCHEMA_VERSION));
    GivesIsSlot(entries, slots, ProtocolMin, ToDecimal(protocols.min));
    GivesIsSlot(entries, slots, ProtocolMax, ToDecimal(protocols.max));
  }

  lemma HintsFromSlots(entries: seq<TxtEntry>, slots: Slots, name: Option<Utf8.Text>, platform: Option<Platform>)
    requires Collected(entries, slots)
    ensures HintsMean(entries, name, platform) <==>
            && name == (if Name in slots then ParseOptionalName(slots[Name]) else None)
            && platform == (if Os in slots then ParsePlatform(slots[Os]) else None)
  {
    var foundName := if Name in slots then ParseOptionalName(slots[Name]) else None;
    var foundPlatform := if Os in slots then ParsePlatform(slots[Os]) else None;
    forall text
      ensures foundName == Some(text) <==> Gives(entries, Name, Utf8.Encode(text)) && NewHint(text) == Ok(text)
    {
      GivesIsSlot(entries, slots, Name, Utf8.Encode(text));
      if Name in slots {
        OptionalNameExact(slots[Name], text);
      }
    }
    forall p
      ensures foundPlatform == Some(p) <==> Gives(entries, Os, PlatformName(p))
    {
      GivesIsSlot(entries, slots, Os, PlatformName(p));
      if Os in slots {
        PlatformExact(slots[Os], p);
      }
    }
    SameOption(name, foundName);
    SameOption(platform, foundPlatform);
  }

  lemma SameOption<T>(a: Option<T>, b: Option<T>)
    ensures a == b <==> forall x :: a == Some(x) <==> b == Some(x)
  {
    if a != b {
      if a.Some? {
        assert a == Some(a.value) && b != Some(a.value);
      } else {
        assert b == Some(b.value) && a != Some(b.value);
      }
    }
  }

  // ---------- the name hint ----------

  /** The truncated name passes hint validation unchanged and survives the TXT record. */
  lemma HintAccepted(name: Utf8.Text, hint: Utf8.Text)
    requires DisplayText.Valid(name) && LongestHint(name, hint)
    ensures NewHint(hint) == Ok(hint)
    ensures ParseOptionalName(Utf8.Encode(hint)) == Some(hint)
  {
    assert Utf8.Encode(name[..1]) == Utf8.EncodeScalar(name[0]) by {
      assert name[..1] == [name[0]];
    }
    assert hint[0] == name[0];
    HintHasVisibleText(hint);
    forall i | 0 <= i < |hint|
      ensures !DisplayText.IsControl(hint[i])
    {
      assert hint[i] == name[i];
    }
    Utf8.DecodeExact(Utf8.Encode(hint), hint);
  }

  lemma HintHasVisibleText(hint: Utf8.Text)
    requires hint != [] && !DisplayText.IsWhitespace(hint[0])
    ensures DisplayText.Trim(hint) != []
  {
    var lo, hi := DisplayText.TrimSlice(hint);
    assert 0 < hi;
  }

  /** The hint is determined by the name: no other prefix is as long and fits. */
  lemma LongestHintUnique(name: Utf8.Text, a: Utf8.Text, b: Utf8.Text)
    requires LongestHint(name, a) && LongestHint(name, b)
    ensures a == b
  {
    if |a| < |b| {
      HintMaximal(name, a, b);
    } else if |b| < |a| {
      HintMaximal(name, b, a);
    }
  }

  lemma HintMaximal(name: Utf8.Text, a: Utf8.Text, b: Utf8.Text)
    requires LongestHint(name, a) && b <= name && |a| < |b|
    ensures |Utf8.Encode(b)| > MAX_DISCOVERY_NAME_BYTES
  {
    assert b == name[..|a| + 1] + b[|a| + 1..];
    Utf8.EncodeConcat(name[..|a| + 1], b[|a| + 1..]);
  }

  // ---------- the bytes on the wire ----------

  /** Lower case maps the 26 capital letters to the small ones, and leaves every other byte alone. */
  lemma LowerLetters(b: Byte)
    ensures LowerByte(b) == if 'A' <= b as char <= 'Z' then (b as char - 'A' + 'a') as int else b
  {
  }

  /** The key of each field, byte for byte: dv, pmin, pmax, name and os. */
  function WireKey(field: Field): seq<Byte> {
    match field
    case Version => [100, 118]
    case ProtocolMin => [112, 109, 105, 110]
    case ProtocolMax => [112, 109, 97, 120]
    case Name => [110, 97, 109, 101]
    case Os => [111, 115]
  }

  lemma KeysOnWire(field: Field)
    ensures KeyOf(field) == WireKey(field) && Lower(KeyOf(field)) == KeyOf(field)
  {
    match field {
      case Version => case ProtocolMin => case ProtocolMax => case Name => case Os =>
    }
  }

  /** A key is known exactly when its lower-case bytes are one of the five, and then as that field. */
  lemma KnownExactly(key: seq<Byte>, field: Field)
    ensures KnownField(key) == Some(field) <==> Lower(key) == WireKey(field)
  {
    KeysDistinct();
    forall f
      ensures Lower(KeyOf(f)) == WireKey(f)
    {
      KeysOnWire(f);
    }
    if Lower(key) == WireKey(field) {
      assert Lower(key) == Lower(KeyOf(field));
    }
  }

  /** Each platform's name: macos, windows and linux. */
  function WirePlatform(platform: Platform): seq<Byte> {
    match platform
    case MacOs => [109, 97, 99, 111, 115]
    case Windows => [119, 105, 110, 100, 111, 119, 115]
    case Linux => [108, 105, 110, 117, 120]
  }

  lemma PlatformOnWire(platform: Platform)
    ensures PlatformName(platform) == WirePlatform(platform)
  {
  }

  /**
   What every valid metadata value is printed as: the schema version 1, the least and
   the greatest protocol version, then the name and the platform if present.
   */
  lemma PrintedOnWire(m: Metadata)
    ensures ToTxt(m) ==
            [TxtEntry([100, 118], [49]),
             TxtEntry([112, 109, 105, 110], ToDecimal(m.protocols.min)),
             TxtEntry([112, 109, 97, 120], ToDecimal(m.protocols.max))]
            + (if m.name.Some? then [TxtEntry([110, 97, 109, 101], Utf8.Encode(m.name.value))] else [])
            + (if m.platform.Some? then [TxtEntry([111, 115], WirePlatform(m.platform.value))] else [])
  {
    forall f
      ensures KeyOf(f) == WireKey(f)
    {
      KeysOnWire(f);
    }
    if m.platform.Some? {
      PlatformOnWire(m.platform.value);
    }
  }

  /** Some entry, its key in any letter case, carries this value. */
  ghost predicate Carries(entries: seq<TxtEntry>, key: seq<Byte>, value: seq<Byte>) {
    exists i :: 0 <= i < |entries| && Lower(entries[i].key) == key && entries[i].value == value
  }

  lemma CarriesIsGives(entries: seq<TxtEntry>, field: Field, value: seq<Byte>)
    ensures Carries(entries, WireKey(field), value) <==> Gives(entries, field, value)
  {
    if Carries(entries, WireKey(field), value) {
      var i :| 0 <= i < |entries| && Lower(entries[i].key) == WireKey(field) && entries[i].value == value;
      KnownExactly(entries[i].key, field);
      assert At(entries, i, field);
    }
    if Gives(entries, field, value) {
      var i :| At(entries, i, field) && entries[i].value == value;
      KnownExactly(entries[i].key, field);
    }
  }

  /** An accepted record says its value under the keys dv, pmin and pmax. */
  lemma AcceptedOnWire(entries: seq<TxtEntry>, m: Metadata)
    requires FromTxt(entries) == Ok(m)
    ensures Carries(entries, [100, 118], [49])
    ensures Carries(entries, [112, 109, 105, 110], ToDecimal(m.protocols.min))
    ensures Carries(entries, [112, 109, 97, 120], ToDecimal(m.protocols.max))
    ensures m.name.Some? ==> Carries(entries, [110, 97, 109, 101], Utf8.Encode(m.name.value))
    ensures m.platform.Some? ==> Carries(entries, [111, 115], WirePlatform(m.platform.value))
  {
    AcceptedExactly(entries, m);
    RequiredOnWire(entries, m.protocols);
    HintsOnWire(entries, m.name, m.platform);
  }

  lemma RequiredOnWire(entries: seq<TxtEntry>, protocols: ProtocolRange)
    requires RequiredMean(entries, protocols)
    ensures Carries(entries, [100, 118], [49])
    ensures Carries(entries, [112, 109, 105, 110], ToDecimal(protocols.min))
    ensures Carries(entries, [112, 109, 97, 120], ToDecimal(protocols.max))
  {
    CarriesIsGives(entries, Version, [49]);
    CarriesIsGives(entries, ProtocolMin, ToDecimal(protocols.min));
    CarriesIsGives(entries, ProtocolMax, ToDecimal(protocols.max));
  }

  lemma HintsOnWire(entries: seq<TxtEntry>, name: Option<Utf8.Text>, platform: Option<Platform>)
    requires HintsMean(entries, name, platform)
    ensures name.Some? ==> Carries(entries, [110, 97, 109, 101], Utf8.Encode(name.value))
    ensures platform.Some? ==> Carries(entries, [111, 115], WirePlatform(platform.value))
  {
    if name.Some? {
      CarriesIsGives(entries, Name, Utf8.Encode(name.value));
    }
    if platform.Some? {
      CarriesIsGives(entries, Os, WirePlatform(platform.value));
      PlatformOnWire(platform.value);
    }
  }

  // ---------- refusals ----------

  /** Some entry carries this number for the field, in canonical 16-bit decimal. */
  ghost predicate Says(entries: seq<TxtEntry>, field: Field, n: nat) {
    n <= 65535 && Gives(entries, field, ToDecimal(n))
  }

  /** What is wrong with a required field: it is absent, or no canonical number. */
  ghost function Fault(entries: seq<TxtEntry>, field: Field): Option<MetadataError> {
    if forall value :: !Gives(entries, field, value) then Some(MissingField(field))
    else if forall n: nat :: !Says(entries, field, n) then Some(MalformedField(field))
    else None
  }

  lemma FaultExact(entries: seq<TxtEntry>, slots: Slots, field: Field)
    requires Collected(entries, slots)
    ensures match ParseRequiredDecimal(slots, field)
            case Err(e) => Fault(entries, field) == Some(e) && forall n: nat :: !Says(entries, field, n)
            case Ok(value) => Fault(entries, field) == None && forall n: nat :: Says(entries, field, n) <==> n == value
  {
    forall value
      ensures Gives(entries, field, value) <==> field in slots && slots[field] == value
    {
      GivesIsSlot(entries, slots, field, value);
    }
    forall n: nat
      ensures Says(entries, field, n) <==> ParseRequiredDecimal(slots, field) == Ok(n)
    {
      RequiredExact(slots, field, n);
    }
  }

  /** Beyond 512 bytes the record is refused for its size. */
  lemma RefusedForSize(entries: seq<TxtEntry>)
    requires TotalSize(entries) > 512
    ensures FromTxt(entries) == Err(TotalMetadataTooLarge(TotalSize(entries)))
  {
  }

  /** Within it, the first entry that repeats a known key names the refusal. */
  lemma RefusedForRepeat(entries: seq<TxtEntry>, i: nat, j: nat, field: Field)
    requires TotalSize(entries) <= 512
    requires i < j && At(entries, i, field) && At(entries, j, field) && NoFieldTwice(entries[..j])
    ensures FromTxt(entries) == Err(DuplicateKnownKey(field))
  {
    assert entries == entries[..j] + entries[j..];
    ScanConcat(entries[..j], entries[j..], map[]);
    ScanExact(entries[..j]);
    assert At(entries[..j], i, field);
  }

  /**
   Without a repeated key, the required fields are judged in the order version,
   minimum, maximum, and then the range they make.
   */
  lemma RefusedInOrder(entries: seq<TxtEntry>)
    requires TotalSize(entries) <= 512 && NoFieldTwice(entries)
    ensures Fault(entries, Version).Some? ==> FromTxt(entries) == Err(Fault(entries, Version).value)
    ensures forall v | Says(entries, Version, v) && v != 1 :: FromTxt(entries) == Err(UnsupportedSchemaVersion(v))
    ensures Says(entries, Version, 1) ==>
              && (Fault(entries, ProtocolMin).Some? ==> FromTxt(entries) == Err(Fault(entries, ProtocolMin).value))
              && (Fault(entries, ProtocolMin).None? && Fault(entries, ProtocolMax).Some? ==>
                    FromTxt(entries) == Err(Fault(entries, ProtocolMax).value))
              && (forall a, b | Says(entries, ProtocolMin, a) && Says(entries, ProtocolMax, b) && a > b ::
                    FromTxt(entries) == Err(InvalidProtocolRange(a, b)))
  {
    ScanExact(entries);
    var slots := Scan(entries, map[]).value;
    FaultExact(entries, slots, Version);
    FaultExact(entries, slots, ProtocolMin);
    FaultExact(entries, slots, ProtocolMax);
  }

  // ---------- limits ----------

  /** Each entry takes its key and value, an equals sign, and a length octet. */
  lemma SizesAdd(entries: seq<TxtEntry>, e: TxtEntry)
    ensures TotalSize([]) == 0 && TotalSize(entries + [e]) == TotalSize(entries) + |e.key| + |e.value| + 2
  {
    SizeOfConcat(entries, [e]);
    SizeOfOne(e);
  }

  /** An entry is built exactly from a nonempty key of printable bytes without an equals sign, within 255 bytes. */
  lemma NewEntryExact(key: seq<Byte>, value: seq<Byte>)
    ensures NewEntry(key, value).Ok? <==>
            && key != [] && (forall i | 0 <= i < |key| :: 32 <= key[i] <= 126 && key[i] != 61)
            && |key| + 1 + |value| <= 255
    ensures NewEntry(key, value).Ok? ==> NewEntry(key, value).value == TxtEntry(key, value)
    ensures NewEntry(key, value).Err? ==>
              NewEntry(key, value).error ==
              if key == [] || exists i | 0 <= i < |key| :: !(32 <= key[i] <= 126) || key[i] == 61
              then InvalidTxtKey else TxtEntryTooLarge(|key| + 1 + |value|)
  {
  }

  /** A hint is accepted, unchanged, exactly within 96 bytes, with something visible in it and no control character. */
  lemma NewHintExact(value: Utf8.Text)
    ensures NewHint(value).Ok? <==>
            && |Utf8.Encode(value)| <= 96 && !DisplayText.HasControl(value)
            && exists i | 0 <= i < |value| :: !DisplayText.IsWhitespace(value[i])
    ensures NewHint(value).Ok? ==> NewHint(value) == Ok(value)
    ensures NewHint(value).Err? ==>
              NewHint(value).error ==
              if |Utf8.Encode(value)| > 96 then HintTooLong(|Utf8.Encode(value)|)
              else if DisplayText.Blank(value) then HintEmpty
              else HintControl
  {
    var lo, hi := DisplayText.TrimSlice(value);
    if DisplayText.Trim(value) != [] {
      assert DisplayText.Trim(value)[0] == value[lo];
    }
  }

  /** The truncation budget is 96 bytes. */
  lemma HintBudget(name: Utf8.Text, hint: Utf8.Text)
    requires LongestHint(name, hint)
    ensures hint <= name && |Utf8.Encode(hint)| <= 96
    ensures forall n | |hint| < n <= |name| :: |Utf8.Encode(name[..n])| > 96
  {
    forall n | |hint| < n <= |name|
      ensures |Utf8.Encode(name[..n])| > 96
    {
      HintMaximal(name, hint, name[..n]);
    }
  }
}
