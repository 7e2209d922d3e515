/**
 Discovery metadata carried in DNS-SD TXT records: the schema, its printer and
 parser (sections 6.1 and 6.4 of RFC 6763), and the advisory name hint.
 */
module DiscoveryMetadata {
  import opened Results
  import opened Bytes
  import Utf8
  import DisplayText

  const MAX_DISCOVERY_NAME_BYTES: nat := 96
  const MAX_DISCOVERY_TXT_BYTES: nat := 512
  const MAX_DISCOVERY_TXT_ENTRY_BYTES: nat := 255
  const DISCOVERY_SCHEMA_VERSION: nat := 1
  const INITIAL_PROTOCOL_MAJOR: nat := 1

  // ---------- values ----------

  datatype ProtocolRange = ProtocolRange(min: nat, max: nat) {
    predicate Contains(version: nat) { min <= version <= max }

    /** The greatest version in both ranges, if they meet at all. */
    function HighestCompatible(other: ProtocolRange): (r: Option<nat>)
      ensures r.Some? ==> Contains(r.value) && other.Contains(r.value)
      ensures forall v: nat | Contains(v) && other.Contains(v) :: r.Some? && v <= r.value
    {
      var minimum := if min > other.min then min else other.min;
      var maximum := if max < other.max then max else other.max;
      if minimum <= maximum then Some(maximum)
      else
        assert forall v: nat | Contains(v) && other.Contains(v) :: minimum <= v <= maximum;
        None
    }
  }

  datatype Platform = MacOs | Windows | Linux

  datatype Metadata = Metadata(protocols: ProtocolRange, name: Option<Utf8.Text>, platform: Option<Platform>)

  datatype HintError = HintEmpty | HintControl | HintTooLong(actual: nat)

  function NewHint(value: Utf8.Text): Result<Utf8.Text, HintError> {
    if |Utf8.Encode(value)| > MAX_DISCOVERY_NAME_BYTES then Err(HintTooLong(|Utf8.Encode(value)|))
    else if DisplayText.Trim(value) == [] then Err(HintEmpty)
    else if DisplayText.HasControl(value) then Err(HintControl)
    else Ok(value)
  }

  predicate ValidMetadata(m: Metadata) {
    && m.protocols.min <= m.protocols.max <= U16_MAX
    && (m.name.Some? ==> NewHint(m.name.value) == Ok(m.name.value))
  }

  // ---------- TXT entries ----------

  datatype TxtEntry = TxtEntry(key: seq<Byte>, value: seq<Byte>)

  datatype Field = Version | ProtocolMin | ProtocolMax | Name | Os

  datatype MetadataError =
    | InvalidTxtKey
    | TxtEntryTooLarge(size: nat)
    | TotalMetadataTooLarge(size: nat)
    | MissingField(field: Field)
    | DuplicateKnownKey(field: Field)
    | MalformedField(field: Field)
    | UnsupportedSchemaVersion(version: nat)
    | InvalidProtocolRange(min: nat, max: nat)

  function NewEntry(key: seq<Byte>, value: seq<Byte>): Result<TxtEntry, MetadataError> {
    if key == [] || exists i | 0 <= i < |key| :: !(0x20 <= key[i] <= 0x7E) || key[i] == '=' as int then
      Err(InvalidTxtKey)
    else if |key| + 1 + |value| > MAX_DISCOVERY_TXT_ENTRY_BYTES then
      Err(TxtEntryTooLarge(|key| + 1 + |value|))
    else Ok(TxtEntry(key, value))
  }

  /** Length octet, key, equals sign, value. */
  function EncodedSize(e: TxtEntry): nat { 1 + |e.key| + 1 + |e.value| }

  function TotalSize(entries: seq<TxtEntry>): nat {
    if entries == [] then 0 else EncodedSize(entries[0]) + TotalSize(entries[1..])
  }

  function KeyOf(field: Field): seq<Byte> {
    match field
    case Version => Ascii("dv")
    case ProtocolMin => Ascii("pmin")
    case ProtocolMax => Ascii("pmax")
    case Name => Ascii("name")
    case Os => Ascii("os")
  }

  function LowerByte(b: Byte): Byte { if 65 <= b <= 90 then b + 32 else b }

  function Lower(s: seq<Byte>): (r: seq<Byte>)
    ensures |r| == |s| && forall i | 0 <= i < |s| :: r[i] == LowerByte(s[i])
  {
    seq(|s|, i requires 0 <= i < |s| => LowerByte(s[i]))
  }

  predicate EqualIgnoringCase(a: seq<Byte>, b: seq<Byte>) { Lower(a) == Lower(b) }

  function KnownField(key: seq<Byte>): Option<Field> {
    if EqualIgnoringCase(key, KeyOf(Version)) then Some(Version)
    else if EqualIgnoringCase(key, KeyOf(ProtocolMin)) then Some(ProtocolMin)
    else if EqualIgnoringCase(key, KeyOf(ProtocolMax)) then Some(ProtocolMax)
    else if EqualIgnoringCase(key, KeyOf(Name)) then Some(Name)
    else if EqualIgnoringCase(key, KeyOf(Os)) then Some(Os)
    else None
  }

  // ---------- printing ----------

  function PlatformName(platform: Platform): seq<Byte> {
    match platform
    case MacOs => Ascii("macos")
    case Windows => Ascii("windows")
    case Linux => Ascii("linux")
  }

  function NameEntries(name: Option<Utf8.Text>): seq<TxtEntry> {
    if name.Some? then [TxtEntry(KeyOf(Name), Utf8.Encode(name.value))] else []
  }

  function PlatformEntries(platform: Option<Platform>): seq<TxtEntry> {
    if platform.Some? then [TxtEntry(KeyOf(Os), PlatformName(platform.value))] else []
  }

  function RequiredEntries(protocols: ProtocolRange): seq<TxtEntry> {
    [TxtEntry(KeyOf(Version), ToDecimal(DISCOVERY_SCHEMA_VERSION)),
     TxtEntry(KeyOf(ProtocolMin), ToDecimal(protocols.min)),
     TxtEntry(KeyOf(ProtocolMax), ToDecimal(protocols.max))]
  }

  function ToTxt(m: Metadata): seq<TxtEntry> {
    RequiredEntries(m.protocols) + NameEntries(m.name) + PlatformEntries(m.platform)
  }

  /** Pushes the required entries, then the optional ones that are present. */
  method ToTxtEntries(m: Metadata) returns (entries: seq<TxtEntry>)
    ensures entries == ToTxt(m)
  {
    entries := RequiredEntries(m.protocols);
    if m.name.Some? {
      entries := entries + [TxtEntry(KeyOf(Name), Utf8.Encode(m.name.value))];
    }
    if m.platform.Some? {
      entries := entries + [TxtEntry(KeyOf(Os), PlatformName(m.platform.value))];
    }
  }

  // ---------- parsing ----------

  type Slots = map<Field, seq<Byte>>

  function ParseRequiredDecimal(slots: Slots, field: Field): Result<nat, MetadataError> {
    if field !in slots then Err(MissingField(field))
    else
      match ParseCanonicalU16(slots[field])
      case None => Err(MalformedField(field))
      case Some(value) => Ok(value)
  }

  function ParseOptionalName(value: seq<Byte>): Option<Utf8.Text> {
    match Utf8.Decode(value)
    case None => None
    case Some(text) => (match NewHint(text) case Ok(hint) => Some(hint) case Err(_) => None)
  }

  function ParsePlatform(value: seq<Byte>): Option<Platform> {
    if value == PlatformName(MacOs) then Some(MacOs)
    else if value == PlatformName(Windows) then Some(Windows)
    else if value == PlatformName(Linux) then Some(Linux)
    else None
  }

  /** The values of the known keys; the first key met a second time refuses the record. */
  function Scan(entries: seq<TxtEntry>, slots: Slots): Result<Slots, MetadataError> {
    if entries == [] then Ok(slots)
    else
      match KnownField(entries[0].key)
      case None => Scan(entries[1..], slots)
      case Some(field) =>
        if field in slots then Err(DuplicateKnownKey(field))
        else Scan(entries[1..], slots[field := entries[0].value])
  }

  /** Required fields are strict; an unusable name or platform is dropped. */
  function Interpret(slots: Slots): Result<Metadata, MetadataError> {
    match ParseRequiredDecimal(slots, Version)
    case Err(e) => Err(e)
    case Ok(version) =>
      if version != DISCOVERY_SCHEMA_VERSION then Err(UnsupportedSchemaVersion(version))
      else
        match ParseRequiredDecimal(slots, ProtocolMin)
        case Err(e) => Err(e)
        case Ok(min) =>
          (match ParseRequiredDecimal(slots, ProtocolMax)
           case Err(e) => Err(e)
           case Ok(max) =>
             if min > max then Err(InvalidProtocolRange(min, max))
             else Ok(Metadata(ProtocolRange(min, max),
                              if Name in slots then ParseOptionalName(slots[Name]) else None,
                              if Os in slots then ParsePlatform(slots[Os]) else None)))
  }

  function FromTxt(entries: seq<TxtEntry>): Result<Metadata, MetadataError> {
    if TotalSize(entries) > MAX_DISCOVERY_TXT_BYTES then Err(TotalMetadataTooLarge(TotalSize(entries)))
    else
      match Scan(entries, map[])
      case Err(e) => Err(e)
      case Ok(slots) => Interpret(slots)
  }

  /** Fills the slots entry by entry. */
  method FromTxtEntries(entries: seq<TxtEntry>) returns (r: Result<Metadata, MetadataError>)
    ensures r == FromTxt(entries)
  {
    var total := 0;
    var i := 0;
    assert entries[0..] == entries;
    while i < |entries|
      invariant 0 <= i <= |entries|
      invariant total + TotalSize(entries[i..]) == TotalSize(entries)
    {
      assert entries[i..][1..] == entries[i + 1..];
      total := total + EncodedSize(entries[i]);
      i := i + 1;
    }
    if total > MAX_DISCOVERY_TXT_BYTES {
      return Err(TotalMetadataTooLarge(total));
    }
    var slots: Slots := map[];
    i := 0;
    while i < |entries|
      invariant 0 <= i <= |entries|
      invariant Scan(entries[i..], slots) == Scan(entries, map[])
    {
      assert entries[i..][1..] == entries[i + 1..];
      var field := KnownField(entries[i].key);
      if field.Some? {
        if field.value in slots {
          return Err(DuplicateKnownKey(field.value));
        }
        slots := slots[field.value := entries[i].value];
      }
      i := i + 1;
    }
    return Interpret(slots);
  }

  // ---------- the name hint ----------

  /** `hint` is the longest prefix of `name` whose encoding fits the discovery budget. */
  ghost predicate LongestHint(name: Utf8.Text, hint: Utf8.Text) {
    && hint <= name && |Utf8.Encode(hint)| <= MAX_DISCOVERY_NAME_BYTES
    && (hint == name || |Utf8.Encode(name[..|hint| + 1])| > MAX_DISCOVERY_NAME_BYTES)
  }

  /** Steps back from the byte budget to a character boundary, which takes at most three steps. */
  method HintFromDeviceName(name: Utf8.Text) returns (hint: Utf8.Text, ghost steps: nat)
    ensures LongestHint(name, hint)
    ensures steps <= 3
  {
    var bytes := Utf8.Encode(name);
    var budget := if |bytes| < MAX_DISCOVERY_NAME_BYTES then |bytes| else MAX_DISCOVERY_NAME_BYTES;
    var end := budget;
    ghost var back := Utf8.BoundaryNearby(name, budget);
    while !Utf8.CharBoundary(bytes, end)
      invariant budget - back <= end <= budget <= |bytes|
      invariant forall i | end < i <= budget :: !Utf8.CharBoundary(bytes, i)
      decreases end
    {
      end := end - 1;
    }
    steps := budget - end;
    ghost var n := Utf8.BoundaryIsPrefix(name, end);
    Utf8.DecodeExact(bytes[..end], name[..n]);
    hint := Utf8.Decode(bytes[..end]).value;
    if n < |name| {
      NextPrefix(name, n);
    }
  }

  lemma NextPrefix(name: Utf8.Text, n: nat)
    requires n < |name|
    ensures var longer := |Utf8.Encode(name[..n + 1])|;
            |Utf8.Encode(name[..n])| < longer <= |Utf8.Encode(name)| && Utf8.CharBoundary(Utf8.Encode(name), longer)
  {
    Utf8.PrefixIsBoundary(name, n + 1);
    assert name[..n + 1] == name[..n] + [name[n]];
    Utf8.EncodeConcat(name[..n], [name[n]]);
    assert Utf8.Encode([name[n]]) == Utf8.EncodeScalar(name[n]);
  }
}
