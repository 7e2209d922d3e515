/**
 The trusted-peer store file: records, the versioned text format, and lookup.

 A file is a header line and one `scheme material-hex label-hex` line a record.
 Decoding is all or nothing: any malformed line refuses the whole file.
 */
module TrustedPeerCodec {
  import opened Results
  import opened Bytes
  import opened Utf8
  import opened Ordering
  import DisplayText

  const MAX_TRUSTED_PEERS: nat := 128
  const MAX_PEER_IDENTITY_BYTES: nat := 64
  const MAX_TRUSTED_PEERS_STORE_BYTES: nat := 65536
  /** Named in bytes of the label, but compared with the length of its hexadecimal form. */
  const MAX_TRUSTED_PEER_LABEL_BYTES: nat := 256
  const MAX_RECORD_LINE_BYTES: nat := 512
  const STORE_FORMAT_VERSION: nat := 1

  const NEWLINE: Byte := 10
  const SPACE: Byte := 32
  const DASH: Byte := 45

  function StoreHeader(): (r: seq<Byte>)
    ensures |r| == 28 && forall i | 0 <= i < |r| :: 32 < r[i] < 127
  {
    Ascii("local-transfer-trusted-peers")
  }

  function VersionMark(): (r: seq<Byte>)
    ensures r == [32, 118]
  {
    Ascii(" v")
  }

  datatype Identity = Identity(scheme: nat, material: seq<Byte>)

  datatype Record = Record(identity: Identity, labelText: Option<Text>)

  datatype MalformedReason =
    | NotUtf8 | Header | RecordSyntax | IdentityEncoding | IdentityBounds | LabelEncoding | LabelValue

  datatype StoreError =
    | StoreTooLarge(size: nat)
    | RecordTooLarge(size: nat)
    | UnsupportedVersion(version: nat)
    | CapacityExceeded(count: nat)
    | DuplicateIdentity
    | Malformed(reason: MalformedReason)

  // ---------- values ----------

  predicate ValidIdentity(id: Identity) {
    id.scheme <= U16_MAX && 0 < |id.material| <= MAX_PEER_IDENTITY_BYTES
  }

  function NewIdentity(scheme: nat, material: seq<Byte>): Option<Identity> {
    if 0 < |material| <= MAX_PEER_IDENTITY_BYTES then Some(Identity(scheme, material)) else None
  }

  predicate ValidRecord(r: Record) {
    ValidIdentity(r.identity) && (r.labelText.Some? ==> DisplayText.Valid(r.labelText.value))
  }

  /** The label occupies at most 128 bytes, so its hexadecimal form passes the length check of a reader. */
  predicate Short(r: Record) {
    r.labelText.Some? ==> 2 * |Utf8.Encode(r.labelText.value)| <= MAX_TRUSTED_PEER_LABEL_BYTES
  }

  /** The derived order: scheme first, then the material byte by byte. */
  function IdentityKey(id: Identity): seq<int> { [id.scheme] + id.material }
  function RecordKey(r: Record): seq<int> { IdentityKey(r.identity) }

  lemma IdentityKeyInjective(a: Identity, b: Identity)
    requires IdentityKey(a) == IdentityKey(b)
    ensures a == b
  {
    assert a.material == IdentityKey(a)[1..] && b.material == IdentityKey(b)[1..];
    assert a.scheme == IdentityKey(a)[0] && b.scheme == IdentityKey(b)[0];
  }

  /** What the store may hold: valid records in strictly increasing identity order, within capacity. */
  ghost predicate Canonical(rs: seq<Record>) {
    && |rs| <= MAX_TRUSTED_PEERS
    && StrictlySorted(rs, RecordKey)
    && forall r | r in rs :: ValidRecord(r)
  }

  ghost predicate AllShort(rs: seq<Record>) { forall r | r in rs :: Short(r) }

  // ---------- writing ----------

  function LabelField(labelText: Option<Text>): seq<Byte> {
    match labelText
    case None => [DASH]
    case Some(text) => Hex(Utf8.Encode(text))
  }

  function EncodeRecord(r: Record): seq<Byte> {
    ToDecimal(r.identity.scheme) + [SPACE] + (Hex(r.identity.material) + [SPACE] + LabelField(r.labelText))
  }

  function EncodeRecords(rs: seq<Record>): seq<Byte> {
    if rs == [] then [] else EncodeRecord(rs[0]) + [NEWLINE] + EncodeRecords(rs[1..])
  }

  function HeaderLine(): seq<Byte> { StoreHeader() + VersionMark() + ToDecimal(STORE_FORMAT_VERSION) }

  function Encode(rs: seq<Record>): seq<Byte> { HeaderLine() + [NEWLINE] + EncodeRecords(rs) }

  /** Appends one record line. */
  method PushRecord(out: seq<Byte>, record: Record) returns (r: seq<Byte>)
    ensures r == out + (EncodeRecord(record) + [NEWLINE])
  {
    var line := ToDecimal(record.identity.scheme);
    line := line + [SPACE];
    line := PushHex(line, record.identity.material);
    line := line + [SPACE];
    match record.labelText {
      case None => line := line + [DASH];
      case Some(text) => line := PushHex(line, Utf8.Encode(text));
    }
    assert line == EncodeRecord(record);
    r := out + (line + [NEWLINE]);
  }

  lemma EncodeRecordsStep(out: seq<Byte>, rs: seq<Record>, i: nat)
    requires i < |rs|
    ensures out + EncodeRecords(rs[i..]) == out + (EncodeRecord(rs[i]) + [NEWLINE]) + EncodeRecords(rs[i + 1..])
  {
    assert rs[i..][1..] == rs[i + 1..];
  }

  /** Builds the file in one pass, record by record, in the order given. */
  method EncodeStore(records: seq<Record>) returns (out: seq<Byte>)
    ensures out == Encode(records)
  {
    out := HeaderLine();
    out := out + [NEWLINE];
    ghost var header := out;
    var i := 0;
    assert records[0..] == records;
    while i < |records|
      invariant 0 <= i <= |records|
      invariant out + EncodeRecords(records[i..]) == header + EncodeRecords(records)
    {
      EncodeRecordsStep(out, records, i);
      out := PushRecord(out, records[i]);
      i := i + 1;
    }
    assert records[i..] == [] && out + [] == out;
  }

  // ---------- reading ----------

  function ParseHeader(line: seq<Byte>): Option<StoreError> {
    var n, m := |StoreHeader()|, |VersionMark()|;
    if n > |line| || line[..n] != StoreHeader() || n + m > |line| || line[n..n + m] != VersionMark() then
      Some(Malformed(Header))
    else
      match ParseCanonicalU16(line[n + m..])
      case None => Some(Malformed(Header))
      case Some(version) => if version != STORE_FORMAT_VERSION then Some(UnsupportedVersion(version)) else None
  }

  function ParseLabel(field: seq<Byte>): Result<Option<Text>, StoreError> {
    if field == [DASH] then Ok(None)
    else if |field| > MAX_TRUSTED_PEER_LABEL_BYTES then Err(Malformed(LabelValue))
    else
      match Unhex(field)
      case None => Err(Malformed(LabelEncoding))
      case Some(bytes) =>
        (match Utf8.Decode(bytes)
         case None => Err(Malformed(LabelEncoding))
         case Some(text) =>
           (match DisplayText.Normalize(text)
            case Err(_) => Err(Malformed(LabelValue))
            case Ok(labelText) => Ok(Some(labelText))))
  }

  function ParseIdentity(schemeText: seq<Byte>, materialHex: seq<Byte>): Result<Identity, StoreError> {
    match ParseCanonicalU16(schemeText)
    case None => Err(Malformed(RecordSyntax))
    case Some(scheme) =>
      if |materialHex| > 2 * MAX_PEER_IDENTITY_BYTES then Err(Malformed(IdentityBounds))
      else
        match Unhex(materialHex)
        case None => Err(Malformed(IdentityEncoding))
        case Some(material) =>
          (match NewIdentity(scheme, material)
           case None => Err(Malformed(IdentityBounds))
           case Some(id) => Ok(id))
  }

  function ParseRecord(line: seq<Byte>): Result<Record, StoreError> {
    if |line| > MAX_RECORD_LINE_BYTES then Err(RecordTooLarge(|line|))
    else
      var fields := Split(line, SPACE);
      if |fields| != 3 then Err(Malformed(RecordSyntax))
      else
        match ParseIdentity(fields[0], fields[1])
        case Err(e) => Err(e)
        case Ok(id) =>
          (match ParseLabel(fields[2])
           case Err(e) => Err(e)
           case Ok(labelText) => Ok(Record(id, labelText)))
  }

  /** The records of all lines, or the error of the first line that has one. */
  function ParseRecords(lines: seq<seq<Byte>>): (r: Result<seq<Record>, StoreError>)
    ensures r.Ok? ==> |r.value| == |lines|
  {
    if lines == [] then Ok([])
    else
      match ParseRecord(lines[0])
      case Err(e) => Err(e)
      case Ok(record) =>
        (match ParseRecords(lines[1..])
         case Err(e) => Err(e)
         case Ok(rest) => Ok([record] + rest))
  }

  predicate EqualNeighbours(rs: seq<Record>) {
    exists i | 0 <= i < |rs| - 1 :: rs[i].identity == rs[i + 1].identity
  }

  /** The lines of a file that ends with a newline, or none if it does not. */
  function Lines(bytes: seq<Byte>): (r: Option<seq<seq<Byte>>>)
    ensures r.Some? ==> |r.value| > 0
  {
    if bytes == [] || bytes[|bytes| - 1] != NEWLINE then None
    else Some(Split(bytes[..|bytes| - 1], NEWLINE))
  }

  function Decode(bytes: seq<Byte>): Result<seq<Record>, StoreError> {
    if |bytes| > MAX_TRUSTED_PEERS_STORE_BYTES then Err(StoreTooLarge(|bytes|))
    else if Utf8.Decode(bytes).None? then Err(Malformed(NotUtf8))
    else
      match Lines(bytes)
      case None => Err(Malformed(Header))
      case Some(lines) =>
        (match ParseHeader(lines[0])
         case Some(e) => Err(e)
         case None =>
           if |lines| - 1 > MAX_TRUSTED_PEERS then Err(CapacityExceeded(|lines| - 1))
           else
             match ParseRecords(lines[1..])
             case Err(e) => Err(e)
             case Ok(parsed) =>
               var records := SortBy(parsed, RecordKey);
               if EqualNeighbours(records) then Err(DuplicateIdentity) else Ok(records))
  }

  /** The records read so far, followed by what the rest is read as. */
  function Onto(records: seq<Record>, rest: Result<seq<Record>, StoreError>): Result<seq<Record>, StoreError> {
    match rest
    case Ok(more) => Ok(records + more)
    case Err(e) => Err(e)
  }

  lemma ReadStart(lines: seq<seq<Byte>>)
    ensures Onto([], ParseRecords(lines[0..])) == ParseRecords(lines)
  {
    var all := ParseRecords(lines);
    assert lines[0..] == lines;
    assert all.Ok? ==> [] + all.value == all.value;
  }

  lemma ReadNext(lines: seq<seq<Byte>>, i: nat, records: seq<Record>)
    requires i < |lines|
    ensures match ParseRecord(lines[i])
            case Ok(r) => Onto(records, ParseRecords(lines[i..])) == Onto(records + [r], ParseRecords(lines[i + 1..]))
            case Err(e) => ParseRecords(lines[i..]) == Err(e)
  {
    assert lines[i..][1..] == lines[i + 1..];
    var parsed, rest := ParseRecord(lines[i]), ParseRecords(lines[i + 1..]);
    if parsed.Ok? && rest.Ok? {
      assert records + ([parsed.value] + rest.value) == records + [parsed.value] + rest.value;
    }
  }

  lemma ReadEnd(lines: seq<seq<Byte>>, records: seq<Record>)
    ensures Onto(records, ParseRecords(lines[|lines|..])) == Ok(records)
  {
    assert lines[|lines|..] == [] && records + [] == records;
  }

  /** Validates and parses a file, stopping at the first line that is refused. */
  method DecodeStore(bytes: seq<Byte>) returns (r: Result<seq<Record>, StoreError>)
    ensures r == Decode(bytes)
  {
    if |bytes| > MAX_TRUSTED_PEERS_STORE_BYTES {
      return Err(StoreTooLarge(|bytes|));
    }
    if Utf8.Decode(bytes).None? {
      return Err(Malformed(NotUtf8));
    }
    var split := Lines(bytes);
    if split.None? {
      return Err(Malformed(Header));
    }
    var refused := ParseHeader(split.value[0]);
    if refused.Some? {
      return Err(refused.value);
    }
    var lines := split.value[1..];
    if |lines| > MAX_TRUSTED_PEERS {
      return Err(CapacityExceeded(|lines|));
    }
    var records: seq<Record> := [];
    var i := 0;
    ReadStart(lines);
    while i < |lines|
      invariant 0 <= i <= |lines|
      invariant Onto(records, ParseRecords(lines[i..])) == ParseRecords(lines)
    {
      ReadNext(lines, i, records);
      var parsed := ParseRecord(lines[i]);
      if parsed.Err? {
        return Err(parsed.error);
      }
      records := records + [parsed.value];
      i := i + 1;
    }
    ReadEnd(lines, records);
    records := SortBy(records, RecordKey);
    if EqualNeighbours(records) {
      return Err(DuplicateIdentity);
    }
    return Ok(records);
  }
}
