/** Exactly which lines and which files the trusted-peer reader accepts, and what it makes of them. */
module TrustedPeerAcceptance {
  import opened Results
  import opened Bytes
  import Utf8
  import opened Ordering
  import opened TrustedPeerCodec
  import opened TrustedPeerLaws
  import DisplayText

  // ---------- lines ----------

  /** What a label field says: nothing, or a short text that validation turns into the label. */
  ghost predicate LabelReads(written: Option<Utf8.Text>, labelText: Option<Utf8.Text>) {
    match written
    case None => labelText == None
    case Some(text) =>
      && labelText.Some? && DisplayText.Normalize(text) == Ok(labelText.value)
      && |Utf8.Encode(text)| <= 128
  }

  ghost predicate LineReads(line: seq<Byte>, written: Option<Utf8.Text>, r: Record) {
    && line == EncodeRecord(Record(r.identity, written))
    && ValidIdentity(r.identity) && LabelReads(written, r.labelText)
  }

  lemma WrittenLabel(field: seq<Byte>, labelText: Option<Utf8.Text>) returns (written: Option<Utf8.Text>)
    requires ParseLabel(field) == Ok(labelText)
    ensures field == LabelField(written) && LabelReads(written, labelText)
  {
    if field == [DASH] {
      written := None;
    } else {
      var bytes := Unhex(field).value;
      var text := Utf8.Decode(bytes).value;
      UnhexExact(field, bytes);
      Utf8.DecodeExact(bytes, text);
      written := Some(text);
    }
  }

  lemma ReadLabel(field: seq<Byte>, written: Option<Utf8.Text>, labelText: Option<Utf8.Text>)
    requires field == LabelField(written) && LabelReads(written, labelText)
    ensures ParseLabel(field) == Ok(labelText)
  {
    if written.Some? {
      var bytes := Utf8.Encode(written.value);
      assert written.value != [];
      UnhexExact(field, bytes);
      Utf8.DecodeExact(bytes, written.value);
    }
  }

  lemma IdentityFieldsExact(schemeText: seq<Byte>, materialHex: seq<Byte>, id: Identity)
    ensures ParseIdentity(schemeText, materialHex) == Ok(id) <==>
            schemeText == ToDecimal(id.scheme) && materialHex == Hex(id.material) && ValidIdentity(id)
  {
    ParseCanonicalU16Exact(schemeText, id.scheme);
    UnhexExact(materialHex, id.material);
  }

  /**
   A line is read as a record exactly when it is the printed form of that identity
   with a label field that validation turns into that label.
   */
  lemma ParseRecordExact(line: seq<Byte>, r: Record)
    ensures ParseRecord(line) == Ok(r) <==> exists written :: LineReads(line, written, r)
  {
    if ParseRecord(line) == Ok(r) {
      var fields := Split(line, SPACE);
      SplitJoin(line, SPACE);
      JoinThree(fields, SPACE);
      IdentityFieldsExact(fields[0], fields[1], r.identity);
      var written := WrittenLabel(fields[2], r.labelText);
      assert LineReads(line, written, r);
    }
    forall written | LineReads(line, written, r)
      ensures ParseRecord(line) == Ok(r)
    {
      RecordFields(Record(r.identity, written));
      LineBounded(line, written, r);
      IdentityFieldsExact(ToDecimal(r.identity.scheme), Hex(r.identity.material), r.identity);
      ReadLabel(LabelField(written), written, r.labelText);
    }
  }

  lemma JoinThree(parts: seq<seq<Byte>>, separator: Byte)
    requires |parts| == 3
    ensures Join(parts, separator) == parts[0] + [separator] + (parts[1] + [separator] + parts[2])
  {
    assert Join(parts[1..], separator) == parts[1] + [separator] + Join(parts[1..][1..], separator);
    assert parts[1..][1..] == [parts[2]];
  }

  ghost predicate Printable(line: seq<Byte>) {
    |line| <= 391 && forall k | 0 <= k < |line| :: 32 <= line[k] < 127
  }

  lemma LineBounded(line: seq<Byte>, written: Option<Utf8.Text>, r: Record)
    requires LineReads(line, written, r)
    ensures Printable(line)
  {
    DecimalLength(r.identity.scheme);
    RecordPrintable(Record(r.identity, written));
  }

  // ---------- files ----------

  /** Each line is read as the record beside it. */
  ghost predicate LinesRead(lines: seq<seq<Byte>>, rs: seq<Record>) {
    |lines| == |rs| && forall i | 0 <= i < |lines| :: ParseRecord(lines[i]) == Ok(rs[i])
  }

  ghost predicate NoIdentityTwice(rs: seq<Record>) {
    forall i, j | 0 <= i < j < |rs| :: rs[i].identity != rs[j].identity
  }

  /** The file is the header and these lines, each ended by a newline, and they carry these records. */
  ghost predicate FileReads(bytes: seq<Byte>, lines: seq<seq<Byte>>, rs: seq<Record>) {
    bytes == Terminated([HeaderLine()] + lines) && LinesRead(lines, rs) && |rs| <= 128
  }

  lemma HeaderExact(line: seq<Byte>)
    ensures ParseHeader(line) == None <==> line == HeaderLine()
  {
    HeaderAccepted();
    var n, m := |StoreHeader()|, |VersionMark()|;
    if ParseHeader(line) == None {
      ParseCanonicalU16Exact(line[n + m..], STORE_FORMAT_VERSION);
      assert line == line[..n] + line[n..n + m] + line[n + m..];
    }
  }

  lemma {:induction false} JoinTerminated(lines: seq<seq<Byte>>)
    requires lines != []
    ensures Join(lines, NEWLINE) + [NEWLINE] == Terminated(lines)
  {
    if |lines| > 1 {
      JoinTerminated(lines[1..]);
    } else {
      assert lines[1..] == [];
    }
  }

  lemma {:induction false} ReadInOrder(lines: seq<seq<Byte>>, rs: seq<Record>)
    requires LinesRead(lines, rs)
    ensures ParseRecords(lines) == Ok(rs)
  {
    if lines == [] {
    } else {
      ReadInOrder(lines[1..], rs[1..]);
      assert rs == [rs[0]] + rs[1..];
    }
  }

  lemma LinesPrintable(lines: seq<seq<Byte>>, rs: seq<Record>, i: nat)
    requires LinesRead(lines, rs) && i < |lines|
    ensures Printable(lines[i])
  {
    ParseRecordExact(lines[i], rs[i]);
    var written :| LineReads(lines[i], written, rs[i]);
    LineBounded(lines[i], written, rs[i]);
  }

  lemma {:induction false} TerminatedAscii(lines: seq<seq<Byte>>)
    requires forall i | 0 <= i < |lines| :: Printable(lines[i])
    ensures |Terminated(lines)| <= 392 * |lines|
    ensures forall k | 0 <= k < |Terminated(lines)| :: Terminated(lines)[k] < 0x80
  {
    if lines == [] {
    } else {
      TerminatedAscii(lines[1..]);
      assert Printable(lines[0]);
    }
  }

  /** Such a file passes every check before the one for repeated identities. */
  lemma FileIsRead(bytes: seq<Byte>, lines: seq<seq<Byte>>, rs: seq<Record>)
    requires FileReads(bytes, lines, rs)
    ensures |bytes| <= MAX_TRUSTED_PEERS_STORE_BYTES && Utf8.Decode(bytes).Some?
    ensures Lines(bytes) == Some([HeaderLine()] + lines) && ParseRecords(lines) == Ok(rs)
  {
    var all := [HeaderLine()] + lines;
    HeaderAccepted();
    forall i | 0 <= i < |all|
      ensures Printable(all[i]) && NEWLINE !in all[i]
    {
      if i > 0 {
        LinesPrintable(lines, rs, i - 1);
      }
    }
    TerminatedAscii(all);
    Utf8.AsciiDecodes(bytes);
    SplitTerminated(all);
    ReadInOrder(lines, rs);
  }

  lemma AcceptedFile(bytes: seq<Byte>) returns (lines: seq<seq<Byte>>, rs: seq<Record>)
    requires Decode(bytes).Ok?
    ensures FileReads(bytes, lines, rs)
  {
    var all := Lines(bytes).value;
    lines, rs := all[1..], ParseRecords(all[1..]).value;
    HeaderExact(all[0]);
    LinesJoin(bytes);
    JoinTerminated(all);
    assert all == [HeaderLine()] + lines;
    ParsedInOrder(lines);
  }

  /**
   A file is accepted exactly when it is the header line and at most 128 record
   lines, each ended by a newline and readable, that repeat no identity; the result
   is then their records in identity order.
   */
  lemma DecodeAccepts(bytes: seq<Byte>)
    ensures Decode(bytes).Ok? <==> exists lines, rs :: FileReads(bytes, lines, rs) && NoIdentityTwice(rs)
    ensures forall lines, rs | FileReads(bytes, lines, rs) && NoIdentityTwice(rs) ::
              Decode(bytes) == Ok(SortBy(rs, RecordKey))
  {
    if Decode(bytes).Ok? {
      var lines, rs := AcceptedFile(bytes);
      FileIsRead(bytes, lines, rs);
      HeaderExact(HeaderLine());
      DuplicatesExact(bytes);
    }
    forall lines, rs | FileReads(bytes, lines, rs) && NoIdentityTwice(rs)
      ensures Decode(bytes) == Ok(SortBy(rs, RecordKey))
    {
      FileIsRead(bytes, lines, rs);
      HeaderExact(HeaderLine());
      assert ([HeaderLine()] + lines)[1..] == lines;
      DuplicatesExact(bytes);
    }
  }

  // ---------- the bytes of a file ----------

  /** The header line: the name of the format, a space, and its version. */
  lemma HeaderBytes()
    ensures HeaderLine() == [108, 111, 99, 97, 108, 45, 116, 114, 97, 110, 115, 102, 101, 114, 45,
                             116, 114, 117, 115, 116, 101, 100, 45, 112, 101, 101, 114, 115, 32, 118, 49]
  {
    assert ToDecimal(1) == [49];
  }

  /** A record line: the scheme in decimal, the material in hexadecimal, and the label in hexadecimal or a dash. */
  lemma RecordBytes(r: Record)
    ensures EncodeRecord(r) == ToDecimal(r.identity.scheme) + [32] + Hex(r.identity.material) + [32]
                               + (if r.labelText.None? then [45] else Hex(Utf8.Encode(r.labelText.value)))
  {
  }

  /** A file: the header and one line for each record in turn, each ended by a line feed. */
  lemma FileBytes(rs: seq<Record>, r: Record)
    ensures Encode([]) == HeaderLine() + [10]
    ensures Encode(rs + [r]) == Encode(rs) + EncodeRecord(r) + [10]
  {
    AppendRecord(rs, r);
    Regroup(HeaderLine() + [10], EncodeRecords(rs), EncodeRecord(r) + [10]);
    assert EncodeRecords(rs) + EncodeRecord(r) + [10] == EncodeRecords(rs) + (EncodeRecord(r) + [10]);
    assert Encode(rs) + EncodeRecord(r) + [10] == Encode(rs) + (EncodeRecord(r) + [10]);
  }

  lemma Regroup(a: seq<Byte>, b: seq<Byte>, c: seq<Byte>)
    ensures a + (b + c) == a + b + c
  {
  }

  lemma {:induction false} AppendRecord(rs: seq<Record>, r: Record)
    ensures EncodeRecords(rs + [r]) == EncodeRecords(rs) + EncodeRecord(r) + [10]
  {
    if rs == [] {
      assert rs + [r] == [r] && [r][1..] == [];
    } else {
      assert (rs + [r])[1..] == rs[1..] + [r];
      AppendRecord(rs[1..], r);
    }
  }

  /** Records are ordered by scheme, then byte by byte by material, a prefix coming first. */
  lemma RecordOrder(a: Identity, b: Identity)
    ensures Below(IdentityKey(a), IdentityKey(b)) <==>
            a.scheme < b.scheme || (a.scheme == b.scheme && Below(a.material, b.material))
  {
    assert IdentityKey(a)[1..] == a.material && IdentityKey(b)[1..] == b.material;
  }

  /** The limits of a record: a 16-bit scheme, 1 to 64 bytes of material, and a valid label of at most 128 bytes. */
  lemma RecordLimits(r: Record)
    ensures ValidRecord(r) && Short(r) <==>
            && r.identity.scheme <= 65535 && 1 <= |r.identity.material| <= 64
            && (r.labelText.Some? ==> DisplayText.Valid(r.labelText.value) && |Utf8.Encode(r.labelText.value)| <= 128)
  {
  }

  // ---------- refusals ----------

  /** The name of the format, then this version in canonical decimal. */
  ghost predicate StartsAs(line: seq<Byte>, version: nat) {
    version <= 65535 && line == StoreHeader() + VersionMark() + ToDecimal(version)
  }

  ghost predicate IsScheme(field: seq<Byte>) { exists n: nat :: n <= 65535 && field == ToDecimal(n) }

  ghost predicate IsHex(field: seq<Byte>) { exists bytes: seq<Byte> :: bytes != [] && field == Hex(bytes) }

  ghost predicate IsHexText(field: seq<Byte>) {
    exists text: Utf8.Text :: text != [] && field == Hex(Utf8.Encode(text))
  }

  /** The first thing wrong with a line that is refused. */
  ghost function LineFault(line: seq<Byte>): StoreError {
    var fields := Split(line, SPACE);
    if |line| > 512 then RecordTooLarge(|line|)
    else if |fields| != 3 || !IsScheme(fields[0]) then Malformed(RecordSyntax)
    else if |fields[1]| > 128 then Malformed(IdentityBounds)
    else if !IsHex(fields[1]) then Malformed(IdentityEncoding)
    else if |fields[2]| <= 256 && !IsHexText(fields[2]) then Malformed(LabelEncoding)
    else Malformed(LabelValue)
  }

  lemma SchemeExact(field: seq<Byte>)
    ensures ParseCanonicalU16(field).Some? <==> IsScheme(field)
  {
    forall n: nat
      ensures ParseCanonicalU16(field) == Some(n) <==> n <= 65535 && field == ToDecimal(n)
    {
      ParseCanonicalU16Exact(field, n);
    }
    if ParseCanonicalU16(field).Some? {
      assert ParseCanonicalU16(field) == Some(ParseCanonicalU16(field).value);
    }
  }

  lemma HexExact(field: seq<Byte>)
    ensures Unhex(field).Some? <==> IsHex(field)
  {
    forall bytes
      ensures Unhex(field) == Some(bytes) <==> bytes != [] && field == Hex(bytes)
    {
      UnhexExact(field, bytes);
    }
    if Unhex(field).Some? {
      assert Unhex(field) == Some(Unhex(field).value);
    }
  }

  lemma HexTextExact(field: seq<Byte>)
    ensures Unhex(field).Some? && Utf8.Decode(Unhex(field).value).Some? <==> IsHexText(field)
  {
    forall text: Utf8.Text | text != [] && field == Hex(Utf8.Encode(text))
      ensures Unhex(field) == Some(Utf8.Encode(text)) && Utf8.Decode(Unhex(field).value) == Some(text)
    {
      UnhexExact(field, Utf8.Encode(text));
      Utf8.DecodeExact(Utf8.Encode(text), text);
    }
    if Unhex(field).Some? && Utf8.Decode(Unhex(field).value).Some? {
      var text := Utf8.Decode(Unhex(field).value).value;
      UnhexExact(field, Unhex(field).value);
      Utf8.DecodeExact(Unhex(field).value, text);
      assert text != [] && field == Hex(Utf8.Encode(text));
    }
  }

  /** A refused line is refused for the first thing wrong with it. */
  lemma LineRefusals(line: seq<Byte>)
    ensures ParseRecord(line).Err? ==> ParseRecord(line).error == LineFault(line)
  {
    var fields := Split(line, SPACE);
    if |line| <= MAX_RECORD_LINE_BYTES && |fields| == 3 {
      SchemeExact(fields[0]);
      HexExact(fields[1]);
      HexTextExact(fields[2]);
    }
  }

  lemma {:induction false} FirstWrongLine(lines: seq<seq<Byte>>, i: nat)
    requires i < |lines| && ParseRecord(lines[i]).Err? && forall k | 0 <= k < i :: ParseRecord(lines[k]).Ok?
    ensures ParseRecords(lines) == Err(ParseRecord(lines[i]).error)
  {
    if i == 0 {
    } else {
      FirstWrongLine(lines[1..], i - 1);
    }
  }

  lemma HeaderRefusals(line: seq<Byte>, version: nat)
    ensures StartsAs(line, version) && version != 1 ==> ParseHeader(line) == Some(UnsupportedVersion(version))
    ensures (forall v: nat :: !StartsAs(line, v)) ==> ParseHeader(line) == Some(Malformed(Header))
  {
    var n, m := |StoreHeader()|, |VersionMark()|;
    if StartsAs(line, version) {
      assert line[..n] == StoreHeader() && line[n..n + m] == VersionMark() && line[n + m..] == ToDecimal(version);
      ParseCanonicalU16Exact(line[n + m..], version);
    }
    if n + m <= |line| && ParseCanonicalU16(line[n + m..]).Some? {
      var v := ParseCanonicalU16(line[n + m..]).value;
      ParseCanonicalU16Exact(line[n + m..], v);
      assert line == line[..n] + line[n..n + m] + line[n + m..];
      assert line[..n] == StoreHeader() && line[n..n + m] == VersionMark() ==> StartsAs(line, v);
    }
  }

  /** Beyond 64 KiB a file is refused for its size, and within that for not being text. */
  lemma RefusedUnread(bytes: seq<Byte>)
    ensures |bytes| > 65536 ==> Decode(bytes) == Err(StoreTooLarge(|bytes|))
    ensures |bytes| <= 65536 && Utf8.Decode(bytes).None? ==> Decode(bytes) == Err(Malformed(NotUtf8))
    ensures |bytes| <= 65536 && Utf8.Decode(bytes).Some? && Lines(bytes).None? ==>
              Decode(bytes) == Err(Malformed(Header))
  {
  }

  /** A file of lines is refused for its header, then for its version, then for the number of its records. */
  lemma RefusedForHeader(bytes: seq<Byte>, version: nat)
    requires |bytes| <= 65536 && Utf8.Decode(bytes).Some? && Lines(bytes).Some?
    ensures var lines := Lines(bytes).value;
            && ((forall v: nat :: !StartsAs(lines[0], v)) ==> Decode(bytes) == Err(Malformed(Header)))
            && (StartsAs(lines[0], version) && version != 1 ==> Decode(bytes) == Err(UnsupportedVersion(version)))
            && (StartsAs(lines[0], 1) && |lines| - 1 > 128 ==> Decode(bytes) == Err(CapacityExceeded(|lines| - 1)))
  {
    HeaderRefusals(Lines(bytes).value[0], version);
    HeaderExact(Lines(bytes).value[0]);
  }

  /** The size, the text, the header and the number of records are all right. */
  ghost predicate ReadsLines(bytes: seq<Byte>, lines: seq<seq<Byte>>) {
    && |bytes| <= 65536 && Utf8.Decode(bytes).Some? && Lines(bytes) == Some(lines)
    && lines != [] && StartsAs(lines[0], 1) && |lines| - 1 <= 128
  }

  lemma RecordsDecide(bytes: seq<Byte>, lines: seq<seq<Byte>>)
    requires ReadsLines(bytes, lines)
    ensures match ParseRecords(lines[1..])
            case Err(e) => Decode(bytes) == Err(e)
            case Ok(_) => Decode(bytes).Err? ==> Decode(bytes) == Err(DuplicateIdentity)
  {
    HeaderExact(lines[0]);
  }

  /** Then its first bad line decides, for the first thing wrong with that line. */
  lemma RefusedForLine(bytes: seq<Byte>, lines: seq<seq<Byte>>, i: nat)
    requires ReadsLines(bytes, lines) && 0 < i < |lines|
    requires ParseRecord(lines[i]).Err? && forall k | 0 < k < i :: ParseRecord(lines[k]).Ok?
    ensures Decode(bytes) == Err(LineFault(lines[i]))
  {
    assert forall k | 0 <= k < i :: lines[1..][k] == lines[k + 1];
    FirstWrongLine(lines[1..], i - 1);
    LineRefusals(lines[i]);
    RecordsDecide(bytes, lines);
  }

  /** Last comes a repeated identity. */
  lemma RefusedForIdentity(bytes: seq<Byte>, lines: seq<seq<Byte>>)
    requires ReadsLines(bytes, lines) && forall k | 0 < k < |lines| :: ParseRecord(lines[k]).Ok?
    ensures Decode(bytes).Err? ==> Decode(bytes) == Err(DuplicateIdentity)
  {
    assert forall k | 0 <= k < |lines| - 1 :: lines[1..][k] == lines[k + 1];
    AllRight(lines[1..]);
    RecordsDecide(bytes, lines);
  }

  lemma {:induction false} AllRight(lines: seq<seq<Byte>>)
    requires forall k | 0 <= k < |lines| :: ParseRecord(lines[k]).Ok?
    ensures ParseRecords(lines).Ok?
  {
    if lines == [] {
    } else {
      AllRight(lines[1..]);
    }
  }
}
