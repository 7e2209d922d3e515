/** What the trusted-peer file format promises, for every list of records and every file. */
module TrustedPeerLaws {
  import opened Results
  import opened Bytes
  import Utf8
  import opened Ordering
  import opened TrustedPeerCodec
  import DisplayText

  // ---------- one record line ----------

  lemma RecordFields(r: Record)
    ensures Split(EncodeRecord(r), SPACE) ==
            [ToDecimal(r.identity.scheme), Hex(r.identity.material), LabelField(r.labelText)]
  {
    HexAlphabet(r.identity.material);
    LabelFieldPrintable(r.labelText);
    var tail := Hex(r.identity.material) + [SPACE] + LabelField(r.labelText);
    SplitFirst(ToDecimal(r.identity.scheme), SPACE, tail);
    SplitFirst(Hex(r.identity.material), SPACE, LabelField(r.labelText));
    SplitClean(LabelField(r.labelText), SPACE);
  }

  lemma LabelFieldPrintable(labelText: Option<Utf8.Text>)
    ensures forall i | 0 <= i < |LabelField(labelText)| :: 32 < LabelField(labelText)[i] < 127
  {
    if labelText.Some? {
      HexAlphabet(Utf8.Encode(labelText.value));
    }
  }

  lemma RecordPrintable(r: Record)
    ensures forall i | 0 <= i < |EncodeRecord(r)| :: 32 <= EncodeRecord(r)[i] < 127
  {
    HexAlphabet(r.identity.material);
    LabelFieldPrintable(r.labelText);
  }

  lemma RecordSize(r: Record)
    requires ValidRecord(r)
    ensures |EncodeRecord(r)| <= 647
    ensures Short(r) ==> |EncodeRecord(r)| <= 391
  {
    DecimalLength(r.identity.scheme);
  }

  lemma ParseEncodedIdentity(id: Identity)
    requires ValidIdentity(id)
    ensures ParseIdentity(ToDecimal(id.scheme), Hex(id.material)) == Ok(id)
  {
    ParseCanonicalU16Exact(ToDecimal(id.scheme), id.scheme);
    UnhexExact(Hex(id.material), id.material);
  }

  lemma ParseEncodedLabel(labelText: Option<Utf8.Text>)
    requires labelText.Some? ==> DisplayText.Valid(labelText.value)
    ensures ParseLabel(LabelField(labelText)) ==
            if labelText.Some? && |Utf8.Encode(labelText.value)| > 128 then Err(Malformed(LabelValue))
            else Ok(labelText)
  {
    if labelText.Some? {
      var bytes := Utf8.Encode(labelText.value);
      UnhexExact(Hex(bytes), bytes);
      Utf8.DecodeExact(bytes, labelText.value);
      DisplayText.NormalizeExact(labelText.value);
    }
  }

  /** A written line is read back as the same record exactly when its label is at most 128 bytes. */
  lemma ParseEncodedRecord(r: Record)
    requires ValidRecord(r)
    ensures ParseRecord(EncodeRecord(r)).Ok? <==> Short(r)
    ensures Short(r) ==> ParseRecord(EncodeRecord(r)) == Ok(r)
  {
    RecordFields(r);
    RecordSize(r);
    ParseEncodedIdentity(r.identity);
    ParseEncodedLabel(r.labelText);
  }

  /** Whatever line is accepted, the record is valid and short enough to be written and read again. */
  lemma ParsedRecordShort(line: seq<Byte>)
    requires ParseRecord(line).Ok?
    ensures ValidRecord(ParseRecord(line).value) && Short(ParseRecord(line).value)
  {
    var fields := Split(line, SPACE);
    var scheme := ParseCanonicalU16(fields[0]).value;
    ParseCanonicalU16Exact(fields[0], scheme);
    if fields[2] != [DASH] {
      var bytes := Unhex(fields[2]).value;
      var text := Utf8.Decode(bytes).value;
      Utf8.DecodeExact(bytes, text);
      DisplayText.NormalizeExact(text);
    }
  }

  // ---------- the whole file ----------

  lemma HeaderAccepted()
    ensures ParseHeader(HeaderLine()) == None && |HeaderLine()| == 31
    ensures forall i | 0 <= i < |HeaderLine()| :: 32 <= HeaderLine()[i] < 127
  {
    ParseCanonicalU16Exact(ToDecimal(STORE_FORMAT_VERSION), STORE_FORMAT_VERSION);
    var n, m := |StoreHeader()|, |VersionMark()|;
    assert HeaderLine()[..n] == StoreHeader();
    assert HeaderLine()[n..n + m] == VersionMark();
    assert HeaderLine()[n + m..] == ToDecimal(STORE_FORMAT_VERSION);
  }

  function EncodedLines(rs: seq<Record>): (r: seq<seq<Byte>>)
    ensures |r| == |rs|
  {
    if rs == [] then [] else [EncodeRecord(rs[0])] + EncodedLines(rs[1..])
  }

  /** Each line followed by a newline. */
  function Terminated(lines: seq<seq<Byte>>): seq<Byte> {
    if lines == [] then [] else lines[0] + [NEWLINE] + Terminated(lines[1..])
  }

  lemma SplitLastLine(line: seq<Byte>)
    requires NEWLINE !in line
    ensures var bytes := line + [NEWLINE]; Split(bytes[..|bytes| - 1], NEWLINE) == [line]
  {
    assert (line + [NEWLINE])[..|line|] == line;
    SplitClean(line, NEWLINE);
  }

  lemma SplitFirstLine(line: seq<Byte>, rest: seq<Byte>)
    requires NEWLINE !in line && rest != []
    ensures var bytes := line + [NEWLINE] + rest;
            Split(bytes[..|bytes| - 1], NEWLINE) == [line] + Split(rest[..|rest| - 1], NEWLINE)
  {
    var bytes := line + [NEWLINE] + rest;
    assert bytes[..|bytes| - 1] == line + [NEWLINE] + rest[..|rest| - 1];
    SplitFirst(line, NEWLINE, rest[..|rest| - 1]);
  }

  lemma {:induction false} SplitTerminated(lines: seq<seq<Byte>>)
    requires lines != [] && forall i | 0 <= i < |lines| :: NEWLINE !in lines[i]
    ensures var bytes := Terminated(lines);
            bytes != [] && bytes[|bytes| - 1] == NEWLINE && Split(bytes[..|bytes| - 1], NEWLINE) == lines
  {
    var line, rest := lines[0], Terminated(lines[1..]);
    if |lines| == 1 {
      assert Terminated(lines) == line + [NEWLINE];
      SplitLastLine(line);
    } else {
      SplitTerminated(lines[1..]);
      SplitFirstLine(line, rest);
    }
  }

  lemma {:induction false} EncodedTerminated(rs: seq<Record>)
    ensures EncodeRecords(rs) == Terminated(EncodedLines(rs))
    ensures forall i | 0 <= i < |rs| :: NEWLINE !in EncodedLines(rs)[i]
  {
    if rs == [] {
    } else {
      RecordPrintable(rs[0]);
      EncodedTerminated(rs[1..]);
      assert EncodedLines(rs)[1..] == EncodedLines(rs[1..]);
    }
  }

  lemma {:induction false} EncodedAscii(rs: seq<Record>)
    ensures forall i | 0 <= i < |EncodeRecords(rs)| :: EncodeRecords(rs)[i] < 0x80
  {
    if rs == [] {
    } else {
      RecordPrintable(rs[0]);
      EncodedAscii(rs[1..]);
    }
  }

  lemma {:induction false} ParseEncodedRecords(rs: seq<Record>)
    requires forall r | r in rs :: ValidRecord(r)
    ensures ParseRecords(EncodedLines(rs)).Ok? <==> AllShort(rs)
    ensures AllShort(rs) ==> ParseRecords(EncodedLines(rs)) == Ok(rs)
  {
    if rs == [] {
    } else {
      assert rs == [rs[0]] + rs[1..];
      ParseEncodedRecord(rs[0]);
      ParseEncodedRecords(rs[1..]);
      assert EncodedLines(rs)[1..] == EncodedLines(rs[1..]);
      assert AllShort(rs) <==> Short(rs[0]) && AllShort(rs[1..]);
    }
  }

  /** The size of a file in which `x` is the only record whose label may be long. */
  lemma {:induction false} EncodedSize(rs: seq<Record>, x: Record)
    requires forall r | r in rs :: ValidRecord(r) && (r != x ==> Short(r))
    ensures |EncodeRecords(rs)| <= 392 * |rs| + 256 * multiset(rs)[x]
  {
    if rs == [] {
    } else {
      assert rs == [rs[0]] + rs[1..];
      RecordSize(rs[0]);
      EncodedSize(rs[1..], x);
    }
  }

  lemma {:induction false} ShortSize(rs: seq<Record>)
    requires AllShort(rs) && forall r | r in rs :: ValidRecord(r)
    ensures |EncodeRecords(rs)| <= 392 * |rs|
  {
    if rs == [] {
    } else {
      assert rs == [rs[0]] + rs[1..];
      RecordSize(rs[0]);
      ShortSize(rs[1..]);
    }
  }

  lemma EncodedFile(rs: seq<Record>)
    ensures Utf8.Decode(Encode(rs)).Some?
    ensures Lines(Encode(rs)) == Some([HeaderLine()] + EncodedLines(rs))
    ensures |Encode(rs)| == 32 + |EncodeRecords(rs)|
  {
    HeaderAccepted();
    EncodedAscii(rs);
    Utf8.AsciiDecodes(Encode(rs));
    EncodedTerminated(rs);
    var lines := [HeaderLine()] + EncodedLines(rs);
    assert lines[1..] == EncodedLines(rs);
    SplitTerminated(lines);
  }

  lemma SortedUnchanged(rs: seq<Record>)
    requires Canonical(rs)
    ensures SortBy(rs, RecordKey) == rs && !EqualNeighbours(rs)
  {
    SortByIdempotent(rs, RecordKey);
    StrictlySortedIsSorted(rs, RecordKey);
    DistinctNeighbours(rs);
  }

  /**
   The round trip, with its exact boundary: a canonical list is read back if and
   only if every label is at most 128 bytes, and then it is read back unchanged.
   */
  lemma DecodeEncode(rs: seq<Record>)
    requires Canonical(rs)
    ensures Decode(Encode(rs)).Ok? <==> AllShort(rs)
    ensures AllShort(rs) ==> Decode(Encode(rs)) == Ok(rs)
  {
    if AllShort(rs) {
      DecodeShort(rs);
    } else {
      EncodedLinesAccepted(rs);
      ParseEncodedRecords(rs);
    }
  }

  lemma DecodeShort(rs: seq<Record>)
    requires Canonical(rs) && AllShort(rs)
    ensures Decode(Encode(rs)) == Ok(rs)
  {
    EncodedLinesAccepted(rs);
    ParseEncodedRecords(rs);
    EncodedFile(rs);
    ShortSize(rs);
    SortedUnchanged(rs);
  }

  lemma EncodedLinesAccepted(rs: seq<Record>)
    ensures Utf8.Decode(Encode(rs)).Some? && Lines(Encode(rs)).Some?
    ensures var lines := Lines(Encode(rs)).value; ParseHeader(lines[0]) == None && lines[1..] == EncodedLines(rs)
  {
    EncodedFile(rs);
    HeaderAccepted();
    var lines := Lines(Encode(rs)).value;
    assert lines[0] == HeaderLine() && lines[1..] == EncodedLines(rs);
  }

  lemma DistinctNeighbours(rs: seq<Record>)
    requires Sorted(rs, RecordKey)
    ensures EqualNeighbours(rs) <==> !StrictlySorted(rs, RecordKey)
  {
    SortedWithoutEqualNeighbours(rs, RecordKey);
    forall i | 0 <= i < |rs| - 1
      ensures rs[i].identity == rs[i + 1].identity <==> RecordKey(rs[i]) == RecordKey(rs[i + 1])
    {
      if RecordKey(rs[i]) == RecordKey(rs[i + 1]) {
        IdentityKeyInjective(rs[i].identity, rs[i + 1].identity);
      }
    }
  }

  lemma {:induction false} ParsedInOrder(lines: seq<seq<Byte>>)
    requires ParseRecords(lines).Ok?
    ensures forall i | 0 <= i < |lines| :: ParseRecord(lines[i]) == Ok(ParseRecords(lines).value[i])
  {
    if lines == [] {
    } else {
      ParsedInOrder(lines[1..]);
      assert forall i | 0 < i < |lines| :: lines[i] == lines[1..][i - 1];
    }
  }

  lemma ParsedRecords(lines: seq<seq<Byte>>)
    requires ParseRecords(lines).Ok?
    ensures forall i | 0 <= i < |lines| :: ParseRecord(lines[i]) == Ok(ParseRecords(lines).value[i])
    ensures forall r | r in ParseRecords(lines).value :: ValidRecord(r) && Short(r)
  {
    ParsedInOrder(lines);
    var rs := ParseRecords(lines).value;
    forall i | 0 <= i < |rs|
      ensures ValidRecord(rs[i]) && Short(rs[i])
    {
      ParsedRecordShort(lines[i]);
    }
  }

  lemma LinesJoin(bytes: seq<Byte>)
    requires Lines(bytes).Some?
    ensures Join(Lines(bytes).value, NEWLINE) + [NEWLINE] == bytes
  {
    SplitJoin(bytes[..|bytes| - 1], NEWLINE);
  }

  /** `rs` rearranges the records of the lines after the header, one each. */
  ghost predicate OneRecordALine(lines: seq<seq<Byte>>, rs: seq<Record>) {
    && |rs| == |lines| - 1
    && exists parsed: seq<Record> ::
         && multiset(parsed) == multiset(rs) && |parsed| == |rs|
         && forall i | 0 <= i < |parsed| :: ParseRecord(lines[i + 1]) == Ok(parsed[i])
  }

  lemma SortedRecords(lines: seq<seq<Byte>>, rs: seq<Record>)
    requires lines != [] && ParseRecords(lines[1..]).Ok? && rs == SortBy(ParseRecords(lines[1..]).value, RecordKey)
    ensures OneRecordALine(lines, rs) && Sorted(rs, RecordKey) && AllShort(rs) && forall r | r in rs :: ValidRecord(r)
  {
    var parsed := ParseRecords(lines[1..]).value;
    ParsedRecords(lines[1..]);
    assert forall i | 0 <= i < |parsed| :: lines[1..][i] == lines[i + 1];
    SortBySorted(parsed, RecordKey);
    SameElements(rs, parsed);
  }

  /**
   A successful read drops nothing and normalises: there is one record for each
   line after the header, the records are canonical and short, and writing them
   and reading them again gives the same list.
   */
  lemma DecodeNormalises(bytes: seq<Byte>)
    requires Decode(bytes).Ok?
    ensures var rs := Decode(bytes).value; var lines := Lines(bytes).value;
            && Join(lines, NEWLINE) + [NEWLINE] == bytes
            && OneRecordALine(lines, rs)
            && Canonical(rs) && AllShort(rs)
            && Decode(Encode(rs)) == Ok(rs)
  {
    var lines := Lines(bytes).value;
    var rs := Decode(bytes).value;
    LinesJoin(bytes);
    SortedRecords(lines, rs);
    DistinctNeighbours(rs);
    DecodeEncode(rs);
  }

  /** Refusal for a repeated identity happens exactly when two lines carry the same one. */
  lemma DuplicatesExact(bytes: seq<Byte>)
    requires |bytes| <= MAX_TRUSTED_PEERS_STORE_BYTES && Utf8.Decode(bytes).Some? && Lines(bytes).Some?
    requires var lines := Lines(bytes).value;
             ParseHeader(lines[0]).None? && |lines| - 1 <= MAX_TRUSTED_PEERS && ParseRecords(lines[1..]).Ok?
    ensures var parsed := ParseRecords(Lines(bytes).value[1..]).value;
            Decode(bytes) == Err(DuplicateIdentity) <==>
            exists i, j | 0 <= i < j < |parsed| :: parsed[i].identity == parsed[j].identity
  {
    var parsed := ParseRecords(Lines(bytes).value[1..]).value;
    var rs := SortBy(parsed, RecordKey);
    SortBySorted(parsed, RecordKey);
    DistinctNeighbours(rs);
    if forall i, j | 0 <= i < j < |parsed| :: parsed[i].identity != parsed[j].identity {
      forall i, j | 0 <= i < j < |parsed|
        ensures RecordKey(parsed[i]) != RecordKey(parsed[j])
      {
        if RecordKey(parsed[i]) == RecordKey(parsed[j]) {
          IdentityKeyInjective(parsed[i].identity, parsed[j].identity);
        }
      }
      SortByStrict(parsed, RecordKey);
    } else {
      var i, j :| 0 <= i < j < |parsed| && parsed[i].identity == parsed[j].identity;
      if StrictlySorted(rs, RecordKey) {
        DistinctBeforeSorting(parsed, rs, i, j);
      }
    }
  }

  /** A list with a strictly sorted rearrangement repeats no identity. */
  lemma DistinctBeforeSorting(xs: seq<Record>, ys: seq<Record>, i: nat, j: nat)
    requires i < j < |xs|
    requires multiset(xs) == multiset(ys) && StrictlySorted(ys, RecordKey)
    ensures xs[i].identity != xs[j].identity
  {
    SameElements(xs, ys);
    StrictlySortedDistinct(ys, RecordKey);
    assert xs[i] in ys && xs[j] in ys;
    var a :| 0 <= a < |ys| && ys[a] == xs[i];
    var b :| 0 <= b < |ys| && ys[b] == xs[j];
    OnceIn(ys, a);
    if xs[i] == xs[j] {
      TwiceIn(xs, i, j);
    }
  }

  lemma TwiceIn(xs: seq<Record>, i: nat, j: nat)
    requires i < j < |xs| && xs[i] == xs[j]
    ensures multiset(xs)[xs[i]] >= 2
  {
    assert xs == xs[..j] + [xs[j]] + xs[j + 1..];
    assert xs[..j][i] == xs[j];
    assert xs[j] in multiset(xs[..j]);
  }

  lemma OnceIn(ys: seq<Record>, a: nat)
    requires a < |ys| && forall b | 0 <= b < |ys| && ys[b] == ys[a] :: b == a
    ensures multiset(ys)[ys[a]] == 1
  {
    assert ys == ys[..a] + [ys[a]] + ys[a + 1..];
    assert ys[a] !in ys[..a] && ys[a] !in ys[a + 1..];
  }
}
