/**
 Presentation text: the one validation that device display names and
 trusted-peer labels share.
 */
module DisplayText {
  import opened Results
  import opened Utf8

  const MAX_CHARS: nat := 64

  /** Unicode general category Cc. */
  predicate IsControl(c: Scalar) { c < 0x20 || 0x7F <= c < 0xA0 }

  /** The Unicode White_Space property. */
  predicate IsWhitespace(c: Scalar) {
    || 0x09 <= c <= 0x0D || c == 0x20 || c == 0x85 || c == 0xA0 || c == 0x1680
    || 0x2000 <= c <= 0x200A || c == 0x2028 || c == 0x2029 || c == 0x202F || c == 0x205F || c == 0x3000
  }

  predicate HasControl(text: Text) { exists i | 0 <= i < |text| :: IsControl(text[i]) }

  function TrimStart(text: Text): Text {
    if text != [] && IsWhitespace(text[0]) then TrimStart(text[1..]) else text
  }

  function TrimEnd(text: Text): Text {
    if text != [] && IsWhitespace(text[|text| - 1]) then TrimEnd(text[..|text| - 1]) else text
  }

  function Trim(text: Text): Text { TrimEnd(TrimStart(text)) }

  predicate Trimmed(text: Text) {
    text != [] ==> !IsWhitespace(text[0]) && !IsWhitespace(text[|text| - 1])
  }

  /** Trimming cuts out the slice between the first and the last visible scalar. */
  lemma TrimSlice(text: Text) returns (lo: nat, hi: nat)
    ensures lo <= hi <= |text| && Trim(text) == text[lo..hi] && Trimmed(Trim(text))
    ensures forall i | 0 <= i < lo || hi <= i < |text| :: IsWhitespace(text[i])
  {
    lo := TrimStartSlice(text);
    hi := TrimEndSlice(text[lo..]);
    assert forall i | hi <= i < |text| - lo :: text[lo + i] == text[lo..][i];
    assert text[lo..][..hi] == text[lo..lo + hi];
    hi := lo + hi;
    assert forall i | hi <= i < |text| :: text[i] == text[lo..][i - lo];
  }

  lemma {:induction false} TrimStartSlice(text: Text) returns (lo: nat)
    ensures lo <= |text| && TrimStart(text) == text[lo..]
    ensures forall i | 0 <= i < lo :: IsWhitespace(text[i])
    ensures lo < |text| ==> !IsWhitespace(text[lo])
  {
    lo := 0;
    if text != [] && IsWhitespace(text[0]) {
      var rest := TrimStartSlice(text[1..]);
      assert forall i | 0 < i < |text| :: text[i] == text[1..][i - 1];
      lo := rest + 1;
    }
  }

  lemma {:induction false} TrimEndSlice(text: Text) returns (hi: nat)
    ensures hi <= |text| && TrimEnd(text) == text[..hi]
    ensures forall i | hi <= i < |text| :: IsWhitespace(text[i])
    ensures hi > 0 ==> !IsWhitespace(text[hi - 1])
  {
    hi := |text|;
    if text != [] && IsWhitespace(text[|text| - 1]) {
      hi := TrimEndSlice(text[..|text| - 1]);
      assert forall i | 0 <= i < |text| - 1 :: text[i] == text[..|text| - 1][i];
    }
  }

  lemma TrimmedIsFixed(text: Text)
    requires Trimmed(text)
    ensures Trim(text) == text
  {
  }

  datatype TextError = Empty | ControlCharacter | TooLong(chars: nat)

  /** Rejects control characters, trims, and bounds the number of scalar values. */
  function Normalize(value: Text): Result<Text, TextError> {
    if HasControl(value) then Err(ControlCharacter)
    else
      var normalized := Trim(value);
      if normalized == [] then Err(Empty)
      else if |normalized| > MAX_CHARS then Err(TooLong(|normalized|))
      else Ok(normalized)
  }

  /** The texts a validated name or label can hold. */
  predicate Valid(text: Text) {
    text != [] && |text| <= MAX_CHARS && !HasControl(text) && Trimmed(text)
  }

  lemma TrimShrinks(text: Text)
    ensures |Trim(text)| <= |text| && |Encode(Trim(text))| <= |Encode(text)|
  {
    var lo, hi := TrimSlice(text);
    SliceShrinks(text, lo, hi);
  }

  lemma SliceShrinks(text: Text, lo: nat, hi: nat)
    requires lo <= hi <= |text|
    ensures |Encode(text[lo..hi])| <= |Encode(text)|
  {
    MiddleShrinks(text[..lo], text[lo..hi], text[hi..]);
    assert text == text[..lo] + text[lo..hi] + text[hi..];
  }

  lemma MiddleShrinks(before: Text, middle: Text, after: Text)
    ensures |Encode(middle)| <= |Encode(before + middle + after)|
  {
    EncodeConcat(before, middle);
    EncodeConcat(before + middle, after);
  }

  lemma TrimKeepsControlFree(text: Text)
    ensures HasControl(Trim(text)) ==> HasControl(text)
  {
    var lo, hi := TrimSlice(text);
    if HasControl(Trim(text)) {
      var i :| 0 <= i < |Trim(text)| && IsControl(Trim(text)[i]);
      assert text[lo + i] == Trim(text)[i];
    }
  }

  /** Validation yields only valid texts, never grows its input, and leaves exactly the valid texts alone. */
  lemma NormalizeExact(value: Text)
    ensures Normalize(value).Ok? ==>
              Valid(Normalize(value).value) && |Encode(Normalize(value).value)| <= |Encode(value)|
    ensures Valid(value) <==> Normalize(value) == Ok(value)
  {
    var lo, hi := TrimSlice(value);
    TrimShrinks(value);
    TrimKeepsControlFree(value);
    if Valid(value) {
      TrimmedIsFixed(value);
    }
  }

  predicate Blank(text: Text) { forall i | 0 <= i < |text| :: IsWhitespace(text[i]) }

  lemma {:induction false} TrimStartPadded(pad: Text, text: Text)
    requires Blank(pad)
    ensures TrimStart(pad + text) == TrimStart(text)
  {
    if pad == [] {
      assert pad + text == text;
    } else {
      assert (pad + text)[1..] == pad[1..] + text;
      TrimStartPadded(pad[1..], text);
    }
  }

  lemma {:induction false} TrimEndPadded(text: Text, pad: Text)
    requires Blank(pad)
    ensures TrimEnd(text + pad) == TrimEnd(text)
  {
    if pad == [] {
      assert text + pad == text;
    } else {
      var n := |pad| - 1;
      assert (text + pad)[..|text| + n] == text + pad[..n];
      TrimEndPadded(text, pad[..n]);
    }
  }

  ghost predicate Pads(value: Text, text: Text) {
    exists a: Text, b: Text :: Blank(a) && Blank(b) && value == a + text + b
  }

  lemma TrimPadded(value: Text, text: Text)
    requires Pads(value, text) && text != [] && Trimmed(text)
    ensures Trim(value) == text
  {
    var a: Text, b: Text :| Blank(a) && Blank(b) && value == a + text + b;
    assert value == a + (text + b);
    TrimStartPadded(a, text + b);
    assert TrimStart(text + b) == text + b;
    TrimEndPadded(text, b);
  }

  lemma TrimPads(value: Text)
    ensures Pads(value, Trim(value))
  {
    var lo, hi := TrimSlice(value);
    assert Blank(value[..lo]) && Blank(value[hi..]);
    assert value == value[..lo] + Trim(value) + value[hi..];
  }

  /** A text is what validation makes of a value exactly when it is valid and the value only pads it with whitespace. */
  lemma NormalizeAccepts(value: Text, text: Text)
    ensures Normalize(value) == Ok(text) <==> Valid(text) && !HasControl(value) && Pads(value, text)
  {
    NormalizeExact(value);
    TrimPads(value);
    if Valid(text) && Pads(value, text) {
      TrimPadded(value, text);
    }
  }

  // ---------- the character classes and the limit ----------

  /** The 25 scalars of the White_Space property. */
  lemma WhitespaceExact(c: Scalar)
    ensures IsWhitespace(c) <==>
            c in {9, 10, 11, 12, 13, 32, 133, 160, 5760, 8192, 8193, 8194, 8195, 8196, 8197, 8198, 8199, 8200, 8201,
                  8202, 8232, 8233, 8239, 8287, 12288}
  {
  }

  /** The 65 scalars of category Cc: the two control blocks and delete. */
  lemma ControlExact(c: Scalar)
    ensures IsControl(c) <==> c <= 31 || c == 127 || 128 <= c <= 159
  {
  }

  /** A valid text has 1 to 64 characters, none of them a control, and begins and ends with a visible one. */
  lemma ValidExact(text: Text)
    ensures Valid(text) <==>
            && 1 <= |text| <= 64 && (forall i | 0 <= i < |text| :: !IsControl(text[i]))
            && !IsWhitespace(text[0]) && !IsWhitespace(text[|text| - 1])
  {
  }

  /** A value is refused for a control character first, then for being blank, then for its length. */
  lemma NormalizeRefuses(value: Text)
    ensures Normalize(value) == Err(ControlCharacter) <==> exists i | 0 <= i < |value| :: IsControl(value[i])
    ensures Normalize(value) == Err(Empty) <==> Blank(value) && !HasControl(value)
    ensures forall n :: Normalize(value) == Err(TooLong(n)) <==> !HasControl(value) && |Trim(value)| == n && n > 64
  {
    var lo, hi := TrimSlice(value);
    if Trim(value) != [] {
      assert Trim(value)[0] == value[lo];
    }
  }
}
