/** The UTF-8 encoding of Unicode scalar values, as section 3 of RFC 3629 defines it. */
module Utf8 {
  import opened Results
  import opened Bytes

  type Scalar = c: int | 0 <= c < 0xD800 || 0xE000 <= c < 0x110000
  type Text = seq<Scalar>

  function EncodeScalar(c: Scalar): (r: seq<Byte>)
    ensures 1 <= |r| <= 4
  {
    if c < 0x80 then [c]
    else if c < 0x800 then [0xC0 + c / 64, 0x80 + c % 64]
    else if c < 0x10000 then [0xE0 + c / 64 / 64, 0x80 + c / 64 % 64, 0x80 + c % 64]
    else [0xF0 + c / 64 / 64 / 64, 0x80 + c / 64 / 64 % 64, 0x80 + c / 64 % 64, 0x80 + c % 64]
  }

  function Encode(text: Text): (r: seq<Byte>)
    ensures |text| <= |r| <= 4 * |text|
  {
    if text == [] then [] else EncodeScalar(text[0]) + Encode(text[1..])
  }

  predicate Continuation(b: Byte) { 0x80 <= b < 0xC0 }

  /** How many bytes the encoding that starts with `b` occupies. */
  function Width(b: Byte): nat {
    if b < 0x80 then 1 else if b < 0xE0 then 2 else if b < 0xF0 then 3 else 4
  }

  /** Makes room for the six payload bits of a continuation byte. */
  function Shift(high: int, b: Byte): int { 64 * high + (b - 0x80) }

  /** The scalar encoded at the front of `bytes`, with overlong forms, surrogates and values past U+10FFFF refused. */
  function DecodeScalar(bytes: seq<Byte>): (r: Option<Scalar>)
    ensures r.Some? ==> bytes != [] && Width(bytes[0]) <= |bytes|
  {
    if |bytes| >= 1 && bytes[0] < 0x80 then
      Some(bytes[0])
    else if |bytes| >= 2 && 0xC2 <= bytes[0] < 0xE0 && Continuation(bytes[1]) then
      Some(Shift(bytes[0] - 0xC0, bytes[1]))
    else if && |bytes| >= 3 && 0xE0 <= bytes[0] < 0xF0 && Continuation(bytes[1]) && Continuation(bytes[2])
            && (bytes[0] == 0xE0 ==> 0xA0 <= bytes[1]) && (bytes[0] == 0xED ==> bytes[1] < 0xA0) then
      Some(Shift(Shift(bytes[0] - 0xE0, bytes[1]), bytes[2]))
    else if && |bytes| >= 4 && 0xF0 <= bytes[0] < 0xF5 && Continuation(bytes[1]) && Continuation(bytes[2])
            && Continuation(bytes[3])
            && (bytes[0] == 0xF0 ==> 0x90 <= bytes[1]) && (bytes[0] == 0xF4 ==> bytes[1] < 0x90) then
      Some(Shift(Shift(Shift(bytes[0] - 0xF0, bytes[1]), bytes[2]), bytes[3]))
    else None
  }

  function Decode(bytes: seq<Byte>): Option<Text> {
    if bytes == [] then Some([])
    else
      match DecodeScalar(bytes)
      case None => None
      case Some(c) =>
        (match Decode(bytes[Width(bytes[0])..])
         case None => None
         case Some(rest) => Some([c] + rest))
  }

  lemma DecodeEncodedScalar(c: Scalar, rest: seq<Byte>)
    ensures DecodeScalar(EncodeScalar(c) + rest) == Some(c)
    ensures Width(EncodeScalar(c)[0]) == |EncodeScalar(c)|
  {
    var code := EncodeScalar(c);
    var bytes := code + rest;
    assert forall i | 0 <= i < |code| :: bytes[i] == code[i];
    assert c == 64 * (c / 64) + c % 64;
    assert c / 64 == 64 * (c / 64 / 64) + c / 64 % 64;
    assert c / 64 / 64 == 64 * (c / 64 / 64 / 64) + c / 64 / 64 % 64;
  }

  lemma ShiftInverse(high: int, b: Byte)
    requires Continuation(b)
    ensures Shift(high, b) / 64 == high && Shift(high, b) % 64 == b - 0x80
  {
  }

  lemma EncodeDecodedScalar(bytes: seq<Byte>)
    requires DecodeScalar(bytes).Some?
    ensures bytes[..Width(bytes[0])] == EncodeScalar(DecodeScalar(bytes).value)
  {
    if Width(bytes[0]) == 2 {
      ShiftInverse(bytes[0] - 0xC0, bytes[1]);
    } else if Width(bytes[0]) == 3 {
      ShiftInverse(bytes[0] - 0xE0, bytes[1]);
      ShiftInverse(Shift(bytes[0] - 0xE0, bytes[1]), bytes[2]);
    } else if Width(bytes[0]) == 4 {
      ShiftInverse(bytes[0] - 0xF0, bytes[1]);
      ShiftInverse(Shift(bytes[0] - 0xF0, bytes[1]), bytes[2]);
      ShiftInverse(Shift(Shift(bytes[0] - 0xF0, bytes[1]), bytes[2]), bytes[3]);
    }
  }

  /** Decoding accepts exactly the encodings of texts, and inverts encoding. */
  lemma {:induction false} DecodeExact(bytes: seq<Byte>, text: Text)
    ensures Decode(bytes) == Some(text) <==> bytes == Encode(text)
    decreases |bytes|
  {
    if bytes == Encode(text) && text != [] {
      DecodeEncodedScalar(text[0], Encode(text[1..]));
      var n := |EncodeScalar(text[0])|;
      assert bytes[n..] == Encode(text[1..]);
      DecodeExact(bytes[n..], text[1..]);
      assert text == [text[0]] + text[1..];
    }
    if Decode(bytes) == Some(text) && bytes != [] {
      var n := Width(bytes[0]);
      EncodeDecodedScalar(bytes);
      assert text == [text[0]] + text[1..];
      DecodeExact(bytes[n..], text[1..]);
      assert bytes == bytes[..n] + bytes[n..];
    }
  }

  lemma {:induction false} EncodeConcat(a: Text, b: Text)
    ensures Encode(a + b) == Encode(a) + Encode(b)
  {
    if a == [] {
      assert a + b == b;
    } else {
      assert (a + b)[1..] == a[1..] + b;
      EncodeConcat(a[1..], b);
    }
  }

  lemma {:induction false} AsciiDecodes(bytes: seq<Byte>)
    requires forall i | 0 <= i < |bytes| :: bytes[i] < 0x80
    ensures Decode(bytes) == Some(bytes)
  {
    if bytes == [] {
    } else {
      AsciiDecodes(bytes[1..]);
      assert bytes == [bytes[0]] + bytes[1..];
    }
  }

  /** Whether a slice may start or end at byte offset `i` of a string. */
  predicate CharBoundary(bytes: seq<Byte>, i: nat) {
    i == 0 || i == |bytes| || (i < |bytes| && !Continuation(bytes[i]))
  }

  lemma BoundaryAfterFirst(text: Text, i: nat)
    requires 0 < i <= |Encode(text)| && CharBoundary(Encode(text), i)
    ensures text != [] && Encode(text)[|EncodeScalar(text[0])|..] == Encode(text[1..])
    ensures |EncodeScalar(text[0])| <= i && CharBoundary(Encode(text[1..]), i - |EncodeScalar(text[0])|)
  {
    var head := EncodeScalar(text[0]);
    assert forall j | 0 < j < |head| :: Encode(text)[j] == head[j] && Continuation(head[j]);
  }

  /** Byte offsets that are boundaries are exactly the lengths of encoded prefixes. */
  lemma {:induction false} BoundaryIsPrefix(text: Text, i: nat) returns (n: nat)
    requires i <= |Encode(text)| && CharBoundary(Encode(text), i)
    ensures n <= |text| && |Encode(text[..n])| == i && Encode(text[..n]) == Encode(text)[..i]
  {
    if i == 0 {
      n := 0;
    } else {
      var head := EncodeScalar(text[0]);
      BoundaryAfterFirst(text, i);
      var m := BoundaryIsPrefix(text[1..], i - |head|);
      n := m + 1;
      PrefixExtends(text, m);
      SlicesJoin(head, Encode(text[1..]), i);
    }
  }

  lemma PrefixExtends(text: Text, m: nat)
    requires m < |text|
    ensures Encode(text[..m + 1]) == EncodeScalar(text[0]) + Encode(text[1..][..m])
  {
    assert text[..m + 1][1..] == text[1..][..m];
  }

  lemma SlicesJoin(head: seq<Byte>, tail: seq<Byte>, i: nat)
    requires |head| <= i <= |head| + |tail|
    ensures (head + tail)[..i] == head + tail[..i - |head|]
  {
  }

  lemma {:induction false} PrefixIsBoundary(text: Text, n: nat)
    requires n <= |text|
    ensures |Encode(text[..n])| <= |Encode(text)|
    ensures Encode(text)[..|Encode(text[..n])|] == Encode(text[..n])
    ensures CharBoundary(Encode(text), |Encode(text[..n])|)
  {
    assert text == text[..n] + text[n..];
    EncodeConcat(text[..n], text[n..]);
    if n < |text| {
      assert Encode(text)[|Encode(text[..n])|] == EncodeScalar(text[n])[0];
    }
  }

  /** At most three bytes separate any offset from the boundary before it. */
  lemma {:induction false} BoundaryNearby(text: Text, i: nat) returns (k: nat)
    requires i <= |Encode(text)|
    ensures k <= 3 && k <= i && CharBoundary(Encode(text), i - k)
  {
    k := 0;
    if !CharBoundary(Encode(text), i) {
      var head := EncodeScalar(text[0]);
      assert Encode(text)[|head|..] == Encode(text[1..]);
      if i < |head| {
        k := i;
      } else {
        k := BoundaryNearby(text[1..], i - |head|);
        assert k <= i - |head|;
        if i - |head| - k == 0 && |head| < |Encode(text)| {
          assert !Continuation(EncodeScalar(text[1])[0]);
        }
      }
    }
  }

  /** The bits of a byte above its marker. */
  function Payload(b: int, marker: int): int { b - marker }

  /** The layout of section 3 of RFC 3629: lead byte ranges, and six bits in each later byte. */
  lemma ScalarLayout(c: Scalar)
    ensures var r := EncodeScalar(c);
            if c <= 0x7F then r == [c]
            else if c <= 0x7FF then
              |r| == 2 && 0xC2 <= r[0] <= 0xDF && c == Payload(r[0], 0xC0) * 64 + Payload(r[1], 0x80)
            else if c <= 0xFFFF then
              && |r| == 3 && 0xE0 <= r[0] <= 0xEF
              && c == Payload(r[0], 0xE0) * 4096 + Payload(r[1], 0x80) * 64 + Payload(r[2], 0x80)
            else
              && |r| == 4 && 0xF0 <= r[0] <= 0xF4
              && c == Payload(r[0], 0xF0) * 262144 + Payload(r[1], 0x80) * 4096
                      + Payload(r[2], 0x80) * 64 + Payload(r[3], 0x80)
    ensures forall i | 0 < i < |EncodeScalar(c)| :: 0x80 <= EncodeScalar(c)[i] <= 0xBF
  {
    assert c == 64 * (c / 64) + c % 64;
    assert c / 64 == 64 * (c / 64 / 64) + c / 64 % 64;
    assert c / 64 / 64 == 64 * (c / 64 / 64 / 64) + c / 64 / 64 % 64;
  }
}
