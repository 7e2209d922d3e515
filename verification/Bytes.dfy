/** Bytes, canonical decimal numbers, lowercase hexadecimal and splitting at a separator. */
module Bytes {
  import opened Results

  type Byte = b: int | 0 <= b < 256
  const U16_MAX: nat := 65535

  /** The bytes of an ASCII string literal. */
  function Ascii(s: string): (r: seq<Byte>)
    requires forall i | 0 <= i < |s| :: s[i] as int < 128
    ensures |r| == |s|
    ensures forall i | 0 <= i < |s| :: r[i] == s[i] as int
  {
    seq(|s|, i requires 0 <= i < |s| => s[i] as int)
  }

  // ---------- decimal ----------

  predicate IsDigit(b: Byte) { 48 <= b < 58 }

  /** The shortest decimal form, as integer formatting prints it. */
  function ToDecimal(n: nat): (r: seq<Byte>)
    ensures r != [] && forall i | 0 <= i < |r| :: IsDigit(r[i])
  {
    if n < 10 then [48 + n] else ToDecimal(n / 10) + [48 + n % 10]
  }

  function DigitsValue(digits: seq<Byte>): nat
    requires forall i | 0 <= i < |digits| :: IsDigit(digits[i])
  {
    if digits == [] then 0
    else
      assert IsDigit(digits[|digits| - 1]);
      10 * DigitsValue(digits[..|digits| - 1]) + (digits[|digits| - 1] - 48)
  }

  /** Integer parsing as the standard library does it: an optional plus sign, leading zeros allowed. */
  function ParseU16(text: seq<Byte>): Option<nat> {
    var digits := if text != [] && text[0] == '+' as int then text[1..] else text;
    if digits == [] || exists i | 0 <= i < |digits| :: !IsDigit(digits[i]) then None
    else
      var value := DigitsValue(digits);
      if value <= U16_MAX then Some(value) else None
  }

  /** Accepts a number only in the form that printing it gives back. */
  function ParseCanonicalU16(text: seq<Byte>): Option<nat> {
    match ParseU16(text)
    case Some(value) => if ToDecimal(value) == text then Some(value) else None
    case None => None
  }

  lemma {:induction false} DecimalValue(n: nat)
    ensures DigitsValue(ToDecimal(n)) == n
  {
    if n >= 10 {
      DecimalValue(n / 10);
      var r := ToDecimal(n);
      assert r[..|r| - 1] == ToDecimal(n / 10);
    }
  }

  /** Parsing accepts exactly the printed forms, and inverts printing. */
  lemma ParseCanonicalU16Exact(text: seq<Byte>, value: nat)
    ensures ParseCanonicalU16(text) == Some(value) <==> value <= U16_MAX && text == ToDecimal(value)
  {
    DecimalValue(value);
  }

  lemma {:induction false} DecimalLength(n: nat)
    requires n <= U16_MAX
    ensures |ToDecimal(n)| <= 5
  {
    assert n < 10 || n / 10 < 10 || n / 100 < 10 || n / 1000 < 10 || n / 10000 < 10;
    assert n >= 10000 ==> |ToDecimal(n / 10 / 10 / 10 / 10)| == 1;
    assert n >= 10000 ==> |ToDecimal(n / 10 / 10)| == 3;
    assert 1000 <= n < 10000 ==> |ToDecimal(n / 10 / 10)| == 2;
  }

  // ---------- lowercase hexadecimal ----------

  function HexDigit(n: int): Byte
    requires 0 <= n < 16
  {
    if n < 10 then 48 + n else 87 + n
  }

  function HexValue(b: Byte): (r: Option<int>)
    ensures r.Some? ==> 0 <= r.value < 16
  {
    if 48 <= b <= 57 then Some(b - 48)
    else if 97 <= b <= 102 then Some(b - 87)
    else None
  }

  function Hex(bytes: seq<Byte>): (r: seq<Byte>)
    ensures |r| == 2 * |bytes|
  {
    if bytes == [] then []
    else [HexDigit(bytes[0] / 16), HexDigit(bytes[0] % 16)] + Hex(bytes[1..])
  }

  /** The bytes `out` followed by `rest`, if there is a rest. */
  function Prepend(out: seq<Byte>, rest: Option<seq<Byte>>): Option<seq<Byte>> {
    match rest
    case Some(more) => Some(out + more)
    case None => None
  }

  function PairThen(high: Option<int>, low: Option<int>, rest: Option<seq<Byte>>): Option<seq<Byte>>
    requires high.Some? ==> 0 <= high.value < 16
    requires low.Some? ==> 0 <= low.value < 16
  {
    if high.Some? && low.Some? then Prepend([16 * high.value + low.value], rest) else None
  }

  function UnhexPairs(text: seq<Byte>): (r: Option<seq<Byte>>)
    requires |text| % 2 == 0
    ensures r.Some? ==> 2 * |r.value| == |text|
  {
    if text == [] then Some([]) else PairThen(HexValue(text[0]), HexValue(text[1]), UnhexPairs(text[2..]))
  }

  function Unhex(text: seq<Byte>): (r: Option<seq<Byte>>)
    ensures r.Some? ==> 0 < |r.value| && 2 * |r.value| == |text|
  {
    if text == [] || |text| % 2 != 0 then None else UnhexPairs(text)
  }

  lemma {:induction false} UnhexPairsExact(text: seq<Byte>, bytes: seq<Byte>)
    requires |text| % 2 == 0
    ensures UnhexPairs(text) == Some(bytes) <==> text == Hex(bytes)
    decreases |text|
  {
    if text == [] || bytes == [] {
    } else {
      UnhexPairsExact(text[2..], bytes[1..]);
      assert text == [text[0], text[1]] + text[2..];
      assert bytes == [bytes[0]] + bytes[1..];
      if text == Hex(bytes) {
        assert text[2..] == Hex(bytes[1..]);
        assert HexValue(text[0]) == Some(bytes[0] / 16) && HexValue(text[1]) == Some(bytes[0] % 16);
      }
    }
  }

  /** Decoding accepts exactly the nonempty lowercase encodings, and inverts encoding. */
  lemma UnhexExact(text: seq<Byte>, bytes: seq<Byte>)
    ensures Unhex(text) == Some(bytes) <==> bytes != [] && text == Hex(bytes)
  {
    if |text| % 2 == 0 {
      UnhexPairsExact(text, bytes);
    }
  }

  predicate IsHexDigit(b: Byte) { 48 <= b <= 57 || 97 <= b <= 102 }

  lemma {:induction false} HexAlphabet(bytes: seq<Byte>)
    ensures forall i | 0 <= i < |Hex(bytes)| :: IsHexDigit(Hex(bytes)[i])
  {
    if bytes == [] {
    } else {
      HexAlphabet(bytes[1..]);
    }
  }

  /** Appends the lowercase encoding of `bytes`, two digits a byte. */
  method PushHex(out: seq<Byte>, bytes: seq<Byte>) returns (r: seq<Byte>)
    ensures r == out + Hex(bytes)
  {
    r := out;
    var i := 0;
    while i < |bytes|
      invariant 0 <= i <= |bytes|
      invariant r + Hex(bytes[i..]) == out + Hex(bytes)
    {
      assert bytes[i..][1..] == bytes[i + 1..];
      r := r + [HexDigit(bytes[i] / 16)];
      r := r + [HexDigit(bytes[i] % 16)];
      i := i + 1;
    }
  }

  lemma PrependNothing(rest: Option<seq<Byte>>)
    ensures Prepend([], rest) == rest
  {
    assert rest.Some? ==> [] + rest.value == rest.value;
  }

  lemma PrependPair(out: seq<Byte>, high: int, low: int, rest: Option<seq<Byte>>)
    requires 0 <= high < 16 && 0 <= low < 16
    ensures Prepend(out, PairThen(Some(high), Some(low), rest)) == Prepend(out + [16 * high + low], rest)
  {
    if rest.Some? {
      assert out + ([16 * high + low] + rest.value) == out + [16 * high + low] + rest.value;
    }
  }

  /** Decodes pairs of digits, giving up at the first byte outside the lowercase alphabet. */
  method DecodeHex(text: seq<Byte>) returns (r: Option<seq<Byte>>)
    ensures r == Unhex(text)
  {
    if text == [] || |text| % 2 != 0 {
      return None;
    }
    var out: seq<Byte> := [];
    var rest := text;
    PrependNothing(UnhexPairs(text));
    while rest != []
      invariant |rest| % 2 == 0
      invariant Prepend(out, UnhexPairs(rest)) == UnhexPairs(text)
      decreases |rest|
    {
      var high, low := HexValue(rest[0]), HexValue(rest[1]);
      if high.None? || low.None? {
        return None;
      }
      PrependPair(out, high.value, low.value, UnhexPairs(rest[2..]));
      out := out + [16 * high.value + low.value];
      rest := rest[2..];
    }
    assert out + [] == out;
    return Some(out);
  }

  // ---------- splitting ----------

  /** The pieces between separators; one more piece than there are separators. */
  function Split(s: seq<Byte>, separator: Byte): (parts: seq<seq<Byte>>)
    ensures |parts| > 0
  {
    if s == [] then [[]]
    else
      var rest := Split(s[1..], separator);
      if s[0] == separator then [[]] + rest else [[s[0]] + rest[0]] + rest[1..]
  }

  function Join(parts: seq<seq<Byte>>, separator: Byte): seq<Byte>
    requires |parts| > 0
  {
    if |parts| == 1 then parts[0] else parts[0] + [separator] + Join(parts[1..], separator)
  }

  /** Splitting loses nothing and leaves no separator inside a piece. */
  lemma {:induction false} SplitJoin(s: seq<Byte>, separator: Byte)
    ensures Join(Split(s, separator), separator) == s
    ensures forall i | 0 <= i < |Split(s, separator)| :: separator !in Split(s, separator)[i]
  {
    if s == [] {
    } else {
      SplitJoin(s[1..], separator);
      var rest := Split(s[1..], separator);
      assert s == [s[0]] + s[1..];
      if s[0] == separator {
        assert ([[]] + rest)[1..] == rest;
      } else if |rest| > 1 {
        assert ([[s[0]] + rest[0]] + rest[1..])[1..] == rest[1..];
      }
    }
  }

  lemma {:induction false} SplitClean(s: seq<Byte>, separator: Byte)
    requires separator !in s
    ensures Split(s, separator) == [s]
  {
    if s == [] {
    } else {
      assert forall b | b in s[1..] :: b in s;
      SplitClean(s[1..], separator);
      assert s == [s[0]] + s[1..];
    }
  }

  lemma {:induction false} SplitFirst(a: seq<Byte>, separator: Byte, b: seq<Byte>)
    requires separator !in a
    ensures Split(a + [separator] + b, separator) == [a] + Split(b, separator)
  {
    var s := a + [separator] + b;
    if a == [] {
      assert s[1..] == b;
    } else {
      assert forall c | c in a[1..] :: c in a;
      SplitFirst(a[1..], separator, b);
      assert s[1..] == a[1..] + [separator] + b;
      assert a == [a[0]] + a[1..];
    }
  }

  // ---------- the digits ----------

  /** Each byte is two digits of 0123456789abcdef, the high half first. */
  lemma {:induction false} HexDigits(bytes: seq<Byte>, i: nat)
    requires i < |bytes|
    ensures Hex(bytes)[2 * i] == "0123456789abcdef"[bytes[i] / 16] as int
    ensures Hex(bytes)[2 * i + 1] == "0123456789abcdef"[bytes[i] % 16] as int
  {
    if i == 0 {
    } else {
      HexDigits(bytes[1..], i - 1);
    }
  }

  /** The last decimal digit is the remainder by ten, and the rest prints the quotient. */
  lemma DecimalDigits(n: nat)
    ensures ToDecimal(n) == (if n < 10 then [] else ToDecimal(n / 10)) + ["0123456789"[n % 10] as int]
  {
  }
}
