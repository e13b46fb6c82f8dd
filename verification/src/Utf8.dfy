/** UTF-8 as the text encoder and the fatal text decoder apply it.
    Strings are sequences of code points; an unpaired surrogate is a code point of its own, and
    the encoder replaces it by U+FFFD. */
module Utf8 {
  import opened Bytes
  import opened Wrappers

  type CodePoint = c: int | 0 <= c < 0x110000

  type Text = seq<CodePoint>

  const REPLACEMENT: CodePoint := 0xFFFD
  const BYTE_ORDER_MARK: CodePoint := 0xFEFF

  predicate IsSurrogate(c: CodePoint) {
    0xD800 <= c < 0xE000
  }

  function Scalar(c: CodePoint): CodePoint {
    if IsSurrogate(c) then REPLACEMENT else c
  }

  /** Every code point is a Unicode scalar value, so encoding loses nothing. */
  predicate WellFormed(t: Text) {
    forall i | 0 <= i < |t| :: !IsSurrogate(t[i])
  }

  /** The bytes of a scalar value, six payload bits per continuation byte. */
  function EncodeScalar(c: CodePoint): (s: seq<byte>)
    ensures 1 <= |s| <= 4
  {
    var high6 := c / 64;
    var high12 := high6 / 64;
    if c < 0x80 then [c]
    else if c < 0x800 then [0xC0 + high6, 0x80 + c % 64]
    else if c < 0x10000 then [0xE0 + high12, 0x80 + high6 % 64, 0x80 + c % 64]
    else [0xF0 + high12 / 64, 0x80 + high12 % 64, 0x80 + high6 % 64, 0x80 + c % 64]
  }

  function EncodePoint(c: CodePoint): (s: seq<byte>)
    ensures 1 <= |s| <= 4
  {
    EncodeScalar(Scalar(c))
  }

  function Encode(t: Text): seq<byte> {
    if t == [] then [] else EncodePoint(t[0]) + Encode(t[1..])
  }

  predicate Continuation(b: byte) {
    0x80 <= b < 0xC0
  }

  datatype Decoded = Malformed | Point(c: CodePoint, size: nat)

  /** The value of a two, three or four byte sequence, by lead and continuation bytes. */
  function Value2(b0: int, b1: int): int {
    64 * (b0 - 0xC0) + (b1 - 0x80)
  }

  function Value3(b0: int, b1: int, b2: int): int {
    64 * (64 * (b0 - 0xE0) + (b1 - 0x80)) + (b2 - 0x80)
  }

  function Value4(b0: int, b1: int, b2: int, b3: int): int {
    64 * (64 * (64 * (b0 - 0xF0) + (b1 - 0x80)) + (b2 - 0x80)) + (b3 - 0x80)
  }

  predicate Second3(b0: int, b1: int) {
    0x80 <= b1 < 0xC0 && (b0 == 0xE0 ==> b1 >= 0xA0) && (b0 == 0xED ==> b1 < 0xA0)
  }

  predicate Second4(b0: int, b1: int) {
    0x80 <= b1 < 0xC0 && (b0 == 0xF0 ==> b1 >= 0x90) && (b0 == 0xF4 ==> b1 < 0x90)
  }

  /** One code point from the front of the input: the well-formed byte sequences of RFC 3629, so
      overlong forms, surrogates and values past U+10FFFF are malformed. */
  function DecodePoint(s: seq<byte>): (r: Decoded)
    requires s != []
    ensures r.Point? ==> 1 <= r.size <= 4 && r.size <= |s|
  {
    var b0 := s[0];
    if b0 < 0x80 then Point(b0, 1)
    else if 0xC2 <= b0 < 0xE0 && |s| >= 2 && Continuation(s[1]) then
      Point(Value2(b0, s[1]), 2)
    else if 0xE0 <= b0 < 0xF0 && |s| >= 3 && Second3(b0, s[1]) && Continuation(s[2]) then
      Point(Value3(b0, s[1], s[2]), 3)
    else if 0xF0 <= b0 < 0xF5 && |s| >= 4 && Second4(b0, s[1]) && Continuation(s[2]) && Continuation(s[3]) then
      Point(Value4(b0, s[1], s[2], s[3]), 4)
    else Malformed
  }

  function DecodeAll(s: seq<byte>): Option<Text>
    decreases |s|
  {
    if s == [] then Some([])
    else
      match DecodePoint(s)
      case Malformed => None
      case Point(c, n) =>
        match DecodeAll(s[n..])
        case None => None
        case Some(t) => Some([c] + t)
  }

  /** A leading byte order mark is not part of the decoded text. */
  function StripMark(t: Text): Text {
    if t != [] && t[0] == BYTE_ORDER_MARK then t[1..] else t
  }

  /** The fatal decoder: no text for malformed input, otherwise the text without its mark. */
  function DecodeFatal(s: seq<byte>): Option<Text> {
    match DecodeAll(s)
    case None => None
    case Some(t) => Some(StripMark(t))
  }

  lemma DecodePointOfEncoded(c: CodePoint, rest: seq<byte>)
    requires !IsSurrogate(c)
    ensures DecodePoint(EncodeScalar(c) + rest) == Point(c, |EncodeScalar(c)|)
  {
    var s := EncodeScalar(c) + rest;
    if c < 0x80 {
      assert s[0] == c;
    } else if c < 0x800 {
      assert s[0] == 0xC0 + c / 64 && s[1] == 0x80 + c % 64;
    } else if c < 0x10000 {
      assert s[0] == 0xE0 + c / 64 / 64 && s[1] == 0x80 + c / 64 % 64 && s[2] == 0x80 + c % 64;
    } else {
      assert s[0] == 0xF0 + c / 64 / 64 / 64 && s[1] == 0x80 + c / 64 / 64 % 64;
      assert s[2] == 0x80 + c / 64 % 64 && s[3] == 0x80 + c % 64;
    }
  }

  lemma Spelled3(b0: byte, b1: byte, b2: byte)
    requires 0xE0 <= b0 < 0xF0 && Second3(b0, b1) && Continuation(b2)
    ensures var c := Value3(b0, b1, b2);
            0x800 <= c < 0x10000 && !IsSurrogate(c) && EncodeScalar(c) == [b0, b1, b2]
  {
    var c, d := Value3(b0, b1, b2), 64 * (b0 - 0xE0) + (b1 - 0x80);
    assert c == 64 * d + (b2 - 0x80);
    assert c / 64 == d && c % 64 == b2 - 0x80;
    assert d / 64 == b0 - 0xE0 && d % 64 == b1 - 0x80;
  }

  lemma Spelled4(b0: byte, b1: byte, b2: byte, b3: byte)
    requires 0xF0 <= b0 < 0xF5 && Second4(b0, b1) && Continuation(b2) && Continuation(b3)
    ensures var c := Value4(b0, b1, b2, b3);
            0x10000 <= c < 0x110000 && EncodeScalar(c) == [b0, b1, b2, b3]
  {
    var c, e := Value4(b0, b1, b2, b3), 64 * (b0 - 0xF0) + (b1 - 0x80);
    var d := 64 * e + (b2 - 0x80);
    assert c == 64 * d + (b3 - 0x80);
    assert c / 64 == d && c % 64 == b3 - 0x80;
    assert d / 64 == e && d % 64 == b2 - 0x80;
    assert e / 64 == b0 - 0xF0 && e % 64 == b1 - 0x80;
  }

  /** Each code point has one accepted spelling. */
  lemma EncodedOfDecodePoint(s: seq<byte>)
    requires s != [] && DecodePoint(s).Point?
    ensures !IsSurrogate(DecodePoint(s).c)
    ensures EncodeScalar(DecodePoint(s).c) == s[..DecodePoint(s).size]
  {
    var Point(c, n) := DecodePoint(s);
    if n == 1 {
      assert s[..1] == [s[0]];
    } else if n == 2 {
      assert s[..2] == [s[0], s[1]];
    } else if n == 3 {
      Spelled3(s[0], s[1], s[2]);
      assert s[..3] == [s[0], s[1], s[2]];
    } else {
      Spelled4(s[0], s[1], s[2], s[3]);
      assert s[..4] == [s[0], s[1], s[2], s[3]];
    }
  }

  lemma DecodeAllStep(head: seq<byte>, c: CodePoint, tail: seq<byte>)
    requires head != [] && DecodePoint(head + tail) == Point(c, |head|)
    ensures DecodeAll(head + tail) == Prepend([c], DecodeAll(tail))
  {
    assert (head + tail)[|head|..] == tail;
  }

  function Prepend(t: Text, rest: Option<Text>): Option<Text> {
    match rest
    case None => None
    case Some(u) => Some(t + u)
  }

  function Scalars(t: Text): Text {
    if t == [] then [] else [Scalar(t[0])] + Scalars(t[1..])
  }

  lemma PrependTwice(a: Text, b: Text, rest: Option<Text>)
    ensures Prepend(a, Prepend(b, rest)) == Prepend(a + b, rest)
  {
    if rest.Some? {
      assert a + (b + rest.value) == (a + b) + rest.value;
    }
  }

  lemma {:induction false} DecodeAllOfEncoded(t: Text, rest: seq<byte>)
    ensures DecodeAll(Encode(t) + rest) == Prepend(Scalars(t), DecodeAll(rest))
    decreases |t|
  {
    hide DecodePoint, EncodeScalar;
    if t == [] {
      assert Encode(t) + rest == rest;
      assert forall u: Text :: [] + u == u;
    } else {
      var head, tail := EncodePoint(t[0]), Encode(t[1..]) + rest;
      EncodeSplit(t, rest);
      DecodePointOfEncoded(Scalar(t[0]), tail);
      DecodeAllStep(head, Scalar(t[0]), tail);
      DecodeAllOfEncoded(t[1..], rest);
      PrependTwice([Scalar(t[0])], Scalars(t[1..]), DecodeAll(rest));
    }
  }

  lemma EncodeSplit(t: Text, rest: seq<byte>)
    requires t != []
    ensures Encode(t) + rest == EncodePoint(t[0]) + (Encode(t[1..]) + rest)
  {
  }

  lemma {:induction false} ScalarsAt(t: Text)
    ensures |Scalars(t)| == |t|
    ensures forall i | 0 <= i < |t| :: Scalars(t)[i] == Scalar(t[i])
    decreases |t|
  {
    if t == [] {
    } else {
      ScalarsAt(t[1..]);
    }
  }

  /** Decoding what was encoded always succeeds, and gives the text back exactly when the text is
      well formed and does not open with a byte order mark. */
  lemma TextRoundTrip(t: Text)
    ensures DecodeFatal(Encode(t)).Some?
    ensures DecodeFatal(Encode(t)) == Some(t) <==> WellFormed(t) && !(t != [] && t[0] == BYTE_ORDER_MARK)
    ensures WellFormed(t) ==> DecodeFatal(Encode(t)) == Some(StripMark(t))
  {
    DecodeAllOfEncoded(t, []);
    var scalars := Scalars(t);
    ScalarsAt(t);
    assert Encode(t) + [] == Encode(t);
    assert DecodeAll([]) == Some([]);
    assert scalars + [] == scalars;
    assert DecodeAll(Encode(t)) == Some(scalars);
    if WellFormed(t) {
      assert scalars == t;
    } else {
      var i :| 0 <= i < |t| && IsSurrogate(t[i]);
      assert scalars[i] == REPLACEMENT;
      assert |StripMark(scalars)| == |t| ==> StripMark(scalars)[i] != t[i];
    }
  }

  lemma EncodeStep(head: seq<byte>, c: CodePoint, t: Text)
    requires !IsSurrogate(c) && EncodeScalar(c) == head
    ensures Encode([c] + t) == head + Encode(t)
  {
    assert ([c] + t)[1..] == t;
  }

  /** Whatever the decoder accepts is the encoding of what it decoded. */
  lemma {:induction false} EncodeOfDecoded(s: seq<byte>)
    requires DecodeAll(s).Some?
    ensures WellFormed(DecodeAll(s).value)
    ensures Encode(DecodeAll(s).value) == s
    decreases |s|
  {
    hide DecodePoint, EncodeScalar;
    if s == [] {
    } else {
      EncodedOfDecodePoint(s);
      var c, n := DecodePoint(s).c, DecodePoint(s).size;
      EncodeOfDecoded(s[n..]);
      EncodeStep(s[..n], c, DecodeAll(s[n..]).value);
      assert s == s[..n] + s[n..];
    }
  }

  lemma {:induction false} EncodeConcat(a: Text, b: Text)
    ensures Encode(a + b) == Encode(a) + Encode(b)
    decreases |a|
  {
    if a == [] {
      assert a + b == b;
    } else {
      assert (a + b)[1..] == a[1..] + b;
      EncodeConcat(a[1..], b);
    }
  }

  function CodePoints(s: string): Text {
    seq(|s|, i requires 0 <= i < |s| => s[i] as int)
  }

  // Spellings

  /** Code points from the examples of section 7 of RFC 3629, and the ends of the ranges of its section 3. */
  lemma ShortExamples()
    ensures EncodePoint(0x41) == [0x41] && EncodePoint(0x7F) == [0x7F]
    ensures EncodePoint(0x391) == [0xCE, 0x91]
    ensures EncodePoint(0x80) == [0xC2, 0x80] && EncodePoint(0x7FF) == [0xDF, 0xBF]
  {
  }

  lemma ThreeByteExamples()
    ensures EncodePoint(0x2262) == [0xE2, 0x89, 0xA2]
    ensures EncodePoint(0x800) == [0xE0, 0xA0, 0x80] && EncodePoint(0xFFFF) == [0xEF, 0xBF, 0xBF]
  {
  }

  lemma FourByteExamples()
    ensures EncodePoint(0x233B4) == [0xF0, 0xA3, 0x8E, 0xB4]
    ensures EncodePoint(0x10000) == [0xF0, 0x90, 0x80, 0x80] && EncodePoint(0x10FFFF) == [0xF4, 0x8F, 0xBF, 0xBF]
  {
  }

  /** A surrogate that stands alone is written as U+FFFD. */
  lemma LoneSurrogate(c: CodePoint)
    requires 0xD800 <= c <= 0xDFFF
    ensures EncodePoint(c) == [0xEF, 0xBF, 0xBD]
  {
  }
}
