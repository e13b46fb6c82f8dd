/** Unpadded base64url: the encoder, a decoder that ignores unused bits, the canonicality check of the
    token verifier, and the transformation that makes an encoding non-canonical. Texts are ASCII codes. */
module Base64Url {
  import opened Bytes
  import opened Wrappers

  function Val(c: byte): Option<nat> {
    if 65 <= c <= 90 then Some(c - 65)
    else if 97 <= c <= 122 then Some(c - 97 + 26)
    else if 48 <= c <= 57 then Some(c - 48 + 52)
    else if c == 45 then Some(62)
    else if c == 95 then Some(63)
    else None
  }

  function Char(v: nat): (c: byte)
    requires v < 64
    ensures Val(c) == Some(v)
  {
    if v < 26 then 65 + v
    else if v < 52 then 97 + (v - 26)
    else if v < 62 then 48 + (v - 52)
    else if v == 62 then 45
    else 95
  }

  lemma CharOfVal(c: byte)
    requires Val(c).Some?
    ensures Val(c).value < 64 && Char(Val(c).value) == c
  {
  }

  lemma VOfChar(v: nat)
    requires v < 64
    ensures V(Char(v)) == v
  {
  }

  predicate InAlphabet(s: seq<byte>) {
    forall i | 0 <= i < |s| :: Val(s[i]).Some?
  }

  // Encoding and decoding

  function Encode(b: seq<byte>): seq<byte> {
    if b == [] then []
    else if |b| == 1 then Quantum1(b[0])
    else if |b| == 2 then Quantum2(b[0], b[1])
    else Quantum3(b[0], b[1], b[2]) + Encode(b[3..])
  }

  function Quantum1(x: byte): (q: seq<byte>)
    ensures |q| == 2 && forall i | 0 <= i < 2 :: Val(q[i]).Some?
  {
    [Char(x / 4), Char(x % 4 * 16)]
  }

  function Quantum2(x: byte, y: byte): (q: seq<byte>)
    ensures |q| == 3 && forall i | 0 <= i < 3 :: Val(q[i]).Some?
  {
    [Char(x / 4), Char(x % 4 * 16 + y / 16), Char(y % 16 * 4)]
  }

  function Quantum3(x: byte, y: byte, z: byte): (q: seq<byte>)
    ensures |q| == 4 && forall i | 0 <= i < 4 :: Val(q[i]).Some?
  {
    [Char(x / 4), Char(x % 4 * 16 + y / 16), Char(y % 16 * 4 + z / 64), Char(z % 64)]
  }

  function V(c: byte): (v: nat)
    ensures v < 64
  {
    if Val(c).Some? then CharOfVal(c); Val(c).value else 0
  }

  function Bytes1(p: byte, q: byte): (b: seq<byte>)
    ensures |b| == 1
  {
    [V(p) * 4 + V(q) / 16]
  }

  function Bytes2(p: byte, q: byte, r: byte): (b: seq<byte>)
    ensures |b| == 2
  {
    [V(p) * 4 + V(q) / 16, V(q) % 16 * 16 + V(r) / 4]
  }

  function Bytes3(p: byte, q: byte, r: byte, s: byte): (b: seq<byte>)
    ensures |b| == 3
  {
    [V(p) * 4 + V(q) / 16, V(q) % 16 * 16 + V(r) / 4, V(r) % 4 * 64 + V(s)]
  }

  /** The bytes behind a text over the alphabet, whatever its unused bits say. */
  function Bits(s: seq<byte>): seq<byte> {
    if |s| < 2 then []
    else if |s| == 2 then Bytes1(s[0], s[1])
    else if |s| == 3 then Bytes2(s[0], s[1], s[2])
    else Bytes3(s[0], s[1], s[2], s[3]) + Bits(s[4..])
  }

  function DecodeLenient(s: seq<byte>): Option<seq<byte>> {
    if InAlphabet(s) && |s| % 4 != 1 then Some(Bits(s)) else None
  }

  // The canonicality check

  /** No bit of the last quantum is set that the bytes do not use. */
  predicate UnusedBitsClear(s: seq<byte>) {
    && (|s| % 4 == 2 ==> V(s[|s| - 1]) % 16 == 0)
    && (|s| % 4 == 3 ==> V(s[|s| - 1]) % 4 == 0)
  }

  predicate IsBase64Url(raw: seq<byte>, maxLen: nat) {
    && raw != [] && |raw| <= maxLen && |raw| % 4 != 1
    && InAlphabet(raw)
    && UnusedBitsClear(raw)
  }

  lemma EncodeShapeShort(b: seq<byte>)
    requires 0 < |b| < 3
    ensures InAlphabet(Encode(b)) && UnusedBitsClear(Encode(b)) && |Encode(b)| == |b| + 1
  {
    VOfChar(b[0] % 4 * 16);
    if |b| == 2 {
      VOfChar(b[1] % 16 * 4);
    }
    hide V, Val, Char;
  }

  lemma {:induction false} EncodeShape(b: seq<byte>)
    ensures InAlphabet(Encode(b)) && UnusedBitsClear(Encode(b)) && |Encode(b)| % 4 != 1
    ensures |Encode(b)| == |b| / 3 * 4 + (if |b| % 3 == 0 then 0 else |b| % 3 + 1)
    decreases |b|
  {
    hide Char, V, Val, Quantum1, Quantum2, Quantum3;
    if 0 < |b| < 3 {
      EncodeShapeShort(b);
    } else if b != [] {
      EncodeShape(b[3..]);
      EncodeStep(b);
      hide Encode;
      Prefixed(Quantum3(b[0], b[1], b[2]), Encode(b[3..]));
    }
  }

  lemma EncodeStep(b: seq<byte>)
    requires |b| > 2
    ensures Encode(b) == Quantum3(b[0], b[1], b[2]) + Encode(b[3..])
    ensures InAlphabet(Quantum3(b[0], b[1], b[2]))
  {
    hide Quantum3, Val;
  }

  lemma Prefixed(q: seq<byte>, s: seq<byte>)
    requires |q| == 4 && InAlphabet(q) && InAlphabet(s) && UnusedBitsClear(s)
    ensures InAlphabet(q + s) && UnusedBitsClear(q + s)
  {
    hide V;
    assert |s| > 0 ==> (q + s)[|q + s| - 1] == s[|s| - 1];
  }

  lemma Separate(x: byte, y: byte, z: byte)
    ensures x / 4 < 64 && x % 4 * 16 + y / 16 < 64 && y % 16 * 4 + z / 64 < 64 && z % 64 < 64
    ensures x / 4 * 4 + (x % 4 * 16 + y / 16) / 16 == x
    ensures (x % 4 * 16 + y / 16) % 16 * 16 + (y % 16 * 4 + z / 64) / 4 == y
    ensures (y % 16 * 4 + z / 64) % 4 * 64 + z % 64 == z
  {
  }

  lemma Write1(x: byte)
    ensures var q := Quantum1(x); Bytes1(q[0], q[1]) == [x]
  {
    Separate(x, 0, 0);
    VOfChar(x / 4);
    VOfChar(x % 4 * 16);
    hide V, Val, Char;
  }

  lemma Write2(x: byte, y: byte)
    ensures var q := Quantum2(x, y); Bytes2(q[0], q[1], q[2]) == [x, y]
  {
    Separate(x, y, 0);
    VOfChar(x / 4);
    VOfChar(x % 4 * 16 + y / 16);
    VOfChar(y % 16 * 4);
    hide V, Val, Char;
  }

  lemma Write3(x: byte, y: byte, z: byte)
    ensures var q := Quantum3(x, y, z); Bytes3(q[0], q[1], q[2], q[3]) == [x, y, z]
  {
    Separate(x, y, z);
    VOfChar(x / 4);
    VOfChar(x % 4 * 16 + y / 16);
    VOfChar(y % 16 * 4 + z / 64);
    VOfChar(z % 64);
    hide V, Val, Char;
  }

  /** Encoding is undone, by the lenient decoder as well. */
  lemma {:induction false} DecodeEncoded(b: seq<byte>)
    ensures Bits(Encode(b)) == b
    decreases |b|
  {
    hide Quantum1, Quantum2, Quantum3, Bytes1, Bytes2, Bytes3;
    if |b| == 1 {
      Write1(b[0]);
    } else if |b| == 2 {
      Write2(b[0], b[1]);
    } else if |b| > 2 {
      Write3(b[0], b[1], b[2]);
      DecodeEncoded(b[3..]);
      var s := Encode(b);
      assert s[4..] == Encode(b[3..]);
      assert b == [b[0], b[1], b[2]] + b[3..];
    }
  }

  lemma CharOfV(c: byte)
    requires Val(c).Some?
    ensures Char(V(c)) == c
  {
    CharOfVal(c);
  }

  lemma Recombine(d: nat, e: nat, f: nat, g: nat)
    requires d < 64 && e < 64 && f < 64 && g < 64
    ensures (d * 4 + e / 16) / 4 == d && (d * 4 + e / 16) % 4 * 16 + e % 16 == e
    ensures (e % 16 * 16 + f / 4) / 16 == e % 16 && (e % 16 * 16 + f / 4) % 16 * 4 + f % 4 == f
    ensures (f % 4 * 64 + g) / 64 == f % 4 && (f % 4 * 64 + g) % 64 == g
  {
  }

  lemma Read1(p: byte, q: byte)
    requires Val(p).Some? && Val(q).Some? && V(q) % 16 == 0
    ensures Quantum1(Bytes1(p, q)[0]) == [p, q]
  {
    CharOfV(p);
    CharOfV(q);
    hide V, Char;
    Recombine(V(p), V(q), 0, 0);
  }

  lemma Read2(p: byte, q: byte, r: byte)
    requires Val(p).Some? && Val(q).Some? && Val(r).Some? && V(r) % 4 == 0
    ensures var b := Bytes2(p, q, r); Quantum2(b[0], b[1]) == [p, q, r]
  {
    CharOfV(p);
    CharOfV(q);
    CharOfV(r);
    hide V, Char;
    Recombine(V(p), V(q), V(r), 0);
  }

  lemma Read3(p: byte, q: byte, r: byte, s: byte)
    requires Val(p).Some? && Val(q).Some? && Val(r).Some? && Val(s).Some?
    ensures var b := Bytes3(p, q, r, s); Quantum3(b[0], b[1], b[2]) == [p, q, r, s]
  {
    CharOfV(p);
    CharOfV(q);
    CharOfV(r);
    CharOfV(s);
    hide V, Char, Val;
    var d, e, f, g := V(p), V(q), V(r), V(s);
    Recombine(d, e, f, g);
    var b := Bytes3(p, q, r, s);
    assert b[0] == d * 4 + e / 16 && b[1] == e % 16 * 16 + f / 4 && b[2] == f % 4 * 64 + g;
    assert b[0] / 4 == d && b[0] % 4 * 16 + b[1] / 16 == e && b[1] % 16 * 4 + b[2] / 64 == f && b[2] % 64 == g;
  }

  /** A text with clear unused bits is the encoding of the bytes behind it. */
  lemma {:induction false} EncodeDecoded(s: seq<byte>)
    requires InAlphabet(s) && UnusedBitsClear(s) && |s| % 4 != 1
    ensures Encode(Bits(s)) == s
    decreases |s|
  {
    hide V, Val, Quantum1, Quantum2, Quantum3, Bytes1, Bytes2, Bytes3;
    if |s| == 2 {
      Read1(s[0], s[1]);
      assert s == [s[0], s[1]];
    } else if |s| == 3 {
      Read2(s[0], s[1], s[2]);
      assert s == [s[0], s[1], s[2]];
    } else if |s| >= 4 {
      Read3(s[0], s[1], s[2], s[3]);
      assert |s| > 4 ==> s[4..][|s| - 5] == s[|s| - 1];
      EncodeDecoded(s[4..]);
      hide Bits, Encode;
      BitsStep(s);
      EncodeStep(Bits(s));
      var b, q := Bits(s), Bytes3(s[0], s[1], s[2], s[3]);
      assert b[0] == q[0] && b[1] == q[1] && b[2] == q[2];
      assert s == [s[0], s[1], s[2], s[3]] + s[4..];
    }
  }

  lemma BitsStep(s: seq<byte>)
    requires |s| >= 4
    ensures |Bits(s)| >= 3
    ensures Bits(s)[..3] == Bytes3(s[0], s[1], s[2], s[3]) && Bits(s)[3..] == Bits(s[4..])
  {
  }

  /** The verifier's check accepts exactly the encodings of nonempty byte strings that are not too
      long. */
  lemma CheckExact(raw: seq<byte>, maxLen: nat)
    ensures IsBase64Url(raw, maxLen) <==> exists b: seq<byte> :: b != [] && Encode(b) == raw && |raw| <= maxLen
  {
    if IsBase64Url(raw, maxLen) {
      EncodeDecoded(raw);
      assert Bits(raw) != [];
    }
    if exists b: seq<byte> :: b != [] && Encode(b) == raw && |raw| <= maxLen {
      var b: seq<byte> :| b != [] && Encode(b) == raw && |raw| <= maxLen;
      EncodeShape(b);
    }
  }

  // Making an encoding non-canonical

  function Noncanonical(s: seq<byte>): seq<byte> {
    if |s| % 4 != 2 && |s| % 4 != 3 then s
    else
      var v := V(s[|s| - 1]);
      s[..|s| - 1] + [Char(if v % 2 == 0 then v + 1 else v)]
  }

  method MakeNoncanonical(bytes: array<byte>)
    modifies bytes
    ensures bytes[..] == Noncanonical(old(bytes[..]))
  {
    var rem := bytes.Length % 4;
    if rem != 2 && rem != 3 {
      return;
    }
    var last := bytes.Length - 1;
    var v := V(bytes[last]);
    bytes[last] := Char(if v % 2 == 0 then v + 1 else v);
  }

  /** Whatever the text, the result of altering it is refused. */
  lemma AlteredIsRefused(s: seq<byte>, maxLen: nat)
    requires |s| % 4 in {2, 3}
    ensures !IsBase64Url(Noncanonical(s), maxLen)
  {
    var v := V(s[|s| - 1]);
    var w := if v % 2 == 0 then v + 1 else v;
    assert V(Noncanonical(s)[|s| - 1]) == w;
    assert w % 2 == 1;
  }

  /** Altering an encoding changes its last character only, keeps it in the alphabet, and leaves the
      bytes behind it as they were; encodings of whole quanta are left alone. */
  lemma AlteredEncoding(b: seq<byte>)
    ensures var e, a := Encode(b), Noncanonical(Encode(b));
            if |b| % 3 == 0 then a == e
            else
              && |a| == |e| && a[..|a| - 1] == e[..|e| - 1] && a[|a| - 1] != e[|e| - 1]
              && DecodeLenient(a) == Some(b) == DecodeLenient(e)
              && forall maxLen: nat :: !IsBase64Url(a, maxLen)
  {
    hide Encode, Bits, V, Val, Char, IsBase64Url, InAlphabet;
    EncodeShape(b);
    DecodeEncoded(b);
    if |b| % 3 != 0 {
      var e := Encode(b);
      AlteredForm(e);
      hide Noncanonical, UnusedBitsClear;
      var c := Char(V(e[|e| - 1]) + 1);
      SameBits(e, c);
      StillInAlphabet(e, c);
      AlwaysRefused(e);
    }
  }

  /** The last character becomes the next one of the alphabet. */
  lemma AlteredForm(e: seq<byte>)
    requires InAlphabet(e) && UnusedBitsClear(e) && |e| % 4 in {2, 3}
    ensures V(e[|e| - 1]) + 1 < 64
    ensures var c := Char(V(e[|e| - 1]) + 1);
            && Noncanonical(e) == e[..|e| - 1] + [c] && V(c) == V(e[|e| - 1]) + 1 && c != e[|e| - 1] && Val(c).Some?
  {
    var v := V(e[|e| - 1]);
    assert v % 2 == 0 && v < 64;
    hide V, Val, InAlphabet;
    VOfChar(v + 1);
  }

  lemma AlwaysRefused(e: seq<byte>)
    requires InAlphabet(e) && UnusedBitsClear(e) && |e| % 4 in {2, 3}
    ensures forall maxLen: nat :: !IsBase64Url(Noncanonical(e), maxLen)
  {
    hide V, Val, Char, IsBase64Url, InAlphabet, Noncanonical;
    forall maxLen: nat
      ensures !IsBase64Url(Noncanonical(e), maxLen)
    {
      AlteredIsRefused(e, maxLen);
    }
  }

  lemma StillInAlphabet(e: seq<byte>, c: byte)
    requires e != [] && InAlphabet(e) && Val(c).Some?
    ensures InAlphabet(e[..|e| - 1] + [c])
  {
  }

  lemma SameBitsShort(e: seq<byte>, c: byte)
    requires |e| in {2, 3} && UnusedBitsClear(e) && V(c) == V(e[|e| - 1]) + 1
    ensures Bits(e[..|e| - 1] + [c]) == Bits(e)
  {
    hide V;
    var v := V(e[|e| - 1]);
    assert |e| == 2 ==> (v + 1) / 16 == v / 16;
    assert |e| == 3 ==> (v + 1) / 4 == v / 4;
  }

  /** Setting the lowest bit of a last character whose unused bits are clear does not show. */
  lemma {:induction false} SameBits(e: seq<byte>, c: byte)
    requires |e| % 4 in {2, 3} && UnusedBitsClear(e) && V(c) == V(e[|e| - 1]) + 1
    ensures Bits(e[..|e| - 1] + [c]) == Bits(e)
    decreases |e|
  {
    hide V, Bytes1, Bytes2, Bytes3;
    if |e| < 4 {
      SameBitsShort(e, c);
    } else {
      var a := e[..|e| - 1] + [c];
      assert e[4..][|e| - 5] == e[|e| - 1];
      SameBits(e[4..], c);
      assert a[4..] == e[4..][..|e| - 5] + [c];
    }
  }

  /** Test vectors of section 10 of RFC 4648 without padding, and one for the two characters of its section 5. */
  lemma ShortVectors()
    ensures Encode([102]) == [90, 103] && Encode([102, 111]) == [90, 109, 56] && Encode([0xFB, 0xFF]) == [45, 95, 56]
  {
  }

  lemma LongVector()
    ensures Encode([102, 111, 111, 98, 97, 114]) == [90, 109, 57, 118, 89, 109, 70, 121]
  {
    hide Val;
    var foobar: seq<byte> := [102, 111, 111, 98, 97, 114];
    FirstHalf();
    SecondHalf();
    hide Quantum3;
    EncodeStep(foobar);
    assert foobar[3..] == [98, 97, 114];
    EncodeStep([98, 97, 114]);
    assert [98, 97, 114][3..] == [];
  }

  lemma FirstHalf()
    ensures Quantum3(102, 111, 111) == [90, 109, 57, 118]
  {
    hide Val;
  }

  lemma SecondHalf()
    ensures Quantum3(98, 97, 114) == [89, 109, 70, 121]
  {
    hide Val;
  }
}
