/** Word sizes, and 32- and 64-bit little-endian numbers inside byte strings. */
module Words {
  import opened Bytes
  import Seqs

  const U32: nat := 0x1_0000_0000
  const U64: nat := 0x1_0000_0000_0000_0000

  function Min(a: nat, b: nat): nat {
    if a <= b then a else b
  }

  lemma RemainderIs(n: nat, q: nat, r: nat)
    requires n == q * U64 + r && r < U64
    ensures n % U64 == r
  {
    var d := n / U64;
    assert n == d * U64 + n % U64;
    assert (q - d) * U64 == n % U64 - r;
  }

  /** Wrapping once at the end is wrapping on the way. */
  lemma AddModulo(a: nat, b: nat)
    ensures (a % U64 + b) % U64 == (a + b) % U64
  {
    var q, n := a / U64, a % U64 + b;
    var p, r := n / U64, n % U64;
    assert a + b == (q + p) * U64 + r;
    RemainderIs(a + b, q + p, r);
  }

  function WrappingAdd(a: nat, b: nat): nat {
    (a + b) % U64
  }

  function U32Bytes(n: nat): (s: seq<byte>)
    ensures |s| == 4
  {
    LittleEndian(n, 4)
  }

  function U64Bytes(n: nat): (s: seq<byte>)
    ensures |s| == 8
  {
    LittleEndian(n, 8)
  }

  function U32At(s: seq<byte>, at: nat): nat
    requires at + 4 <= |s|
  {
    FromLittleEndian(s[at..at + 4])
  }

  function U64At(s: seq<byte>, at: nat): nat
    requires at + 8 <= |s|
  {
    FromLittleEndian(s[at..at + 8])
  }

  lemma ReadBack32(n: nat)
    requires n < U32
    ensures FromLittleEndian(U32Bytes(n)) == n
  {
    Pow256Values();
    LittleEndianRoundTrip(n, 4);
  }

  lemma ReadBack64(n: nat)
    requires n < U64
    ensures FromLittleEndian(U64Bytes(n)) == n
  {
    Pow256Values();
    LittleEndianRoundTrip(n, 8);
  }

  /** A 32-bit field in the middle of a byte string reads back. */
  lemma Field32(a: seq<byte>, n: nat, b: seq<byte>)
    requires n < U32
    ensures U32At(a + U32Bytes(n) + b, |a|) == n
  {
    hide U32Bytes, FromLittleEndian;
    ReadBack32(n);
    Seqs.Middle(a, U32Bytes(n), b);
  }

  /** A field keeps its value when the byte string around it grows. */
  lemma Shift32(a: seq<byte>, s: seq<byte>, b: seq<byte>, at: nat)
    requires at + 4 <= |s|
    ensures U32At(a + s + b, |a| + at) == U32At(s, at)
  {
    hide FromLittleEndian;
    assert (a + s + b)[|a| + at..|a| + at + 4] == s[at..at + 4];
  }

  lemma Shift64(a: seq<byte>, s: seq<byte>, b: seq<byte>, at: nat)
    requires at + 8 <= |s|
    ensures U64At(a + s + b, |a| + at) == U64At(s, at)
  {
    hide FromLittleEndian;
    assert (a + s + b)[|a| + at..|a| + at + 8] == s[at..at + 8];
  }

  // Numbers by their bytes

  /** The number in four bytes, the least significant first. */
  function Word(a: nat, b: nat, c: nat, d: nat): nat {
    a + 0x100 * b + 0x1_0000 * c + 0x100_0000 * d
  }

  /** The 32-bit number `n` stands at `at`. */
  predicate Has32(s: seq<byte>, at: nat, n: nat) {
    at + 4 <= |s| && Word(s[at], s[at + 1], s[at + 2], s[at + 3]) == n
  }

  /** The 64-bit number `n` stands at `at`. */
  predicate Has64(s: seq<byte>, at: nat, n: nat) {
    && at + 8 <= |s|
    && Word(s[at], s[at + 1], s[at + 2], s[at + 3])
       + 0x1_0000_0000 * Word(s[at + 4], s[at + 5], s[at + 6], s[at + 7]) == n
  }

  lemma LowestByte(s: seq<byte>, i: nat)
    requires i < |s|
    ensures FromLittleEndian(s[i..]) == s[i] + 256 * FromLittleEndian(s[i + 1..])
  {
    assert s[i..][1..] == s[i + 1..];
  }

  lemma LowestWord(s: seq<byte>, i: nat)
    requires i + 4 <= |s|
    ensures FromLittleEndian(s[i..])
            == Word(s[i], s[i + 1], s[i + 2], s[i + 3]) + 0x1_0000_0000 * FromLittleEndian(s[i + 4..])
  {
    hide FromLittleEndian;
    LowestByte(s, i);
    LowestByte(s, i + 1);
    LowestByte(s, i + 2);
    LowestByte(s, i + 3);
  }

  lemma Reads32(s: seq<byte>, at: nat)
    requires at + 4 <= |s|
    ensures Has32(s, at, U32At(s, at))
  {
    var w := s[at..at + 4];
    assert w[4..] == [] && w[0..] == w;
    LowestWord(w, 0);
  }

  lemma Reads64(s: seq<byte>, at: nat)
    requires at + 8 <= |s|
    ensures Has64(s, at, U64At(s, at))
  {
    var w := s[at..at + 8];
    assert w[8..] == [] && w[0..] == w;
    hide Word;
    LowestWord(w, 0);
    LowestWord(w, 4);
  }

  lemma Moved32(a: seq<byte>, s: seq<byte>, b: seq<byte>, at: nat, n: nat)
    requires Has32(s, at, n)
    ensures Has32(a + s + b, |a| + at, n)
  {
    hide Word;
  }

  lemma Moved64(a: seq<byte>, s: seq<byte>, b: seq<byte>, at: nat, n: nat)
    requires Has64(s, at, n)
    ensures Has64(a + s + b, |a| + at, n)
  {
    hide Word;
  }

  lemma Put32(a: seq<byte>, n: nat, b: seq<byte>)
    requires n < U32
    ensures Has32(a + U32Bytes(n) + b, |a|, n)
  {
    hide U32Bytes, Has32, U32At;
    Field32(a, n, b);
    Reads32(a + U32Bytes(n) + b, |a|);
  }

  lemma Put64(a: seq<byte>, n: nat, b: seq<byte>)
    requires n < U64
    ensures Has64(a + U64Bytes(n) + b, |a|, n)
  {
    hide FromLittleEndian, Has64;
    ReadBack64(n);
    hide U64Bytes;
    Seqs.Middle(a, U64Bytes(n), b);
    Reads64(a + U64Bytes(n) + b, |a|);
  }

  lemma Is32(s: seq<byte>, at: nat, n: nat)
    requires at + 4 <= |s|
    ensures Has32(s, at, n) <==> U32At(s, at) == n
  {
    Reads32(s, at);
  }

  lemma Is64(s: seq<byte>, at: nat, n: nat)
    requires at + 8 <= |s|
    ensures Has64(s, at, n) <==> U64At(s, at) == n
  {
    Reads64(s, at);
  }

  lemma Cut32(file: seq<byte>, at: nat, s: seq<byte>, k: nat, n: nat)
    requires at + |s| <= |file| && s == file[at..at + |s|] && k + 4 <= |s|
    ensures Has32(s, k, n) <==> Has32(file, at + k, n)
  {
    hide Word;
  }
}
