/** Bytes, exclusive-or, and big- and little-endian unsigned integers.
    Bytes are integers in 0..255: `x & 0x7f` is written `x % 128`, `x & 0x0f` is `x % 16`,
    `x & 0x80 != 0` is `x >= 128`, and `0x80 | x` with `x < 128` is `128 + x`. */
module Bytes {
  type byte = b: int | 0 <= b < 256

  function Pow2(n: nat): (p: nat)
    ensures p >= 1
  {
    if n == 0 then 1 else 2 * Pow2(n - 1)
  }

  /** Bitwise exclusive-or of the low `n` bits. */
  function XorBits(a: nat, b: nat, n: nat): (r: nat)
    ensures r < Pow2(n)
    decreases n
  {
    if n == 0 then 0 else (if a % 2 == b % 2 then 0 else 1) + 2 * XorBits(a / 2, b / 2, n - 1)
  }

  lemma {:induction false} XorBitsCancels(a: nat, b: nat, n: nat)
    requires a < Pow2(n)
    ensures XorBits(XorBits(a, b, n), b, n) == a
    decreases n
  {
    if n == 0 {
    } else {
      XorBitsCancels(a / 2, b / 2, n - 1);
    }
  }

  /** Bit `i` of a number, the lowest first. */
  predicate Bit(n: nat, i: nat)
    decreases i
  {
    if i == 0 then n % 2 == 1 else Bit(n / 2, i - 1)
  }

  lemma {:induction false} XorBitsBit(a: nat, b: nat, n: nat, i: nat)
    requires i < n
    ensures Bit(XorBits(a, b, n), i) <==> Bit(a, i) != Bit(b, i)
    decreases n
  {
    if i == 0 {
    } else {
      XorBitsBit(a / 2, b / 2, n - 1, i - 1);
      assert XorBits(a, b, n) / 2 == XorBits(a / 2, b / 2, n - 1);
    }
  }

  function Xor(a: byte, b: byte): (r: byte) {
    assert Pow2(8) == 256 by {
      assert Pow2(4) == 16;
      assert Pow2(6) == 64;
    }
    XorBits(a, b, 8)
  }

  /** A bit of the result is set exactly when it is set in one of the two. */
  lemma XorBit(a: byte, b: byte, i: nat)
    requires i < 8
    ensures Bit(Xor(a, b), i) <==> Bit(a, i) != Bit(b, i)
  {
    XorBitsBit(a, b, 8, i);
  }

  /** Exclusive-or with the same key byte twice is the identity, which is what unmasking relies on. */
  lemma XorCancels(a: byte, b: byte)
    ensures Xor(Xor(a, b), b) == a
  {
    assert Pow2(4) == 16;
    assert Pow2(6) == 64;
    XorBitsCancels(a, b, 8);
  }

  function Pow256(k: nat): (p: nat)
    ensures p >= 1
  {
    if k == 0 then 1 else 256 * Pow256(k - 1)
  }

  lemma Pow256Values()
    ensures Pow256(1) == 0x100 && Pow256(2) == 0x1_0000 && Pow256(3) == 0x100_0000
    ensures Pow256(4) == 0x1_0000_0000 && Pow256(8) == 0x1_0000_0000_0000_0000
  {
    assert Pow256(2) == 0x1_0000;
    assert Pow256(4) == 0x1_0000_0000;
    assert Pow256(6) == 0x1_0000_0000_0000;
  }

  // Big-endian

  /** The low `k` bytes of `n`, most significant first. */
  function BigEndian(n: nat, k: nat): (s: seq<byte>)
    ensures |s| == k
    decreases k
  {
    if k == 0 then [] else BigEndian(n / 256, k - 1) + [n % 256]
  }

  function FromBigEndian(s: seq<byte>): nat {
    if s == [] then 0 else 256 * FromBigEndian(s[..|s| - 1]) + s[|s| - 1]
  }

  lemma {:induction false} BigEndianRoundTrip(n: nat, k: nat)
    requires n < Pow256(k)
    ensures FromBigEndian(BigEndian(n, k)) == n
    decreases k
  {
    if k == 0 {
    } else {
      BigEndianRoundTrip(n / 256, k - 1);
      assert BigEndian(n, k)[..k - 1] == BigEndian(n / 256, k - 1);
    }
  }

  lemma {:induction false} BigEndianOfRead(s: seq<byte>)
    ensures BigEndian(FromBigEndian(s), |s|) == s
    ensures FromBigEndian(s) < Pow256(|s|)
    decreases |s|
  {
    if s == [] {
    } else {
      BigEndianOfRead(s[..|s| - 1]);
    }
  }

  lemma {:induction false} FromBigEndianZeros(z: nat, s: seq<byte>)
    ensures FromBigEndian(BigEndian(0, z) + s) == FromBigEndian(s)
    decreases |s|, z
  {
    var t := BigEndian(0, z) + s;
    if s != [] {
      FromBigEndianZeros(z, s[..|s| - 1]);
      assert t[..|t| - 1] == BigEndian(0, z) + s[..|s| - 1];
    } else if z > 0 {
      FromBigEndianZeros(z - 1, []);
      assert t == BigEndian(0, z);
      assert t[..|t| - 1] == BigEndian(0, z - 1) + [];
    }
  }

  lemma {:induction false} BigEndianPad(n: nat, z: nat, k: nat)
    requires n < Pow256(k)
    ensures BigEndian(n, z + k) == BigEndian(0, z) + BigEndian(n, k)
    decreases k
  {
    if k == 0 {
    } else {
      BigEndianPad(n / 256, z, k - 1);
      assert BigEndian(0, z) + (BigEndian(n / 256, k - 1) + [n % 256])
          == BigEndian(0, z) + BigEndian(n / 256, k - 1) + [n % 256];
    }
  }

  // Little-endian

  /** The low `k` bytes of `n`, least significant first. */
  function LittleEndian(n: nat, k: nat): (s: seq<byte>)
    ensures |s| == k
    decreases k
  {
    if k == 0 then [] else [n % 256] + LittleEndian(n / 256, k - 1)
  }

  function FromLittleEndian(s: seq<byte>): nat {
    if s == [] then 0 else s[0] + 256 * FromLittleEndian(s[1..])
  }

  lemma {:induction false} LittleEndianRoundTrip(n: nat, k: nat)
    requires n < Pow256(k)
    ensures FromLittleEndian(LittleEndian(n, k)) == n
    decreases k
  {
    if k == 0 {
    } else {
      LittleEndianRoundTrip(n / 256, k - 1);
      assert LittleEndian(n, k)[1..] == LittleEndian(n / 256, k - 1);
    }
  }

  /** The concatenation of a list of byte strings. */
  function Concat(parts: seq<seq<byte>>): seq<byte> {
    if parts == [] then [] else parts[0] + Concat(parts[1..])
  }

  lemma {:induction false} ConcatAppend(xs: seq<seq<byte>>, y: seq<byte>)
    ensures Concat(xs + [y]) == Concat(xs) + y
    decreases |xs|
  {
    if xs == [] {
    } else {
      assert (xs + [y])[1..] == xs[1..] + [y];
      ConcatAppend(xs[1..], y);
    }
  }
}
