/** Guest memory behind the fuzzed AHCI device: a fixed buffer; reads outside it give zeros, writes outside it
    are dropped. */
module GuestMemory {
  import opened Bytes
  import opened Words

  function Zeros(n: nat): (s: seq<byte>)
    ensures |s| == n && forall i | 0 <= i < n :: s[i] == 0
  {
    if n == 0 then [] else Zeros(n - 1) + [0]
  }

  /** An access is dropped whole when its end does not fit a 64-bit address. */
  function Read(mem: seq<byte>, at: nat, n: nat): (buf: seq<byte>)
    ensures |buf| == n
  {
    if n == 0 || at + n >= U64 || at >= |mem| then Zeros(n)
    else
      var m := Min(|mem| - at, n);
      mem[at..at + m] + Zeros(n - m)
  }

  function Write(mem: seq<byte>, at: nat, buf: seq<byte>): (r: seq<byte>)
    ensures |r| == |mem|
  {
    if buf == [] || at + |buf| >= U64 || at >= |mem| then mem
    else
      var m := Min(|mem| - at, |buf|);
      mem[..at] + buf[..m] + mem[at + m..]
  }

  /** What the clipping means, byte by byte. */
  lemma ReadExact(mem: seq<byte>, at: nat, n: nat, k: nat)
    requires k < n
    ensures Read(mem, at, n)[k] == if at + n < U64 && at + k < |mem| then mem[at + k] else 0
  {
  }

  lemma WriteExact(mem: seq<byte>, at: nat, buf: seq<byte>, a: nat)
    requires a < |mem|
    ensures Write(mem, at, buf)[a] == if at + |buf| < U64 && at <= a < at + |buf| then buf[a - at] else mem[a]
  {
  }

  /** Reading in two pieces is reading at once. */
  lemma ReadJoin(mem: seq<byte>, at: nat, m: nat, n: nat)
    requires at + m + n < U64
    ensures Read(mem, at, m + n) == Read(mem, at, m) + Read(mem, at + m, n)
  {
    hide Read;
    var whole, parts := Read(mem, at, m + n), Read(mem, at, m) + Read(mem, at + m, n);
    forall k | 0 <= k < m + n ensures whole[k] == parts[k] {
      ReadExact(mem, at, m + n, k);
      if k < m {
        ReadExact(mem, at, m, k);
      } else {
        ReadExact(mem, at + m, n, k - m);
      }
    }
  }

  /** Writing in two pieces is writing at once. */
  lemma WriteJoin(mem: seq<byte>, at: nat, x: seq<byte>, y: seq<byte>)
    requires at + |x| + |y| < U64
    ensures Write(Write(mem, at, x), at + |x|, y) == Write(mem, at, x + y)
  {
    hide Write;
    var first := Write(mem, at, x);
    var twice, once := Write(first, at + |x|, y), Write(mem, at, x + y);
    forall a | 0 <= a < |mem| ensures twice[a] == once[a] {
      WriteExact(mem, at, x, a);
      WriteExact(first, at + |x|, y, a);
      WriteExact(mem, at, x + y, a);
    }
  }

  /** `buf` stands in memory at `at`. */
  predicate Holds(mem: seq<byte>, at: nat, buf: seq<byte>) {
    at + |buf| <= |mem| && mem[at..at + |buf|] == buf
  }

  predicate Apart(a: nat, m: nat, b: nat, n: nat) {
    a + m <= b || b + n <= a
  }

  lemma WriteHolds(mem: seq<byte>, at: nat, buf: seq<byte>)
    requires at + |buf| <= |mem| < U64
    ensures Holds(Write(mem, at, buf), at, buf)
  {
    hide Write;
    var r := Write(mem, at, buf);
    forall k | 0 <= k < |buf| ensures r[at..at + |buf|][k] == buf[k] {
      WriteExact(mem, at, buf, at + k);
    }
  }

  lemma WriteKeeps(mem: seq<byte>, at: nat, buf: seq<byte>, b: nat, kept: seq<byte>)
    requires Holds(mem, b, kept) && Apart(at, |buf|, b, |kept|)
    ensures Holds(Write(mem, at, buf), b, kept)
  {
    hide Write;
    if at + |buf| < U64 {
      var r := Write(mem, at, buf);
      forall k | 0 <= k < |kept| ensures r[b..b + |kept|][k] == kept[k] {
        WriteExact(mem, at, buf, b + k);
        assert mem[b..b + |kept|][k] == kept[k];
      }
    } else {
      assert Write(mem, at, buf) == mem by {
        Dropped(mem, at, buf);
      }
    }
  }

  lemma Dropped(mem: seq<byte>, at: nat, buf: seq<byte>)
    requires at + |buf| >= U64
    ensures Write(mem, at, buf) == mem
  {
  }

  lemma HoldsRead(mem: seq<byte>, at: nat, buf: seq<byte>)
    requires Holds(mem, at, buf) && |mem| < U64
    ensures Read(mem, at, |buf|) == buf
  {
    hide Read;
    var r := Read(mem, at, |buf|);
    forall k | 0 <= k < |buf| ensures r[k] == buf[k] {
      ReadExact(mem, at, |buf|, k);
      assert mem[at..at + |buf|][k] == mem[at + k];
    }
  }

  lemma HoldsPart(mem: seq<byte>, at: nat, a: seq<byte>, b: seq<byte>, c: seq<byte>)
    requires Holds(mem, at, a + b + c)
    ensures Holds(mem, at + |a|, b)
  {
    var s := a + b + c;
    forall k | 0 <= k < |b| ensures mem[at + |a| + k] == b[k] {
      assert mem[at..at + |s|][|a| + k] == s[|a| + k] == b[k];
    }
  }

  class FuzzBus {
    const data: array<byte>

    constructor (size: nat, init: seq<byte>)
      ensures fresh(data) && data.Length == size
      ensures forall i | 0 <= i < size :: data[i] == if i < |init| then init[i] else 0
    {
      var d := new byte[size](i => 0);
      var n := Min(|init|, size);
      for i := 0 to n
        invariant forall j | 0 <= j < size :: d[j] == if j < i then init[j] else 0
      {
        d[i] := init[i];
      }
      data := d;
    }

    method ReadPhysical(paddr: nat, n: nat) returns (buf: seq<byte>)
      ensures buf == Read(data[..], paddr, n)
    {
      buf := Zeros(n);
      if n == 0 || paddr + n >= U64 || paddr >= data.Length {
        return;
      }
      var m := Min(data.Length - paddr, n);
      buf := data[paddr..paddr + m] + buf[m..];
      assert buf[m..] == Zeros(n - m);
    }

    method WritePhysical(paddr: nat, buf: seq<byte>)
      modifies data
      ensures data[..] == Write(old(data[..]), paddr, buf)
    {
      if buf == [] || paddr + |buf| >= U64 || paddr >= data.Length {
        return;
      }
      var m := Min(data.Length - paddr, |buf|);
      for i := 0 to m
        invariant forall j | 0 <= j < data.Length ::
                    data[j] == if paddr <= j < paddr + i then buf[j - paddr] else old(data[j])
      {
        data[paddr + i] := buf[i];
      }
    }
  }
}
