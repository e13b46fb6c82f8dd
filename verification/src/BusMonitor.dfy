/** A monitor around the physical bus: it applies the A20 gate, lets whole ranges through when they are
    mapped, and otherwise goes byte by byte, remembering whether any byte touched was unmapped. */
module BusMonitor {
  import opened Words
  import opened Bytes
  import opened PhysicalBus
  import Seqs

  const BIT20: nat := 0x10_0000

  function SaturatingAdd(a: nat, b: nat): nat {
    if a + b < U64 then a + b else U64 - 1
  }

  predicate IsAddrInRange(addr: nat, start: nat, len: nat) {
    addr >= start && addr < SaturatingAdd(start, len)
  }

  predicate IsRangeWithin(start: nat, len: nat, base: nat, size: nat) {
    start + len < U64 && start >= base && start + len <= SaturatingAdd(base, size)
  }

  /** With the gate closed, address bit 20 reads as zero. */
  function TranslateA20(enabled: bool, addr: nat): nat {
    if enabled || addr / BIT20 % 2 == 0 then addr else addr - BIT20
  }

  /** The address behind byte `i` of an access. */
  function Touched(enabled: bool, paddr: nat, i: nat): (addr: nat)
    ensures addr < U64
  {
    TranslateA20(enabled, (paddr + i) % U64)
  }

  /** Byte `i` of an access at `paddr` reaches the address `a`: addresses wrap at 2^64; with the gate open nothing else
      happens, with the gate closed bit 20 is zero and every other bit as it was. */
  predicate Behind(enabled: bool, paddr: nat, i: nat, a: nat) {
    var x := (paddr + i) % 0x1_0000_0000_0000_0000;
    if enabled then a == x
    else a / 0x20_0000 == x / 0x20_0000 && a / 0x10_0000 % 2 == 0 && a % 0x10_0000 == x % 0x10_0000
  }

  /** That address is one, and it is the one the monitor computes. */
  lemma BehindExact(enabled: bool, paddr: nat, i: nat, a: nat)
    ensures Behind(enabled, paddr, i, a) <==> a == Touched(enabled, paddr, i)
  {
    BitCleared((paddr + i) % U64, a);
  }

  lemma BitCleared(x: nat, a: nat)
    ensures (a / 0x20_0000 == x / 0x20_0000 && a / 0x10_0000 % 2 == 0 && a % 0x10_0000 == x % 0x10_0000)
            <==> a == TranslateA20(false, x)
  {
    var h, l := x / 0x10_0000, x % 0x10_0000;
    var g, k := a / 0x10_0000, a % 0x10_0000;
    assert x == 0x10_0000 * h + l && a == 0x10_0000 * g + k;
    assert x / 0x20_0000 == h / 2 && a / 0x20_0000 == g / 2;
    if h % 2 == 1 {
      assert (x - 0x10_0000) / 0x10_0000 == h - 1;
    }
  }

  /** The byte check: below the RAM size, or in some ROM, or in some MMIO region. */
  predicate AddrMapped(m: Layout, addr: nat) {
    || addr < m.ramSize
    || (exists j | 0 <= j < |m.roms| :: IsAddrInRange(addr, m.roms[j].start, |m.roms[j].data|))
    || (exists i | 0 <= i < |m.mmios| :: m.mmios[i].start <= addr < m.mmios[i].end)
  }

  /** The range check: all in RAM, or all in one ROM, or all in one MMIO region. */
  predicate RangeMapped(m: Layout, start: nat, len: nat) {
    start + len < U64 &&
    (|| start + len <= m.ramSize
     || (exists j | 0 <= j < |m.roms| :: IsRangeWithin(start, len, m.roms[j].start, |m.roms[j].data|))
     || (exists i | 0 <= i < |m.mmios| ::
           IsRangeWithin(start, len, m.mmios[i].start,
                         if m.mmios[i].end > m.mmios[i].start then m.mmios[i].end - m.mmios[i].start else 0)))
  }

  /** The monitor's idea of mapped is the bus's: exactly the bytes that somebody serves. */
  lemma MappedIffServed(m: Layout, addr: nat)
    requires Sound(m)
    ensures AddrMapped(m, addr) <==> RouteOf(m, addr) != Nowhere
  {
    RouteMeaning(m, addr);
    forall j | 0 <= j < |m.roms|
      ensures IsAddrInRange(addr, m.roms[j].start, |m.roms[j].data|)
              <==> m.roms[j].start <= addr < m.roms[j].start + |m.roms[j].data|
    {
      assert RomSpans(m.roms)[j].end < U64;
    }
  }

  /** The range check never lets a byte through that the byte check would flag, for any region lists. */
  lemma FastPathSound(m: Layout, start: nat, len: nat, addr: nat)
    requires RangeMapped(m, start, len) && start <= addr < start + len
    ensures AddrMapped(m, addr)
  {
    if exists j | 0 <= j < |m.roms| :: IsRangeWithin(start, len, m.roms[j].start, |m.roms[j].data|) {
      var j :| 0 <= j < |m.roms| && IsRangeWithin(start, len, m.roms[j].start, |m.roms[j].data|);
      assert IsAddrInRange(addr, m.roms[j].start, |m.roms[j].data|);
    }
  }

  // Runs

  datatype Access = Read(paddr: nat, len: nat) | Write(paddr: nat, len: nat) | SetA20(enabled: bool)

  datatype Monitor = Monitor(a20: bool, oob: bool)

  function FlagBytes(m: Layout, s: Monitor, paddr: nat, len: nat): Monitor {
    if len == 0 then s
    else
      var t := FlagBytes(m, s, paddr, len - 1);
      t.(oob := t.oob || !AddrMapped(m, Touched(s.a20, paddr, len - 1)))
  }

  /** One access as the monitor performs it, with its fast path. */
  function Step(m: Layout, s: Monitor, a: Access): Monitor {
    match a
    case SetA20(enabled) => s.(a20 := enabled)
    case Read(paddr, len) => if len == 0 || (s.a20 && RangeMapped(m, paddr, len)) then s
        else FlagBytes(m, s, paddr, len)
    case Write(paddr, len) => if len == 0 || (s.a20 && RangeMapped(m, paddr, len)) then s
        else FlagBytes(m, s, paddr, len)
  }

  function Run(m: Layout, s: Monitor, run: seq<Access>): Monitor {
    if run == [] then s else Step(m, Run(m, s, run[..|run| - 1]), run[|run| - 1])
  }

  /** Some byte of the access, through the gate, is unmapped. */
  ghost predicate Strays(m: Layout, enabled: bool, a: Access) {
    !a.SetA20? && exists i: nat, addr: nat :: i < a.len && Behind(enabled, a.paddr, i, addr) && !AddrMapped(m, addr)
  }

  lemma {:induction false} FlagBytesExact(m: Layout, s: Monitor, paddr: nat, len: nat)
    ensures FlagBytes(m, s, paddr, len).a20 == s.a20
    ensures FlagBytes(m, s, paddr, len).oob <==>
            s.oob || exists i | 0 <= i < len :: !AddrMapped(m, Touched(s.a20, paddr, i))
    decreases len
  {
    hide AddrMapped, Touched;
    if len == 0 {
    } else {
      FlagBytesExact(m, s, paddr, len - 1);
    }
  }

  lemma StraysExact(m: Layout, enabled: bool, a: Access)
    requires !a.SetA20?
    ensures Strays(m, enabled, a) <==> exists i | 0 <= i < a.len :: !AddrMapped(m, Touched(enabled, a.paddr, i))
  {
    hide AddrMapped, Touched, Behind;
    if Strays(m, enabled, a) {
      var i: nat, addr: nat :| i < a.len && Behind(enabled, a.paddr, i, addr) && !AddrMapped(m, addr);
      BehindExact(enabled, a.paddr, i, addr);
    }
    if exists i | 0 <= i < a.len :: !AddrMapped(m, Touched(enabled, a.paddr, i)) {
      var i :| 0 <= i < a.len && !AddrMapped(m, Touched(enabled, a.paddr, i));
      BehindExact(enabled, a.paddr, i, Touched(enabled, a.paddr, i));
    }
  }

  lemma StepExact(m: Layout, s: Monitor, a: Access)
    requires !a.SetA20? ==> a.paddr < U64
    ensures Step(m, s, a).oob <==> s.oob || Strays(m, s.a20, a)
  {
    hide AddrMapped, RangeMapped, Touched;
    if !a.SetA20? {
      StraysExact(m, s.a20, a);
      hide Strays;
      FlagBytesExact(m, s, a.paddr, a.len);
      if s.a20 && RangeMapped(m, a.paddr, a.len) {
        forall i | 0 <= i < a.len
          ensures AddrMapped(m, Touched(true, a.paddr, i))
        {
          RangeFits(m, a.paddr, a.len);
          FastPathSound(m, a.paddr, a.len, a.paddr + i);
          NoWrap(a.paddr, i);
        }
      }
    }
  }

  lemma RangeFits(m: Layout, start: nat, len: nat)
    requires RangeMapped(m, start, len)
    ensures start + len < U64
  {
  }

  /** The gate after a run: as it was last set, closed at first. */
  function Gate(run: seq<Access>): bool {
    if run == [] then false
    else
      match run[|run| - 1]
      case SetA20(enabled) => enabled
      case _ => Gate(run[..|run| - 1])
  }

  lemma {:induction false} GateExact(m: Layout, run: seq<Access>)
    ensures Run(m, Monitor(false, false), run).a20 == Gate(run)
    decreases |run|
  {
    if run == [] {
    } else {
      var before, a := Run(m, Monitor(false, false), run[..|run| - 1]), run[|run| - 1];
      GateExact(m, run[..|run| - 1]);
      if !a.SetA20? {
        FlagBytesExact(m, before, a.paddr, a.len);
      }
      hide FlagBytes, RangeMapped;
    }
  }

  /** Access `k` of the run strays under the gate as it is then. */
  ghost predicate StraysAt(m: Layout, run: seq<Access>, k: nat) {
    k < |run| && Strays(m, Gate(run[..k]), run[k])
  }

  ghost predicate StraysSomewhere(m: Layout, run: seq<Access>) {
    exists k: nat :: StraysAt(m, run, k)
  }

  lemma StraysAtPrefix(m: Layout, run: seq<Access>, n: nat, k: nat)
    requires k < n <= |run|
    ensures StraysAt(m, run[..n], k) <==> StraysAt(m, run, k)
  {
    assert run[..n][..k] == run[..k];
  }

  /** Over any run of reads, writes and gate changes, the flag is set exactly when some access touched an
      unmapped byte under the gate as it was then. */
  lemma {:induction false} MonitorExact(m: Layout, run: seq<Access>)
    requires forall k | 0 <= k < |run| && !run[k].SetA20? :: run[k].paddr < U64
    ensures Run(m, Monitor(false, false), run).oob <==> StraysSomewhere(m, run)
    decreases |run|
  {
    if run == [] {
    } else {
      var n := |run| - 1;
      MonitorExact(m, run[..n]);
      LastAccess(m, run);
    }
  }

  lemma LastAccess(m: Layout, run: seq<Access>)
    requires run != [] && (!run[|run| - 1].SetA20? ==> run[|run| - 1].paddr < U64)
    requires Run(m, Monitor(false, false), run[..|run| - 1]).oob <==> StraysSomewhere(m, run[..|run| - 1])
    ensures Run(m, Monitor(false, false), run).oob <==> StraysSomewhere(m, run)
  {
    hide Step, Strays;
    var n := |run| - 1;
    var before := Run(m, Monitor(false, false), run[..n]);
    StepExact(m, before, run[n]);
    GateExact(m, run[..n]);
    assert StraysAt(m, run, n) <==> Strays(m, before.a20, run[n]);
    hide StraysAt;
    if before.oob {
      var k: nat :| StraysAt(m, run[..n], k);
      InRun(m, run[..n], k);
      StraysAtPrefix(m, run, n, k);
    }
    if StraysSomewhere(m, run) {
      var k: nat :| StraysAt(m, run, k);
      InRun(m, run, k);
      if k < n {
        StraysAtPrefix(m, run, n, k);
      }
    }
  }

  lemma InRun(m: Layout, run: seq<Access>, k: nat)
    requires StraysAt(m, run, k)
    ensures k < |run|
  {
  }

  // The object

  /** RAM after writing the bytes one by one, each at its translated address. */
  function StoredEach(m: Layout, ram: seq<byte>, enabled: bool, paddr: nat, src: seq<byte>): seq<byte> {
    if src == [] then ram
    else
      var n := |src| - 1;
      Stored(m, StoredEach(m, ram, enabled, paddr, src[..n]), Touched(enabled, paddr, n), [src[n]])
  }

  function DeviceEach(m: Layout, enabled: bool, paddr: nat, src: seq<byte>): seq<(nat, nat, byte)> {
    if src == [] then []
    else
      var n := |src| - 1;
      DeviceEach(m, enabled, paddr, src[..n]) + DeviceBytes(m, Touched(enabled, paddr, n), [src[n]])
  }

  /** Without wrap-around and with the gate open, byte by byte is the same as all at once. */
  lemma {:induction false} EachIsWhole(m: Layout, ram: seq<byte>, paddr: nat, src: seq<byte>)
    requires paddr + |src| < U64
    ensures StoredEach(m, ram, true, paddr, src) == Stored(m, ram, paddr, src)
    ensures DeviceEach(m, true, paddr, src) == DeviceBytes(m, paddr, src)
    decreases |src|
  {
    hide RouteOf, Stored, DeviceBytes;
    if src == [] {
      StoredNothing(m, ram, paddr);
    } else {
      var n := |src| - 1;
      EachIsWhole(m, ram, paddr, src[..n]);
      StoredThen(m, ram, paddr, src[..n], [src[n]]);
      assert src == src[..n] + [src[n]];
      assert (paddr + n) % U64 == paddr + n;
    }
  }

  /** Where the bytes of a write land: RAM that nothing covers takes the last byte that reaches it, and is otherwise as
      it was. */
  ghost predicate LandsAs(m: Layout, before: seq<byte>, after: seq<byte>, enabled: bool, paddr: nat, src: seq<byte>,
                          a: nat)
    requires a < |before| == |after|
  {
    && ((forall k: nat | k < |src| :: !Behind(enabled, paddr, k, a)) || !PlainRam(m, a) ==> after[a] == before[a])
    && (forall k: nat | k < |src| && Behind(enabled, paddr, k, a) && PlainRam(m, a)
          && (forall l: nat | k < l < |src| :: !Behind(enabled, paddr, l, a)) :: after[a] == src[k])
  }

  lemma {:induction false} StoredEachSize(m: Layout, ram: seq<byte>, enabled: bool, paddr: nat, src: seq<byte>)
    ensures |StoredEach(m, ram, enabled, paddr, src)| == |ram|
    decreases |src|
  {
    hide Stored;
    if src == [] {
    } else {
      StoredEachSize(m, ram, enabled, paddr, src[..|src| - 1]);
    }
  }

  lemma OneLands(m: Layout, ram: seq<byte>, enabled: bool, paddr: nat, i: nat, b: byte, a: nat)
    requires Sound(m) && a < |ram| == m.ramSize
    ensures Stored(m, ram, Touched(enabled, paddr, i), [b])[a]
            == if Behind(enabled, paddr, i, a) && PlainRam(m, a) then b else ram[a]
  {
    hide Sound, UnderMmio, UnderRom, Behind, Touched, Stored;
    BehindExact(enabled, paddr, i, a);
    StoredMeaning(m, ram, Touched(enabled, paddr, i), [b], a);
  }

  lemma {:induction false} StoredEachMeaning(m: Layout, ram: seq<byte>, enabled: bool, paddr: nat, src: seq<byte>,
                                             a: nat)
    requires Sound(m) && a < |ram| == m.ramSize
    ensures |StoredEach(m, ram, enabled, paddr, src)| == |ram|
    ensures LandsAs(m, ram, StoredEach(m, ram, enabled, paddr, src), enabled, paddr, src, a)
    decreases |src|
  {
    hide Sound, Stored, PlainRam, Behind, Touched;
    StoredEachSize(m, ram, enabled, paddr, src);
    if src == [] {
    } else {
      var n := |src| - 1;
      StoredEachSize(m, ram, enabled, paddr, src[..n]);
      StoredEachMeaning(m, ram, enabled, paddr, src[..n], a);
      OneLands(m, StoredEach(m, ram, enabled, paddr, src[..n]), enabled, paddr, n, src[n], a);
      LandsMore(m, ram, StoredEach(m, ram, enabled, paddr, src[..n]), StoredEach(m, ram, enabled, paddr, src), enabled,
                paddr, src, a);
    }
  }

  lemma LandsMore(m: Layout, ram: seq<byte>, most: seq<byte>, all: seq<byte>, enabled: bool, paddr: nat, src: seq<byte>,
                  a: nat)
    requires src != [] && a < |ram| == |most| == |all|
    requires LandsAs(m, ram, most, enabled, paddr, src[..|src| - 1], a)
    requires all[a] == if Behind(enabled, paddr, |src| - 1, a) && PlainRam(m, a) then src[|src| - 1] else most[a]
    ensures LandsAs(m, ram, all, enabled, paddr, src, a)
  {
    hide PlainRam, Behind;
  }

  lemma NothingEach(m: Layout, enabled: bool, paddr: nat)
    ensures DeviceEach(m, enabled, paddr, []) == []
  {
  }

  lemma NothingStoredEach(m: Layout, ram: seq<byte>, enabled: bool, paddr: nat)
    ensures StoredEach(m, ram, enabled, paddr, []) == ram
  {
  }

  lemma DeviceEachMore(m: Layout, enabled: bool, paddr: nat, src: seq<byte>, b: byte)
    ensures DeviceEach(m, enabled, paddr, src + [b])
            == DeviceEach(m, enabled, paddr, src) + DeviceBytes(m, Touched(enabled, paddr, |src|), [b])
  {
    assert (src + [b])[..|src|] == src;
  }

  /** Byte `k` of an access reaches an MMIO region. */
  ghost predicate ReachesDevice(m: Layout, enabled: bool, paddr: nat, k: nat) {
    exists a: nat :: Behind(enabled, paddr, k, a) && UnderMmio(m, a)
  }

  ghost function DevicesReached(m: Layout, enabled: bool, paddr: nat, n: nat): nat {
    if n == 0 then 0
    else DevicesReached(m, enabled, paddr, n - 1) + if ReachesDevice(m, enabled, paddr, n - 1) then 1 else 0
  }

  lemma OneReaches(m: Layout, enabled: bool, paddr: nat, k: nat, b: byte)
    requires Sound(m)
    ensures |DeviceBytes(m, Touched(enabled, paddr, k), [b])| == if ReachesDevice(m, enabled, paddr, k) then 1 else 0
    ensures forall i, a: nat | 0 <= i < |m.mmios| && Behind(enabled, paddr, k, a)
                               && m.mmios[i].start <= a < m.mmios[i].end ::
              DeviceBytes(m, Touched(enabled, paddr, k), [b]) == [(m.mmios[i].device, a - m.mmios[i].start, b)]
  {
    hide Sound, Behind, Touched, RouteOf;
    var at := Touched(enabled, paddr, k);
    DeviceExact(m, at);
    DeviceOne(m, at, b);
    forall a: nat
      ensures Behind(enabled, paddr, k, a) <==> a == at
    {
      BehindExact(enabled, paddr, k, a);
    }
  }

  lemma DeviceOne(m: Layout, at: nat, b: byte)
    ensures DeviceBytes(m, at, [b]) == match RouteOf(m, at) case ToMmio(d, offset) => [(d, offset, b)] case _ => []
  {
    hide RouteOf;
    assert [b][..0] == [];
  }

  /** What the devices are handed: one entry for each byte that reaches an MMIO region, in the order of the bytes, with
      the device, the offset of the address behind it, and the byte. */
  lemma {:induction false} DeviceEachMeaning(m: Layout, enabled: bool, paddr: nat, src: seq<byte>, k: nat, i: nat,
                                             a: nat)
    requires Sound(m) && k < |src| && i < |m.mmios|
    requires Behind(enabled, paddr, k, a) && m.mmios[i].start <= a < m.mmios[i].end
    ensures |DeviceEach(m, enabled, paddr, src)| == DevicesReached(m, enabled, paddr, |src|)
    ensures DevicesReached(m, enabled, paddr, k) < |DeviceEach(m, enabled, paddr, src)|
    ensures DeviceEach(m, enabled, paddr, src)[DevicesReached(m, enabled, paddr, k)]
            == (m.mmios[i].device, a - m.mmios[i].start, src[k])
    decreases |src|
  {
    hide Sound, Behind, Touched, DeviceBytes, DevicesReached, ReachesDevice;
    var n := |src| - 1;
    OneReaches(m, enabled, paddr, n, src[n]);
    EachCount(m, enabled, paddr, src);
    EachCount(m, enabled, paddr, src[..n]);
    if k < n {
      DeviceEachMeaning(m, enabled, paddr, src[..n], k, i, a);
    }
  }

  lemma {:induction false} EachCount(m: Layout, enabled: bool, paddr: nat, src: seq<byte>)
    requires Sound(m)
    ensures |DeviceEach(m, enabled, paddr, src)| == DevicesReached(m, enabled, paddr, |src|)
    decreases |src|
  {
    hide Sound, Behind, Touched, DeviceBytes, ReachesDevice;
    if src == [] {
    } else {
      EachCount(m, enabled, paddr, src[..|src| - 1]);
      OneReaches(m, enabled, paddr, |src| - 1, src[|src| - 1]);
    }
  }

  class CheckedBus {
    const inner: Bus
    var a20Enabled: bool
    var oobAccess: bool

    constructor (inner: Bus)
      ensures this.inner == inner && !a20Enabled && !oobAccess
    {
      this.inner, a20Enabled, oobAccess := inner, false, false;
    }

    function State(): Monitor
      reads this
    {
      Monitor(a20Enabled, oobAccess)
    }

    method CheckAddrMapped(addr: nat)
      modifies this`oobAccess
      ensures oobAccess == (old(oobAccess) || !AddrMapped(inner.Map(), addr))
    {
      if !AddrMapped(inner.Map(), addr) {
        oobAccess := true;
      }
    }

    method ReadByte(addr: nat) returns (b: byte)
      requires inner.Valid() && addr < U64
      modifies inner`ops
      ensures inner.Valid() && b == ByteAt(inner.Map(), inner.device, inner.ram[..], addr)
      ensures Expand(inner.ops) == old(Expand(inner.ops)) + DeviceBytes(inner.Map(), addr, [b])
    {
      hide ByteAt, Sound, Expand, DeviceBytes, ReadsAs;
      var one := new byte[1];
      inner.ReadPhysical(addr, one);
      assert one[0] == ByteAt(inner.Map(), inner.device, inner.ram[..], addr + 0);
      b := one[0];
      assert one[..] == [b];
    }

    /** The byte loop of a read. */
    method ReadEach(paddr: nat, dst: array<byte>)
      requires inner.Valid() && paddr < U64 && dst != inner.ram
      modifies this`oobAccess, inner`ops, dst
      ensures inner.Valid()
      ensures State() == FlagBytes(inner.Map(), old(State()), paddr, dst.Length)
      ensures forall k | 0 <= k < dst.Length ::
                dst[k] == ByteAt(inner.Map(), inner.device, inner.ram[..], Touched(a20Enabled, paddr, k))
      ensures Expand(inner.ops) == old(Expand(inner.ops)) + DeviceEach(inner.Map(), a20Enabled, paddr, dst[..])
    {
      hide AddrMapped, ByteAt, Touched, Sound, Expand, DeviceBytes;
      ghost var m, memory, asked, before := inner.Map(), inner.ram[..], Expand(inner.ops), State();
      assert dst[..0] == [] && asked + [] == asked;
      for i := 0 to dst.Length
        invariant inner.Valid() && inner.Map() == m && inner.ram[..] == memory && a20Enabled == before.a20
        invariant State() == FlagBytes(m, before, paddr, i)
        invariant forall k | 0 <= k < i :: dst[k] == ByteAt(m, inner.device, memory, Touched(before.a20, paddr, k))
        invariant Expand(inner.ops) == asked + DeviceEach(m, before.a20, paddr, dst[..i])
      {
        var addr := Touched(a20Enabled, paddr, i);
        ghost var got := dst[..i];
        FlagKeepsGate(m, before, paddr, i);
        CheckAddrMapped(addr);
        var b := ReadByte(addr);
        dst[i] := b;
        assert dst[..i + 1] == got + [b];
        DeviceEachMore(m, before.a20, paddr, got, b);
        Seqs.Assoc(asked, DeviceEach(m, before.a20, paddr, got), DeviceBytes(m, addr, [b]));
      }
      assert dst[..dst.Length] == dst[..];
    }

    /** The whole range at once. */
    method ReadWhole(paddr: nat, dst: array<byte>)
      requires inner.Valid() && paddr < U64 && dst != inner.ram && RangeMapped(inner.Map(), paddr, dst.Length)
      modifies inner`ops, dst
      ensures inner.Valid()
      ensures forall k | 0 <= k < dst.Length ::
                dst[k] == ByteAt(inner.Map(), inner.device, inner.ram[..], Touched(true, paddr, k))
      ensures Expand(inner.ops) == old(Expand(inner.ops)) + DeviceEach(inner.Map(), true, paddr, dst[..])
    {
      hide ByteAt, Touched, Sound, Expand, DeviceBytes, DeviceEach, RangeMapped, ReadsAs, Natural;
      ghost var m, memory := inner.Map(), inner.ram[..];
      inner.ReadPhysical(paddr, dst);
      RangeFits(m, paddr, dst.Length);
      EachIsWhole(m, memory, paddr, dst[..]);
      forall k | 0 <= k < dst.Length
        ensures dst[k] == ByteAt(m, inner.device, memory, Touched(true, paddr, k))
      {
        NoWrap(paddr, k);
      }
    }

    /** Each byte read is what stands at the address behind it, and the flag follows the run. */
    method ReadPhysical(paddr: nat, dst: array<byte>)
      requires inner.Valid() && paddr < U64 && dst != inner.ram
      modifies this`oobAccess, inner`ops, dst
      ensures inner.Valid()
      ensures State() == Step(inner.Map(), old(State()), Read(paddr, dst.Length))
      ensures forall k | 0 <= k < dst.Length ::
                dst[k] == ByteAt(inner.Map(), inner.device, inner.ram[..], Touched(a20Enabled, paddr, k))
      ensures forall k: nat, a: nat | k < dst.Length && Behind(a20Enabled, paddr, k, a) ::
                ReadsAs(inner.Map(), inner.device, inner.ram[..], a, dst[k])
      ensures Expand(inner.ops) == old(Expand(inner.ops)) + DeviceEach(inner.Map(), a20Enabled, paddr, dst[..])
    {
      hide FlagBytes, ByteAt, Touched, Sound, Expand, DeviceEach, RangeMapped, ReadsAs, Behind;
      ghost var m, memory, gate := inner.Map(), inner.ram[..], a20Enabled;
      if dst.Length == 0 {
        NothingEach(m, gate, paddr);
        assert dst[..] == [] && Expand(inner.ops) + [] == Expand(inner.ops);
        return;
      }
      if a20Enabled && RangeMapped(inner.Map(), paddr, dst.Length) {
        ReadWhole(paddr, dst);
      } else {
        ReadEach(paddr, dst);
      }
      forall k: nat, a: nat | k < dst.Length && Behind(gate, paddr, k, a)
        ensures ReadsAs(m, inner.device, memory, a, dst[k])
      {
        BehindExact(gate, paddr, k, a);
        ByteAtMeaning(m, inner.device, memory, a);
      }
    }

    /** The byte loop of a write. */
    method WriteEach(paddr: nat, src: seq<byte>)
      requires inner.Valid() && paddr < U64
      modifies this`oobAccess, inner`ops, inner.ram
      ensures inner.Valid() && inner.Map() == old(inner.Map())
      ensures State() == FlagBytes(inner.Map(), old(State()), paddr, |src|)
      ensures inner.ram[..] == StoredEach(inner.Map(), old(inner.ram[..]), a20Enabled, paddr, src)
      ensures Expand(inner.ops) == old(Expand(inner.ops)) + DeviceEach(inner.Map(), a20Enabled, paddr, src)
    {
      hide AddrMapped, Touched, Stored, DeviceBytes, Expand, Sound;
      ghost var m, memory, sent, before := inner.Map(), inner.ram[..], Expand(inner.ops), State();
      assert src[..0] == [] && sent + [] == sent;
      for i := 0 to |src|
        invariant inner.Valid() && inner.Map() == m && a20Enabled == before.a20
        invariant State() == FlagBytes(m, before, paddr, i)
        invariant inner.ram[..] == StoredEach(m, memory, before.a20, paddr, src[..i])
        invariant Expand(inner.ops) == sent + DeviceEach(m, before.a20, paddr, src[..i])
      {
        var addr := Touched(a20Enabled, paddr, i);
        FlagKeepsGate(m, before, paddr, i);
        CheckAddrMapped(addr);
        assert src[..i + 1][..i] == src[..i];
        Seqs.Assoc(sent, DeviceEach(m, before.a20, paddr, src[..i]), DeviceBytes(m, addr, [src[i]]));
        inner.WritePhysical(addr, [src[i]]);
      }
      assert src[..|src|] == src;
    }

    /** A write reaches RAM and devices as if byte by byte through the gate, and the flag follows the run. */
    method WritePhysical(paddr: nat, src: seq<byte>)
      requires inner.Valid() && paddr < U64
      modifies this`oobAccess, inner`ops, inner.ram
      ensures inner.Valid() && inner.Map() == old(inner.Map())
      ensures State() == Step(inner.Map(), old(State()), Write(paddr, |src|))
      ensures inner.ram[..] == StoredEach(inner.Map(), old(inner.ram[..]), a20Enabled, paddr, src)
      ensures forall a | 0 <= a < inner.ram.Length ::
                LandsAs(inner.Map(), old(inner.ram[..]), inner.ram[..], a20Enabled, paddr, src, a)
      ensures Expand(inner.ops) == old(Expand(inner.ops)) + DeviceEach(inner.Map(), a20Enabled, paddr, src)
    {
      hide FlagBytes, Sound, Stored, StoredEach, DeviceEach, Expand, RangeMapped, LandsAs;
      ghost var m, memory, gate := inner.Map(), inner.ram[..], a20Enabled;
      if src == [] {
        NothingEach(m, gate, paddr);
        NothingStoredEach(m, memory, gate, paddr);
        assert Expand(inner.ops) + [] == Expand(inner.ops);
      } else if a20Enabled && RangeMapped(inner.Map(), paddr, |src|) {
        RangeFits(m, paddr, |src|);
        EachIsWhole(m, memory, paddr, src);
        inner.WritePhysical(paddr, src);
      } else {
        WriteEach(paddr, src);
      }
      forall a | 0 <= a < inner.ram.Length
        ensures LandsAs(m, memory, inner.ram[..], gate, paddr, src, a)
      {
        StoredEachMeaning(m, memory, gate, paddr, src, a);
      }
    }

    method SetA20(enabled: bool)
      modifies this`a20Enabled
      ensures State() == Step(inner.Map(), old(State()), Access.SetA20(enabled))
      ensures a20Enabled == enabled && oobAccess == old(oobAccess)
    {
      a20Enabled := enabled;
    }
  }

  lemma NoWrap(paddr: nat, k: nat)
    ensures paddr + k < U64 ==> Touched(true, paddr, k) == paddr + k
  {
  }

  lemma FlagKeepsGate(m: Layout, s: Monitor, paddr: nat, len: nat)
    ensures FlagBytes(m, s, paddr, len).a20 == s.a20
  {
    FlagBytesExact(m, s, paddr, len);
  }
}
