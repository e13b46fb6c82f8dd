/** The guest-physical memory bus: an access is cut into chunks, each served by one MMIO region, one ROM
    region, RAM, or nothing. The reference is byte by byte: MMIO before ROM before RAM, and all-ones
    where nothing is mapped. MMIO reads are modelled for devices that answer each byte by its offset. */
module PhysicalBus {
  import opened Wrappers
  import opened Words
  import opened Bytes
  import opened MemoryMap
  import Seqs

  datatype Rom = Rom(start: nat, data: seq<byte>)

  datatype Mmio = Mmio(start: nat, end: nat, device: nat)

  datatype Layout = Layout(roms: seq<Rom>, mmios: seq<Mmio>, ramSize: nat)

  function RomSpan(r: Rom): Span {
    Span(r.start, r.start + |r.data|)
  }

  function MmioSpan(r: Mmio): Span {
    Span(r.start, r.end)
  }

  function RomSpans(roms: seq<Rom>): (ss: seq<Span>)
    ensures |ss| == |roms| && forall i | 0 <= i < |roms| :: ss[i] == RomSpan(roms[i])
  {
    seq(|roms|, i requires 0 <= i < |roms| => RomSpan(roms[i]))
  }

  function MmioSpans(mmios: seq<Mmio>): (ss: seq<Span>)
    ensures |ss| == |mmios| && forall i | 0 <= i < |mmios| :: ss[i] == MmioSpan(mmios[i])
  {
    seq(|mmios|, i requires 0 <= i < |mmios| => MmioSpan(mmios[i]))
  }

  ghost predicate Sound(m: Layout) {
    Ordered(RomSpans(m.roms)) && Ordered(MmioSpans(m.mmios)) && m.ramSize < U64
  }

  // The reference

  /** Who serves one byte. */
  datatype Route = ToMmio(device: nat, offset: nat) | ToRom(value: byte) | ToRam(at: nat) | Nowhere

  function RouteOf(m: Layout, addr: nat): Route {
    var i := Find(MmioSpans(m.mmios), addr);
    var j := Find(RomSpans(m.roms), addr);
    if i.Some? && m.mmios[i.value].start <= addr then
      ToMmio(m.mmios[i.value].device, addr - m.mmios[i.value].start)
    else if j.Some? && m.roms[j.value].start <= addr < m.roms[j.value].start + |m.roms[j.value].data| then
      ToRom(m.roms[j.value].data[addr - m.roms[j.value].start])
    else if addr < m.ramSize then ToRam(addr)
    else Nowhere
  }

  /** The binary searches implement first-match routing over all regions, MMIO first. */
  lemma RouteMeaning(m: Layout, addr: nat)
    requires Sound(m)
    ensures forall i | 0 <= i < |m.mmios| && m.mmios[i].start <= addr < m.mmios[i].end ::
              RouteOf(m, addr) == ToMmio(m.mmios[i].device, addr - m.mmios[i].start)
    ensures (forall i | 0 <= i < |m.mmios| :: !(m.mmios[i].start <= addr < m.mmios[i].end)) ==>
              && (forall j | 0 <= j < |m.roms| && m.roms[j].start <= addr < m.roms[j].start + |m.roms[j].data| ::
                    RouteOf(m, addr) == ToRom(m.roms[j].data[addr - m.roms[j].start]))
              && ((forall j | 0 <= j < |m.roms| :: !(m.roms[j].start <= addr < m.roms[j].start + |m.roms[j].data|)) ==>
                    RouteOf(m, addr) == if addr < m.ramSize then ToRam(addr) else Nowhere)
  {
    var ms, rs := MmioSpans(m.mmios), RomSpans(m.roms);
    forall i | 0 <= i < |ms|
      ensures Find(ms, addr) == Some(i) <==> Contains(ms[i], addr)
    {
      FindExact(ms, addr, i);
    }
    forall j | 0 <= j < |rs|
      ensures Find(rs, addr) == Some(j) <==> Contains(rs[j], addr)
    {
      FindExact(rs, addr, j);
    }
  }

  /** Past the 64-bit address space nothing is mapped. */
  lemma NothingPastTheEnd(m: Layout, addr: nat)
    requires Sound(m) && addr >= U64
    ensures RouteOf(m, addr) == Nowhere
  {
    var ms, rs := MmioSpans(m.mmios), RomSpans(m.roms);
    if Find(ms, addr).Some? {
      FindExact(ms, addr, Find(ms, addr).value);
    }
    if Find(rs, addr).Some? {
      FindExact(rs, addr, Find(rs, addr).value);
    }
  }

  type Device = (nat, nat) -> byte

  function ByteAt(m: Layout, device: Device, ram: seq<byte>, addr: nat): byte {
    match RouteOf(m, addr)
    case ToMmio(d, offset) => device(d, offset)
    case ToRom(v) => v
    case ToRam(at) => if at < |ram| then ram[at] else 0xFF
    case Nowhere => 0xFF
  }

  lemma OnesPastTheEnd(m: Layout, device: Device, ram: seq<byte>, addr: nat)
    requires Sound(m) && addr >= U64
    ensures ByteAt(m, device, ram, addr) == 0xFF
  {
    NothingPastTheEnd(m, addr);
  }

  // Values, without the search

  predicate UnderMmio(m: Layout, addr: nat) {
    exists i | 0 <= i < |m.mmios| :: m.mmios[i].start <= addr < m.mmios[i].end
  }

  predicate UnderRom(m: Layout, addr: nat) {
    exists j | 0 <= j < |m.roms| :: m.roms[j].start <= addr < m.roms[j].start + |m.roms[j].data|
  }

  /** `b` is what stands at `addr`: the device's answer at the offset in an MMIO region; else the ROM's own byte; else
      the RAM byte; else all ones. */
  ghost predicate ReadsAs(m: Layout, device: Device, ram: seq<byte>, addr: nat, b: byte) {
    && (forall i | 0 <= i < |m.mmios| && m.mmios[i].start <= addr < m.mmios[i].end ::
          b == device(m.mmios[i].device, addr - m.mmios[i].start))
    && (!UnderMmio(m, addr) ==>
          && (forall j | 0 <= j < |m.roms| && m.roms[j].start <= addr < m.roms[j].start + |m.roms[j].data| ::
                b == m.roms[j].data[addr - m.roms[j].start])
          && (!UnderRom(m, addr) ==> b == if addr < |ram| then ram[addr] else 0xFF))
  }

  lemma ByteAtMeaning(m: Layout, device: Device, ram: seq<byte>, addr: nat)
    requires Sound(m) && |ram| == m.ramSize
    ensures ReadsAs(m, device, ram, addr, ByteAt(m, device, ram, addr))
  {
    hide RouteOf, Sound;
    RouteMeaning(m, addr);
  }

  /** Written to RAM. */
  predicate PlainRam(m: Layout, addr: nat) {
    addr < m.ramSize && !UnderMmio(m, addr) && !UnderRom(m, addr)
  }

  lemma RamExact(m: Layout, addr: nat)
    requires Sound(m)
    ensures RouteOf(m, addr) == ToRam(addr) <==> PlainRam(m, addr)
  {
    RouteMeaning(m, addr);
    hide RouteOf, Sound;
  }

  /** A ROM under no MMIO region reads as its data, whatever RAM holds, so also after any write. */
  lemma RomReads(m: Layout, device: Device, ram: seq<byte>, rom: Rom, k: nat)
    requires Sound(m) && |ram| == m.ramSize && rom in m.roms && k < |rom.data| && !UnderMmio(m, rom.start + k)
    ensures ByteAt(m, device, ram, rom.start + k) == rom.data[k]
  {
    hide ByteAt, Sound;
    ByteAtMeaning(m, device, ram, rom.start + k);
    var j :| 0 <= j < |m.roms| && m.roms[j] == rom;
    assert m.roms[j].start <= rom.start + k < m.roms[j].start + |m.roms[j].data|;
  }

  // MMIO operations

  /** One operation a device sees: naturally aligned, of size 1, 2, 4 or 8. */
  datatype Op = Op(write: bool, device: nat, offset: nat, bytes: seq<byte>)

  predicate Natural(op: Op) {
    |op.bytes| in {1, 2, 4, 8} && op.offset % |op.bytes| == 0
  }

  /** The widest aligned access that fits. */
  function AccessSize(offset: nat, remaining: nat): (n: nat)
    requires remaining > 0
    ensures 1 <= n <= remaining
  {
    if remaining >= 8 && offset % 8 == 0 then 8
    else if remaining >= 4 && offset % 4 == 0 then 4
    else if remaining >= 2 && offset % 2 == 0 then 2
    else 1
  }

  /** It is of one of four sizes, aligned, and no wider one would be aligned and fit. */
  lemma AccessWidest(offset: nat, remaining: nat)
    requires remaining > 0
    ensures var n := AccessSize(offset, remaining);
            && n in {1, 2, 4, 8} && n <= remaining && offset % n == 0
            && forall m | m in {1, 2, 4, 8} && n < m <= remaining :: offset % m != 0
  {
  }

  /** The accesses that carry `bytes` to or from a device: each the widest that is aligned and fits. */
  function Accesses(write: bool, id: nat, offset: nat, bytes: seq<byte>): seq<Op>
    decreases |bytes|
  {
    if bytes == [] then []
    else
      var n := AccessSize(offset, |bytes|);
      [Op(write, id, offset, bytes[..n])] + Accesses(write, id, offset + n, bytes[n..])
  }

  /** Each byte of an operation with the place it goes to. */
  function Placed(device: nat, offset: nat, bytes: seq<byte>): seq<(nat, nat, byte)> {
    seq(|bytes|, k requires 0 <= k < |bytes| => (device, offset + k, bytes[k]))
  }

  function Expand(ops: seq<Op>): seq<(nat, nat, byte)> {
    if ops == [] then []
    else Expand(ops[..|ops| - 1]) + Placed(ops[|ops| - 1].device, ops[|ops| - 1].offset, ops[|ops| - 1].bytes)
  }

  /** The bytes of a write that belong to devices, in address order. */
  function DeviceBytes(m: Layout, paddr: nat, src: seq<byte>): seq<(nat, nat, byte)> {
    if src == [] then []
    else
      var n := |src| - 1;
      DeviceBytes(m, paddr, src[..n]) +
      match RouteOf(m, paddr + n)
      case ToMmio(d, offset) => [(d, offset, src[n])]
      case _ => []
  }

  lemma ExpandAppend(ops: seq<Op>, op: Op)
    ensures Expand(ops + [op]) == Expand(ops) + Placed(op.device, op.offset, op.bytes)
  {
    assert (ops + [op])[..|ops|] == ops;
  }

  lemma PlacedSplit(device: nat, offset: nat, a: seq<byte>, b: seq<byte>)
    ensures Placed(device, offset, a + b) == Placed(device, offset, a) + Placed(device, offset + |a|, b)
  {
  }

  function BytesBefore(ops: seq<Op>, p: nat): nat
    requires p <= |ops|
  {
    if p == 0 then 0 else BytesBefore(ops, p - 1) + |ops[p - 1].bytes|
  }

  /** The bytes of a log of operations, one behind the other, each at the operation's offset plus its position. */
  lemma {:induction false} ExpandMeaning(ops: seq<Op>, p: nat, j: nat)
    requires p < |ops| && j < |ops[p].bytes|
    ensures |Expand(ops)| == BytesBefore(ops, |ops|) && BytesBefore(ops, p) + j < |Expand(ops)|
    ensures Expand(ops)[BytesBefore(ops, p) + j] == (ops[p].device, ops[p].offset + j, ops[p].bytes[j])
    decreases |ops|
  {
    hide BytesBefore;
    var n := |ops| - 1;
    ExpandSize(ops);
    ExpandSize(ops[..n]);
    SameBefore(ops, n, n);
    if p < n {
      ExpandMeaning(ops[..n], p, j);
      SameBefore(ops, n, p);
    }
  }

  lemma {:induction false} ExpandSize(ops: seq<Op>)
    ensures |Expand(ops)| == BytesBefore(ops, |ops|)
    decreases |ops|
  {
    if ops == [] {
    } else {
      ExpandSize(ops[..|ops| - 1]);
      SameBefore(ops, |ops| - 1, |ops| - 1);
    }
  }

  lemma {:induction false} SameBefore(ops: seq<Op>, n: nat, p: nat)
    requires p <= n <= |ops|
    ensures BytesBefore(ops[..n], p) == BytesBefore(ops, p)
    decreases p
  {
    if p == 0 {
    } else {
      SameBefore(ops, n, p - 1);
    }
  }

  /** The accesses of a chunk carry its bytes once and in order. */
  lemma {:induction false} AccessesExpand(ops: seq<Op>, write: bool, id: nat, offset: nat, bytes: seq<byte>)
    ensures Expand(ops + Accesses(write, id, offset, bytes)) == Expand(ops) + Placed(id, offset, bytes)
    decreases |bytes|
  {
    hide AccessSize, Expand, Placed, Accesses;
    if bytes == [] {
      NoAccesses(write, id, offset);
      NothingPlaced(id, offset);
      assert ops + [] == ops && Expand(ops) + [] == Expand(ops);
    } else {
      var n := AccessSize(offset, |bytes|);
      var first := Op(write, id, offset, bytes[..n]);
      AccessesExpand(ops + [first], write, id, offset + n, bytes[n..]);
      FirstAccess(ops, write, id, offset, bytes);
      ExpandAppend(ops, first);
      PlacedParts(id, offset, bytes, n);
      Seqs.Assoc(Expand(ops), Placed(id, offset, bytes[..n]), Placed(id, offset + n, bytes[n..]));
    }
  }

  lemma NothingPlaced(id: nat, offset: nat)
    ensures Placed(id, offset, []) == []
  {
  }

  lemma PlacedParts(id: nat, offset: nat, bytes: seq<byte>, n: nat)
    requires n <= |bytes|
    ensures Placed(id, offset, bytes) == Placed(id, offset, bytes[..n]) + Placed(id, offset + n, bytes[n..])
  {
    hide Placed;
    PlacedSplit(id, offset, bytes[..n], bytes[n..]);
    assert bytes[..n] + bytes[n..] == bytes;
  }

  lemma FirstAccess(ops: seq<Op>, write: bool, id: nat, offset: nat, bytes: seq<byte>)
    requires bytes != []
    ensures var n := AccessSize(offset, |bytes|);
            ops + Accesses(write, id, offset, bytes)
            == (ops + [Op(write, id, offset, bytes[..n])]) + Accesses(write, id, offset + n, bytes[n..])
  {
    hide AccessSize;
    var n := AccessSize(offset, |bytes|);
    Seqs.Assoc(ops, [Op(write, id, offset, bytes[..n])], Accesses(write, id, offset + n, bytes[n..]));
  }

  /** And each is naturally aligned. */
  lemma {:induction false} AccessesNatural(write: bool, id: nat, offset: nat, bytes: seq<byte>, k: nat)
    requires k < |Accesses(write, id, offset, bytes)|
    ensures Natural(Accesses(write, id, offset, bytes)[k]) && Accesses(write, id, offset, bytes)[k].write == write
    decreases |bytes|
  {
    var n := AccessSize(offset, |bytes|);
    if k == 0 {
      AccessWidest(offset, |bytes|);
    } else {
      hide AccessSize, Natural;
      AccessesNatural(write, id, offset + n, bytes[n..], k - 1);
    }
  }

  /** And none could be wider: no larger size of the four is aligned there and fits in what is left. */
  lemma {:induction false} AccessesWidest(write: bool, id: nat, offset: nat, bytes: seq<byte>, k: nat, m: nat)
    requires k < |Accesses(write, id, offset, bytes)| && m in {1, 2, 4, 8}
    requires var op := Accesses(write, id, offset, bytes)[k]; |op.bytes| < m && op.offset + m <= offset + |bytes|
    ensures Accesses(write, id, offset, bytes)[k].offset % m != 0
    decreases |bytes|
  {
    var n := AccessSize(offset, |bytes|);
    if k == 0 {
      AccessWidest(offset, |bytes|);
    } else {
      hide AccessSize;
      AccessesWidest(write, id, offset + n, bytes[n..], k - 1, m);
    }
  }

  lemma AllNatural(ops: seq<Op>, write: bool, id: nat, offset: nat, bytes: seq<byte>)
    ensures var all := ops + Accesses(write, id, offset, bytes);
            ops <= all && forall k | |ops| <= k < |all| :: Natural(all[k]) && all[k].write == write
  {
    hide Accesses, Natural;
    forall k | 0 <= k < |Accesses(write, id, offset, bytes)|
      ensures var op := Accesses(write, id, offset, bytes)[k]; Natural(op) && op.write == write
    {
      AccessesNatural(write, id, offset, bytes, k);
    }
  }

  lemma NoAccesses(write: bool, id: nat, offset: nat)
    ensures Accesses(write, id, offset, []) == []
  {
  }

  lemma NextAccess(ops: seq<Op>, write: bool, id: nat, offset: nat, all: seq<byte>, pos: nat)
    requires pos < |all|
    ensures var n := AccessSize(offset + pos, |all| - pos);
            ops + Accesses(write, id, offset + pos, all[pos..])
            == (ops + [Op(write, id, offset + pos, all[pos..pos + n])])
               + Accesses(write, id, offset + (pos + n), all[pos + n..])
  {
    hide AccessSize, Accesses;
    var n := AccessSize(offset + pos, |all| - pos);
    assert all[pos..][..n] == all[pos..pos + n] && all[pos..][n..] == all[pos + n..];
    FirstAccess(ops, write, id, offset + pos, all[pos..]);
    assert offset + pos + n == offset + (pos + n);
  }

  /** What a device answers from an offset on. */
  function Answers(device: Device, id: nat, offset: nat, size: nat): (s: seq<byte>)
    ensures |s| == size
  {
    seq(size, k requires 0 <= k < size => device(id, offset + k))
  }

  lemma AnswersAt(device: Device, id: nat, offset: nat, size: nat)
    ensures forall k | 0 <= k < size :: Answers(device, id, offset, size)[k] == device(id, offset + k)
  {
  }

  lemma AnswersPart(device: Device, id: nat, offset: nat, len: nat, pos: nat, size: nat)
    requires pos + size <= len
    ensures Answers(device, id, offset + pos, size) == Answers(device, id, offset, len)[pos..pos + size]
  {
    var part, all := Answers(device, id, offset + pos, size), Answers(device, id, offset, len);
    forall k | 0 <= k < size
      ensures part[k] == all[pos..pos + size][k]
    {
      assert offset + pos + k == offset + (pos + k);
    }
  }

  lemma AnswerMore(all: seq<byte>, pos: nat, size: nat)
    requires pos + size <= |all|
    ensures all[..pos] + all[pos..pos + size] == all[..pos + size]
  {
  }

  /** The chunks a bus access is cut into. */
  datatype Target = InMmio(i: nat) | InRom(j: nat) | InRam | Unmapped

  ghost predicate Serves(m: Layout, t: Target, addr: nat) {
    match t
    case InMmio(i) => i < |m.mmios| && m.mmios[i].start <= addr &&
                      RouteOf(m, addr) == ToMmio(m.mmios[i].device, addr - m.mmios[i].start)
    case InRom(j) => j < |m.roms| && m.roms[j].start <= addr < m.roms[j].start + |m.roms[j].data| &&
                     RouteOf(m, addr) == ToRom(m.roms[j].data[addr - m.roms[j].start])
    case InRam => addr < m.ramSize && RouteOf(m, addr) == ToRam(addr)
    case Unmapped => RouteOf(m, addr) == Nowhere
  }

  ghost predicate ServesAll(m: Layout, t: Target, addr: nat, len: nat) {
    forall a | addr <= a < addr + len :: Serves(m, t, a)
  }

  function MinStart(limit: nat, next: Option<nat>): nat {
    if next.Some? && next.value < limit then next.value else limit
  }

  /** The chunk length is a plain minimum: saturation of `addr + rem` never bites, because regions end
      below 2^64. */
  function ChunkTo(addr: nat, chunkEnd: nat, rem: nat): nat {
    var reach := if addr + rem < U64 then addr + rem else U64 - 1;
    if chunkEnd < reach then chunkEnd else reach
  }

  lemma ServesMmio(m: Layout, addr: nat, a: nat)
    requires Sound(m) && Find(MmioSpans(m.mmios), addr).Some?
    requires addr <= a < m.mmios[Find(MmioSpans(m.mmios), addr).value].end
    ensures Serves(m, InMmio(Find(MmioSpans(m.mmios), addr).value), a)
  {
    var ms := MmioSpans(m.mmios);
    SameSpan(ms, addr, a);
    FindExact(ms, a, Find(ms, addr).value);
  }

  lemma ServesRom(m: Layout, addr: nat, a: nat)
    requires Sound(m) && Find(MmioSpans(m.mmios), addr).None? && Find(RomSpans(m.roms), addr).Some?
    requires var r := m.roms[Find(RomSpans(m.roms), addr).value];
             addr <= a < MinStart(r.start + |r.data|, NextStart(MmioSpans(m.mmios), addr))
    ensures Serves(m, InRom(Find(RomSpans(m.roms), addr).value), a)
  {
    var ms, rs := MmioSpans(m.mmios), RomSpans(m.roms);
    QuietUntil(ms, addr, a + 1, a);
    SameSpan(rs, addr, a);
    FindExact(rs, a, Find(rs, addr).value);
  }

  lemma ServesRest(m: Layout, addr: nat, limit: nat, a: nat)
    requires Sound(m) && Find(MmioSpans(m.mmios), addr).None? && Find(RomSpans(m.roms), addr).None?
    requires addr <= a < MinStart(MinStart(limit, NextStart(MmioSpans(m.mmios), addr)),
                                  NextStart(RomSpans(m.roms), addr))
    ensures a < m.ramSize ==> Serves(m, InRam, a)
    ensures a >= m.ramSize ==> Serves(m, Unmapped, a)
  {
    QuietUntil(MmioSpans(m.mmios), addr, a + 1, a);
    QuietUntil(RomSpans(m.roms), addr, a + 1, a);
  }

  // Writing, as values

  /** RAM after writing `src` at `paddr`: a byte changes exactly when it is written and served by RAM. */
  function Stored(m: Layout, ram: seq<byte>, paddr: nat, src: seq<byte>): (r: seq<byte>)
    ensures |r| == |ram|
  {
    seq(|ram|, a requires 0 <= a < |ram| =>
      if paddr <= a < paddr + |src| && RouteOf(m, a) == ToRam(a) then src[a - paddr] else ram[a])
  }

  lemma StoredNothing(m: Layout, ram: seq<byte>, paddr: nat)
    ensures Stored(m, ram, paddr, []) == ram && DeviceBytes(m, paddr, []) == []
  {
  }

  /** RAM after a write, byte by byte: the written byte where only RAM is, and elsewhere what was there. */
  lemma StoredMeaning(m: Layout, ram: seq<byte>, paddr: nat, src: seq<byte>, a: nat)
    requires Sound(m) && a < |ram|
    ensures Stored(m, ram, paddr, src)[a]
            == if paddr <= a < paddr + |src| && a < m.ramSize && !UnderMmio(m, a) && !UnderRom(m, a) then src[a - paddr]
               else ram[a]
  {
    RamExact(m, a);
    hide RouteOf, UnderMmio, UnderRom;
  }

  /** Reading what was written: RAM gives the written bytes back, and every other byte reads as before. */
  lemma ReadAfterWrite(m: Layout, device: Device, ram: seq<byte>, paddr: nat, src: seq<byte>, a: nat)
    requires Sound(m) && |ram| == m.ramSize
    ensures ByteAt(m, device, Stored(m, ram, paddr, src), a)
            == if paddr <= a < paddr + |src| && PlainRam(m, a) then src[a - paddr] else ByteAt(m, device, ram, a)
  {
    RamExact(m, a);
    if RouteOf(m, a).ToRam? {
      RouteMeaning(m, a);
    }
    hide RouteOf, UnderMmio, UnderRom;
  }

  /** How many of the first `n` bytes from `paddr` on lie in MMIO regions. */
  function DevicesBefore(m: Layout, paddr: nat, n: nat): nat {
    if n == 0 then 0 else DevicesBefore(m, paddr, n - 1) + if UnderMmio(m, paddr + n - 1) then 1 else 0
  }

  lemma DeviceExact(m: Layout, a: nat)
    requires Sound(m)
    ensures RouteOf(m, a).ToMmio? <==> UnderMmio(m, a)
    ensures forall i | 0 <= i < |m.mmios| && m.mmios[i].start <= a < m.mmios[i].end ::
              RouteOf(m, a) == ToMmio(m.mmios[i].device, a - m.mmios[i].start)
  {
    RouteMeaning(m, a);
    hide RouteOf, Sound;
  }

  lemma DeviceIff(m: Layout, a: nat)
    requires Sound(m)
    ensures RouteOf(m, a).ToMmio? <==> UnderMmio(m, a)
  {
    hide RouteOf, Sound, UnderMmio;
    DeviceExact(m, a);
  }

  lemma LastCount(m: Layout, paddr: nat, src: seq<byte>)
    requires src != []
    ensures |DeviceBytes(m, paddr, src)|
            == |DeviceBytes(m, paddr, src[..|src| - 1])| + if RouteOf(m, paddr + (|src| - 1)).ToMmio? then 1 else 0
  {
    hide RouteOf;
  }

  lemma {:induction false} DeviceCount(m: Layout, paddr: nat, src: seq<byte>)
    requires Sound(m)
    ensures |DeviceBytes(m, paddr, src)| == DevicesBefore(m, paddr, |src|)
    decreases |src|
  {
    hide *;
    if src == [] {
      StoredNothing(m, [], paddr);
      NoneBefore(m, paddr);
    } else {
      var n := |src| - 1;
      DeviceIff(m, paddr + n);
      LastCount(m, paddr, src);
      CountMore(m, paddr, n);
      DeviceCount(m, paddr, src[..n]);
    }
  }

  lemma NoneBefore(m: Layout, paddr: nat)
    ensures DevicesBefore(m, paddr, 0) == 0
  {
  }

  lemma CountMore(m: Layout, paddr: nat, n: nat)
    ensures DevicesBefore(m, paddr, n + 1) == DevicesBefore(m, paddr, n) + if UnderMmio(m, paddr + n) then 1 else 0
  {
    hide UnderMmio;
  }

  lemma LastDeviceByte(m: Layout, paddr: nat, src: seq<byte>, i: nat)
    requires Sound(m) && src != [] && i < |m.mmios|
    requires m.mmios[i].start <= paddr + |src| - 1 < m.mmios[i].end
    ensures var n := |src| - 1;
            DeviceBytes(m, paddr, src)
            == DeviceBytes(m, paddr, src[..n]) + [(m.mmios[i].device, paddr + n - m.mmios[i].start, src[n])]
  {
    hide RouteOf, Sound, UnderMmio;
    DeviceExact(m, paddr + |src| - 1);
    assert RouteOf(m, paddr + |src| - 1) == ToMmio(m.mmios[i].device, paddr + |src| - 1 - m.mmios[i].start);
  }

  lemma DeviceBytesGrow(m: Layout, paddr: nat, src: seq<byte>)
    requires src != []
    ensures DeviceBytes(m, paddr, src[..|src| - 1]) <= DeviceBytes(m, paddr, src)
  {
    hide RouteOf;
  }

  /** What the devices are handed of a range: one entry for each byte that lies in an MMIO region, in address order,
      with the device, the offset in its region and the byte. */
  lemma {:induction false} DeviceBytesMeaning(m: Layout, paddr: nat, src: seq<byte>, k: nat, i: nat)
    requires Sound(m) && k < |src| && i < |m.mmios| && m.mmios[i].start <= paddr + k < m.mmios[i].end
    ensures |DeviceBytes(m, paddr, src)| == DevicesBefore(m, paddr, |src|)
    ensures DevicesBefore(m, paddr, k) < |DeviceBytes(m, paddr, src)|
    ensures DeviceBytes(m, paddr, src)[DevicesBefore(m, paddr, k)]
            == (m.mmios[i].device, paddr + k - m.mmios[i].start, src[k])
    decreases |src|
  {
    hide Sound, DeviceBytes, DevicesBefore;
    var n := |src| - 1;
    DeviceCount(m, paddr, src);
    if k == n {
      LastDeviceByte(m, paddr, src, i);
      DeviceCount(m, paddr, src[..n]);
    } else {
      DeviceBytesMeaning(m, paddr, src[..n], k, i);
      DeviceBytesGrow(m, paddr, src);
    }
  }

  /** Two adjacent writes are one write of the concatenation. */
  lemma StoredThen(m: Layout, ram: seq<byte>, paddr: nat, a: seq<byte>, b: seq<byte>)
    ensures Stored(m, Stored(m, ram, paddr, a), paddr + |a|, b) == Stored(m, ram, paddr, a + b)
    ensures DeviceBytes(m, paddr, a + b) == DeviceBytes(m, paddr, a) + DeviceBytes(m, paddr + |a|, b)
    decreases |b|
  {
    hide RouteOf;
    DeviceBytesConcat(m, paddr, a, b);
  }

  lemma {:induction false} DeviceBytesConcat(m: Layout, paddr: nat, a: seq<byte>, b: seq<byte>)
    ensures DeviceBytes(m, paddr, a + b) == DeviceBytes(m, paddr, a) + DeviceBytes(m, paddr + |a|, b)
    decreases |b|
  {
    hide RouteOf;
    if b == [] {
      assert a + b == a;
    } else {
      var n := |b| - 1;
      assert (a + b)[..|a| + n] == a + b[..n];
      DeviceBytesConcat(m, paddr, a, b[..n]);
    }
  }

  lemma {:induction false} NoDeviceBytes(m: Layout, paddr: nat, src: seq<byte>)
    requires forall a | paddr <= a < paddr + |src| :: !RouteOf(m, a).ToMmio?
    ensures DeviceBytes(m, paddr, src) == []
    decreases |src|
  {
    hide RouteOf;
    if src == [] {
    } else {
      NoDeviceBytes(m, paddr, src[..|src| - 1]);
    }
  }

  lemma NoDeviceBytesPastTheEnd(m: Layout, paddr: nat, src: seq<byte>)
    requires Sound(m) && paddr >= U64
    ensures DeviceBytes(m, paddr, src) == []
  {
    forall x | paddr <= x < paddr + |src|
      ensures !RouteOf(m, x).ToMmio?
    {
      NothingPastTheEnd(m, x);
    }
    NoDeviceBytes(m, paddr, src);
  }

  lemma NothingStoredPastTheEnd(m: Layout, ram: seq<byte>, paddr: nat, a: seq<byte>, b: seq<byte>)
    requires Sound(m) && paddr + |a| >= U64 && |ram| == m.ramSize
    ensures Stored(m, ram, paddr, a + b) == Stored(m, ram, paddr, a)
    ensures DeviceBytes(m, paddr, a + b) == DeviceBytes(m, paddr, a)
  {
    hide RouteOf, Ordered;
    NoDeviceBytesPastTheEnd(m, paddr + |a|, b);
    DeviceBytesConcat(m, paddr, a, b);
    hide DeviceBytes;
    assert DeviceBytes(m, paddr, a) + [] == DeviceBytes(m, paddr, a);
  }

  lemma UniformStore(m: Layout, t: Target, ram: seq<byte>, addr: nat, src: seq<byte>)
    requires ServesAll(m, t, addr, |src|) && |ram| == m.ramSize && src != []
    ensures t.InRam? ==> addr + |src| <= |ram| && Stored(m, ram, addr, src) == ram[..addr] + src + ram[addr + |src|..]
    ensures !t.InRam? ==> Stored(m, ram, addr, src) == ram
  {
    hide RouteOf;
    assert Serves(m, t, addr + |src| - 1);
    forall a | addr <= a < addr + |src|
      ensures RouteOf(m, a) == ToRam(a) <==> t.InRam?
    {
      assert Serves(m, t, a);
    }
  }

  lemma {:induction false} UniformDevice(m: Layout, t: Target, addr: nat, src: seq<byte>)
    requires ServesAll(m, t, addr, |src|)
    ensures t.InMmio? && src != [] ==>
              t.i < |m.mmios| && m.mmios[t.i].start <= addr &&
              DeviceBytes(m, addr, src) == Placed(m.mmios[t.i].device, addr - m.mmios[t.i].start, src)
    ensures !t.InMmio? ==> DeviceBytes(m, addr, src) == []
    decreases |src|
  {
    hide RouteOf, Placed;
    if src == [] {
    } else {
      var n := |src| - 1;
      assert Serves(m, t, addr + n);
      assert Serves(m, t, addr);
      UniformDevice(m, t, addr, src[..n]);
      if t.InMmio? {
        PlacedLast(m.mmios[t.i].device, addr - m.mmios[t.i].start, src);
      }
    }
  }

  lemma PlacedLast(device: nat, offset: nat, src: seq<byte>)
    requires src != []
    ensures var n := |src| - 1;
            && Placed(device, offset, src) == Placed(device, offset, src[..n]) + [(device, offset + n, src[n])]
            && (n == 0 ==> Placed(device, offset, src[..n]) == [])
  {
  }

  // Chunks, as values

  /** The dispatch at one address: who serves it, and how many of the next `rem` bytes it serves. */
  function ChunkAt(m: Layout, addr: nat, rem: nat): (Target, int) {
    var ms, rs := MmioSpans(m.mmios), RomSpans(m.roms);
    var i, j := Find(ms, addr), Find(rs, addr);
    if i.Some? then (InMmio(i.value), ChunkTo(addr, m.mmios[i.value].end, rem) - addr)
    else if j.Some? then
      var r := m.roms[j.value];
      (InRom(j.value), ChunkTo(addr, MinStart(r.start + |r.data|, NextStart(ms, addr)), rem) - addr)
    else if addr < m.ramSize then
      (InRam, ChunkTo(addr, MinStart(MinStart(m.ramSize, NextStart(ms, addr)), NextStart(rs, addr)), rem) - addr)
    else
      (Unmapped, MinStart(MinStart(addr + rem, NextStart(ms, addr)), NextStart(rs, addr)) - addr)
  }

  lemma ChunkProgress(m: Layout, addr: nat, rem: nat)
    requires Sound(m) && addr < U64 && rem > 0
    ensures 0 < ChunkAt(m, addr, rem).1 <= rem
  {
    var ms, rs := MmioSpans(m.mmios), RomSpans(m.roms);
    hide Find, NextStart, Ordered;
    NextStartIsLater(ms, addr);
    NextStartIsLater(rs, addr);
    if Find(ms, addr).Some? {
      var i := Find(ms, addr).value;
      FindExact(ms, addr, i);
      EndsInRange(ms, i);
    } else if Find(rs, addr).Some? {
      var j := Find(rs, addr).value;
      FindExact(rs, addr, j);
      EndsInRange(rs, j);
    }
  }

  lemma EndsInRange(ss: seq<Span>, i: nat)
    requires Ordered(ss) && i < |ss|
    ensures ss[i].end < U64
  {
  }

  lemma ChunkServes(m: Layout, addr: nat, rem: nat, a: nat)
    requires Sound(m) && addr < U64 && rem > 0
    requires addr <= a < addr + ChunkAt(m, addr, rem).1
    ensures Serves(m, ChunkAt(m, addr, rem).0, a)
  {
    var ms, rs := MmioSpans(m.mmios), RomSpans(m.roms);
    hide Find, NextStart, Ordered, RouteOf, Serves;
    if Find(ms, addr).Some? {
      ServesMmio(m, addr, a);
    } else if Find(rs, addr).Some? {
      ServesRom(m, addr, a);
    } else if addr < m.ramSize {
      ServesRest(m, addr, m.ramSize, a);
    } else {
      ServesRest(m, addr, addr + rem, a);
    }
  }

  /** A chunk is never empty, never too long, and one party serves all of it. */
  lemma ChunkUniform(m: Layout, addr: nat, rem: nat)
    requires Sound(m) && addr < U64 && rem > 0
    ensures var (t, len) := ChunkAt(m, addr, rem); 0 < len <= rem && ServesAll(m, t, addr, len)
  {
    hide ChunkAt, Sound, Serves;
    ChunkProgress(m, addr, rem);
    var (t, len) := ChunkAt(m, addr, rem);
    forall a | addr <= a < addr + len
      ensures Serves(m, t, a)
    {
      ChunkServes(m, addr, rem, a);
    }
  }

  /** `[paddr, paddr + len)` is RAM only, by the cached bounds or by one look into each list. */
  predicate FastRange(m: Layout, maxRomEnd: nat, minMmioStart: nat, paddr: nat, len: nat) {
    var end := paddr + len;
    && end < U64 && end <= m.ramSize
    && ((paddr >= maxRomEnd && end <= minMmioStart)
        || (Clear(MmioSpans(m.mmios), paddr, end) && Clear(RomSpans(m.roms), paddr, end)))
  }

  ghost predicate Bounds(m: Layout, maxRomEnd: nat, minMmioStart: nat) {
    && (forall j | 0 <= j < |m.roms| :: RomSpan(m.roms[j]).end <= maxRomEnd)
    && (forall i | 0 <= i < |m.mmios| :: minMmioStart <= m.mmios[i].start)
  }

  lemma FastServes(m: Layout, maxRomEnd: nat, minMmioStart: nat, paddr: nat, len: nat)
    requires Sound(m) && Bounds(m, maxRomEnd, minMmioStart) && FastRange(m, maxRomEnd, minMmioStart, paddr, len)
    ensures ServesAll(m, InRam, paddr, len)
  {
    var ms, rs := MmioSpans(m.mmios), RomSpans(m.roms);
    forall a | paddr <= a < paddr + len
      ensures Serves(m, InRam, a)
    {
      if Clear(ms, paddr, paddr + len) && Clear(rs, paddr, paddr + len) {
        ClearMeansNothingFound(ms, paddr, paddr + len, a);
        ClearMeansNothingFound(rs, paddr, paddr + len, a);
      } else {
        RouteMeaning(m, a);
      }
    }
  }

  // Mapping, as values

  function InsertRom(roms: seq<Rom>, k: nat, r: Rom): seq<Rom>
    requires k <= |roms|
  {
    roms[..k] + [r] + roms[k..]
  }

  function InsertMmio(mmios: seq<Mmio>, k: nat, r: Mmio): seq<Mmio>
    requires k <= |mmios|
  {
    mmios[..k] + [r] + mmios[k..]
  }

  lemma InsertedOnce<T>(s: seq<T>, k: nat, x: T)
    requires k <= |s|
    ensures multiset(s[..k] + [x] + s[k..]) == multiset(s) + multiset{x}
    ensures forall y | y in s[..k] + [x] + s[k..] :: y == x || y in s
  {
    assert s == s[..k] + s[k..];
  }

  lemma InsertRomSpans(roms: seq<Rom>, k: nat, r: Rom)
    requires k <= |roms|
    ensures RomSpans(InsertRom(roms, k, r)) == InsertAt(RomSpans(roms), k, RomSpan(r))
    ensures multiset(InsertRom(roms, k, r)) == multiset(roms) + multiset{r}
    ensures forall x | x in InsertRom(roms, k, r) :: x == r || x in roms
  {
    InsertedOnce(roms, k, r);
    hide RomSpans;
    var after, spans := InsertRom(roms, k, r), InsertAt(RomSpans(roms), k, RomSpan(r));
    assert forall i | 0 <= i < |after| :: RomSpans(after)[i] == spans[i];
  }

  lemma InsertMmioSpans(mmios: seq<Mmio>, k: nat, r: Mmio)
    requires k <= |mmios|
    ensures MmioSpans(InsertMmio(mmios, k, r)) == InsertAt(MmioSpans(mmios), k, MmioSpan(r))
    ensures multiset(InsertMmio(mmios, k, r)) == multiset(mmios) + multiset{r}
    ensures forall x | x in InsertMmio(mmios, k, r) :: x == r || x in mmios
  {
    InsertedOnce(mmios, k, r);
    hide MmioSpans;
    var after, spans := InsertMmio(mmios, k, r), InsertAt(MmioSpans(mmios), k, MmioSpan(r));
    assert forall i | 0 <= i < |after| :: MmioSpans(after)[i] == spans[i];
  }

  /** A new ROM disturbs none of those there: each ends by its start or starts at its end or later. */
  predicate RomFree(roms: seq<Rom>, start: nat, end: nat) {
    forall j | 0 <= j < |roms| :: if roms[j].start < start then RomSpan(roms[j]).end <= start else end <= roms[j].start
  }

  predicate MmioFree(mmios: seq<Mmio>, start: nat, end: nat) {
    forall i | 0 <= i < |mmios| :: if mmios[i].start < start then mmios[i].end <= start else end <= mmios[i].start
  }

  lemma RomFits(roms: seq<Rom>, r: Rom)
    requires Ordered(RomSpans(roms)) && RomSpan(r).end < U64
    ensures Fits(RomSpans(roms), RomSpan(r)) <==> RomFree(roms, r.start, RomSpan(r).end)
    ensures Fits(RomSpans(roms), RomSpan(r)) ==>
              Ordered(RomSpans(InsertRom(roms, StartsBelow(RomSpans(roms), r.start), r)))
  {
    var spans := RomSpans(roms);
    FitsExact(spans, RomSpan(r));
    if Fits(spans, RomSpan(r)) {
      InsertRomSpans(roms, StartsBelow(spans, r.start), r);
      InsertKeepsOrder(spans, RomSpan(r));
    }
  }

  lemma MmioFits(mmios: seq<Mmio>, r: Mmio)
    requires Ordered(MmioSpans(mmios)) && r.start <= r.end < U64
    ensures Fits(MmioSpans(mmios), MmioSpan(r)) <==> MmioFree(mmios, r.start, r.end)
    ensures Fits(MmioSpans(mmios), MmioSpan(r)) ==>
              Ordered(MmioSpans(InsertMmio(mmios, StartsBelow(MmioSpans(mmios), r.start), r)))
  {
    var spans := MmioSpans(mmios);
    FitsExact(spans, MmioSpan(r));
    if Fits(spans, MmioSpan(r)) {
      InsertMmioSpans(mmios, StartsBelow(spans, r.start), r);
      InsertKeepsOrder(spans, MmioSpan(r));
    }
  }

  lemma InsertRomBound(roms: seq<Rom>, k: nat, r: Rom, bound: nat)
    requires k <= |roms| && RomSpan(r).end <= bound
    requires forall j | 0 <= j < |roms| :: RomSpan(roms[j]).end <= bound
    ensures forall j | 0 <= j < |InsertRom(roms, k, r)| :: RomSpan(InsertRom(roms, k, r)[j]).end <= bound
  {
  }

  lemma InsertMmioBound(mmios: seq<Mmio>, k: nat, r: Mmio, bound: nat)
    requires k <= |mmios| && bound <= r.start
    requires forall i | 0 <= i < |mmios| :: bound <= mmios[i].start
    ensures forall i | 0 <= i < |InsertMmio(mmios, k, r)| :: bound <= InsertMmio(mmios, k, r)[i].start
  {
  }

  class Bus {
    const device: Device
    const ram: array<byte>
    var roms: seq<Rom>
    var mmios: seq<Mmio>
    var maxRomEnd: nat
    var minMmioStart: nat
    var ops: seq<Op>

    constructor (device: Device, ram: array<byte>)
      requires ram.Length < U64
      ensures Valid() && this.device == device && this.ram == ram
      ensures roms == [] && mmios == [] && ops == []
    {
      this.device, this.ram := device, ram;
      roms, mmios, maxRomEnd, minMmioStart, ops := [], [], 0, U64 - 1, [];
    }

    function Map(): Layout
      reads this
    {
      Layout(roms, mmios, ram.Length)
    }

    /** The lists are ordered and the two cached bounds cover them. */
    ghost predicate Valid()
      reads this
    {
      Sound(Map()) && Bounds(Map(), maxRomEnd, minMmioStart)
    }

    /** Maps a ROM, or reports overflow or overlap: accepted exactly when the range stays within 64 bits
        and leaves every ROM already there alone. */
    method MapRom(start: nat, data: seq<byte>) returns (ok: bool)
      requires Valid() && start < U64
      modifies this`roms, this`maxRomEnd
      ensures Valid()
      ensures ok <==> start + |data| < U64 && RomFree(old(roms), start, start + |data|)
      ensures ok ==> multiset(roms) == multiset(old(roms)) + multiset{Rom(start, data)}
      ensures !ok ==> roms == old(roms)
    {
      hide Ordered, StartsBelow, InsertRom, InsertAt;
      var end := start + |data|;
      if end >= U64 {
        return false;
      }
      var r := Rom(start, data);
      RomFits(roms, r);
      var k := StartsBelow(RomSpans(roms), start);
      if (k > 0 && RomSpan(roms[k - 1]).end > start) || (k < |roms| && end > roms[k].start) {
        return false;
      }
      InsertRomSpans(roms, k, r);
      maxRomEnd := if end > maxRomEnd then end else maxRomEnd;
      InsertRomBound(roms, k, r, maxRomEnd);
      roms := InsertRom(roms, k, r);
      return true;
    }

    method MapMmio(start: nat, len: nat, device: nat) returns (ok: bool)
      requires Valid() && start < U64
      modifies this`mmios, this`minMmioStart
      ensures Valid()
      ensures ok <==> start + len < U64 && MmioFree(old(mmios), start, start + len)
      ensures ok ==> multiset(mmios) == multiset(old(mmios)) + multiset{Mmio(start, start + len, device)}
      ensures !ok ==> mmios == old(mmios)
    {
      hide Ordered, StartsBelow, InsertMmio, InsertAt;
      var end := start + len;
      if end >= U64 {
        return false;
      }
      var r := Mmio(start, end, device);
      MmioFits(mmios, r);
      var k := StartsBelow(MmioSpans(mmios), start);
      if (k > 0 && mmios[k - 1].end > start) || (k < |mmios| && end > mmios[k].start) {
        return false;
      }
      InsertMmioSpans(mmios, k, r);
      minMmioStart := if start < minMmioStart then start else minMmioStart;
      InsertMmioBound(mmios, k, r, minMmioStart);
      mmios := InsertMmio(mmios, k, r);
      return true;
    }

    /** Asks the device for `len` bytes, by the widest aligned accesses. */
    method ReadAccesses(id: nat, offset: nat, len: nat) returns (got: seq<byte>)
      modifies this`ops
      ensures |got| == len && forall k | 0 <= k < len :: got[k] == device(id, offset + k)
      ensures ops == old(ops) + Accesses(false, id, offset, got)
    {
      hide Accesses, AccessSize, Answers;
      ghost var all := Answers(device, id, offset, len);
      ghost var goal := ops + Accesses(false, id, offset, all);
      assert all[0..] == all;
      var pos := 0;
      got := [];
      while pos < len
        invariant 0 <= pos <= len && got == all[..pos]
        invariant goal == ops + Accesses(false, id, offset + pos, all[pos..])
      {
        var size := AccessSize(offset + pos, len - pos);
        var answer := Answers(device, id, offset + pos, size);
        AnswersPart(device, id, offset, len, pos, size);
        NextAccess(ops, false, id, offset, all, pos);
        AnswerMore(all, pos, size);
        ops := ops + [Op(false, id, offset + pos, answer)];
        got := got + answer;
        pos := pos + size;
      }
      assert got == all && all[len..] == [];
      NoAccesses(false, id, offset + len);
      AnswersAt(device, id, offset, len);
    }

    /** Reads `len` device bytes into `dst` from position `at`, each once and in order, by the widest aligned
        accesses. */
    method ReadMmioChunk(id: nat, offset: nat, dst: array<byte>, at: nat, len: nat)
      requires at + len <= dst.Length && dst != ram
      modifies dst, this`ops
      ensures forall k | 0 <= k < dst.Length ::
                dst[k] == if at <= k < at + len then device(id, offset + (k - at)) else old(dst[k])
      ensures ops == old(ops) + Accesses(false, id, offset, dst[at..at + len])
      ensures Expand(ops) == old(Expand(ops)) + Placed(id, offset, dst[at..at + len])
      ensures old(ops) <= ops && forall k | |old(ops)| <= k < |ops| :: Natural(ops[k]) && !ops[k].write
    {
      hide Expand, Placed, Natural, Accesses;
      var got := ReadAccesses(id, offset, len);
      forall k | 0 <= k < len {
        dst[at + k] := got[k];
      }
      assert dst[at..at + len] == got;
      AccessesExpand(old(ops), false, id, offset, got);
      AllNatural(old(ops), false, id, offset, got);
    }

    /** Writes the bytes to the device, in order, by the widest aligned accesses. */
    method WriteMmioChunk(id: nat, offset: nat, src: seq<byte>)
      modifies this`ops
      ensures ops == old(ops) + Accesses(true, id, offset, src)
      ensures Expand(ops) == old(Expand(ops)) + Placed(id, offset, src)
      ensures old(ops) <= ops && forall k | |old(ops)| <= k < |ops| :: Natural(ops[k]) && ops[k].write
    {
      hide Expand, Placed, Natural, Accesses, AccessSize;
      var pos := 0;
      assert src[0..] == src;
      while pos < |src|
        invariant 0 <= pos <= |src|
        invariant old(ops) + Accesses(true, id, offset, src) == ops + Accesses(true, id, offset + pos, src[pos..])
      {
        var size := AccessSize(offset + pos, |src| - pos);
        NextAccess(ops, true, id, offset, src, pos);
        ops := ops + [Op(true, id, offset + pos, src[pos..pos + size])];
        pos := pos + size;
      }
      assert src[|src|..] == [];
      NoAccesses(true, id, offset + |src|);
      AccessesExpand(old(ops), true, id, offset, src);
      AllNatural(old(ops), true, id, offset, src);
    }

    method ReadChunk(target: Target, addr: nat, dst: array<byte>, pos: nat, len: nat)
      requires Valid() && dst != ram && len > 0 && pos + len <= dst.Length
      requires ServesAll(Map(), target, addr, len)
      modifies dst, this`ops
      ensures forall k | 0 <= k < pos :: dst[k] == old(dst[k])
      ensures forall k | pos <= k < pos + len :: dst[k] == ByteAt(Map(), device, ram[..], addr + (k - pos))
      ensures Expand(ops) == old(Expand(ops)) + DeviceBytes(Map(), addr, dst[pos..pos + len])
      ensures old(ops) <= ops && forall k | |old(ops)| <= k < |ops| :: Natural(ops[k]) && !ops[k].write
    {
      hide RouteOf, Valid, Expand, DeviceBytes;
      ghost var m, memory, before := Map(), ram[..], Expand(ops);
      assert before + [] == before;
      assert Serves(m, target, addr);
      assert Serves(m, target, addr + len - 1);
      match target {
        case InMmio(i) =>
          ReadMmioChunk(mmios[i].device, addr - mmios[i].start, dst, pos, len);
        case InRom(j) =>
          var offset := addr - roms[j].start;
          forall k | pos <= k < pos + len {
            dst[k] := roms[j].data[offset + (k - pos)];
          }
        case InRam =>
          forall k | pos <= k < pos + len {
            dst[k] := ram[addr + (k - pos)];
          }
        case Unmapped =>
          forall k | pos <= k < pos + len {
            dst[k] := 0xFF;
          }
      }
      forall k | pos <= k < pos + len
        ensures dst[k] == ByteAt(m, device, memory, addr + (k - pos))
      {
        assert Serves(m, target, addr + (k - pos));
      }
      UniformDevice(m, target, addr, dst[pos..pos + len]);
    }

    /** The loop over chunks. */
    method ReadChunks(paddr: nat, dst: array<byte>)
      requires Valid() && paddr < U64 && dst != ram
      modifies dst, this`ops
      ensures Valid()
      ensures forall k | 0 <= k < dst.Length :: dst[k] == ByteAt(Map(), device, ram[..], paddr + k)
      ensures Expand(ops) == old(Expand(ops)) + DeviceBytes(Map(), paddr, dst[..])
      ensures old(ops) <= ops && forall k | |old(ops)| <= k < |ops| :: Natural(ops[k]) && !ops[k].write
    {
      hide RouteOf, Serves, ByteAt, ChunkAt, Sound, Bounds, ServesAll, Expand, DeviceBytes;
      ghost var m, memory, before := Map(), ram[..], Expand(ops);
      var pos := 0;
      StoredNothing(m, memory, paddr);
      assert dst[..0] == [] && before + [] == before;
      while pos < dst.Length
        invariant 0 <= pos <= dst.Length
        invariant Valid() && Map() == m && ram[..] == memory
        invariant forall k | 0 <= k < pos :: dst[k] == ByteAt(m, device, memory, paddr + k)
        invariant Expand(ops) == before + DeviceBytes(m, paddr, dst[..pos])
        invariant old(ops) <= ops && forall k | |old(ops)| <= k < |ops| :: Natural(ops[k]) && !ops[k].write
      {
        ghost var got := dst[..pos];
        var addr := paddr + pos;
        if addr >= U64 {
          forall k | pos <= k < dst.Length {
            dst[k] := 0xFF;
          }
          forall k | pos <= k < dst.Length
            ensures dst[k] == ByteAt(m, device, memory, paddr + k)
          {
            OnesPastTheEnd(m, device, memory, paddr + k);
          }
          assert ram[..] == memory;
          assert dst[..] == got + dst[pos..];
          NothingStoredPastTheEnd(m, memory, paddr, got, dst[pos..]);
          return;
        }
        ChunkUniform(m, addr, dst.Length - pos);
        var (target, len) := ChunkAt(Map(), addr, dst.Length - pos);
        ReadChunk(target, addr, dst, pos, len);
        forall k | pos <= k < pos + len
          ensures dst[k] == ByteAt(m, device, memory, paddr + k)
        {
          assert addr + (k - pos) == paddr + k;
        }
        DeviceBytesConcat(m, paddr, got, dst[pos..pos + len]);
        assert dst[..pos + len] == got + dst[pos..pos + len];
        Seqs.Assoc(before, DeviceBytes(m, paddr, got), DeviceBytes(m, addr, dst[pos..pos + len]));
        pos := pos + len;
      }
      assert dst[..dst.Length] == dst[..];
    }

    /** Reading a range gives, byte for byte, what stands there, and asks the devices for exactly their bytes, each once
        and in address order. */
    method ReadPhysical(paddr: nat, dst: array<byte>)
      requires Valid() && paddr < U64 && dst != ram
      modifies dst, this`ops
      ensures Valid()
      ensures forall k | 0 <= k < dst.Length :: dst[k] == ByteAt(Map(), device, ram[..], paddr + k)
      ensures forall k | 0 <= k < dst.Length :: ReadsAs(Map(), device, ram[..], paddr + k, dst[k])
      ensures Expand(ops) == old(Expand(ops)) + DeviceBytes(Map(), paddr, dst[..])
      ensures old(ops) <= ops && forall k | |old(ops)| <= k < |ops| :: Natural(ops[k]) && !ops[k].write
    {
      hide RouteOf, Serves, ByteAt, FastRange, Sound, Bounds, ServesAll, Expand, DeviceBytes, ReadsAs;
      ghost var m := Map();
      if dst.Length > 0 && FastRange(Map(), maxRomEnd, minMmioStart, paddr, dst.Length) {
        FastServes(m, maxRomEnd, minMmioStart, paddr, dst.Length);
        ReadChunk(InRam, paddr, dst, 0, dst.Length);
        assert dst[0..dst.Length] == dst[..];
      } else {
        ReadChunks(paddr, dst);
      }
      forall k | 0 <= k < dst.Length
        ensures ReadsAs(m, device, ram[..], paddr + k, dst[k])
      {
        ByteAtMeaning(m, device, ram[..], paddr + k);
      }
    }

    /** What one chunk of a write changes. */
    method WriteChunk(target: Target, addr: nat, src: seq<byte>)
      requires Valid() && src != [] && ServesAll(Map(), target, addr, |src|)
      modifies ram, this`ops
      ensures ram[..] == Stored(Map(), old(ram[..]), addr, src)
      ensures Expand(ops) == old(Expand(ops)) + DeviceBytes(Map(), addr, src)
      ensures old(ops) <= ops && forall k | |old(ops)| <= k < |ops| :: Natural(ops[k]) && ops[k].write
    {
      hide RouteOf, Valid, Expand;
      ghost var m, memory, sent := Map(), ram[..], Expand(ops);
      assert Serves(m, target, addr);
      assert Serves(m, target, addr + |src| - 1);
      UniformStore(m, target, memory, addr, src);
      UniformDevice(m, target, addr, src);
      match target {
        case InMmio(i) =>
          WriteMmioChunk(mmios[i].device, addr - mmios[i].start, src);
        case InRom(j) =>
          assert sent + [] == sent;
        case InRam =>
          forall k | 0 <= k < |src| {
            ram[addr + k] := src[k];
          }
          assert ram[..] == memory[..addr] + src + memory[addr + |src|..];
          assert sent + [] == sent;
        case Unmapped =>
          assert sent + [] == sent;
      }
    }

    /** Writing a range changes exactly the RAM bytes the reference assigns to RAM, leaves ROM alone, and
        hands the devices exactly their bytes, in address order. */
    method WritePhysical(paddr: nat, src: seq<byte>)
      requires Valid() && paddr < U64
      modifies ram, this`ops
      ensures Valid() && Map() == old(Map())
      ensures ram[..] == Stored(Map(), old(ram[..]), paddr, src)
      ensures forall a | 0 <= a < ram.Length ::
                ram[a] == if paddr <= a < paddr + |src| && !UnderMmio(Map(), a) && !UnderRom(Map(), a)
                          then src[a - paddr] else old(ram[a])
      ensures Expand(ops) == old(Expand(ops)) + DeviceBytes(Map(), paddr, src)
      ensures old(ops) <= ops && forall k | |old(ops)| <= k < |ops| :: Natural(ops[k]) && ops[k].write
    {
      hide Sound, Stored, DeviceBytes, Expand, UnderMmio, UnderRom;
      ghost var m, memory := Map(), ram[..];
      WriteChunks(paddr, src);
      forall a | 0 <= a < ram.Length
        ensures ram[a] == if paddr <= a < paddr + |src| && !UnderMmio(m, a) && !UnderRom(m, a) then src[a - paddr]
                          else memory[a]
      {
        StoredMeaning(m, memory, paddr, src, a);
        assert ram[..][a] == ram[a];
      }
    }

    /** The loop over chunks. */
    method WriteChunks(paddr: nat, src: seq<byte>)
      requires Valid() && paddr < U64
      modifies ram, this`ops
      ensures Valid() && Map() == old(Map())
      ensures ram[..] == Stored(Map(), old(ram[..]), paddr, src)
      ensures Expand(ops) == old(Expand(ops)) + DeviceBytes(Map(), paddr, src)
      ensures old(ops) <= ops && forall k | |old(ops)| <= k < |ops| :: Natural(ops[k]) && ops[k].write
    {
      hide RouteOf, Serves, ChunkAt, Sound, Bounds, ServesAll, Expand, Stored, DeviceBytes;
      ghost var m, memory, sent := Map(), ram[..], Expand(ops);
      var pos := 0;
      StoredNothing(m, memory, paddr);
      assert src[..0] == [] && sent + [] == sent;
      while pos < |src|
        invariant 0 <= pos <= |src|
        invariant Valid() && Map() == m
        invariant ram[..] == Stored(m, memory, paddr, src[..pos])
        invariant Expand(ops) == sent + DeviceBytes(m, paddr, src[..pos])
        invariant old(ops) <= ops && forall k | |old(ops)| <= k < |ops| :: Natural(ops[k]) && ops[k].write
      {
        var addr := paddr + pos;
        if addr >= U64 {
          NothingStoredPastTheEnd(m, memory, paddr, src[..pos], src[pos..]);
          assert src == src[..pos] + src[pos..];
          return;
        }
        ChunkUniform(m, addr, |src| - pos);
        var (target, len) := ChunkAt(Map(), addr, |src| - pos);
        var chunk := src[pos..pos + len];
        WriteChunk(target, addr, chunk);
        StoredThen(m, memory, paddr, src[..pos], chunk);
        assert src[..pos + len] == src[..pos] + chunk;
        Seqs.Assoc(sent, DeviceBytes(m, paddr, src[..pos]), DeviceBytes(m, addr, chunk));
        pos := pos + len;
      }
      assert src[..|src|] == src;
    }
  }
}
