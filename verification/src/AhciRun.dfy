/** AHCI commands from end to end: laid out in guest memory by the guest, found and carried out by the device. */
module AhciRun {
  import opened Bytes
  import opened Words
  import opened Wrappers
  import opened GuestMemory
  import opened AhciCommand
  import opened AhciSetup
  import opened AhciDma
  import opened AhciScatter

  // The device finds what the guest laid out

  /** The buffer is in memory, apart from the command header and the command table, and the table has room to
      describe it. */
  predicate BufferApart(size: nat, clb: nat, slot: nat, ctba: nat, n: nat, base: nat, len: nat) {
    && LaidOut(size, clb, slot, ctba, n) && size + 1 < U64
    && base + len <= size && len <= CHUNK * n
    && Apart(clb + 32 * slot, 16, base, len) && Apart(ctba, 0x80 + 16 * n, base, len)
  }

  lemma BufferKept(mem: seq<byte>, clb: nat, slot: nat, ctba: nat, write: bool, cfis: seq<byte>, prds: seq<Prd>,
                   base: nat, buf: seq<byte>)
    requires BufferApart(|mem|, clb, slot, ctba, |prds|, base, |buf|) && |cfis| == 64 && Holds(mem, base, buf)
    ensures Holds(Prepared(mem, clb, slot, ctba, write, cfis, prds), base, buf)
  {
    hide Write, WriteWords, WritePrds, Holds, WordBytes;
    var at, head := clb + 32 * slot, HeaderBytes(ctba, |prds|, write);
    WordsAreOneWrite(mem, at, Flags(|prds|, write), 0, ctba % U32, ctba / U32);
    var m1 := Write(mem, at, head);
    WriteKeeps(mem, at, head, base, buf);
    WriteKeeps(m1, ctba, cfis, base, buf);
    TableKeeps(Write(m1, ctba, cfis), ctba, prds, base, buf);
  }

  lemma PlanFits(base: nat, len: nat, n: nat)
    requires base + len + 1 < U64
    ensures AllExpressible(Plan(base, len, n)) && NoWrap(Plan(base, len, n))
  {
    forall i | 0 <= i < n
      ensures Expressible(PlanEntry(base, len, i)) && PlanEntry(base, len, i).dba + PlanEntry(base, len, i).dbc < U64
    {
      PlanTiles(base, len, i);
    }
  }

  /** A command laid out for a write: the descriptors the device finds stand for exactly the guest's buffer. */
  lemma GuestWriteArrives(mem: seq<byte>, clb: nat, slot: nat, ctba: nat, cfis: seq<byte>, n: nat, base: nat, len: nat)
    requires BufferApart(|mem|, clb, slot, ctba, n, base, len) && |cfis| == 64
    ensures var r := Prepared(mem, clb, slot, ctba, true, cfis, Plan(base, len, n));
            var prds := DevicePrds(r, ctba, n);
            && ReadHeader(r, clb + 32 * slot) == Header(ctba, n)
            && NoWrap(prds) && len <= Total(prds) && len <= |Gathered(r, prds)|
            && Gathered(r, prds)[..len] == mem[base..base + len]
  {
    hide Prepared, Plan, Holds, Gathered, DevicePrds, ReadHeader, AllExpressible, NoWrap, Total, Read;
    var plan, buf := Plan(base, len, n), mem[base..base + len];
    var r := Prepared(mem, clb, slot, ctba, true, cfis, plan);
    PlanFits(base, len, n);
    StructuresReadBack(mem, clb, slot, ctba, true, cfis, plan);
    PreparedHolds(mem, clb, slot, ctba, true, cfis, plan);
    HoldsItself(mem, base, len);
    BufferKept(mem, clb, slot, ctba, true, cfis, plan, base, buf);
    HoldsRead(r, base, buf);
    PlanGathers(r, base, len, n);
    GatheredTotal(r, plan);
  }

  lemma HoldsItself(mem: seq<byte>, base: nat, len: nat)
    requires base + len <= |mem|
    ensures Holds(mem, base, mem[base..base + len])
  {
  }

  ghost predicate TableStands(mem: seq<byte>, ctba: nat, prds: seq<Prd>) {
    forall i | 0 <= i < |prds| :: PrdHeld(mem, ctba, prds, i)
  }

  lemma StandsAt(mem: seq<byte>, ctba: nat, prds: seq<Prd>, i: nat)
    requires TableStands(mem, ctba, prds) && i < |prds|
    ensures Holds(mem, PrdAddress(ctba, i), PrdBytes(prds[i]))
  {
    hide Holds, PrdBytes;
    assert PrdHeld(mem, ctba, prds, i);
  }

  lemma TableStandsAfter(mem: seq<byte>, ctba: nat, prds: seq<Prd>, base: nat, buf: seq<byte>)
    requires TableStands(mem, ctba, prds) && Apart(ctba, 0x80 + 16 * |prds|, base, |buf|)
    ensures TableStands(Write(mem, base, buf), ctba, prds)
  {
    hide Write, Holds, PrdBytes;
    forall i | 0 <= i < |prds| ensures PrdHeld(Write(mem, base, buf), ctba, prds, i) {
      assert PrdHeld(mem, ctba, prds, i);
      WriteKeeps(mem, base, buf, PrdAddress(ctba, i), PrdBytes(prds[i]));
    }
  }

  /** A planned table is walked page by page: after `i` descriptors the first `i` pages of the stream are in the
      buffer. */
  lemma {:induction false} ScatterPlan(mem: seq<byte>, ctba: nat, i: nat, n: nat, base: nat, stream: seq<byte>)
    requires i <= n && |stream| <= CHUNK * n && base + |stream| + 1 < U64 && |mem| < U64
    requires Apart(ctba, 0x80 + 16 * n, base, |stream|) && PrdAddress(ctba, n) < U64
    requires TableStands(mem, ctba, Plan(base, |stream|, n))
    ensures var pos := Min(CHUNK * i, |stream|);
            Scatter(Write(mem, base, stream[..pos]), ctba, i, n, stream[pos..]) == Some((Write(mem, base, stream), []))
    decreases n - i
  {
    hide Write, Scatter, TableStands, ReadPrd, Plan, PrdBytes, Holds;
    var len := |stream|;
    var pos := Min(CHUNK * i, len);
    var now := Write(mem, base, stream[..pos]);
    if pos == len {
      assert stream[..pos] == stream && stream[pos..] == [];
      ScatterDone(now, ctba, i, n, stream[pos..]);
    } else {
      NextDescriptor(mem, ctba, i, n, base, stream, pos);
      var prd := PlanEntry(base, len, i);
      ScatterMore(now, ctba, i, n, stream, pos);
      WriteJoin(mem, base, stream[..pos], stream[pos..pos + prd.dbc]);
      assert stream[..pos] + stream[pos..pos + prd.dbc] == stream[..pos + prd.dbc];
      ScatterPlan(mem, ctba, i + 1, n, base, stream);
    }
  }

  /** Pages already filled did not reach the next descriptor. */
  lemma NextDescriptor(mem: seq<byte>, ctba: nat, i: nat, n: nat, base: nat, stream: seq<byte>, pos: nat)
    requires i < n && pos <= |stream| && base + |stream| + 1 < U64 && |mem| < U64
    requires Apart(ctba, 0x80 + 16 * n, base, |stream|) && PrdAddress(ctba, n) < U64
    requires TableStands(mem, ctba, Plan(base, |stream|, n))
    ensures ReadPrd(Write(mem, base, stream[..pos]), PrdAddress(ctba, i) % U64) == PlanEntry(base, |stream|, i)
  {
    hide Write, ReadPrd, PrdBytes, Holds, TableStands, Plan, PlanEntry, Expressible;
    var plan, now := Plan(base, |stream|, n), Write(mem, base, stream[..pos]);
    TableStandsAfter(mem, ctba, plan, base, stream[..pos]);
    StandsAt(now, ctba, plan, i);
    PlanTiles(base, |stream|, i);
    PrdReadsBack(now, PrdAddress(ctba, i), plan[i]);
  }

  /** A command laid out for a read: the device puts the disk's bytes into the guest's buffer and leaves the
      rest alone. */
  lemma GuestReadArrives(mem: seq<byte>, clb: nat, slot: nat, ctba: nat, cfis: seq<byte>, n: nat, base: nat,
                         stream: seq<byte>)
    requires BufferApart(|mem|, clb, slot, ctba, n, base, |stream|) && |cfis| == 64
    ensures var r := Prepared(mem, clb, slot, ctba, false, cfis, Plan(base, |stream|, n));
            && ReadHeader(r, clb + 32 * slot) == Header(ctba, n)
            && Scatter(r, ctba, 0, n, stream) == Some((Write(r, base, stream), []))
            && Holds(Write(r, base, stream), base, stream)
  {
    hide Prepared, Plan, Holds, Write, ReadHeader, AllExpressible, NoWrap, Scatter, DevicePrds, Read, PrdBytes;
    var plan := Plan(base, |stream|, n);
    var r := Prepared(mem, clb, slot, ctba, false, cfis, plan);
    PlanFits(base, |stream|, n);
    StructuresReadBack(mem, clb, slot, ctba, false, cfis, plan);
    PreparedHolds(mem, clb, slot, ctba, false, cfis, plan);
    forall i | 0 <= i < n ensures PrdHeld(r, ctba, plan, i) {
      DescriptorHeld(mem, clb, slot, ctba, false, cfis, plan, i);
    }
    ScatterPlan(r, ctba, 0, n, base, stream);
    WriteNothing(r, base);
    assert stream[..0] == [] && stream[0..] == stream;
    WriteHolds(r, base, stream);
  }

  lemma WriteNothing(mem: seq<byte>, at: nat)
    ensures Write(mem, at, []) == mem
  {
  }

  // The guest

  method WriteCmdHeaderTo(bus: FuzzBus, clb: nat, slot: nat, ctba: nat, prdtl: nat, write: bool)
    modifies bus.data
    ensures bus.data[..] == WriteCmdHeader(old(bus.data[..]), clb, slot, ctba, prdtl, write)
  {
    hide WriteWords;
    WriteWordsTo(bus, clb + 32 * slot, Flags(prdtl, write), 0, ctba % U32, ctba / U32);
  }

  /** Header, command FIS and descriptors, written into memory in this order. */
  method Prepare(bus: FuzzBus, clb: nat, slot: nat, ctba: nat, write: bool, cfis: seq<byte>, n: nat, base: nat,
                 len: nat)
    requires base < U64
    modifies bus.data
    ensures bus.data[..] == Prepared(old(bus.data[..]), clb, slot, ctba, write, cfis, Plan(base, len, n))
  {
    hide WriteCmdHeader, Write, WritePrds, Plan;
    WriteCmdHeaderTo(bus, clb, slot, ctba, n, write);
    bus.WritePhysical(ctba, cfis);
    WriteTable(bus, ctba, base, len, n);
  }

  // The device

  datatype SlotError = BadFis | Transfer(error: DmaError) | OtherCommand

  predicate IsWriteExt(command: byte) {
    command == 0x35 || command == 0x34
  }

  predicate IsReadExt(command: byte) {
    command == 0x25 || command == 0x24
  }

  /** The register FIS sent to the host when a command ends. */
  function D2hFis(status: byte, error: byte): (s: seq<byte>)
    ensures |s| == 20
  {
    [0x34, 0x40, status, error] + Zeros(16)
  }

  /** Memory after a command has been completed: its byte count in the header, and the FIS in the receive area. */
  function Completed(mem: seq<byte>, at: nat, fb: nat, bytes: nat): (r: seq<byte>)
    ensures |r| == |mem|
  {
    Write(Write(mem, (at + 4) % U64, U32Bytes(bytes)), (fb + 0x40) % U64, D2hFis(0x50, 0))
  }

  /** Command header and receive area lie in memory, apart from each other. */
  predicate SlotApart(size: nat, at: nat, fb: nat) {
    at + 16 <= size < U64 && fb + 0x54 <= size && Apart(at, 16, fb + 0x40, 20)
  }

  /** What completing a command does to memory: the second word of the header counts the bytes, the device finds the
      rest of the header as it was, the receive area holds the register FIS with status 0x50 and no error, and every
      other byte is as before. */
  ghost predicate CompletionStands(before: seq<byte>, after: seq<byte>, at: nat, fb: nat, bytes: nat) {
    && |after| == |before| && fb + 0x54 <= |after|
    && Has32(after, at + 4, bytes) && ReadHeader(after, at) == ReadHeader(before, at)
    && after[fb + 0x40..fb + 0x44] == [0x34, 0x40, 0x50, 0]
    && (forall k | fb + 0x44 <= k < fb + 0x54 :: after[k] == 0)
    && forall k | 0 <= k < |after| && !(at + 4 <= k < at + 8) && !(fb + 0x40 <= k < fb + 0x54) :: after[k] == before[k]
  }

  lemma SameWord(mem: seq<byte>, other: seq<byte>, at: nat)
    requires |mem| == |other| && at + 4 <= |mem| < U64 && forall k | at <= k < at + 4 :: mem[k] == other[k]
    ensures ReadU32(mem, at) == ReadU32(other, at)
  {
    hide Read, FromLittleEndian;
    var x, y := Read(mem, at, 4), Read(other, at, 4);
    forall k | 0 <= k < 4 ensures x[k] == y[k] {
      ReadExact(mem, at, 4, k);
      ReadExact(other, at, 4, k);
    }
    assert x == y;
  }

  lemma CompletedAt(mem: seq<byte>, at: nat, fb: nat, bytes: nat, k: nat)
    requires SlotApart(|mem|, at, fb) && k < |mem|
    ensures Completed(mem, at, fb, bytes)[k] ==
            if fb + 0x40 <= k < fb + 0x54 then D2hFis(0x50, 0)[k - (fb + 0x40)]
            else if at + 4 <= k < at + 8 then U32Bytes(bytes)[k - (at + 4)]
            else mem[k]
  {
    hide Write, U32Bytes, D2hFis;
    var first := Write(mem, at + 4, U32Bytes(bytes));
    WriteExact(mem, at + 4, U32Bytes(bytes), k);
    WriteExact(first, fb + 0x40, D2hFis(0x50, 0), k);
  }

  lemma CompletionExact(mem: seq<byte>, at: nat, fb: nat, bytes: nat)
    requires SlotApart(|mem|, at, fb) && bytes < U32
    ensures CompletionStands(mem, Completed(mem, at, fb, bytes), at, fb, bytes)
  {
    hide Completed, U32Bytes, ReadU32, Has32;
    var r := Completed(mem, at, fb, bytes);
    forall k | 0 <= k < |mem|
      ensures r[k] == if fb + 0x40 <= k < fb + 0x54 then D2hFis(0x50, 0)[k - (fb + 0x40)]
                      else if at + 4 <= k < at + 8 then U32Bytes(bytes)[k - (at + 4)]
                      else mem[k]
    {
      CompletedAt(mem, at, fb, bytes, k);
    }
    SameWord(r, mem, at);
    SameWord(r, mem, at + 8);
    SameWord(r, mem, at + 12);
    assert r[fb + 0x40..fb + 0x44] == [0x34, 0x40, 0x50, 0];
    CountStands(r, at + 4, bytes);
  }

  lemma CountStands(mem: seq<byte>, at: nat, n: nat)
    requires at + 4 <= |mem| && n < U32 && forall k | at <= k < at + 4 :: mem[k] == U32Bytes(n)[k - at]
    ensures Has32(mem, at, n)
  {
    hide U32Bytes, Has32;
    var s := U32Bytes(n);
    Put32([], n, []);
    assert [] + s + [] == s && s == mem[at..at + 4];
    Cut32(mem, at, s, 0, n);
  }

  method CompleteCommand(bus: FuzzBus, at: nat, fb: nat, bytes: nat)
    requires bytes < U32
    modifies bus.data
    ensures bus.data[..] == Completed(old(bus.data[..]), at, fb, bytes)
    ensures SlotApart(bus.data.Length, at, fb) ==> CompletionStands(old(bus.data[..]), bus.data[..], at, fb, bytes)
  {
    hide Write, U32Bytes, CompletionStands;
    ghost var mem := bus.data[..];
    bus.WritePhysical((at + 4) % U64, U32Bytes(bytes));
    bus.WritePhysical((fb + 0x40) % U64, D2hFis(0x50, 0));
    if SlotApart(bus.data.Length, at, fb) {
      CompletionExact(mem, at, fb, bytes);
    }
  }

  method ReadHeaderFrom(bus: FuzzBus, at: nat) returns (h: Header)
    ensures h == ReadHeader(bus.data[..], at)
  {
    hide Read, FromLittleEndian;
    var flags := bus.ReadPhysical(at, 4);
    var lo := bus.ReadPhysical((at + 8) % U64, 4);
    var hi := bus.ReadPhysical((at + 12) % U64, 4);
    return Header(FromLittleEndian(lo) + U32 * FromLittleEndian(hi), FromLittleEndian(flags) / 65536 % 65536);
  }

  /** What a slot holds: its header, its command FIS, and the block range it asks for. */
  datatype Command = Command(at: nat, header: Header, cfis: seq<byte>, lba: nat, count: nat)

  function CommandIn(mem: seq<byte>, clb: nat, slot: nat): (c: Command)
    ensures |c.cfis| == 64
  {
    var at := (clb + 32 * slot) % U64;
    var header := ReadHeader(mem, at);
    var cfis := Read(mem, header.ctba, 64);
    Command(at, header, cfis, ExtractLba48(cfis), ExtractSectorCount(cfis))
  }

  /** One command slot, for the commands that transfer sectors under a 48-bit address. */
  method ProcessSlot(bus: FuzzBus, clb: nat, fb: nat, slot: nat, drive: Drive)
    returns (r: Result<(), SlotError>, ghost sent: seq<byte>)
    requires |drive.disk| < U64
    modifies bus.data, drive
    ensures |drive.disk| == |old(drive.disk)|
    ensures var mem := old(bus.data[..]); var c := CommandIn(mem, clb, slot); var bytes := SECTOR * c.count;
            && (c.cfis[0] != 0x27 ==> r == Err(BadFis) && bus.data[..] == mem && drive.disk == old(drive.disk))
            && (c.cfis[0] == 0x27 && c.cfis[2] !in {0x24, 0x25, 0x34, 0x35} ==>
                  r == Err(OtherCommand) && bus.data[..] == mem && drive.disk == old(drive.disk))
            && (c.cfis[0] == 0x27 && c.cfis[2] in {0x34, 0x35} ==>
                  var prds := DevicePrds(mem, c.header.ctba, c.header.prdtl);
                  && bus.data[..] == (if r.Ok? then Completed(mem, c.at, fb, bytes) else mem)
                  && (r.Ok? && SlotApart(|mem|, c.at, fb) ==> CompletionStands(mem, bus.data[..], c.at, fb, bytes))
                  && (r.Ok? <==> (&& 0 < c.header.prdtl <= MAX_PRDS && bytes <= Total(prds)
                                  && SECTOR * c.lba + bytes <= |drive.disk|))
                  && SectorsStored(old(drive.disk), drive.disk, SECTOR * c.lba, sent, Fetch(mem, prds, 0, bytes, 0))
                  && (r.Ok? ==> sent == Fetch(mem, prds, 0, bytes, 0))
                  && (c.header.prdtl > MAX_PRDS ==> r == Err(Transfer(TableTooLarge)) && sent == [])
                  && (c.header.prdtl <= MAX_PRDS && r.Err? ==>
                        && r.error.Transfer?
                        && WriteEnds(Err(r.error.error), prds, bytes, SECTOR * c.lba, |drive.disk|, sent,
                                     Fetch(mem, prds, 0, bytes, 0))))
            && (c.cfis[0] == 0x27 && c.cfis[2] in {0x24, 0x25} ==>
                  && drive.disk == old(drive.disk)
                  && (c.header.prdtl == 0 ==> r == Err(Transfer(TableTooSmall)) && bus.data[..] == mem)
                  && (c.header.prdtl > MAX_PRDS ==> r == Err(Transfer(TableTooLarge)) && bus.data[..] == mem)
                  && (0 < c.header.prdtl <= MAX_PRDS ==>
                        var end := Fill(mem, c.header.ctba, 0, c.header.prdtl, bytes, 0, Available(drive.disk, c.lba));
                        && r == (match end
                                 case Finished(_) => Ok(())
                                 case TableShort(_) => Err(Transfer(TableTooSmall))
                                 case DiskShort(_) => Err(Transfer(DiskError)))
                        && bus.data[..] == (if r.Ok? then Completed(end.mem, c.at, fb, bytes) else end.mem)
                        && (r.Ok? && SlotApart(|mem|, c.at, fb) ==>
                              CompletionStands(end.mem, bus.data[..], c.at, fb, bytes))))
  {
    hide ReadHeader, Read, Fetch, Fill, Available, DevicePrds, SectorsStored, Completed, Total, ExtractLba48,
        ExtractSectorCount, WriteEnds, SlotApart, CompletionStands;
    var at := (clb + 32 * slot) % U64;
    var header := ReadHeaderFrom(bus, at);
    var cfis := bus.ReadPhysical(header.ctba, 64);
    if cfis[0] != 0x27 {
      return Err(BadFis), [];
    }
    sent := [];
    var lba, count := ExtractLba48(cfis), ExtractSectorCount(cfis);
    SomeSectors(cfis);
    var done;
    if IsWriteExt(cfis[2]) {
      ghost var disk, mem := drive.disk, bus.data[..];
      done, sent := DmaWrite(bus.data[..], header, drive, lba, count);
      StoredSize(disk, drive.disk, SECTOR * lba, sent,
                 Fetch(mem, DevicePrds(mem, header.ctba, header.prdtl), 0, SECTOR * count, 0));
    } else if IsReadExt(cfis[2]) {
      done := DmaRead(bus, header, drive, lba, count);
    } else {
      return Err(OtherCommand), [];
    }
    if done.Err? {
      return Err(Transfer(done.error)), sent;
    }
    CompleteCommand(bus, at, fb, SECTOR * count);
    return Ok(()), sent;
  }

  lemma SomeSectors(cfis: seq<byte>)
    requires |cfis| == 64
    ensures 0 < ExtractSectorCount(cfis) <= 0x1_0000
  {
  }

  // Guest and device together

  predicate Issued(size: nat, disk: nat, clb: nat, slot: nat, ctba: nat, n: nat, base: nat, lba: nat, count: nat) {
    && BufferApart(size, clb, slot, ctba, n, base, SECTOR * count) && 0 < n <= MAX_PRDS
    && lba < 0x1_0000_0000_0000 && 0 < count <= 65536 && SECTOR * (lba + count) <= disk < U64
  }

  /** The device finds the command the guest laid out. */
  lemma CommandFound(mem: seq<byte>, clb: nat, slot: nat, ctba: nat, write: bool, command: byte, features: byte, n: nat,
                     base: nat, lba: nat, count: nat)
    requires Issued(|mem|, SECTOR * (lba + count), clb, slot, ctba, n, base, lba, count)
    ensures var cfis := Cfis(command, features, lba, count);
            var r := Prepared(mem, clb, slot, ctba, write, cfis, Plan(base, SECTOR * count, n));
            && CommandIn(r, clb, slot) == Command(clb + 32 * slot, Header(ctba, n), cfis, lba, count)
            && cfis[0] == 0x27 && cfis[2] == command
  {
    hide Prepared, Plan, ReadHeader, Read, ExtractLba48, ExtractSectorCount, Cfis, DevicePrds, AllExpressible, NoWrap;
    PlanFits(base, SECTOR * count, n);
    CfisStart(command, features, lba, count);
    CfisReadsBack(command, features, lba, count);
    StructuresReadBack(mem, clb, slot, ctba, write, Cfis(command, features, lba, count), Plan(base, SECTOR * count, n));
  }

  /** The guest finds its command completed: the bytes counted in its header, and the register FIS received. */
  predicate Answered(mem: seq<byte>, at: nat, fb: nat, bytes: nat) {
    && Has32(mem, at + 4, bytes)
    && fb + 0x54 <= |mem| && mem[fb + 0x40..fb + 0x44] == [0x34, 0x40, 0x50, 0]
  }

  /** A byte of memory that belongs neither to the command's header and table nor to its buffer nor to the receive
      area. */
  predicate Elsewhere(k: nat, at: nat, ctba: nat, n: nat, base: nat, len: nat, fb: nat) {
    && Apart(at, 16, k, 1) && Apart(ctba, 0x80 + 16 * n, k, 1) && Apart(base, len, k, 1) && Apart(fb + 0x40, 20, k, 1)
  }

  ghost predicate Untouched(before: seq<byte>, after: seq<byte>, at: nat, ctba: nat, n: nat, base: nat, len: nat,
                            fb: nat) {
    |before| == |after|
    && forall k: nat | k < |before| && Elsewhere(k, at, ctba, n, base, len, fb) :: after[k] == before[k]
  }

  lemma PreparedElsewhere(mem: seq<byte>, clb: nat, slot: nat, ctba: nat, write: bool, cfis: seq<byte>, prds: seq<Prd>,
                          k: nat)
    requires LaidOut(|mem|, clb, slot, ctba, |prds|) && |cfis| == 64 && k < |mem|
    requires Apart(clb + 32 * slot, 16, k, 1) && Apart(ctba, 0x80 + 16 * |prds|, k, 1)
    ensures |Prepared(mem, clb, slot, ctba, write, cfis, prds)| == |mem|
    ensures Prepared(mem, clb, slot, ctba, write, cfis, prds)[k] == mem[k]
  {
    hide Write, WriteWords, WritePrds, WordBytes;
    var at, head, kept := clb + 32 * slot, HeaderBytes(ctba, |prds|, write), [mem[k]];
    WordsAreOneWrite(mem, at, Flags(|prds|, write), 0, ctba % U32, ctba / U32);
    var m1 := Write(mem, at, head);
    assert Holds(mem, k, kept);
    WriteKeeps(mem, at, head, k, kept);
    WriteKeeps(m1, ctba, cfis, k, kept);
    TableKeeps(Write(m1, ctba, cfis), ctba, prds, k, kept);
    assert Prepared(mem, clb, slot, ctba, write, cfis, prds)[k..k + 1][0] == kept[0];
  }

  /** Nothing else changes: neither laying the command out nor carrying it out nor completing it. */
  lemma GuestServed(mem: seq<byte>, clb: nat, slot: nat, ctba: nat, write: bool, cfis: seq<byte>, prds: seq<Prd>,
                    base: nat, buf: seq<byte>, fb: nat, bytes: nat, after: seq<byte>)
    requires LaidOut(|mem|, clb, slot, ctba, |prds|) && |cfis| == 64
    requires var ready := Prepared(mem, clb, slot, ctba, write, cfis, prds);
             CompletionStands(Write(ready, base, buf), after, clb + 32 * slot, fb, bytes)
    ensures Answered(after, clb + 32 * slot, fb, bytes)
    ensures Untouched(mem, after, clb + 32 * slot, ctba, |prds|, base, |buf|, fb)
  {
    hide Prepared, Write, Has32, ReadHeader;
    var ready := Prepared(mem, clb, slot, ctba, write, cfis, prds);
    PreparedHolds(mem, clb, slot, ctba, write, cfis, prds);
    forall k: nat | k < |mem| && Elsewhere(k, clb + 32 * slot, ctba, |prds|, base, |buf|, fb)
      ensures after[k] == mem[k]
    {
      PreparedElsewhere(mem, clb, slot, ctba, write, cfis, prds, k);
      WriteExact(ready, base, buf, k);
    }
  }

  /** A guest writes: what is in its buffer when it issues the command is on the disk, from its block address on, and
      nothing else on the disk changed. */
  method GuestWrites(bus: FuzzBus, drive: Drive, clb: nat, slot: nat, ctba: nat, fb: nat, n: nat, base: nat, lba: nat,
                     count: nat, command: byte, features: byte)
    returns (r: Result<(), SlotError>)
    requires Issued(bus.data.Length, |drive.disk|, clb, slot, ctba, n, base, lba, count) && command in {0x34, 0x35}
    modifies bus.data, drive
    ensures r.Ok?
    ensures SlotApart(bus.data.Length, clb + 32 * slot, fb) ==>
              && Answered(bus.data[..], clb + 32 * slot, fb, 512 * count)
              && Untouched(old(bus.data[..]), bus.data[..], clb + 32 * slot, ctba, n, base, 0, fb)
    ensures drive.disk == Stored(old(drive.disk), SECTOR * lba, old(bus.data[..])[base..base + SECTOR * count])
    ensures |drive.disk| == |old(drive.disk)|
    ensures forall k | 0 <= k < |drive.disk| ::
              drive.disk[k] == if 512 * lba <= k < 512 * (lba + count) then old(bus.data[base + (k - 512 * lba)])
                               else old(drive.disk[k])
  {
    hide Prepared, Plan, CommandIn, Fetch, Fill, Available, DevicePrds, Completed, Total, Gathered, ReadHeader,
        Stored, NoWrap, Cfis, SlotApart, CompletionStands, Answered, Untouched;
    ghost var mem, disk0 := bus.data[..], drive.disk;
    var cfis := Cfis(command, features, lba, count);
    Prepare(bus, clb, slot, ctba, true, cfis, n, base, SECTOR * count);
    CommandFound(mem, clb, slot, ctba, true, command, features, n, base, lba, count);
    GuestWriteArrives(mem, clb, slot, ctba, cfis, n, base, SECTOR * count);
    ghost var ready := bus.data[..];
    ghost var prds := DevicePrds(ready, ctba, n);
    FetchMeaning(ready, prds, SECTOR * count);
    WriteNothing(ready, base);
    ghost var sent;
    r, sent := ProcessSlot(bus, clb, fb, slot, drive);
    if SlotApart(|mem|, clb + 32 * slot, fb) {
      GuestServed(mem, clb, slot, ctba, true, cfis, Plan(base, SECTOR * count, n), base, [], fb, SECTOR * count,
                  bus.data[..]);
    }
    forall k | 0 <= k < |drive.disk|
      ensures drive.disk[k] == if 512 * lba <= k < 512 * (lba + count) then mem[base + (k - 512 * lba)] else disk0[k]
    {
      StoredExact(disk0, SECTOR * lba, mem[base..base + SECTOR * count], k);
    }
  }

  /** A guest reads: its buffer holds the sectors it asked for, and the disk is as it was. */
  method GuestReads(bus: FuzzBus, drive: Drive, clb: nat, slot: nat, ctba: nat, fb: nat, n: nat, base: nat, lba: nat,
                    count: nat, command: byte, features: byte)
    returns (r: Result<(), SlotError>)
    requires Issued(bus.data.Length, |drive.disk|, clb, slot, ctba, n, base, lba, count) && command in {0x24, 0x25}
    requires fb + 0x40 < U64 && Apart(fb + 0x40, 20, base, SECTOR * count)
    modifies bus.data, drive
    ensures r.Ok? && drive.disk == old(drive.disk)
    ensures SlotApart(bus.data.Length, clb + 32 * slot, fb) ==>
              && Answered(bus.data[..], clb + 32 * slot, fb, 512 * count)
              && Untouched(old(bus.data[..]), bus.data[..], clb + 32 * slot, ctba, n, base, 512 * count, fb)
    ensures bus.data[base..base + SECTOR * count] == drive.disk[SECTOR * lba..SECTOR * (lba + count)]
  {
    hide Prepared, Plan, CommandIn, Fetch, Fill, Available, DevicePrds, Completed, Total, Scatter, ReadHeader, Write,
        Cfis, Holds, SlotApart, CompletionStands, Answered, Untouched;
    ghost var mem := bus.data[..];
    ghost var stream := drive.disk[SECTOR * lba..SECTOR * (lba + count)];
    var cfis := Cfis(command, features, lba, count);
    Prepare(bus, clb, slot, ctba, false, cfis, n, base, SECTOR * count);
    CommandFound(mem, clb, slot, ctba, false, command, features, n, base, lba, count);
    GuestReadArrives(mem, clb, slot, ctba, cfis, n, base, stream);
    SectorsFound(drive.disk, lba, count);
    FillIsScatter(bus.data[..], ctba, 0, n, SECTOR * count, 0, Available(drive.disk, lba));
    ghost var filled := Write(bus.data[..], base, stream);
    ghost var sent;
    r, sent := ProcessSlot(bus, clb, fb, slot, drive);
    CompletedSpares(filled, clb + 32 * slot, fb, SECTOR * count, base, stream);
    if SlotApart(|mem|, clb + 32 * slot, fb) {
      GuestServed(mem, clb, slot, ctba, false, cfis, Plan(base, SECTOR * count, n), base, stream, fb, SECTOR * count,
                  bus.data[..]);
    }
  }

  lemma SectorsFound(disk: seq<byte>, lba: nat, count: nat)
    requires SECTOR * (lba + count) <= |disk|
    ensures SECTOR * count <= |Available(disk, lba)|
    ensures Available(disk, lba)[..SECTOR * count] == disk[SECTOR * lba..SECTOR * (lba + count)]
  {
  }

  /** Completing a command leaves the buffer alone. */
  lemma CompletedSpares(mem: seq<byte>, at: nat, fb: nat, bytes: nat, base: nat, buf: seq<byte>)
    requires Holds(mem, base, buf) && at + 16 < U64 && fb + 0x40 < U64
    requires Apart(at, 16, base, |buf|) && Apart(fb + 0x40, 20, base, |buf|)
    ensures Completed(mem, at, fb, bytes)[base..base + |buf|] == buf
  {
    hide Write, U32Bytes, D2hFis;
    WriteKeeps(mem, at + 4, U32Bytes(bytes), base, buf);
    WriteKeeps(Write(mem, at + 4, U32Bytes(bytes)), fb + 0x40, D2hFis(0x50, 0), base, buf);
  }
}
