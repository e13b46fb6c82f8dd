/** DMA from disk to guest memory. */
module AhciScatter {
  import opened Bytes
  import opened Words
  import opened Wrappers
  import opened GuestMemory
  import opened AhciCommand
  import opened AhciDma

  // The disk as a stream

  /** The whole sectors of the disk from a block address on. */
  function Available(disk: seq<byte>, lba: nat): seq<byte> {
    if SECTOR * lba <= |disk| then disk[SECTOR * lba..|disk| / SECTOR * SECTOR] else []
  }

  /** The bytes still to come: the rest of a begun sector, then the sectors from `lba` on. */
  function Ahead(disk: seq<byte>, lba: nat, pending: seq<byte>): seq<byte> {
    pending + Available(disk, lba)
  }

  /** How far one step of the scatter loop gets. */
  function ScatterStep(pending: nat, left: nat): (take: nat)
    requires pending < SECTOR && left > 0
    ensures 0 < take <= left
  {
    if pending > 0 then Min(pending, left) else if left >= SECTOR then WholeSectors(left) else left
  }

  /** How much of a begun sector is pending after such a step. */
  function StillPending(pending: nat, left: nat): (p: nat)
    requires pending < SECTOR && left > 0
    ensures p < SECTOR
  {
    if pending > 0 then pending - Min(pending, left) else if left >= SECTOR then 0 else SECTOR - left
  }

  /** The next bytes of the stream: from the begun sector, as whole sectors, or from the front of a new sector. */
  method ReadStep(drive: Drive, lba: nat, pending: seq<byte>, left: nat)
    returns (ok: bool, lba': nat, pending': seq<byte>, bytes: seq<byte>)
    requires |pending| < SECTOR && left > 0 && |drive.disk| < U64
    ensures var ahead, take := Ahead(drive.disk, lba, pending), ScatterStep(|pending|, left);
            && (ok <==> take <= |ahead|)
            && (ok ==> bytes == ahead[..take] && Ahead(drive.disk, lba', pending') == ahead[take..])
            && (ok ==> |pending'| == StillPending(|pending|, left))
  {
    var take := ScatterStep(|pending|, left);
    if pending != [] {
      FromBegun(drive.disk, lba, pending, take);
      return true, lba, pending[take..], pending[..take];
    }
    var n := if left >= SECTOR then take else SECTOR;
    SectorsAhead(drive.disk, lba, n);
    var got := drive.ReadSectors(lba, n);
    if got.None? {
      return false, lba, [], [];
    }
    FromSectors(drive.disk, lba, n, take);
    return true, lba + n / SECTOR, got.value[take..], got.value[..take];
  }

  lemma FromBegun(disk: seq<byte>, lba: nat, pending: seq<byte>, take: nat)
    requires take <= |pending|
    ensures Ahead(disk, lba, pending)[..take] == pending[..take]
    ensures Ahead(disk, lba, pending[take..]) == Ahead(disk, lba, pending)[take..]
  {
    hide Available;
  }

  /** Whole sectors are there exactly when the disk has them. */
  lemma SectorsAhead(disk: seq<byte>, lba: nat, n: nat)
    requires n % SECTOR == 0 && n > 0
    ensures |Available(disk, lba)| % SECTOR == 0
    ensures n <= |Available(disk, lba)| <==> SECTOR * lba + n <= |disk|
  {
  }

  lemma FromSectors(disk: seq<byte>, lba: nat, n: nat, take: nat)
    requires n % SECTOR == 0 && take <= n && SECTOR * lba + n <= |disk|
    ensures var got := disk[SECTOR * lba..SECTOR * lba + n];
            && n <= |Available(disk, lba)| && got[..take] == Ahead(disk, lba, [])[..take]
            && Ahead(disk, lba + n / SECTOR, got[take..]) == Ahead(disk, lba, [])[take..]
  {
    hide Available;
    var got, rest := disk[SECTOR * lba..SECTOR * lba + n], Available(disk, lba + n / SECTOR);
    SectorsThenRest(disk, lba, n);
    TakenFrom(got, rest, take);
    assert [] + Available(disk, lba) == got + rest;
  }

  lemma TakenFrom(got: seq<byte>, rest: seq<byte>, take: nat)
    requires take <= |got|
    ensures (got + rest)[..take] == got[..take] && (got + rest)[take..] == got[take..] + rest
  {
  }

  lemma SectorsThenRest(disk: seq<byte>, lba: nat, n: nat)
    requires n % SECTOR == 0 && SECTOR * lba + n <= |disk|
    ensures Available(disk, lba) == disk[SECTOR * lba..SECTOR * lba + n] + Available(disk, lba + n / SECTOR)
  {
    var end := |disk| / SECTOR * SECTOR;
    assert SECTOR * (lba + n / SECTOR) == SECTOR * lba + n <= end;
  }

  // What a transfer does to memory

  /** One descriptor filled piece by piece, until its bytes or the stream's run out: the memory then, the stream
      left, the rest of a begun sector, and whether the descriptor was served. */
  datatype Filled = Filled(mem: seq<byte>, stream: seq<byte>, pending: nat, served: bool)

  function FillPieces(mem: seq<byte>, dba: nat, off: nat, left: nat, pending: nat, stream: seq<byte>): (f: Filled)
    requires pending < SECTOR
    ensures f.pending < SECTOR && |f.mem| == |mem|
    decreases left
  {
    if left == 0 then Filled(mem, stream, pending, true)
    else
      var take := ScatterStep(pending, left);
      if take > |stream| then Filled(mem, stream, pending, false)
      else
        FillPieces(Write(mem, WrappingAdd(dba, off), stream[..take]), dba, off + take, left - take,
                   StillPending(pending, left), stream[take..])
  }

  datatype Outcome = Finished(mem: seq<byte>) | TableShort(mem: seq<byte>) | DiskShort(mem: seq<byte>)

  /** The whole transfer of `left` bytes. Each descriptor is read when its turn comes, from memory as it is then. */
  function Fill(mem: seq<byte>, ctba: nat, i: nat, n: nat, left: nat, pending: nat, stream: seq<byte>): Outcome
    requires i <= n && pending < SECTOR
    decreases n - i
  {
    if left == 0 then Finished(mem)
    else if i == n then TableShort(mem)
    else
      var prd := ReadPrd(mem, PrdAddress(ctba, i) % U64);
      var seg := Min(prd.dbc, left);
      var f := FillPieces(mem, prd.dba, 0, seg, pending, stream);
      if f.served then Fill(f.mem, ctba, i + 1, n, left - seg, f.pending, f.stream) else DiskShort(f.mem)
  }

  /** The loop over one descriptor. */
  method ReadSegment(bus: FuzzBus, dba: nat, seg: nat, drive: Drive, lba: nat, pending: seq<byte>)
    returns (ok: bool, lba': nat, pending': seq<byte>)
    requires |pending| < SECTOR && |drive.disk| < U64
    modifies bus.data
    ensures var f := FillPieces(old(bus.data[..]), dba, 0, seg, |pending|, Ahead(drive.disk, lba, pending));
            && bus.data[..] == f.mem && ok == f.served
            && (ok ==> Ahead(drive.disk, lba', pending') == f.stream && |pending'| == f.pending)
  {
    hide Write, ScatterStep, StillPending, Ahead;
    lba', pending', ok := lba, pending, true;
    var left: nat, off: nat := seg, 0;
    ghost var f := FillPieces(bus.data[..], dba, 0, seg, |pending|, Ahead(drive.disk, lba, pending));
    while left != 0
      invariant off + left == seg && |pending'| < SECTOR
      invariant f == FillPieces(bus.data[..], dba, off, left, |pending'|, Ahead(drive.disk, lba', pending'))
    {
      var bytes;
      ok, lba', pending', bytes := ReadStep(drive, lba', pending', left);
      if !ok {
        return;
      }
      bus.WritePhysical(WrappingAdd(dba, off), bytes);
      left, off := left - |bytes|, off + |bytes|;
    }
    ok := true;
  }

  /** Memory after the transfer, and how it ends, for every table, every disk and every address; a disk error
      leaves what was filled before it. */
  method DmaRead(bus: FuzzBus, header: Header, drive: Drive, lba: nat, count: nat) returns (r: Result<(), DmaError>)
    requires |drive.disk| < U64
    modifies bus.data
    ensures count == 0 || header.prdtl == 0 || header.prdtl > MAX_PRDS ==>
              && bus.data[..] == old(bus.data[..])
              && r == if count == 0 then Ok(())
                      else if header.prdtl == 0 then Err(TableTooSmall)
                      else Err(TableTooLarge)
    ensures count > 0 && 0 < header.prdtl <= MAX_PRDS ==>
              var end := Fill(old(bus.data[..]), header.ctba, 0, header.prdtl, SECTOR * count, 0,
                              Available(drive.disk, lba));
              && bus.data[..] == end.mem
              && r == match end
                      case Finished(_) => Ok(())
                      case TableShort(_) => Err(TableTooSmall)
                      case DiskShort(_) => Err(DiskError)
  {
    hide Write, ReadPrd, FillPieces, Available, Ahead;
    if count == 0 {
      return Ok(());
    }
    if header.prdtl > MAX_PRDS {
      return Err(TableTooLarge);
    }
    if header.prdtl == 0 {
      return Err(TableTooSmall);
    }
    var at, pending, i := lba, [], 0;
    var remaining: nat := SECTOR * count;
    NothingBegun(drive.disk, lba);
    ghost var end := Fill(bus.data[..], header.ctba, 0, header.prdtl, remaining, 0, Available(drive.disk, lba));
    while i < header.prdtl && remaining != 0
      invariant i <= header.prdtl && |pending| < SECTOR
      invariant end == Fill(bus.data[..], header.ctba, i, header.prdtl, remaining, |pending|,
                            Ahead(drive.disk, at, pending))
    {
      var prd := ReadDescriptor(bus, header.ctba, i);
      var seg := Min(prd.dbc, remaining);
      var ok;
      ok, at, pending := ReadSegment(bus, prd.dba, seg, drive, at, pending);
      if !ok {
        return Err(DiskError);
      }
      remaining, i := remaining - seg, i + 1;
    }
    return if remaining != 0 then Err(TableTooSmall) else Ok(());
  }

  lemma NothingBegun(disk: seq<byte>, lba: nat)
    ensures Ahead(disk, lba, []) == Available(disk, lba)
  {
  }

  method ReadDescriptor(bus: FuzzBus, ctba: nat, i: nat) returns (prd: Prd)
    ensures prd == ReadPrd(bus.data[..], PrdAddress(ctba, i) % U64) && prd.dbc >= 1
  {
    hide Read, FromLittleEndian;
    var at := PrdAddress(ctba, i) % U64;
    var lo := bus.ReadPhysical(at, 4);
    var hi := bus.ReadPhysical((at + 4) % U64, 4);
    var dbc := bus.ReadPhysical((at + 12) % U64, 4);
    return Prd(FromLittleEndian(lo) + U32 * FromLittleEndian(hi), FromLittleEndian(dbc) % 0x40_0000 + 1);
  }

  // The simple reading

  /** Memory after filling each descriptor by one write, and the bytes for which no descriptor was left; none when a
      descriptor runs past the address space. */
  function Scatter(mem: seq<byte>, ctba: nat, i: nat, n: nat, stream: seq<byte>): Option<(seq<byte>, seq<byte>)>
    requires i <= n
    decreases n - i
  {
    if i == n || stream == [] then Some((mem, stream))
    else
      var prd := ReadPrd(mem, PrdAddress(ctba, i) % U64);
      if prd.dba + prd.dbc >= U64 then None
      else
        var seg := Min(prd.dbc, |stream|);
        Scatter(Write(mem, prd.dba, stream[..seg]), ctba, i + 1, n, stream[seg..])
  }

  /** Inside the address space the pieces are one write. */
  lemma {:induction false} PiecesAreOneWrite(mem: seq<byte>, dba: nat, off: nat, left: nat, pending: nat,
                                             stream: seq<byte>)
    requires pending < SECTOR && dba + off + left < U64 && left <= |stream|
    ensures var f := FillPieces(mem, dba, off, left, pending, stream);
            f.served && f.mem == Write(mem, dba + off, stream[..left]) && f.stream == stream[left..]
    decreases left
  {
    hide Write, ScatterStep, StillPending, FillPieces;
    if left == 0 {
      FilledNothing(mem, dba, off, pending, stream);
    } else {
      var take := ScatterStep(pending, left);
      var now, rest := Write(mem, dba + off, stream[..take]), stream[take..];
      FirstFilled(mem, dba, off, left, pending, stream);
      PiecesAreOneWrite(now, dba, off + take, left - take, StillPending(pending, left), rest);
      WriteJoin(mem, dba + off, stream[..take], rest[..left - take]);
      assert stream[..take] + rest[..left - take] == stream[..left];
      assert rest[left - take..] == stream[left..];
    }
  }

  lemma FilledNothing(mem: seq<byte>, dba: nat, off: nat, pending: nat, stream: seq<byte>)
    requires pending < SECTOR
    ensures FillPieces(mem, dba, off, 0, pending, stream) == Filled(mem, stream, pending, true)
    ensures Write(mem, dba + off, stream[..0]) == mem && stream[0..] == stream
  {
  }

  lemma FirstFilled(mem: seq<byte>, dba: nat, off: nat, left: nat, pending: nat, stream: seq<byte>)
    requires pending < SECTOR && left > 0 && dba + off < U64 && ScatterStep(pending, left) <= |stream|
    ensures var take := ScatterStep(pending, left);
            FillPieces(mem, dba, off, left, pending, stream)
            == FillPieces(Write(mem, dba + off, stream[..take]), dba, off + take, left - take,
                          StillPending(pending, left), stream[take..])
  {
    hide Write, ScatterStep, StillPending;
    assert WrappingAdd(dba, off) == dba + off;
  }

  /** When the disk has the range and no descriptor runs past the address space, the transfer is the simple one. */
  lemma {:induction false} FillIsScatter(mem: seq<byte>, ctba: nat, i: nat, n: nat, left: nat, pending: nat,
                                         stream: seq<byte>)
    requires i <= n && pending < SECTOR && left <= |stream|
    requires Scatter(mem, ctba, i, n, stream[..left]).Some?
    ensures var (m, rest) := Scatter(mem, ctba, i, n, stream[..left]).value;
            Fill(mem, ctba, i, n, left, pending, stream) == if rest == [] then Finished(m) else TableShort(m)
    decreases n - i
  {
    hide Write, ReadPrd, FillPieces;
    if i < n && left > 0 {
      var prd := ReadPrd(mem, PrdAddress(ctba, i) % U64);
      var seg := Min(prd.dbc, left);
      PiecesAreOneWrite(mem, prd.dba, 0, seg, pending, stream);
      var f := FillPieces(mem, prd.dba, 0, seg, pending, stream);
      assert stream[..left][..seg] == stream[..seg];
      assert stream[..left][seg..] == f.stream[..left - seg];
      FillIsScatter(f.mem, ctba, i + 1, n, left - seg, f.pending, f.stream);
    } else {
    }
  }

  lemma {:induction false} ServedTakes(mem: seq<byte>, dba: nat, off: nat, left: nat, pending: nat, stream: seq<byte>)
    requires pending < SECTOR && FillPieces(mem, dba, off, left, pending, stream).served
    ensures left <= |stream| && FillPieces(mem, dba, off, left, pending, stream).stream == stream[left..]
    decreases left
  {
    hide Write, ScatterStep, StillPending;
    if left == 0 {
    } else {
      var take := ScatterStep(pending, left);
      ServedTakes(Write(mem, WrappingAdd(dba, off), stream[..take]), dba, off + take, left - take,
                  StillPending(pending, left), stream[take..]);
    }
  }

  /** A transfer only finishes with as many bytes as the disk had to give, whatever the descriptors say. */
  lemma {:induction false} FinishedHadEnough(mem: seq<byte>, ctba: nat, i: nat, n: nat, left: nat, pending: nat,
                                             stream: seq<byte>)
    requires i <= n && pending < SECTOR && Fill(mem, ctba, i, n, left, pending, stream).Finished?
    ensures left <= |stream|
    decreases n - i
  {
    hide ReadPrd, FillPieces;
    if left == 0 {
    } else {
      var prd := ReadPrd(mem, PrdAddress(ctba, i) % U64);
      var seg := Min(prd.dbc, left);
      ServedTakes(mem, prd.dba, 0, seg, pending, stream);
      var f := FillPieces(mem, prd.dba, 0, seg, pending, stream);
      FinishedHadEnough(f.mem, ctba, i + 1, n, left - seg, f.pending, f.stream);
    }
  }

  /** What is left of the stream when the next `pos` bytes are taken. */
  lemma ScatterMore(mem: seq<byte>, ctba: nat, i: nat, n: nat, stream: seq<byte>, pos: nat)
    requires i < n && pos < |stream|
    requires var prd := ReadPrd(mem, PrdAddress(ctba, i) % U64); prd.dba + prd.dbc < U64
    ensures var prd := ReadPrd(mem, PrdAddress(ctba, i) % U64); var seg := Min(prd.dbc, |stream| - pos);
            Scatter(mem, ctba, i, n, stream[pos..])
            == Scatter(Write(mem, prd.dba, stream[pos..pos + seg]), ctba, i + 1, n, stream[pos + seg..])
  {
    hide Write, ReadPrd;
    var prd := ReadPrd(mem, PrdAddress(ctba, i) % U64);
    var seg := Min(prd.dbc, |stream| - pos);
    assert stream[pos..][..seg] == stream[pos..pos + seg];
    assert stream[pos..][seg..] == stream[pos + seg..];
  }

  lemma ScatterDone(mem: seq<byte>, ctba: nat, i: nat, n: nat, stream: seq<byte>)
    requires i <= n && (i == n || stream == [])
    ensures Scatter(mem, ctba, i, n, stream) == Some((mem, stream))
  {
  }
}
