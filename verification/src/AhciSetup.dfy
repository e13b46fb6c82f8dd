/** How the fuzz target lays out a command: where regions go, how the transfer buffer is cut into descriptors,
    and that the device reads back what was laid out. */
module AhciSetup {
  import opened Bytes
  import opened Words
  import opened GuestMemory
  import opened AhciCommand

  predicate IsPowerOfTwo(n: nat) {
    n == 1 || (n > 0 && n % 2 == 0 && IsPowerOfTwo(n / 2))
  }

  /** Clears the low bits below a power of two. */
  function AlignDown(off: nat, align: nat): (r: nat)
    requires IsPowerOfTwo(align)
    ensures r <= off < r + align
  {
    if align == 1 then off else 2 * AlignDown(off / 2, align / 2)
  }

  /** What is left of `off` when those bits are shifted out. */
  function ShiftDown(off: nat, align: nat): nat
    requires IsPowerOfTwo(align)
  {
    if align == 1 then off else ShiftDown(off / 2, align / 2)
  }

  lemma {:induction false} AlignedIsMultiple(off: nat, align: nat)
    requires IsPowerOfTwo(align)
    ensures AlignDown(off, align) == ShiftDown(off, align) * align
    decreases align
  {
    if align != 1 {
      var half, q := align / 2, ShiftDown(off / 2, align / 2);
      AlignedIsMultiple(off / 2, half);
      assert q * align == 2 * (q * half);
    }
  }

  function PlaceRegion(seed: nat, memSize: nat, align: nat, size: nat): (at: nat)
    ensures size <= memSize ==> at + size <= memSize
  {
    if memSize <= size then 0
    else
      var off := seed % (memSize - size + 1);
      if IsPowerOfTwo(align) then AlignDown(off, align) else off
  }

  /** A region is placed inside memory exactly when it fits, and at a multiple of the alignment when that is a
      power of two. */
  lemma PlacedInside(seed: nat, memSize: nat, align: nat, size: nat)
    ensures size <= memSize <==> PlaceRegion(seed, memSize, align, size) + size <= memSize
    ensures IsPowerOfTwo(align) ==> exists q: nat :: PlaceRegion(seed, memSize, align, size) == Times(q, align)
  {
    if IsPowerOfTwo(align) {
      if memSize > size {
        var off := seed % (memSize - size + 1);
        AlignedIsMultiple(off, align);
        assert PlaceRegion(seed, memSize, align, size) == Times(ShiftDown(off, align), align);
      } else {
        assert PlaceRegion(seed, memSize, align, size) == Times(0, align);
      }
    }
  }

  function Times(q: nat, n: nat): nat {
    q * n
  }

  // Cutting the buffer into descriptors

  function PlanEntry(base: nat, len: nat, i: nat): Prd {
    Prd((base + Min(CHUNK * i, len)) % U64, if CHUNK * i < len then Min(CHUNK, len - CHUNK * i) else 1)
  }

  function Plan(base: nat, len: nat, n: nat): (prds: seq<Prd>)
    ensures |prds| == n
    ensures forall i | 0 <= i < n :: prds[i] == PlanEntry(base, len, i)
  {
    if n == 0 then [] else Plan(base, len, n - 1) + [PlanEntry(base, len, n - 1)]
  }

  /** The bytes a descriptor list stands for. */
  function Gathered(mem: seq<byte>, prds: seq<Prd>): seq<byte> {
    if prds == [] then []
    else
      var n := |prds| - 1;
      Gathered(mem, prds[..n]) + Read(mem, prds[n].dba, prds[n].dbc)
  }

  lemma GatheredMore(mem: seq<byte>, base: nat, len: nat, n: nat)
    requires n > 0
    ensures var e := PlanEntry(base, len, n - 1);
            Gathered(mem, Plan(base, len, n)) == Gathered(mem, Plan(base, len, n - 1)) + Read(mem, e.dba, e.dbc)
  {
    hide Read, PlanEntry;
    assert Plan(base, len, n)[..n - 1] == Plan(base, len, n - 1);
  }

  lemma {:induction false} PlanGathersSome(mem: seq<byte>, base: nat, len: nat, n: nat)
    requires base + len < U64
    ensures var done := Min(CHUNK * n, len); var g := Gathered(mem, Plan(base, len, n));
            && done <= |g| && g[..done] == Read(mem, base, done)
            && (CHUNK * n <= len ==> |g| == CHUNK * n)
    decreases n
  {
    hide Read, Gathered, Plan;
    if n == 0 {
      NothingGathered(mem, base, len);
    } else {
      PlanGathersSome(mem, base, len, n - 1);
      GatheredMore(mem, base, len, n);
      var e, g, before := PlanEntry(base, len, n - 1), Gathered(mem, Plan(base, len, n - 1)), CHUNK * (n - 1);
      if before < len {
        ReadJoin(mem, base, before, e.dbc);
        assert g[..before] == g;
      } else {
        assert (g + Read(mem, e.dba, e.dbc))[..len] == g[..len];
      }
    }
  }

  lemma NothingGathered(mem: seq<byte>, base: nat, len: nat)
    ensures Gathered(mem, Plan(base, len, 0)) == [] && Read(mem, base, 0) == []
  {
  }

  /** With enough descriptors the list stands for exactly the buffer, followed by fillers. */
  lemma PlanGathers(mem: seq<byte>, base: nat, len: nat, n: nat)
    requires base + len < U64 && len <= CHUNK * n
    ensures len <= |Gathered(mem, Plan(base, len, n))|
    ensures Gathered(mem, Plan(base, len, n))[..len] == Read(mem, base, len)
  {
    PlanGathersSome(mem, base, len, n);
  }

  /** The descriptors of the buffer lie one behind the other and none is empty. */
  lemma PlanTiles(base: nat, len: nat, i: nat)
    requires base + len < U64
    ensures PlanEntry(base, len, 0).dba == base
    ensures PlanEntry(base, len, i).dbc >= 1 && Expressible(PlanEntry(base, len, i))
    ensures CHUNK * i < len ==>
              PlanEntry(base, len, i + 1).dba == PlanEntry(base, len, i).dba + PlanEntry(base, len, i).dbc
    ensures CHUNK * i >= len ==> PlanEntry(base, len, i) == Prd(base + len, 1)
  {
  }

  method WriteWordsTo(bus: FuzzBus, at: nat, a: nat, b: nat, c: nat, d: nat)
    modifies bus.data
    ensures bus.data[..] == WriteWords(old(bus.data[..]), at, a, b, c, d)
  {
    hide Write, U32Bytes;
    bus.WritePhysical(at, U32Bytes(a));
    bus.WritePhysical(at + 4, U32Bytes(b));
    bus.WritePhysical(at + 8, U32Bytes(c));
    bus.WritePhysical(at + 12, U32Bytes(d));
  }

  method WritePrdTo(bus: FuzzBus, ctba: nat, entry: nat, dba: nat, dbc: nat)
    modifies bus.data
    ensures bus.data[..] == WritePrd(old(bus.data[..]), ctba, entry, Prd(dba, dbc))
  {
    hide WriteWords;
    WriteWordsTo(bus, PrdAddress(ctba, entry), dba % U32, dba / U32, 0,
                 (if dbc == 0 then 0 else dbc - 1) % 0x40_0000);
  }

  /** The loop that hands out the buffer in pages writes the planned table. */
  method WriteTable(bus: FuzzBus, ctba: nat, base: nat, byteLen: nat, prdtl: nat)
    requires base < U64
    modifies bus.data
    ensures bus.data[..] == WritePrds(old(bus.data[..]), ctba, Plan(base, byteLen, prdtl))
  {
    PageStart(bus.data[..], ctba, base, byteLen);
    hide WritePrd, WritePrds, Plan, PlanEntry, WrappingAdd;
    var remaining, cur := byteLen, base;
    for entry := 0 to prdtl
      invariant remaining == byteLen - Min(CHUNK * entry, byteLen)
      invariant cur == PlanEntry(base, byteLen, entry).dba
      invariant bus.data[..] == WritePrds(old(bus.data[..]), ctba, Plan(base, byteLen, entry))
    {
      NextPage(base, byteLen, entry);
      PlanMore(bus.data[..], old(bus.data[..]), ctba, base, byteLen, entry);
      var chunk := if remaining == 0 then 1 else Min(remaining, CHUNK);
      WritePrdTo(bus, ctba, entry, cur, chunk);
      if remaining != 0 {
        cur := WrappingAdd(cur, chunk);
        remaining := remaining - chunk;
      }
    }
  }

  lemma PageStart(mem: seq<byte>, ctba: nat, base: nat, len: nat)
    requires base < U64
    ensures PlanEntry(base, len, 0).dba == base && WritePrds(mem, ctba, Plan(base, len, 0)) == mem
  {
    RemainderIs(base, 0, base);
  }

  /** The running address and count of the loop, from one page to the next. */
  lemma NextPage(base: nat, len: nat, i: nat)
    ensures var remaining := len - Min(CHUNK * i, len); var e := PlanEntry(base, len, i);
            && e.dbc == (if remaining == 0 then 1 else Min(remaining, CHUNK))
            && PlanEntry(base, len, i + 1).dba == (if remaining == 0 then e.dba else WrappingAdd(e.dba, e.dbc))
            && len - Min(CHUNK * (i + 1), len) == if remaining == 0 then 0 else remaining - e.dbc
  {
    if CHUNK * i < len {
      AddModulo(base + CHUNK * i, Min(CHUNK, len - CHUNK * i));
    }
  }

  lemma PlanMore(mem: seq<byte>, mem0: seq<byte>, ctba: nat, base: nat, len: nat, i: nat)
    requires mem == WritePrds(mem0, ctba, Plan(base, len, i))
    ensures WritePrds(mem0, ctba, Plan(base, len, i + 1)) == WritePrd(mem, ctba, i, PlanEntry(base, len, i))
  {
    hide WritePrd, PlanEntry;
    var plan := Plan(base, len, i + 1);
    assert plan[..i] == Plan(base, len, i);
  }

  // The device reads back what was laid out

  /** Memory after the header, the command FIS and the descriptors are written, in this order. */
  function Prepared(mem: seq<byte>, clb: nat, slot: nat, ctba: nat, write: bool, cfis: seq<byte>,
                    prds: seq<Prd>)
    : (r: seq<byte>)
  {
    WritePrds(Write(WriteCmdHeader(mem, clb, slot, ctba, |prds|, write), ctba, cfis), ctba, prds)
  }

  predicate LaidOut(size: nat, clb: nat, slot: nat, ctba: nat, n: nat) {
    && clb + 32 * slot + 16 <= size && PrdAddress(ctba, n) <= size < U64 && n < 65536
    && Apart(clb + 32 * slot, 16, ctba, 0x80 + 16 * n)
  }

  lemma PreparedHolds(mem: seq<byte>, clb: nat, slot: nat, ctba: nat, write: bool, cfis: seq<byte>, prds: seq<Prd>)
    requires LaidOut(|mem|, clb, slot, ctba, |prds|) && |cfis| == 64
    ensures var r := Prepared(mem, clb, slot, ctba, write, cfis, prds);
            && |r| == |mem|
            && Holds(r, clb + 32 * slot, HeaderBytes(ctba, |prds|, write))
            && Holds(r, ctba, cfis)
  {
    hide Write, WriteWords, WritePrds, Holds, WordBytes;
    var at, head := clb + 32 * slot, HeaderBytes(ctba, |prds|, write);
    WordsAreOneWrite(mem, at, Flags(|prds|, write), 0, ctba % U32, ctba / U32);
    var m1 := Write(mem, at, head);
    WriteHolds(mem, at, head);
    var m2 := Write(m1, ctba, cfis);
    WriteHolds(m1, ctba, cfis);
    WriteKeeps(m1, ctba, cfis, at, head);
    TableKeeps(m2, ctba, prds, at, head);
    TableKeeps(m2, ctba, prds, ctba, cfis);
  }

  /** When header and table fit in memory apart from each other, the device finds the table address, the number of
      descriptors, the command FIS and every descriptor as they were laid out. */
  lemma StructuresReadBack(mem: seq<byte>, clb: nat, slot: nat, ctba: nat, write: bool, cfis: seq<byte>, prds: seq<Prd>)
    requires LaidOut(|mem|, clb, slot, ctba, |prds|) && |cfis| == 64 && AllExpressible(prds)
    ensures var r := Prepared(mem, clb, slot, ctba, write, cfis, prds);
            && ReadHeader(r, clb + 32 * slot) == Header(ctba, |prds|)
            && Read(r, ctba, 64) == cfis
            && DevicePrds(r, ctba, |prds|) == prds
  {
    hide Prepared, Holds, Read, ReadHeader, HeaderBytes, PrdBytes, Expressible, ReadPrd;
    var r := Prepared(mem, clb, slot, ctba, write, cfis, prds);
    PreparedHolds(mem, clb, slot, ctba, write, cfis, prds);
    HeaderReadsBack(r, clb + 32 * slot, ctba, |prds|, write);
    HoldsRead(r, ctba, cfis);
    forall i | 0 <= i < |prds| ensures ReadPrd(r, PrdAddress(ctba, i) % U64) == prds[i] {
      DescriptorHeld(mem, clb, slot, ctba, write, cfis, prds, i);
      PrdReadsBack(r, PrdAddress(ctba, i), prds[i]);
    }
  }

  lemma DescriptorHeld(mem: seq<byte>, clb: nat, slot: nat, ctba: nat, write: bool, cfis: seq<byte>, prds: seq<Prd>,
                       i: nat)
    requires LaidOut(|mem|, clb, slot, ctba, |prds|) && i < |prds|
    ensures Holds(Prepared(mem, clb, slot, ctba, write, cfis, prds), PrdAddress(ctba, i), PrdBytes(prds[i]))
  {
    hide WritePrds, Holds, PrdBytes, Write;
    TableHeld(Write(WriteCmdHeader(mem, clb, slot, ctba, |prds|, write), ctba, cfis), ctba, prds, i);
  }

  /** The prepared memory word by word: flags with the write bit and the number of descriptors, no bytes transferred
      yet, the address of the table; the command FIS at the front of the table; and in each descriptor its address and
      its byte count less one. */
  lemma PreparedSpelled(mem: seq<byte>, clb: nat, slot: nat, ctba: nat, write: bool, cfis: seq<byte>, prds: seq<Prd>,
                        i: nat)
    requires LaidOut(|mem|, clb, slot, ctba, |prds|) && |cfis| == 64 && AllExpressible(prds)
    ensures var r := Prepared(mem, clb, slot, ctba, write, cfis, prds); var at := clb + 32 * slot;
            && Has32(r, at, 5 + (if write then 0x40 else 0) + 0x1_0000 * |prds|) && Has32(r, at + 4, 0)
            && Has32(r, at + 8, ctba % U32) && Has32(r, at + 12, ctba / U32)
            && ctba + 64 <= |r| && r[ctba..ctba + 64] == cfis
            && (i < |prds| ==>
                  var p := ctba + 0x80 + 16 * i;
                  && Has32(r, p, prds[i].dba % U32) && Has32(r, p + 4, prds[i].dba / U32)
                  && Has32(r, p + 8, 0) && Has32(r, p + 12, prds[i].dbc - 1))
  {
    hide Prepared, Has32, Holds, HeaderBytes, PrdBytes;
    var r := Prepared(mem, clb, slot, ctba, write, cfis, prds);
    PreparedHolds(mem, clb, slot, ctba, write, cfis, prds);
    HeaderSpelled(r, clb + 32 * slot, ctba, |prds|, write);
    FisStands(r, ctba, cfis);
    if i < |prds| {
      DescriptorHeld(mem, clb, slot, ctba, write, cfis, prds, i);
      PrdSpelled(r, PrdAddress(ctba, i), prds[i]);
    }
  }

  lemma FisStands(mem: seq<byte>, at: nat, cfis: seq<byte>)
    requires Holds(mem, at, cfis)
    ensures at + |cfis| <= |mem| && mem[at..at + |cfis|] == cfis
  {
  }

  lemma HeaderSpelled(mem: seq<byte>, at: nat, ctba: nat, n: nat, write: bool)
    requires Holds(mem, at, HeaderBytes(ctba, n, write)) && ctba < U64 && n < 65536
    ensures Has32(mem, at, 5 + (if write then 0x40 else 0) + 0x1_0000 * n) && Has32(mem, at + 4, 0)
    ensures Has32(mem, at + 8, ctba % U32) && Has32(mem, at + 12, ctba / U32)
  {
    hide WordBytes, Has32, Holds;
    WordsStand(mem, at, Flags(n, write), 0, ctba % U32, ctba / U32);
  }

  lemma PrdSpelled(mem: seq<byte>, at: nat, prd: Prd)
    requires Holds(mem, at, PrdBytes(prd)) && Expressible(prd)
    ensures Has32(mem, at, prd.dba % U32) && Has32(mem, at + 4, prd.dba / U32)
    ensures Has32(mem, at + 8, 0) && Has32(mem, at + 12, prd.dbc - 1)
  {
    hide WordBytes, Has32, Holds;
    WordsStand(mem, at, prd.dba % U32, prd.dba / U32, 0, prd.dbc - 1);
  }

  /** The descriptors the device reads from a table of `n`. */
  function DevicePrds(mem: seq<byte>, ctba: nat, n: nat): (prds: seq<Prd>)
    ensures |prds| == n
    ensures forall i | 0 <= i < n :: prds[i] == ReadPrd(mem, PrdAddress(ctba, i) % U64)
  {
    if n == 0 then [] else DevicePrds(mem, ctba, n - 1) + [ReadPrd(mem, PrdAddress(ctba, n - 1) % U64)]
  }
}
