/** AHCI command structures in guest memory: command header, command FIS and physical region descriptors,
    as the fuzz target writes them and as the device reads them. */
module AhciCommand {
  import opened Bytes
  import opened Words
  import opened GuestMemory
  import Seqs

  const CHUNK: nat := 4096

  /** A physical region descriptor: base address and byte count. */
  datatype Prd = Prd(dba: nat, dbc: nat)

  datatype Header = Header(ctba: nat, prdtl: nat)

  // What the guest writes

  /** Four 32-bit words, one after the other. */
  function WriteWords(mem: seq<byte>, at: nat, a: nat, b: nat, c: nat, d: nat): (r: seq<byte>)
    ensures |r| == |mem|
  {
    Write(Write(Write(Write(mem, at, U32Bytes(a)), at + 4, U32Bytes(b)), at + 8, U32Bytes(c)), at + 12, U32Bytes(d))
  }

  function WordBytes(a: nat, b: nat, c: nat, d: nat): (s: seq<byte>)
    ensures |s| == 16
  {
    U32Bytes(a) + U32Bytes(b) + U32Bytes(c) + U32Bytes(d)
  }

  /** Command FIS length 5, the write bit, and the number of descriptors in the upper half. */
  function Flags(prdtl: nat, write: bool): nat {
    5 + (if write then 64 else 0) + 65536 * prdtl
  }

  function WriteCmdHeader(mem: seq<byte>, clb: nat, slot: nat, ctba: nat, prdtl: nat, write: bool): (r: seq<byte>)
    ensures |r| == |mem|
  {
    WriteWords(mem, clb + 32 * slot, Flags(prdtl, write), 0, ctba % U32, ctba / U32)
  }

  function PrdAddress(ctba: nat, entry: nat): nat {
    ctba + 0x80 + 16 * entry
  }

  /** The byte count is stored less one, in 22 bits. */
  function WritePrd(mem: seq<byte>, ctba: nat, entry: nat, prd: Prd): (r: seq<byte>)
    ensures |r| == |mem|
  {
    WriteWords(mem, PrdAddress(ctba, entry), prd.dba % U32, prd.dba / U32, 0,
               (if prd.dbc == 0 then 0 else prd.dbc - 1) % 0x40_0000)
  }

  function WritePrds(mem: seq<byte>, ctba: nat, prds: seq<Prd>): (r: seq<byte>)
    ensures |r| == |mem|
  {
    if prds == [] then mem
    else
      var n := |prds| - 1;
      WritePrd(WritePrds(mem, ctba, prds[..n]), ctba, n, prds[n])
  }

  /** Register host-to-device FIS with a 48-bit block address. */
  function Cfis(command: byte, features: byte, lba: nat, count: nat): (s: seq<byte>)
    ensures |s| == 64
  {
    [0x27, 0x80, command, features, lba % 256, lba / 0x100 % 256, lba / 0x1_0000 % 256, 0x40,
     lba / 0x100_0000 % 256, lba / 0x1_0000_0000 % 256, lba / 0x100_0000_0000 % 256, 0, count % 256, count / 256 % 256]
    + Zeros(50)
  }

  // What the device reads

  function ReadU32(mem: seq<byte>, at: nat): nat {
    FromLittleEndian(Read(mem, at, 4))
  }

  function ReadHeader(mem: seq<byte>, at: nat): Header {
    Header(ReadU32(mem, (at + 8) % U64) + U32 * ReadU32(mem, (at + 12) % U64), ReadU32(mem, at) / 65536 % 65536)
  }

  function ReadPrd(mem: seq<byte>, at: nat): Prd {
    Prd(ReadU32(mem, at) + U32 * ReadU32(mem, (at + 4) % U64), ReadU32(mem, (at + 12) % U64) % 0x40_0000 + 1)
  }

  function ExtractLba48(cfis: seq<byte>): nat
    requires |cfis| == 64
  {
    cfis[4] as int + 0x100 * cfis[5] as int + 0x1_0000 * cfis[6] as int + 0x100_0000 * cfis[8] as int
    + 0x1_0000_0000 * cfis[9] as int + 0x100_0000_0000 * cfis[10] as int
  }

  function ExtractSectorCount(cfis: seq<byte>): nat
    requires |cfis| == 64
  {
    var count := cfis[12] as int + 256 * cfis[13] as int;
    if count == 0 then 65536 else count
  }

  // Reading back what was written

  lemma CfisStart(command: byte, features: byte, lba: nat, count: nat)
    ensures Cfis(command, features, lba, count)[0] == 0x27 && Cfis(command, features, lba, count)[2] == command
  {
  }

  /** Six bytes are the six lowest digits to base 256. */
  lemma SixDigits(n: nat)
    requires n < 0x1_0000_0000_0000
    ensures n % 256 + 0x100 * (n / 0x100 % 256) + 0x1_0000 * (n / 0x1_0000 % 256) + 0x100_0000 * (n / 0x100_0000 % 256)
            + 0x1_0000_0000 * (n / 0x1_0000_0000 % 256) + 0x100_0000_0000 * (n / 0x100_0000_0000 % 256) == n
  {
    var a := n / 0x100;
    var b := a / 0x100;
    var c := b / 0x100;
    var d := c / 0x100;
    var e := d / 0x100;
    assert n / 0x1_0000 == b;
    assert n / 0x100_0000 == c;
    assert n / 0x1_0000_0000 == d;
    assert n / 0x100_0000_0000 == e;
    assert e < 256;
  }

  lemma CfisLba(command: byte, features: byte, lba: nat, count: nat)
    requires lba < 0x1_0000_0000_0000
    ensures ExtractLba48(Cfis(command, features, lba, count)) == lba
  {
    SixDigits(lba);
  }

  lemma CfisCount(command: byte, features: byte, lba: nat, count: nat)
    requires 0 < count <= 65536
    ensures ExtractSectorCount(Cfis(command, features, lba, count)) == count
  {
    var s := Cfis(command, features, lba, count);
    assert s[12] as int == count % 256 && s[13] as int == count / 256 % 256;
    hide Cfis;
  }

  lemma CfisReadsBack(command: byte, features: byte, lba: nat, count: nat)
    requires lba < 0x1_0000_0000_0000 && 0 < count <= 65536
    ensures ExtractLba48(Cfis(command, features, lba, count)) == lba
    ensures ExtractSectorCount(Cfis(command, features, lba, count)) == count
  {
    CfisLba(command, features, lba, count);
    CfisCount(command, features, lba, count);
  }

  /** Four word writes are one write of sixteen bytes. */
  lemma WordsAreOneWrite(mem: seq<byte>, at: nat, a: nat, b: nat, c: nat, d: nat)
    requires at + 16 < U64
    ensures WriteWords(mem, at, a, b, c, d) == Write(mem, at, WordBytes(a, b, c, d))
  {
    hide Write, U32Bytes;
    WriteJoin(mem, at, U32Bytes(a), U32Bytes(b));
    WriteJoin(mem, at, U32Bytes(a) + U32Bytes(b), U32Bytes(c));
    WriteJoin(mem, at, U32Bytes(a) + U32Bytes(b) + U32Bytes(c), U32Bytes(d));
  }

  lemma WordReadsBack(mem: seq<byte>, at: nat, n: nat)
    requires Holds(mem, at, U32Bytes(n)) && n < U32 && |mem| < U64
    ensures ReadU32(mem, at) == n
  {
    hide U32Bytes, FromLittleEndian, Read;
    HoldsRead(mem, at, U32Bytes(n));
    ReadBack32(n);
  }

  lemma WordsReadBack(mem: seq<byte>, at: nat, a: nat, b: nat, c: nat, d: nat)
    requires Holds(mem, at, WordBytes(a, b, c, d)) && |mem| < U64
    requires a < U32 && b < U32 && c < U32 && d < U32
    ensures ReadU32(mem, at) == a && ReadU32(mem, at + 4) == b && ReadU32(mem, at + 8) == c
              && ReadU32(mem, at + 12) == d
  {
    hide U32Bytes, ReadU32, Holds;
    var p, q, r, s := U32Bytes(a), U32Bytes(b), U32Bytes(c), U32Bytes(d);
    Seqs.Assoc(p, q, r + s);
    assert p + q + r + s == [] + p + (q + r + s);
    HoldsPart(mem, at, [], p, q + r + s);
    assert p + q + r + s == p + q + (r + s);
    HoldsPart(mem, at, p, q, r + s);
    HoldsPart(mem, at, p + q, r, s);
    assert p + q + r + s == (p + q + r) + s + [];
    HoldsPart(mem, at, p + q + r, s, []);
    WordReadsBack(mem, at, a);
    WordReadsBack(mem, at + 4, b);
    WordReadsBack(mem, at + 8, c);
    WordReadsBack(mem, at + 12, d);
  }

  /** Where the four words stand in memory. */
  lemma WordsStand(mem: seq<byte>, at: nat, a: nat, b: nat, c: nat, d: nat)
    requires Holds(mem, at, WordBytes(a, b, c, d)) && a < U32 && b < U32 && c < U32 && d < U32
    ensures Has32(mem, at, a) && Has32(mem, at + 4, b) && Has32(mem, at + 8, c) && Has32(mem, at + 12, d)
  {
    hide U32Bytes, Has32;
    var p, q, r, s, w := U32Bytes(a), U32Bytes(b), U32Bytes(c), U32Bytes(d), WordBytes(a, b, c, d);
    Put32([], a, q + r + s);
    Put32(p, b, r + s);
    Put32(p + q, c, s);
    Put32(p + q + r, d, []);
    assert [] + p + (q + r + s) == w && p + q + (r + s) == w && p + q + r + s + [] == w;
    Cut32(mem, at, w, 0, a);
    Cut32(mem, at, w, 4, b);
    Cut32(mem, at, w, 8, c);
    Cut32(mem, at, w, 12, d);
  }

  /** The command FIS byte by byte: type, the bit that says command, command, features, block address in two groups of
      three bytes with the device register between them, and the sector count. */
  lemma CfisSpelled(command: byte, features: byte, lba: nat, count: nat)
    requires lba < 0x1_0000_0000_0000
    ensures var s := Cfis(command, features, lba, count);
            && s[..4] == [0x27, 0x80, command, features] && s[7] == 0x40 && s[11] == 0
            && Word(s[4], s[5], s[6], 0) == lba % 0x100_0000 && Word(s[8], s[9], s[10], 0) == lba / 0x100_0000
            && Word(s[12], s[13], 0, 0) == count % 0x1_0000 && forall i | 14 <= i < 64 :: s[i] == 0
  {
    CfisAddress(lba);
    CfisCountBytes(count);
    var s := Cfis(command, features, lba, count);
    assert s[..4] == [0x27, 0x80, command, features];
  }

  lemma CfisAddress(lba: nat)
    requires lba < 0x1_0000_0000_0000
    ensures Word(lba % 256, lba / 0x100 % 256, lba / 0x1_0000 % 256, 0) == lba % 0x100_0000
    ensures Word(lba / 0x100_0000 % 256, lba / 0x1_0000_0000 % 256, lba / 0x100_0000_0000 % 256, 0) == lba / 0x100_0000
  {
    hide Word;
    ThreeDigits(lba);
    HighDigits(lba);
    ThreeDigits(lba / 0x100_0000);
    assert lba / 0x100_0000 % 0x100_0000 == lba / 0x100_0000;
  }

  lemma HighDigits(n: nat)
    ensures n / 0x100_0000 / 0x100 == n / 0x1_0000_0000 && n / 0x100_0000 / 0x1_0000 == n / 0x100_0000_0000
  {
  }

  lemma ThreeDigits(n: nat)
    ensures Word(n % 256, n / 0x100 % 256, n / 0x1_0000 % 256, 0) == n % 0x100_0000
  {
    var a := n / 0x100;
    var b := a / 0x100;
    var c := b / 0x100;
    assert n / 0x1_0000 == b && n / 0x100_0000 == c;
  }

  lemma CfisCountBytes(count: nat)
    ensures Word(count % 256, count / 256 % 256, 0, 0) == count % 0x1_0000
  {
    var a := count / 256;
    assert count / 0x1_0000 == a / 256;
  }

  lemma WordRead(mem: seq<byte>, at: nat, n: nat)
    requires Has32(mem, at, n) && |mem| < U64
    ensures ReadU32(mem, at) == n
  {
    hide Has32, Read, FromLittleEndian;
    InsideWord(mem, at, n);
    Is32(mem, at, n);
    HoldsRead(mem, at, mem[at..at + 4]);
  }

  lemma InsideWord(mem: seq<byte>, at: nat, n: nat)
    requires Has32(mem, at, n)
    ensures at + 4 <= |mem|
  {
  }

  lemma WrappedRead(mem: seq<byte>, at: nat, n: nat)
    requires Has32(mem, at, n) && |mem| < U64
    ensures ReadU32(mem, at % U64) == n
  {
    InsideWord(mem, at, n);
    hide Has32, ReadU32;
    RemainderIs(at, 0, at);
    WordRead(mem, at, n);
  }

  /** What the device makes of the words of a header: the upper half of the first is the number of descriptors, the
      third and fourth are the address of the table. */
  lemma HeaderRead(mem: seq<byte>, at: nat, a: nat, c: nat, d: nat)
    requires Has32(mem, at, a) && Has32(mem, at + 8, c) && Has32(mem, at + 12, d) && |mem| < U64
    ensures ReadHeader(mem, at) == Header(c + 0x1_0000_0000 * d, a / 0x1_0000 % 0x1_0000)
  {
    hide Has32, ReadU32;
    WordRead(mem, at, a);
    WrappedRead(mem, at + 8, c);
    WrappedRead(mem, at + 12, d);
  }

  /** And of a descriptor: an address of 64 bits, and a byte count of 22 bits that is stored less one. */
  lemma PrdRead(mem: seq<byte>, at: nat, a: nat, b: nat, d: nat)
    requires Has32(mem, at, a) && Has32(mem, at + 4, b) && Has32(mem, at + 12, d) && |mem| < U64
    ensures ReadPrd(mem, at) == Prd(a + 0x1_0000_0000 * b, d % 0x40_0000 + 1)
  {
    hide Has32, ReadU32;
    WordRead(mem, at, a);
    WrappedRead(mem, at + 4, b);
    WrappedRead(mem, at + 12, d);
  }

  function HeaderBytes(ctba: nat, prdtl: nat, write: bool): (s: seq<byte>)
    ensures |s| == 16
  {
    WordBytes(Flags(prdtl, write), 0, ctba % U32, ctba / U32)
  }

  lemma HeaderReadsBack(mem: seq<byte>, at: nat, ctba: nat, prdtl: nat, write: bool)
    requires Holds(mem, at, HeaderBytes(ctba, prdtl, write)) && |mem| < U64
    requires ctba < U64 && prdtl < 65536
    ensures ReadHeader(mem, at) == Header(ctba, prdtl)
  {
    hide ReadU32, WordBytes;
    WordsReadBack(mem, at, Flags(prdtl, write), 0, ctba % U32, ctba / U32);
    assert at + 16 <= |mem|;
  }

  function PrdBytes(prd: Prd): (s: seq<byte>)
    ensures |s| == 16
  {
    WordBytes(prd.dba % U32, prd.dba / U32, 0, (if prd.dbc == 0 then 0 else prd.dbc - 1) % 0x40_0000)
  }

  /** A descriptor the format can express: a 64-bit address and 1 byte to 4 MiB. */
  predicate Expressible(prd: Prd) {
    prd.dba < U64 && 1 <= prd.dbc <= 0x40_0000
  }

  lemma PrdReadsBack(mem: seq<byte>, at: nat, prd: Prd)
    requires Holds(mem, at, PrdBytes(prd)) && |mem| < U64 && Expressible(prd)
    ensures ReadPrd(mem, at) == prd
  {
    hide ReadU32, WordBytes;
    WordsReadBack(mem, at, prd.dba % U32, prd.dba / U32, 0, prd.dbc - 1);
    assert at + 16 <= |mem|;
  }

  predicate AllExpressible(prds: seq<Prd>) {
    forall i | 0 <= i < |prds| :: Expressible(prds[i])
  }

  predicate PrdHeld(mem: seq<byte>, ctba: nat, prds: seq<Prd>, i: nat)
    requires i < |prds|
  {
    Holds(mem, PrdAddress(ctba, i), PrdBytes(prds[i]))
  }

  /** Every descriptor of a table stands in memory, and the writes touch nothing outside the table. */
  lemma {:induction false} TableHeld(mem: seq<byte>, ctba: nat, prds: seq<Prd>, i: nat)
    requires PrdAddress(ctba, |prds|) <= |mem| < U64 && i < |prds|
    ensures PrdHeld(WritePrds(mem, ctba, prds), ctba, prds, i)
    decreases |prds|
  {
    hide Write, PrdBytes, Holds;
    var n := |prds| - 1;
    var before := WritePrds(mem, ctba, prds[..n]);
    PrdIsOneWrite(before, ctba, n, prds[n]);
    if i == n {
      WriteHolds(before, PrdAddress(ctba, n), PrdBytes(prds[n]));
    } else {
      TableHeld(mem, ctba, prds[..n], i);
      WriteKeeps(before, PrdAddress(ctba, n), PrdBytes(prds[n]), PrdAddress(ctba, i), PrdBytes(prds[i]));
    }
  }

  lemma PrdIsOneWrite(mem: seq<byte>, ctba: nat, entry: nat, prd: Prd)
    requires PrdAddress(ctba, entry) + 16 < U64
    ensures WritePrd(mem, ctba, entry, prd) == Write(mem, PrdAddress(ctba, entry), PrdBytes(prd))
  {
    hide Write, WordBytes, WriteWords;
    WordsAreOneWrite(mem, PrdAddress(ctba, entry), prd.dba % U32, prd.dba / U32, 0,
                     (if prd.dbc == 0 then 0 else prd.dbc - 1) % 0x40_0000);
  }

  lemma {:induction false} TableKeeps(mem: seq<byte>, ctba: nat, prds: seq<Prd>, b: nat, kept: seq<byte>)
    requires PrdAddress(ctba, |prds|) < U64 && Holds(mem, b, kept)
    requires Apart(PrdAddress(ctba, 0), 16 * |prds|, b, |kept|)
    ensures Holds(WritePrds(mem, ctba, prds), b, kept)
    decreases |prds|
  {
    hide Write, PrdBytes, Holds;
    if prds == [] {
    } else {
      var n := |prds| - 1;
      TableKeeps(mem, ctba, prds[..n], b, kept);
      var before := WritePrds(mem, ctba, prds[..n]);
      PrdIsOneWrite(before, ctba, n, prds[n]);
      WriteKeeps(before, PrdAddress(ctba, n), PrdBytes(prds[n]), b, kept);
    }
  }
}
