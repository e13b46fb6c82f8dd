/** The device's DMA engine: whole-sector disk transfers cut along byte-granular descriptor lists. */
module AhciDma {
  import opened Bytes
  import opened Words
  import opened Wrappers
  import opened GuestMemory
  import opened AhciCommand
  import opened AhciSetup
  import Seqs

  const SECTOR: nat := 512
  const MAX_DMA_CHUNK: nat := 0x4_0000
  const MAX_PRDS: nat := 32768

  datatype DmaError = TableTooLarge | TableTooSmall | DiskError | PartialSector

  // The disk

  function Stored(disk: seq<byte>, at: nat, buf: seq<byte>): (r: seq<byte>)
    requires buf == [] || at + |buf| <= |disk|
    ensures |r| == |disk|
  {
    if buf == [] then disk else disk[..at] + buf + disk[at + |buf|..]
  }

  /** The disk after a write, byte by byte. */
  lemma StoredExact(disk: seq<byte>, at: nat, buf: seq<byte>, k: nat)
    requires (buf == [] || at + |buf| <= |disk|) && k < |disk|
    ensures Stored(disk, at, buf)[k] == if at <= k < at + |buf| then buf[k - at] else disk[k]
  {
  }

  lemma StoredJoin(disk: seq<byte>, at: nat, x: seq<byte>, y: seq<byte>)
    requires x + y == [] || at + |x + y| <= |disk|
    ensures Stored(Stored(disk, at, x), at + |x|, y) == Stored(disk, at, x + y)
  {
    if x == [] {
      assert x + y == y;
    } else if y == [] {
      assert x + y == x;
    } else {
      StoredTwice(disk, at, x, y);
    }
  }

  lemma StoredTwice(disk: seq<byte>, at: nat, x: seq<byte>, y: seq<byte>)
    requires x != [] && y != [] && at + |x| + |y| <= |disk|
    ensures Stored(Stored(disk, at, x), at + |x|, y) == Stored(disk, at, x + y)
  {
    var first := Stored(disk, at, x);
    assert first[..at + |x|] == disk[..at] + x;
    assert first[at + |x| + |y|..] == disk[at + |x| + |y|..];
    Seqs.Assoc(disk[..at], x, y);
  }

  class Drive {
    var disk: seq<byte>

    constructor (disk: seq<byte>)
      ensures this.disk == disk
    {
      this.disk := disk;
    }

    /** Refused when the length is not whole sectors or the range leaves the disk. */
    method WriteSectors(lba: nat, buf: seq<byte>) returns (ok: bool)
      modifies this
      ensures ok <==> |buf| % SECTOR == 0 && SECTOR * lba < U64 && SECTOR * lba + |buf| <= |disk|
      ensures |disk| == |old(disk)|
      ensures disk == if ok then Stored(old(disk), SECTOR * lba, buf) else old(disk)
    {
      if |buf| % SECTOR != 0 || SECTOR * lba >= U64 || SECTOR * lba + |buf| > |disk| {
        return false;
      }
      assert buf == [] ==> disk[..SECTOR * lba] + buf + disk[SECTOR * lba..] == disk;
      disk := disk[..SECTOR * lba] + buf + disk[SECTOR * lba + |buf|..];
      return true;
    }

    method ReadSectors(lba: nat, n: nat) returns (r: Option<seq<byte>>)
      ensures r.Some? <==> n % SECTOR == 0 && SECTOR * lba < U64 && SECTOR * lba + n <= |disk|
      ensures r.Some? ==> r.value == disk[SECTOR * lba..SECTOR * lba + n]
    {
      if n % SECTOR != 0 || SECTOR * lba >= U64 || SECTOR * lba + n > |disk| {
        return None;
      }
      return Some(disk[SECTOR * lba..SECTOR * lba + n]);
    }
  }

  // Guest memory to disk

  function Total(prds: seq<Prd>): nat {
    if prds == [] then 0 else Total(prds[..|prds| - 1]) + prds[|prds| - 1].dbc
  }

  predicate NoWrap(prds: seq<Prd>) {
    forall i | 0 <= i < |prds| :: prds[i].dba + prds[i].dbc < U64
  }

  lemma {:induction false} GatheredTotal(mem: seq<byte>, prds: seq<Prd>)
    ensures |Gathered(mem, prds)| == Total(prds)
    decreases |prds|
  {
    hide Read;
    if prds == [] {
    } else {
      GatheredTotal(mem, prds[..|prds| - 1]);
    }
  }

  /** How far one step of the gather loop gets: whole sectors at once when no bytes are pending, else up to the end of
      a sector. */
  function GatherStep(pending: nat, left: nat): (take: nat)
    requires pending < SECTOR && left > 0
    ensures 0 < take <= left && (pending + take < SECTOR || (pending + take) % SECTOR == 0)
  {
    if pending == 0 && left >= SECTOR then WholeSectors(left) else Min(SECTOR - pending, left)
  }

  function WholeSectors(left: nat): (take: nat)
    requires left >= SECTOR
    ensures SECTOR <= take <= left && take % SECTOR == 0
  {
    Min(left / SECTOR * SECTOR, MAX_DMA_CHUNK)
  }

  /** The bytes fetched for the rest of a descriptor, piece by piece: an access that would pass the end of the address
      space gives zeros, and the next piece starts behind it, from address 0 on if need be. */
  function FetchPieces(mem: seq<byte>, dba: nat, off: nat, left: nat, pending: nat): (s: seq<byte>)
    requires pending < SECTOR
    ensures |s| == left
    decreases left
  {
    if left == 0 then []
    else
      var take := GatherStep(pending, left);
      Read(mem, WrappingAdd(dba, off), take) + FetchPieces(mem, dba, off + take, left - take, (pending + take) % SECTOR)
  }

  /** The bytes fetched from descriptor `i` on, until `left` are there or the list ends. */
  function Fetch(mem: seq<byte>, prds: seq<Prd>, i: nat, left: nat, pending: nat): seq<byte>
    requires i <= |prds| && pending < SECTOR
    decreases |prds| - i
  {
    if i == |prds| || left == 0 then []
    else
      var seg := Min(prds[i].dbc, left);
      FetchPieces(mem, prds[i].dba, 0, seg, pending) + Fetch(mem, prds, i + 1, left - seg, (pending + seg) % SECTOR)
  }

  lemma FirstPiece(mem: seq<byte>, dba: nat, off: nat, left: nat, pending: nat)
    requires pending < SECTOR && left > 0 && dba + off < U64
    ensures var take := GatherStep(pending, left);
            FetchPieces(mem, dba, off, left, pending)
            == Read(mem, dba + off, take) + FetchPieces(mem, dba, off + take, left - take, (pending + take) % SECTOR)
  {
    hide Read, GatherStep;
    assert WrappingAdd(dba, off) == dba + off;
  }

  /** Inside the address space the pieces are one read. */
  lemma {:induction false} PiecesAreOneRead(mem: seq<byte>, dba: nat, off: nat, left: nat, pending: nat)
    requires pending < SECTOR && dba + off + left < U64
    ensures FetchPieces(mem, dba, off, left, pending) == Read(mem, dba + off, left)
    decreases left
  {
    hide Read, GatherStep, FetchPieces;
    if left == 0 {
      FetchNothing(mem, dba, off, pending);
      ReadNothing(mem, dba + off);
    } else {
      var take := GatherStep(pending, left);
      FirstPiece(mem, dba, off, left, pending);
      PiecesAreOneRead(mem, dba, off + take, left - take, (pending + take) % SECTOR);
      ReadJoin(mem, dba + off, take, left - take);
    }
  }

  lemma {:induction false} FetchIsGathered(mem: seq<byte>, prds: seq<Prd>, i: nat, left: nat, pending: nat)
    requires i <= |prds| && pending < SECTOR && NoWrap(prds)
    ensures Gathered(mem, prds[..i]) + Fetch(mem, prds, i, left, pending) <= Gathered(mem, prds)
    decreases |prds| - i
  {
    hide Read, FetchPieces;
    var g := Gathered(mem, prds[..i]);
    if i == |prds| {
      assert prds[..i] == prds && g + [] == g;
    } else {
      assert prds[..i + 1][..i] == prds[..i];
      var prd, seg := prds[i], Min(prds[i].dbc, left);
      FetchIsGathered(mem, prds, i + 1, left - seg, (pending + seg) % SECTOR);
      PrefixFetched(mem, prds, i, left, pending, g);
    }
  }

  lemma PrefixFetched(mem: seq<byte>, prds: seq<Prd>, i: nat, left: nat, pending: nat, g: seq<byte>)
    requires i < |prds| && pending < SECTOR && prds[i].dba + prds[i].dbc < U64
    requires var seg := Min(prds[i].dbc, left);
             g + Read(mem, prds[i].dba, prds[i].dbc) + Fetch(mem, prds, i + 1, left - seg, (pending + seg) % SECTOR)
             <= Gathered(mem, prds)
    ensures g + Fetch(mem, prds, i, left, pending) <= Gathered(mem, prds)
  {
    hide Read, FetchPieces, Gathered;
    var prd, seg := prds[i], Min(prds[i].dbc, left);
    var rest := Fetch(mem, prds, i + 1, left - seg, (pending + seg) % SECTOR);
    PiecesAreOneRead(mem, prd.dba, 0, seg, pending);
    ReadJoin(mem, prd.dba, seg, prd.dbc - seg);
    if left == 0 {
      assert g + [] == g;
    } else if seg < prd.dbc {
      assert rest == [] && Fetch(mem, prds, i, left, pending) == Read(mem, prd.dba, seg) + [];
    } else {
      ReadNothing(mem, prd.dba + seg);
      assert Read(mem, prd.dba, seg) + [] == Read(mem, prd.dba, prd.dbc);
      Seqs.Assoc(g, Read(mem, prd.dba, seg), rest);
    }
  }

  /** When no descriptor passes the end of the address space, what is fetched is what the list stands for. */
  lemma FetchMeaning(mem: seq<byte>, prds: seq<Prd>, goal: nat)
    requires NoWrap(prds)
    ensures |Fetch(mem, prds, 0, goal, 0)| == Min(goal, Total(prds)) <= |Gathered(mem, prds)|
    ensures Fetch(mem, prds, 0, goal, 0) == Gathered(mem, prds)[..Min(goal, Total(prds))]
  {
    hide Fetch;
    FetchIsGathered(mem, prds, 0, goal, 0);
    FetchLength(mem, prds, 0, goal, 0);
    GatheredTotal(mem, prds);
    assert prds[..0] == [];
    assert [] + Fetch(mem, prds, 0, goal, 0) == Fetch(mem, prds, 0, goal, 0);
  }

  lemma {:induction false} FetchLength(mem: seq<byte>, prds: seq<Prd>, i: nat, left: nat, pending: nat)
    requires i <= |prds| && pending < SECTOR
    ensures Total(prds[..i]) <= Total(prds)
    ensures |Fetch(mem, prds, i, left, pending)| == Min(left, Total(prds) - Total(prds[..i]))
    decreases |prds| - i
  {
    hide FetchPieces;
    if i == |prds| {
      assert prds[..i] == prds;
    } else {
      assert prds[..i + 1][..i] == prds[..i];
      var seg := Min(prds[i].dbc, left);
      FetchLength(mem, prds, i + 1, left - seg, (pending + seg) % SECTOR);
    }
  }

  // How far the disk has room

  /** The pieces of one descriptor against the room left on the disk: whether each that completes sectors fits, and
      how many bytes those before the first that does not have completed. */
  function PiecesFit(left: nat, pending: nat, room: int): (bool, nat)
    requires pending < SECTOR
    decreases left
  {
    if left == 0 then (true, 0)
    else
      var take := GatherStep(pending, left);
      var n := pending + take;
      if n < SECTOR then PiecesFit(left - take, n, room)
      else if n > room then (false, 0)
      else
        var rest := PiecesFit(left - take, 0, room - n);
        (rest.0, n + rest.1)
  }

  /** The same for the descriptors from `i` on. */
  function TableFit(prds: seq<Prd>, i: nat, left: nat, pending: nat, room: int): (bool, nat)
    requires i <= |prds| && pending < SECTOR
    decreases |prds| - i
  {
    if i == |prds| || left == 0 then (true, 0)
    else
      var seg := Min(prds[i].dbc, left);
      var now := PiecesFit(seg, pending, room);
      if !now.0 then now
      else
        var rest := TableFit(prds, i + 1, left - seg, (pending + seg) % SECTOR, room - now.1);
        (rest.0, now.1 + rest.1)
  }

  function Whole(n: nat): (w: nat)
    ensures w <= n && w % SECTOR == 0 && n < w + SECTOR
  {
    n / SECTOR * SECTOR
  }

  /** Whole sectors in front can be counted apart. */
  lemma WholeAfter(w: nat, n: nat)
    requires w % SECTOR == 0
    ensures Whole(w + n) == w + Whole(n) && (w + n) % SECTOR == n % SECTOR
  {
  }

  /** What fits, in a list whose bytes make `n` with the pending ones: all whole sectors; or else the pieces before the
      one refused, which leave less room than one piece can take. */
  ghost predicate FitsWell(fit: (bool, nat), n: nat, room: int) {
    && (fit.0 <==> Whole(n) == 0 || Whole(n) <= room)
    && (fit.0 ==> fit.1 == Whole(n))
    && (!fit.0 ==> fit.1 == 0 || fit.1 <= room)
    && (!fit.0 ==> fit.1 < Whole(n) && fit.1 % SECTOR == 0 && room < fit.1 + MAX_DMA_CHUNK)
  }

  lemma FitsAfter(w: nat, fit: (bool, nat), n: nat, room: int)
    requires w % SECTOR == 0 && (w == 0 || w <= room) && FitsWell(fit, n, room - w)
    ensures FitsWell((fit.0, w + fit.1), w + n, room)
  {
    hide Whole;
    WholeAfter(w, n);
    WholeAfter(w, fit.1);
  }

  lemma RefusedHere(n: nat, rest: nat, room: int)
    requires 0 < n <= MAX_DMA_CHUNK && n % SECTOR == 0 && n > room
    ensures FitsWell((false, 0), n + rest, room)
  {
    hide Whole;
    WholeAfter(n, rest);
  }

  lemma NothingFits(pending: nat, room: int)
    requires pending < SECTOR
    ensures FitsWell((true, 0), pending, room)
  {
  }

  lemma {:induction false} PiecesFitWell(left: nat, pending: nat, room: int)
    requires pending < SECTOR
    ensures FitsWell(PiecesFit(left, pending, room), pending + left, room)
    decreases left
  {
    hide FitsWell, GatherStep;
    if left == 0 {
      NothingFits(pending, room);
    } else {
      var take := GatherStep(pending, left);
      var n := pending + take;
      StepSize(pending, left);
      if n < SECTOR {
        PiecesFitWell(left - take, n, room);
      } else if n <= room {
        PiecesFitWell(left - take, 0, room - n);
        FitsAfter(n, PiecesFit(left - take, 0, room - n), left - take, room);
      } else {
        RefusedHere(n, left - take, room);
      }
    }
  }

  lemma StepSize(pending: nat, left: nat)
    requires pending < SECTOR && left > 0
    ensures var n := pending + GatherStep(pending, left); n <= MAX_DMA_CHUNK && (n >= SECTOR ==> n % SECTOR == 0)
  {
  }

  lemma {:induction false} TableFitsWell(prds: seq<Prd>, i: nat, left: nat, pending: nat, room: int)
    requires i <= |prds| && pending < SECTOR
    ensures Total(prds[..i]) <= Total(prds)
    ensures FitsWell(TableFit(prds, i, left, pending, room),
                     pending + Min(left, Total(prds) - Total(prds[..i])), room)
    decreases |prds| - i
  {
    hide FitsWell, PiecesFit;
    if i == |prds| || left == 0 {
      NothingFits(pending, room);
      TotalGrows(prds, i);
      assert prds[..|prds|] == prds;
    } else {
      assert prds[..i + 1][..i] == prds[..i];
      var seg := Min(prds[i].dbc, left);
      var now := PiecesFit(seg, pending, room);
      TableFitsWell(prds, i + 1, left - seg, (pending + seg) % SECTOR, room - now.1);
      var more := Min(left - seg, Total(prds) - Total(prds[..i + 1]));
      PiecesFitWell(seg, pending, room);
      SegmentThenRest(now, TableFit(prds, i + 1, left - seg, (pending + seg) % SECTOR, room - now.1), pending + seg,
                      more, room);
    }
  }

  lemma {:induction false} TotalGrows(prds: seq<Prd>, i: nat)
    requires i <= |prds|
    ensures Total(prds[..i]) <= Total(prds)
    decreases |prds| - i
  {
    if i == |prds| {
      assert prds[..i] == prds;
    } else {
      TotalGrows(prds, i + 1);
      assert prds[..i + 1][..i] == prds[..i];
    }
  }

  /** A descriptor that makes `n` bytes with the pending ones, and `more` behind it. */
  lemma SegmentThenRest(now: (bool, nat), rest: (bool, nat), n: nat, more: nat, room: int)
    requires FitsWell(now, n, room) && (now.0 ==> FitsWell(rest, n % SECTOR + more, room - now.1))
    ensures FitsWell(if now.0 then (rest.0, now.1 + rest.1) else now, n + more, room)
  {
    var w := Whole(n);
    assert n == w + n % SECTOR;
    WholeAfter(w, n % SECTOR + more);
    if now.0 {
      FitsAfter(w, rest, n % SECTOR + more, room);
    }
  }

  /** Whole sectors from the front of `stream` have reached the disk. */
  ghost predicate SectorsStored(disk0: seq<byte>, disk: seq<byte>, at: nat, sent: seq<byte>, stream: seq<byte>) {
    && sent <= stream && |sent| % SECTOR == 0 && |disk| == |disk0|
    && (sent == [] || at + |sent| <= |disk|) && disk == Stored(disk0, at, sent)
  }

  lemma NothingStored(disk: seq<byte>, at: nat, stream: seq<byte>)
    ensures SectorsStored(disk, disk, at, [], stream)
  {
  }

  lemma MoreStored(disk0: seq<byte>, disk: seq<byte>, disk': seq<byte>, at: nat, sent: seq<byte>, now: seq<byte>,
                   part: seq<byte>, stream: seq<byte>)
    requires SectorsStored(disk0, disk, at, sent, stream) && SectorsStored(disk, disk', at + |sent|, now, part)
    requires sent + part <= stream
    ensures SectorsStored(disk0, disk', at, sent + now, stream)
  {
    hide Stored;
    StoredJoin(disk0, at, sent, now);
    assert sent + now <= sent + part;
  }

  /** Fetches `take` bytes behind the pending ones; when they complete sectors, these go to the disk. */
  method WriteStep(mem: seq<byte>, addr: nat, take: nat, drive: Drive, lba: nat, pending: seq<byte>)
    returns (ok: bool, lba': nat, pending': seq<byte>, ghost sent: seq<byte>)
    requires take > 0 && |drive.disk| < U64
    requires |pending| + take < SECTOR || (|pending| + take) % SECTOR == 0
    modifies drive
    ensures SectorsStored(old(drive.disk), drive.disk, SECTOR * lba, sent, pending + Read(mem, addr, take))
    ensures ok <==> |pending| + take < SECTOR || SECTOR * lba + |pending| + take <= |drive.disk|
    ensures |sent| == if ok && |pending| + take >= SECTOR then |pending| + take else 0
    ensures ok ==> SECTOR * lba' == SECTOR * lba + |sent| && |pending'| < SECTOR
    ensures ok ==> sent + pending' == pending + Read(mem, addr, take)
  {
    hide Read;
    StoredNothing(drive.disk, SECTOR * lba);
    lba', pending', sent, ok := lba, pending + Read(mem, addr, take), [], true;
    if |pending'| % SECTOR == 0 {
      ok := drive.WriteSectors(lba, pending');
      if ok {
        lba', sent, pending' := lba + |pending'| / SECTOR, pending', [];
      }
    }
  }

  /** The bytes that follow when the pieces of a descriptor are taken up to `off`. */
  lemma PiecesGoOn(mem: seq<byte>, dba: nat, off: nat, left: nat, sent: seq<byte>, before: seq<byte>, now: seq<byte>,
                   pending: seq<byte>)
    requires left > 0 && |before| < SECTOR && |pending| < SECTOR && |now| % SECTOR == 0
    requires now + pending == before + Read(mem, WrappingAdd(dba, off), GatherStep(|before|, left))
    ensures var take := GatherStep(|before|, left);
            && |pending| == (|before| + take) % SECTOR
            && sent + before + FetchPieces(mem, dba, off, left, |before|)
               == sent + now + pending + FetchPieces(mem, dba, off + take, left - take, |pending|)
            && sent + (before + Read(mem, WrappingAdd(dba, off), take))
               <= sent + before + FetchPieces(mem, dba, off, left, |before|)
  {
    hide Read, GatherStep, FetchPieces;
    var take := GatherStep(|before|, left);
    var more := Read(mem, WrappingAdd(dba, off), take);
    assert |now| + |pending| == |before| + take;
    PendingIs(|now|, |pending|, |before| + take);
    FetchPiecesFirst(mem, dba, off, left, |before|);
    var rest := FetchPieces(mem, dba, off + take, left - take, |pending|);
    Regroup(sent, before, more, rest, now, pending);
  }

  lemma PendingIs(now: nat, pending: nat, n: nat)
    requires now % SECTOR == 0 && pending < SECTOR && now + pending == n
    ensures pending == n % SECTOR
  {
  }

  lemma FetchPiecesFirst(mem: seq<byte>, dba: nat, off: nat, left: nat, pending: nat)
    requires left > 0 && pending < SECTOR
    ensures var take := GatherStep(pending, left);
            FetchPieces(mem, dba, off, left, pending)
            == Read(mem, WrappingAdd(dba, off), take)
               + FetchPieces(mem, dba, off + take, left - take, (pending + take) % SECTOR)
  {
    hide Read, GatherStep;
  }

  lemma Regroup(sent: seq<byte>, before: seq<byte>, more: seq<byte>, rest: seq<byte>, now: seq<byte>,
                pending: seq<byte>)
    requires now + pending == before + more
    ensures sent + before + (more + rest) == sent + now + pending + rest
    ensures sent + (before + more) <= sent + before + (more + rest)
  {
    Seqs.Assoc(sent, now, pending);
    Seqs.Assoc(sent, before, more);
    Seqs.Assoc(sent + before, more, rest);
  }

  /** Bytes of one descriptor follow the pending ones; whole sectors go to the disk as `sent`, the rest stays pending.
      When the disk refuses a piece, the sectors before it stay. */
  method WriteSegment(mem: seq<byte>, dba: nat, seg: nat, drive: Drive, lba: nat, pending: seq<byte>)
    returns (ok: bool, lba': nat, pending': seq<byte>, ghost sent: seq<byte>)
    requires |pending| < SECTOR && |drive.disk| < U64
    modifies drive
    ensures SectorsStored(old(drive.disk), drive.disk, SECTOR * lba, sent,
                          pending + FetchPieces(mem, dba, 0, seg, |pending|))
    ensures (ok, |sent|) == PiecesFit(seg, |pending|, |drive.disk| - SECTOR * lba)
    ensures ok ==> SECTOR * lba' == SECTOR * lba + |sent| && |pending'| < SECTOR
    ensures ok ==> sent + pending' == pending + FetchPieces(mem, dba, 0, seg, |pending|)
  {
    hide Read, Stored, GatherStep, FetchPieces, SectorsStored, PiecesFit, WrappingAdd;
    ghost var stream, disk0 := pending + FetchPieces(mem, dba, 0, seg, |pending|), drive.disk;
    ghost var room := |disk0| - SECTOR * lba;
    lba', pending', sent, ok := lba, pending, [], true;
    NothingStored(drive.disk, SECTOR * lba, stream);
    StoredSize(disk0, drive.disk, SECTOR * lba, sent, stream);
    assert [] + pending == pending;
    var left: nat, off: nat := seg, 0;
    while left != 0
      invariant off + left == seg && |pending'| < SECTOR && SECTOR * lba' == SECTOR * lba + |sent|
      invariant SectorsStored(disk0, drive.disk, SECTOR * lba, sent, stream) && |drive.disk| == |disk0|
      invariant var fit := PiecesFit(left, |pending'|, room - |sent|);
                PiecesFit(seg, |pending|, room) == (fit.0, |sent| + fit.1)
      invariant stream == sent + pending' + FetchPieces(mem, dba, off, left, |pending'|)
    {
      var take := GatherStep(|pending'|, left);
      ghost var before, disk := pending', drive.disk;
      ghost var now, part := [], pending' + Read(mem, WrappingAdd(dba, off), take);
      PiecesFitStep(left, |pending'|, room - |sent|);
      ok, lba', pending', now := WriteStep(mem, WrappingAdd(dba, off), take, drive, lba', pending');
      StoredSize(disk, drive.disk, SECTOR * lba + |sent|, now, part);
      if !ok {
        StoredSame(disk, drive.disk, SECTOR * lba + |sent|, part);
        return;
      }
      PiecesGoOn(mem, dba, off, left, sent, before, now, pending');
      MoreStored(disk0, disk, drive.disk, SECTOR * lba, sent, now, part, stream);
      sent := sent + now;
      left, off := left - take, off + take;
    }
    FetchNothing(mem, dba, off, |pending'|);
    PiecesFitDone(|pending'|, room - |sent|);
    assert sent + pending' + [] == sent + pending';
    ok := true;
  }

  lemma PiecesFitStep(left: nat, pending: nat, room: int)
    requires left > 0 && pending < SECTOR
    ensures var take := GatherStep(pending, left); var n := pending + take;
            PiecesFit(left, pending, room)
            == if n < SECTOR then PiecesFit(left - take, n, room)
               else if n > room then (false, 0)
               else var rest := PiecesFit(left - take, 0, room - n); (rest.0, n + rest.1)
  {
  }

  lemma PiecesFitDone(pending: nat, room: int)
    requires pending < SECTOR
    ensures PiecesFit(0, pending, room) == (true, 0)
  {
  }

  lemma StoredSize(disk0: seq<byte>, disk: seq<byte>, at: nat, sent: seq<byte>, stream: seq<byte>)
    requires SectorsStored(disk0, disk, at, sent, stream)
    ensures |disk| == |disk0| && sent <= stream && |sent| % SECTOR == 0
    ensures sent == [] || at + |sent| <= |disk|
  {
  }

  lemma StoredSame(disk0: seq<byte>, disk: seq<byte>, at: nat, stream: seq<byte>)
    requires SectorsStored(disk0, disk, at, [], stream)
    ensures disk == disk0
  {
  }

  lemma FetchNothing(mem: seq<byte>, dba: nat, off: nat, pending: nat)
    requires pending < SECTOR
    ensures FetchPieces(mem, dba, off, 0, pending) == []
  {
  }

  lemma StoredNothing(disk: seq<byte>, at: nat)
    ensures Stored(disk, at, []) == disk
  {
  }

  lemma ReadNothing(mem: seq<byte>, at: nat)
    ensures Read(mem, at, 0) == []
  {
  }

  lemma FetchGoesOn(mem: seq<byte>, prds: seq<Prd>, i: nat, remaining: nat, sent: seq<byte>, before: seq<byte>,
                    now: seq<byte>, pending: seq<byte>)
    requires i < |prds| && remaining > 0 && |before| < SECTOR && |pending| < SECTOR && |now| % SECTOR == 0
    requires var seg := Min(prds[i].dbc, remaining);
             now + pending == before + FetchPieces(mem, prds[i].dba, 0, seg, |before|)
    ensures var seg := Min(prds[i].dbc, remaining);
            && |now| + |pending| == |before| + seg && |pending| == (|before| + seg) % SECTOR
            && sent + before + Fetch(mem, prds, i, remaining, |before|)
               == sent + now + pending + Fetch(mem, prds, i + 1, remaining - seg, |pending|)
  {
    hide FetchPieces;
    var seg := Min(prds[i].dbc, remaining);
    var more := FetchPieces(mem, prds[i].dba, 0, seg, |before|);
    assert |now| + |pending| == |before| + seg;
    assert |pending| == (|before| + seg) % SECTOR;
    Regroup(sent, before, more, Fetch(mem, prds, i + 1, remaining - seg, |pending|), now, pending);
  }

  lemma FetchStops(mem: seq<byte>, prds: seq<Prd>, i: nat, remaining: nat, pending: nat)
    requires i <= |prds| && pending < SECTOR && (i == |prds| || remaining == 0)
    ensures Fetch(mem, prds, i, remaining, pending) == []
  {
  }

  lemma FetchWhole(mem: seq<byte>, prds: seq<Prd>, goal: nat)
    ensures |Fetch(mem, prds, 0, goal, 0)| == Min(goal, Total(prds))
  {
    FetchLength(mem, prds, 0, goal, 0);
    assert prds[..0] == [];
  }

  /** How a transfer of `goal` bytes to `at` ends, when the list is not too long: `sent` of `stream` reached the disk.
      Each end has its own condition on the list and the disk. */
  ghost predicate WriteEnds(r: Result<(), DmaError>, prds: seq<Prd>, goal: nat, at: nat, size: nat, sent: seq<byte>,
                            stream: seq<byte>) {
    var all, fit := Whole(Min(goal, Total(prds))), TableFit(prds, 0, goal, 0, size - at);
    match r
    case Ok(_) => goal <= Total(prds) && at + goal <= size && sent == stream && |sent| == goal
    case Err(TableTooSmall) => goal > Total(prds) && (all == 0 || at + all <= size) && |sent| == all
    case Err(DiskError) =>
      all > 0 && at + all > size && |sent| == fit.1 && FitsWell(fit, Min(goal, Total(prds)), size - at)
    case Err(_) => false
  }

  lemma EndsWell(prds: seq<Prd>, count: nat, lba: nat, size: nat, sent: seq<byte>, pending: seq<byte>, remaining: nat)
    requires count > 0 && remaining <= SECTOR * count
    requires |sent + pending| == Min(SECTOR * count, Total(prds)) == SECTOR * count - remaining
    requires |sent| % SECTOR == 0 && |pending| < SECTOR && (sent == [] || SECTOR * lba + |sent| <= size)
    ensures remaining == 0 ==> pending == []
    ensures var r := if remaining != 0 then Err(TableTooSmall) else Ok(());
            WriteEnds(r, prds, SECTOR * count, SECTOR * lba, size, sent, sent + pending)
  {
    hide Total, TableFit, FitsWell;
    WholeAfter(|sent|, |pending|);
    if remaining == 0 {
      assert pending == [] && sent + [] == sent;
    }
  }

  /** The piece that is refused ends a transfer whose whole sectors do not fit. */
  lemma DiskEnds(prds: seq<Prd>, goal: nat, at: nat, size: nat, sent: seq<byte>, stream: seq<byte>)
    requires TableFit(prds, 0, goal, 0, size - at) == (false, |sent|)
    ensures WriteEnds(Err(DiskError), prds, goal, at, size, sent, stream)
  {
    hide TableFit, Total;
    TableFitsWell(prds, 0, goal, 0, size - at);
    NoneBefore(prds);
  }

  lemma NoneBefore(prds: seq<Prd>)
    ensures Total(prds[..0]) == 0
  {
  }

  lemma TableFitStep(prds: seq<Prd>, i: nat, left: nat, pending: nat, room: int)
    requires i < |prds| && left > 0 && pending < SECTOR
    ensures var seg := Min(prds[i].dbc, left); var now := PiecesFit(seg, pending, room);
            TableFit(prds, i, left, pending, room)
            == if !now.0 then now
               else var rest := TableFit(prds, i + 1, left - seg, (pending + seg) % SECTOR, room - now.1);
                    (rest.0, now.1 + rest.1)
  {
    hide PiecesFit;
  }

  /** The loop over the descriptors. */
  method WriteSegments(mem: seq<byte>, header: Header, drive: Drive, lba: nat, count: nat)
    returns (r: Result<(), DmaError>, ghost sent: seq<byte>)
    requires |drive.disk| < U64 && count > 0
    modifies drive
    ensures var prds := DevicePrds(mem, header.ctba, header.prdtl);
            var stream := Fetch(mem, prds, 0, SECTOR * count, 0);
            && SectorsStored(old(drive.disk), drive.disk, SECTOR * lba, sent, stream)
            && WriteEnds(r, prds, SECTOR * count, SECTOR * lba, |drive.disk|, sent, stream)
  {
    hide Read, Stored, ReadPrd, DevicePrds, Total, Fetch, FetchPieces, SectorsStored, WriteEnds, TableFit, PiecesFit;
    ghost var prds, goal, disk0 := DevicePrds(mem, header.ctba, header.prdtl), SECTOR * count, drive.disk;
    ghost var stream, room := Fetch(mem, prds, 0, goal, 0), |disk0| - SECTOR * lba;
    sent := [];
    NothingStored(disk0, SECTOR * lba, stream);
    FetchWhole(mem, prds, goal);
    var at, pending, i := lba, [], 0;
    var remaining: nat := SECTOR * count;
    assert [] + [] + stream == stream;
    while i < header.prdtl && remaining != 0
      invariant i <= header.prdtl && remaining <= goal && |pending| < SECTOR && |drive.disk| == |disk0|
      invariant SECTOR * at == SECTOR * lba + |sent| && |sent| + |pending| == goal - remaining
      invariant SectorsStored(disk0, drive.disk, SECTOR * lba, sent, stream)
      invariant stream == sent + pending + Fetch(mem, prds, i, remaining, |pending|)
      invariant var fit := TableFit(prds, i, remaining, |pending|, room - |sent|);
                TableFit(prds, 0, goal, 0, room) == (fit.0, |sent| + fit.1)
    {
      var prd := ReadPrd(mem, PrdAddress(header.ctba, i) % U64);
      assert prds[i] == prd;
      var seg := Min(prd.dbc, remaining);
      ghost var before, disk := pending, drive.disk;
      ghost var now, part := [], pending + FetchPieces(mem, prd.dba, 0, seg, |pending|);
      TableFitStep(prds, i, remaining, |pending|, room - |sent|);
      var ok;
      ok, at, pending, now := WriteSegment(mem, prd.dba, seg, drive, at, pending);
      StoredSize(disk, drive.disk, SECTOR * lba + |sent|, now, part);
      PartWithin(mem, prds, i, remaining, sent, before, stream);
      MoreStored(disk0, disk, drive.disk, SECTOR * lba, sent, now, part, stream);
      if !ok {
        DiskEnds(prds, goal, SECTOR * lba, |drive.disk|, sent + now, stream);
        return Err(DiskError), sent + now;
      }
      FetchGoesOn(mem, prds, i, remaining, sent, before, now, pending);
      sent := sent + now;
      remaining, i := remaining - seg, i + 1;
    }
    FetchStops(mem, prds, i, remaining, |pending|);
    assert stream == sent + pending;
    StoredSize(disk0, drive.disk, SECTOR * lba, sent, stream);
    EndsWell(prds, count, lba, |drive.disk|, sent, pending, remaining);
    if remaining != 0 {
      return Err(TableTooSmall), sent;
    }
    if pending != [] {
      return Err(PartialSector), sent;
    }
    return Ok(()), sent;
  }

  /** The transfer succeeds exactly when the list is long enough (and not too long) and the disk range exists. Whatever
      happens, the disk holds whole sectors from the front of the fetched bytes from `lba` on and is otherwise as it
      was: all of them after a success; all that were fetched when the list was too short; those of the pieces before
      the refused one after a disk error. */
  method DmaWrite(mem: seq<byte>, header: Header, drive: Drive, lba: nat, count: nat)
    returns (r: Result<(), DmaError>, ghost sent: seq<byte>)
    requires |drive.disk| < U64
    modifies drive
    ensures var prds := DevicePrds(mem, header.ctba, header.prdtl);
            var stream := Fetch(mem, prds, 0, SECTOR * count, 0);
            && SectorsStored(old(drive.disk), drive.disk, SECTOR * lba, sent, stream)
            && (r.Ok? <==> count == 0 || (&& 0 < header.prdtl <= MAX_PRDS && SECTOR * count <= Total(prds)
                                          && SECTOR * (lba + count) <= |drive.disk|))
            && (r.Ok? ==> sent == stream && |sent| == SECTOR * count)
            && (count > 0 && header.prdtl > MAX_PRDS ==> r == Err(TableTooLarge) && sent == [])
            && (count > 0 && header.prdtl <= MAX_PRDS ==>
                  WriteEnds(r, prds, SECTOR * count, SECTOR * lba, |drive.disk|, sent, stream))
  {
    hide DevicePrds, Fetch, SectorsStored, TableFit;
    ghost var prds := DevicePrds(mem, header.ctba, header.prdtl);
    NothingStored(drive.disk, SECTOR * lba, Fetch(mem, prds, 0, SECTOR * count, 0));
    FetchWhole(mem, prds, SECTOR * count);
    if count == 0 {
      return Ok(()), [];
    }
    if header.prdtl > MAX_PRDS {
      return Err(TableTooLarge), [];
    }
    if header.prdtl == 0 {
      return Err(TableTooSmall), [];
    }
    r, sent := WriteSegments(mem, header, drive, lba, count);
  }

  lemma PartWithin(mem: seq<byte>, prds: seq<Prd>, i: nat, remaining: nat, sent: seq<byte>, before: seq<byte>,
                   stream: seq<byte>)
    requires i < |prds| && remaining > 0 && |before| < SECTOR
    requires stream == sent + before + Fetch(mem, prds, i, remaining, |before|)
    ensures sent + (before + FetchPieces(mem, prds[i].dba, 0, Min(prds[i].dbc, remaining), |before|)) <= stream
  {
    hide FetchPieces;
    var seg := Min(prds[i].dbc, remaining);
    var more := FetchPieces(mem, prds[i].dba, 0, seg, |before|);
    Regroup(sent, before, more, Fetch(mem, prds, i + 1, remaining - seg, (|before| + seg) % SECTOR), before, more);
  }
}
