/** The trace format byte by byte: where each field of a file stands, as little-endian numbers at fixed offsets, and
    which files and records are refused for which bytes. */
module TraceLayout {
  import opened Bytes
  import opened Words
  import opened Wrappers
  import opened TraceFormat
  import opened TraceFile
  import Seqs

  // Rows

  ghost predicate RowStands(s: seq<byte>, at: nat, x: Row) {
    && Has32(s, at, x.id) && Has32(s, at + 4, x.flags)
    && Has64(s, at + 8, x.x) && Has64(s, at + 16, x.y) && Has64(s, at + 24, x.z)
  }

  /** A table stands at `at`, row behind row. */
  ghost predicate TableStands(s: seq<byte>, at: nat, xs: seq<Row>) {
    forall i | 0 <= i < |xs| :: RowStands(s, at + 32 * i, xs[i])
  }

  lemma {:induction false} RowsAre(s: seq<byte>, off: nat, n: nat, i: nat)
    requires i < n && off + 32 * n <= |s|
    ensures RowsAt(s, off, n)[i] == RowAt(s, off + 32 * i)
    decreases n
  {
    hide RowAt;
    if i < n - 1 {
      RowsAre(s, off, n - 1, i);
    }
  }

  lemma IsRow(s: seq<byte>, at: nat, x: Row)
    requires at + 32 <= |s|
    ensures RowStands(s, at, x) <==> RowAt(s, at) == x
  {
    hide Has32, Has64, U32At, U64At;
    Is32(s, at, x.id);
    Is32(s, at + 4, x.flags);
    Is64(s, at + 8, x.x);
    Is64(s, at + 16, x.y);
    Is64(s, at + 24, x.z);
  }

  lemma AreRows(s: seq<byte>, at: nat, xs: seq<Row>)
    requires at + 32 * |xs| <= |s|
    ensures TableStands(s, at, xs) <==> RowsAt(s, at, |xs|) == xs
  {
    hide RowStands, RowAt, RowsAt;
    forall i | 0 <= i < |xs|
      ensures RowStands(s, at + 32 * i, xs[i]) <==> RowsAt(s, at, |xs|)[i] == xs[i]
    {
      RowsAre(s, at, |xs|, i);
      IsRow(s, at + 32 * i, xs[i]);
    }
  }

  lemma RowsStand(s: seq<byte>, a: seq<byte>, xs: seq<Row>, b: seq<byte>, at: nat)
    requires s == a + RowsBytes(xs) + b && at == |a| && forall k | 0 <= k < |xs| :: RowFits(xs[k])
    ensures TableStands(s, at, xs)
  {
    hide TableStands, RowsBytes, RowsAt, RowFits;
    RowsReadBack(a, xs, b);
    AreRows(s, at, xs);
  }

  // Records

  /** The bytes of one record: type, three zero bytes, the length of the payload, and the payload's own fields. */
  ghost predicate Spelled(s: seq<byte>, r: Record) {
    && |s| >= 8 && s[1] == 0 && s[2] == 0 && s[3] == 0 && Has32(s, 4, |s| - 8)
    && match r
       case BeginFrame(i) => s[0] == 1 && |s| == 12 && Has32(s, 8, i)
       case Present(i) => s[0] == 2 && |s| == 12 && Has32(s, 8, i)
       case Packet(bytes) => s[0] == 3 && s[8..] == bytes
       case Blob(id, kind, data) =>
         s[0] == 4 && |s| >= 24 && Has64(s, 8, id) && Has32(s, 16, kind) && Has32(s, 20, 0) && s[24..] == data
       case Submission(version, flags, context, engine, fence, cmd, alloc, ranges) =>
         && s[0] == 5 && |s| == 64 + 32 * |ranges|
         && Has32(s, 8, version) && Has32(s, 12, 56) && Has32(s, 16, flags) && Has32(s, 20, context)
         && Has32(s, 24, engine) && Has32(s, 28, 0) && Has64(s, 32, fence) && Has64(s, 40, cmd)
         && Has64(s, 48, alloc) && Has32(s, 56, |ranges|) && Has32(s, 60, 0)
         && TableStands(s, 64, ranges)
  }

  lemma RecordHead(r: Record)
    requires |Payload(r)| < U32
    ensures var s := Encode(r);
            && |s| == 8 + |Payload(r)| && s[0] == TypeByte(r) && s[1] == 0 && s[2] == 0 && s[3] == 0
            && Has32(s, 4, |s| - 8) && s[8..] == Payload(r)
  {
    hide Has32, U32Bytes, Payload, TypeByte;
    Put32([TypeByte(r), 0, 0, 0], |Payload(r)|, Payload(r));
    var head := [TypeByte(r), 0, 0, 0] + U32Bytes(|Payload(r)|);
    assert Encode(r) == head + Payload(r);
  }

  /** A field of the payload stands eight bytes further on in the record. */
  lemma InRecord32(s: seq<byte>, p: seq<byte>, at: nat, n: nat)
    requires |s| == 8 + |p| && s[8..] == p && Has32(p, at, n)
    ensures Has32(s, 8 + at, n)
  {
    hide Has32;
    assert s[..8] + p + [] == s;
    Moved32(s[..8], p, [], at, n);
  }

  lemma InRecord64(s: seq<byte>, p: seq<byte>, at: nat, n: nat)
    requires |s| == 8 + |p| && s[8..] == p && Has64(p, at, n)
    ensures Has64(s, 8 + at, n)
  {
    hide Has64;
    assert s[..8] + p + [] == s;
    Moved64(s[..8], p, [], at, n);
  }

  lemma IndexStands(i: nat)
    requires i < U32
    ensures Has32(U32Bytes(i), 0, i)
  {
    hide Has32, U32Bytes;
    Put32([], i, []);
    assert [] + U32Bytes(i) + [] == U32Bytes(i);
  }

  lemma BlobStands(id: nat, kind: nat, data: seq<byte>)
    requires id < U64 && kind < U32
    ensures var p := Payload(Blob(id, kind, data));
            |p| >= 16 && Has64(p, 0, id) && Has32(p, 8, kind) && Has32(p, 12, 0) && p[16..] == data
  {
    hide Has32, Has64, U32Bytes, U64Bytes;
    var a, b, z := U64Bytes(id), U32Bytes(kind), U32Bytes(0);
    var p := a + b + z + data;
    Put64([], id, b + z + data);
    Put32(a, kind, z + data);
    Put32(a + b, 0, data);
    assert [] + a + (b + z + data) == p && a + b + (z + data) == p;
  }

  lemma SixStand(a: nat, b: nat, c: nat, d: nat, e: nat, f: nat)
    requires a < U32 && b < U32 && c < U32 && d < U32 && e < U32 && f < U32
    ensures var s := SixBytes(a, b, c, d, e, f);
            && Has32(s, 0, a) && Has32(s, 4, b) && Has32(s, 8, c)
            && Has32(s, 12, d) && Has32(s, 16, e) && Has32(s, 20, f)
  {
    hide Has32, SixBytes, U32At;
    var s := SixBytes(a, b, c, d, e, f);
    SixReadBack(a, b, c, d, e, f);
    Reads32(s, 0);
    Reads32(s, 4);
    Reads32(s, 8);
    Reads32(s, 12);
    Reads32(s, 16);
    Reads32(s, 20);
  }

  lemma ReferencesStand(fence: nat, cmd: nat, alloc: nat, count: nat)
    requires fence < U64 && cmd < U64 && alloc < U64 && count < U32
    ensures var s := ReferenceBytes(fence, cmd, alloc, count);
            Has64(s, 0, fence) && Has64(s, 8, cmd) && Has64(s, 16, alloc) && Has32(s, 24, count) && Has32(s, 28, 0)
  {
    hide Has32, Has64, U32At, U64At, U32Bytes, U64Bytes;
    var s := ReferenceBytes(fence, cmd, alloc, count);
    ReferenceReadsBack(fence, cmd, alloc, count);
    Reads64(s, 0);
    Reads64(s, 8);
    Reads64(s, 16);
    Reads32(s, 24);
    var front := U64Bytes(fence) + U64Bytes(cmd) + U64Bytes(alloc) + U32Bytes(count);
    Put32(front, 0, []);
    assert front + U32Bytes(0) + [] == s;
  }

  lemma SubmissionStands(r: Record, containerVersion: nat)
    requires r.Submission? && Fits(r, containerVersion)
    ensures Spelled(Encode(r), r)
  {
    RecordHead(r);
    var six := SixBytes(r.version, 56, r.submitFlags, r.contextId, r.engineId, 0);
    var refs := ReferenceBytes(r.signalFence, r.cmdBlob, r.allocBlob, |r.ranges|);
    var head, rows, s := Encode(r)[..8], RowsBytes(r.ranges), Encode(r);
    hide Encode, SixBytes, ReferenceBytes, RowsBytes, RowFits, TableStands, Has32, Has64;
    assert s == head + Payload(r);
    Regrouped(head, six, refs, rows);
    SixStand(r.version, 56, r.submitFlags, r.contextId, r.engineId, 0);
    SixMoved(head, six, refs + rows, r.version, r.submitFlags, r.contextId, r.engineId);
    ReferencesStand(r.signalFence, r.cmdBlob, r.allocBlob, |r.ranges|);
    ReferencesMoved(head + six, refs, rows, r.signalFence, r.cmdBlob, r.allocBlob, |r.ranges|);
    RowsStand(s, head + six + refs, r.ranges, [], 64);
  }

  lemma Regrouped(head: seq<byte>, six: seq<byte>, refs: seq<byte>, rows: seq<byte>)
    ensures var s := head + (six + refs + rows);
            s == head + six + (refs + rows) && s == (head + six) + refs + rows && s == (head + six + refs) + rows + []
  {
  }

  lemma SixMoved(a: seq<byte>, six: seq<byte>, b: seq<byte>, version: nat, flags: nat, context: nat, engine: nat)
    requires |a| == 8 && Has32(six, 0, version) && Has32(six, 4, 56) && Has32(six, 8, flags)
    requires Has32(six, 12, context) && Has32(six, 16, engine) && Has32(six, 20, 0)
    ensures var s := a + six + b;
            && Has32(s, 8, version) && Has32(s, 12, 56) && Has32(s, 16, flags) && Has32(s, 20, context)
            && Has32(s, 24, engine) && Has32(s, 28, 0)
  {
    hide Has32;
    Moved32(a, six, b, 0, version);
    Moved32(a, six, b, 4, 56);
    Moved32(a, six, b, 8, flags);
    Moved32(a, six, b, 12, context);
    Moved32(a, six, b, 16, engine);
    Moved32(a, six, b, 20, 0);
  }

  lemma ReferencesMoved(a: seq<byte>, refs: seq<byte>, b: seq<byte>, fence: nat, cmd: nat, alloc: nat, count: nat)
    requires |a| == 32 && Has64(refs, 0, fence) && Has64(refs, 8, cmd) && Has64(refs, 16, alloc)
    requires Has32(refs, 24, count) && Has32(refs, 28, 0)
    ensures var s := a + refs + b;
            Has64(s, 32, fence) && Has64(s, 40, cmd) && Has64(s, 48, alloc) && Has32(s, 56, count) && Has32(s, 60, 0)
  {
    hide Has32, Has64;
    Moved64(a, refs, b, 0, fence);
    Moved64(a, refs, b, 8, cmd);
    Moved64(a, refs, b, 16, alloc);
    Moved32(a, refs, b, 24, count);
    Moved32(a, refs, b, 28, 0);
  }

  /** Every record is spelled out as the format says. */
  lemma RecordSpelled(r: Record, containerVersion: nat)
    requires Fits(r, containerVersion)
    ensures Spelled(Encode(r), r)
  {
    if r.Submission? {
      SubmissionStands(r, containerVersion);
    } else {
      RecordHead(r);
      OtherSpelled(r, containerVersion);
    }
  }

  lemma OtherSpelled(r: Record, containerVersion: nat)
    requires Fits(r, containerVersion) && !r.Submission?
    requires var s := Encode(r);
             && |s| == 8 + |Payload(r)| && s[0] == TypeByte(r) && s[1] == 0 && s[2] == 0 && s[3] == 0
             && Has32(s, 4, |s| - 8) && s[8..] == Payload(r)
    ensures Spelled(Encode(r), r)
  {
    var s, p := Encode(r), Payload(r);
    hide Encode, Has32, Has64, U32Bytes, U64Bytes;
    match r
    case BeginFrame(i) =>
      IndexStands(i);
      InRecord32(s, p, 0, i);
    case Present(i) =>
      IndexStands(i);
      InRecord32(s, p, 0, i);
    case Packet(_) =>
    case Blob(id, kind, data) =>
      BlobStands(id, kind, data);
      InRecord64(s, p, 0, id);
      InRecord32(s, p, 8, kind);
      InRecord32(s, p, 12, 0);
      assert s[24..] == p[16..];
  }

  /** Record `k` of a stream stands behind the records before it. */
  lemma StreamSpelled(log: seq<Record>, k: nat, containerVersion: nat)
    requires k < |log| && Fits(log[k], containerVersion)
    ensures var s, at := EncodeAll(log), |EncodeAll(log[..k])|;
            at + |Encode(log[k])| <= |s| && Spelled(s[at..at + |Encode(log[k])|], log[k])
  {
    hide *;
    RecordSpelled(log[k], containerVersion);
    EncodeAllConcat(log[..k], log[k..]);
    assert log[..k] + log[k..] == log;
    FirstEncoded(log[k..]);
    assert log[k..][1..] == log[k + 1..];
    Seqs.Assoc(EncodeAll(log[..k]), Encode(log[k]), EncodeAll(log[k + 1..]));
    Seqs.Middle(EncodeAll(log[..k]), Encode(log[k]), EncodeAll(log[k + 1..]));
  }

  lemma FirstEncoded(rs: seq<Record>)
    requires rs != []
    ensures EncodeAll(rs) == Encode(rs[0]) + EncodeAll(rs[1..])
  {
    hide Encode;
  }

  // The container

  /** Magic, size, container version, command ABI version, flags, length of the metadata. */
  ghost predicate HeaderStands(file: seq<byte>, version: nat, abi: nat, metaLen: nat) {
    && |file| >= 32 && file[..8] == [65, 69, 82, 79, 71, 80, 85, 84] && Has32(file, 8, 32) && Has32(file, 12, version)
    && Has32(file, 16, abi) && Has32(file, 20, 0) && Has32(file, 24, metaLen) && Has32(file, 28, 0)
  }

  /** Magic, version, number of frames, and a row for each: index, flags, start, present, end. */
  ghost predicate TocStands(file: seq<byte>, at: nat, toc: seq<Row>) {
    && at + 16 + 32 * |toc| <= |file| && file[at..at + 8] == [65, 69, 82, 79, 84, 79, 67, 0] && Has32(file, at + 8, 1)
    && Has32(file, at + 12, |toc|) && TableStands(file, at + 16, toc)
  }

  /** Magic, size, container version, offset and length of the table of contents. */
  ghost predicate FooterStands(file: seq<byte>, at: nat, version: nat, tocOffset: nat, tocLen: nat) {
    && at + 32 <= |file| && file[at..at + 8] == [65, 69, 82, 79, 71, 80, 85, 70] && Has32(file, at + 8, 32)
    && Has32(file, at + 12, version) && Has64(file, at + 16, tocOffset) && Has64(file, at + 24, tocLen)
  }

  /** Header, metadata, stream, table of contents and footer, one behind the other. */
  lemma ContainerSpelled(version: nat, abi: nat, meta: seq<byte>, body: seq<byte>, toc: seq<Row>)
    requires version < U32 && abi < U32 && |meta| < U32 && |toc| < U32 && RowsFit(toc)
    requires 32 + |meta| + |body| < U64
    ensures var file := Container(version, abi, meta, body, toc);
            var at := 32 + |meta| + |body|; var foot := at + 16 + 32 * |toc|;
            && |file| == foot + 32 && HeaderStands(file, version, abi, |meta|)
            && file[32..32 + |meta|] == meta && file[32 + |meta|..at] == body
            && TocStands(file, at, toc) && FooterStands(file, foot, version, at, 16 + 32 * |toc|)
  {
    hide HeaderBytes, TocBytes, FooterBytes, HeaderStands, TocStands, FooterStands, RowsFit;
    var at, len := 32 + |meta| + |body|, 16 + 32 * |toc|;
    var head, rows, foot := HeaderBytes(version, abi, |meta|), TocBytes(toc), FooterBytes(version, at, len);
    HeaderSpelled(version, abi, |meta|, meta + body + rows + foot);
    TocSpelled(head + meta + body, toc, foot);
    FooterSpelled(head + meta + body + rows, version, at, len);
    ContainerParts(head, meta, body, rows, foot);
    BodyStands(head, meta, body, rows + foot);
    assert head + meta + body + (rows + foot) == head + meta + body + rows + foot;
  }

  lemma BodyStands(head: seq<byte>, meta: seq<byte>, body: seq<byte>, rest: seq<byte>)
    requires |head| == 32
    ensures (head + meta + body + rest)[32 + |meta|..32 + |meta| + |body|] == body
  {
    Seqs.Middle(head + meta, body, rest);
  }

  lemma HeaderSpelled(version: nat, abi: nat, metaLen: nat, rest: seq<byte>)
    requires version < U32 && abi < U32 && metaLen < U32
    ensures HeaderStands(HeaderBytes(version, abi, metaLen) + rest, version, abi, metaLen)
  {
    hide SixBytes, Has32;
    var six := SixBytes(32, version, abi, 0, metaLen, 0);
    SixStand(32, version, abi, 0, metaLen, 0);
    Moved32(TRACE_MAGIC, six, rest, 0, 32);
    Moved32(TRACE_MAGIC, six, rest, 4, version);
    Moved32(TRACE_MAGIC, six, rest, 8, abi);
    Moved32(TRACE_MAGIC, six, rest, 12, 0);
    Moved32(TRACE_MAGIC, six, rest, 16, metaLen);
    Moved32(TRACE_MAGIC, six, rest, 20, 0);
    assert (TRACE_MAGIC + six + rest)[..8] == TRACE_MAGIC;
  }

  lemma TocSpelled(a: seq<byte>, toc: seq<Row>, b: seq<byte>)
    requires |toc| < U32 && RowsFit(toc)
    ensures TocStands(a + TocBytes(toc) + b, |a|, toc)
  {
    hide Has32, TableStands, U32Bytes, RowsBytes, RowFits;
    var rows, file := RowsBytes(toc), a + TocBytes(toc) + b;
    Put32(a + TOC_MAGIC, 1, U32Bytes(|toc|) + rows + b);
    Put32(a + TOC_MAGIC + U32Bytes(1), |toc|, rows + b);
    assert a + TOC_MAGIC + U32Bytes(1) + (U32Bytes(|toc|) + rows + b) == file;
    assert a + TOC_MAGIC + U32Bytes(1) + U32Bytes(|toc|) + (rows + b) == file;
    var front := a + TOC_MAGIC + U32Bytes(1) + U32Bytes(|toc|);
    assert front + rows + b == file;
    RowsStand(file, front, toc, b, |a| + 16);
    assert file[|a|..|a| + 8] == TOC_MAGIC;
  }

  lemma FooterSpelled(a: seq<byte>, version: nat, tocOffset: nat, tocLen: nat)
    requires version < U32 && tocOffset < U64 && tocLen < U64
    ensures FooterStands(a + FooterBytes(version, tocOffset, tocLen), |a|, version, tocOffset, tocLen)
  {
    hide Has32, Has64, U32Bytes, U64Bytes;
    var f := FooterBytes(version, tocOffset, tocLen);
    var m, p, q, x, y := FOOTER_MAGIC, U32Bytes(32), U32Bytes(version), U64Bytes(tocOffset), U64Bytes(tocLen);
    Put32(m, 32, q + x + y);
    Put32(m + p, version, x + y);
    Put64(m + p + q, tocOffset, y);
    Put64(m + p + q + x, tocLen, []);
    assert m + p + (q + x + y) == f && m + p + q + (x + y) == f && m + p + q + x + y + [] == f;
    Moved32(a, f, [], 8, 32);
    Moved32(a, f, [], 12, version);
    Moved64(a, f, [], 16, tocOffset);
    Moved64(a, f, [], 24, tocLen);
    assert a + f + [] == a + f && f[..8] == m;
    assert (a + f)[|a|..|a| + 8] == f[..8];
  }

  // What opens

  /** The header a reader accepts: reserved bytes are not looked at, and any flags will do. */
  ghost predicate HeaderReads(file: seq<byte>, version: nat, abi: nat, flags: nat, metaLen: nat) {
    && |file| >= 32 && file[..8] == [65, 69, 82, 79, 71, 80, 85, 84] && Has32(file, 8, 32) && Has32(file, 12, version)
    && version in {1, 2} && Has32(file, 16, abi) && Has32(file, 20, flags) && Has32(file, 24, metaLen)
  }

  lemma HeaderExact(file: seq<byte>, version: nat, abi: nat, flags: nat, metaLen: nat)
    ensures ReadHeader(file) == Ok((version, abi, flags, metaLen)) <==> HeaderReads(file, version, abi, flags, metaLen)
  {
    if |file| >= 32 {
      Is32(file, 8, 32);
      Is32(file, 12, version);
      Is32(file, 16, abi);
      Is32(file, 20, flags);
      Is32(file, 24, metaLen);
    }
    hide Has32, U32At;
  }

  lemma FooterExact(s: seq<byte>, version: nat, tocOffset: nat, tocLen: nat)
    requires |s| == 32
    ensures ReadFooter(s) == Ok((version, tocOffset, tocLen))
            <==> FooterStands(s, 0, version, tocOffset, tocLen) && version in {1, 2}
  {
    Is32(s, 8, 32);
    Is32(s, 12, version);
    Is64(s, 16, tocOffset);
    Is64(s, 24, tocLen);
    hide Has32, Has64, U32At, U64At;
    assert s[0..8] == s[..8];
  }

  lemma TocExact(s: seq<byte>, toc: seq<Row>)
    ensures ReadToc(s) == Ok(toc) <==> |s| == 16 + 32 * |toc| && TocStands(s, 0, toc)
  {
    hide TableStands, RowsAt;
    if |s| >= 16 {
      Is32(s, 8, 1);
      Is32(s, 12, |toc|);
      hide Has32, U32At;
      assert s[0..8] == s[..8];
      if |s| == 16 + 32 * |toc| {
        AreRows(s, 16, toc);
      }
    }
  }

  lemma FooterCut(file: seq<byte>, version: nat, tocOffset: nat, tocLen: nat)
    requires |file| >= 32
    ensures FooterStands(file[|file| - 32..], 0, version, tocOffset, tocLen)
            <==> FooterStands(file, |file| - 32, version, tocOffset, tocLen)
  {
    hide Word;
    var s := file[|file| - 32..];
    assert s[0..8] == file[|file| - 32..|file| - 32 + 8];
  }

  lemma TocCut(file: seq<byte>, at: nat, toc: seq<Row>)
    requires at + 16 + 32 * |toc| <= |file|
    ensures TocStands(file[at..at + 16 + 32 * |toc|], 0, toc) <==> TocStands(file, at, toc)
  {
    var s := file[at..at + 16 + 32 * |toc|];
    assert s[0..8] == file[at..at + 8];
    Cut32(file, at, s, 8, 1);
    Cut32(file, at, s, 12, |toc|);
    TableCut(file, at, s, 16, toc);
    hide Has32, TableStands;
  }

  lemma TableCut(file: seq<byte>, at: nat, s: seq<byte>, k: nat, toc: seq<Row>)
    requires at + |s| <= |file| && s == file[at..at + |s|] && k + 32 * |toc| <= |s|
    ensures TableStands(s, k, toc) <==> TableStands(file, at + k, toc)
  {
    hide RowStands;
    forall i | 0 <= i < |toc|
      ensures RowStands(s, k + 32 * i, toc[i]) <==> RowStands(file, at + k + 32 * i, toc[i])
    {
      RowCut(file, at, s, k + 32 * i, toc[i]);
    }
  }

  lemma RowCut(file: seq<byte>, at: nat, s: seq<byte>, k: nat, x: Row)
    requires at + |s| <= |file| && s == file[at..at + |s|] && k + 32 <= |s|
    ensures RowStands(s, k, x) <==> RowStands(file, at + k, x)
  {
    hide Word;
  }

  /** Exactly what bytes a file has that opens as `t`: the frames lie in the stream, between metadata and table, and the
      present record of a frame, when it has one, in the frame. */
  ghost predicate OpensAs(file: seq<byte>, t: Trace) {
    && HeaderReads(file, t.version, t.abi, t.flags, |t.meta|)
    && 32 + |t.meta| <= |file| && file[32..32 + |t.meta|] == t.meta
    && FooterStands(file, |file| - 32, t.version, t.tocOffset, 16 + 32 * |t.toc|)
    && TocStands(file, t.tocOffset, t.toc) && 32 + |t.meta| <= t.tocOffset
    && forall i | 0 <= i < |t.toc| ::
         var e := t.toc[i];
         32 + |t.meta| <= e.x <= e.z <= t.tocOffset && (e.y == 0 || e.x <= e.y <= e.z)
  }

  lemma InStreamExact(toc: seq<Row>, start: nat, end: nat)
    ensures AllInStream(toc, start, end)
            <==> forall i | 0 <= i < |toc| ::
                   var e := toc[i]; start <= e.x <= e.z <= end && (e.y == 0 || e.x <= e.y <= e.z)
  {
    if AllInStream(toc, start, end) {
      forall i | 0 <= i < |toc|
        ensures var e := toc[i]; start <= e.x <= e.z <= end && (e.y == 0 || e.x <= e.y <= e.z)
      {
        assert InStream(toc[i], start, end);
      }
    }
  }

  lemma OpensOnlyAs(file: seq<byte>)
    requires OpenTrace(file).Ok?
    ensures OpensAs(file, OpenTrace(file).value)
  {
    hide ReadHeader, ReadFooter, ReadToc, HeaderReads, FooterStands, TocStands, AllInStream;
    var (version, abi, flags, metaLen) := ReadHeader(file).value;
    HeaderExact(file, version, abi, flags, metaLen);
    var (footerVersion, tocOffset, tocLen) := ReadFooter(file[|file| - 32..]).value;
    FooterExact(file[|file| - 32..], version, tocOffset, tocLen);
    FooterCut(file, version, tocOffset, tocLen);
    var toc := ReadToc(file[tocOffset..tocOffset + tocLen]).value;
    TocExact(file[tocOffset..tocOffset + tocLen], toc);
    assert tocLen == 16 + 32 * |toc|;
    TocCut(file, tocOffset, toc);
    InStreamExact(toc, 32 + metaLen, tocOffset);
  }

  lemma PartsInside(file: seq<byte>, t: Trace)
    requires HeaderReads(file, t.version, t.abi, t.flags, |t.meta|) && TocStands(file, t.tocOffset, t.toc)
    ensures t.version in {1, 2} && |file| >= 32 && t.tocOffset + 16 + 32 * |t.toc| <= |file|
  {
    hide Has32, TableStands;
  }

  lemma OpensIfAs(file: seq<byte>, t: Trace)
    requires OpensAs(file, t)
    ensures OpenTrace(file) == Ok(t)
  {
    hide ReadHeader, ReadFooter, ReadToc, HeaderReads, FooterStands, TocStands, AllInStream;
    var tocLen := 16 + 32 * |t.toc|;
    PartsInside(file, t);
    HeaderExact(file, t.version, t.abi, t.flags, |t.meta|);
    FooterCut(file, t.version, t.tocOffset, tocLen);
    FooterExact(file[|file| - 32..], t.version, t.tocOffset, tocLen);
    TocCut(file, t.tocOffset, t.toc);
    TocExact(file[t.tocOffset..t.tocOffset + tocLen], t.toc);
    InStreamExact(t.toc, 32 + |t.meta|, t.tocOffset);
  }

  /** Any file opens as a trace if and only if its bytes say so. */
  lemma OpenExact(file: seq<byte>, t: Trace)
    ensures OpenTrace(file) == Ok(t) <==> OpensAs(file, t)
  {
    hide OpenTrace, OpensAs;
    if OpenTrace(file).Ok? {
      OpensOnlyAs(file);
    }
    if OpensAs(file, t) {
      OpensIfAs(file, t);
    }
  }

  /** Why the front of a file is refused, the first reason first. */
  lemma HeaderErrors(file: seq<byte>, size: nat, version: nat)
    requires |file| >= 16 ==> Has32(file, 8, size) && Has32(file, 12, version)
    ensures |file| < 8 ==> OpenTrace(file) == Err(Eof)
    ensures |file| >= 8 && file[..8] != [65, 69, 82, 79, 71, 80, 85, 84] ==> OpenTrace(file) == Err(InvalidMagic)
    ensures 8 <= |file| < 12 && file[..8] == [65, 69, 82, 79, 71, 80, 85, 84] ==> OpenTrace(file) == Err(Eof)
    ensures |file| >= 16 && file[..8] == [65, 69, 82, 79, 71, 80, 85, 84] ==>
              && (size != 32 ==> OpenTrace(file) == Err(UnsupportedHeaderSize))
              && (size == 32 && version !in {1, 2} ==> OpenTrace(file) == Err(UnsupportedContainerVersion))
              && (size == 32 && version in {1, 2} && |file| < 32 ==> OpenTrace(file) == Err(Eof))
  {
    if |file| >= 16 {
      Is32(file, 8, size);
      Is32(file, 12, version);
      hide Has32, U32At, ReadFooter, ReadToc;
    }
  }

  /** Why a record is refused: it does not fit, its type is not known in this version, or its payload has the wrong size
      or an unknown kind. */
  lemma RecordErrors(file: seq<byte>, at: nat, end: nat, version: nat, len: nat, kind: nat)
    requires at + 8 <= |file| ==> Has32(file, at + 4, len)
    requires at + 24 <= |file| ==> Has32(file, at + 16, kind)
    ensures at + 8 > |file| ==> ReadRecord(file, at, end, version) == Err(Eof)
    ensures at + 8 <= |file| ==>
              && (at + 8 + len > end ==> ReadRecord(file, at, end, version) == Err(RecordOutOfBounds))
              && (|file| < at + 8 + len <= end ==> ReadRecord(file, at, end, version) == Err(Eof))
    ensures at + 8 <= |file| && at + 8 + len <= end && at + 8 + len <= |file| ==>
              && (file[at] in {1, 2} && len != 4 ==> ReadRecord(file, at, end, version) == Err(RecordOutOfBounds))
              && (file[at] == 4 && len < 16 ==> ReadRecord(file, at, end, version) == Err(MalformedBlob))
              && (file[at] == 4 && len >= 16 && kind !in {1, 2, 3, 4, 5, 0x100, 0x101, 0x102} ==>
                    ReadRecord(file, at, end, version) == Err(UnknownBlobKind))
              && (file[at] == 5 && version >= 2 && len < 56 ==>
                    ReadRecord(file, at, end, version) == Err(RecordOutOfBounds))
              && ((file[at] !in {1, 2, 3, 4, 5} || (file[at] == 5 && version < 2)) ==>
                    ReadRecord(file, at, end, version) == Err(UnknownRecordType))
  {
    if at + 8 <= |file| {
      Is32(file, at + 4, len);
      if at + 8 + len <= |file| && len >= 16 {
        var p := file[at + 8..at + 8 + len];
        Cut32(file, at + 8, p, 8, kind);
        Is32(p, 8, kind);
      }
    }
    hide Has32, U32At, U64At, RowsAt;
  }
}
