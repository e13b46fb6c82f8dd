/** The records of a GPU trace, their bytes, and reading them back. */
module TraceFormat {
  import opened Bytes
  import opened Words
  import opened Wrappers
  import Seqs

  /** Both tables of the format have 32-byte rows of two 32-bit and three 64-bit numbers: a memory range of a
      submission (allocation, flags, guest address, size, blob) and a frame of the table of contents (index,
      flags, start, present, end). */
  datatype Row = Row(id: nat, flags: nat, x: nat, y: nat, z: nat)

  datatype Record =
    | BeginFrame(frameIndex: nat)
    | Present(frameIndex: nat)
    | Packet(bytes: seq<byte>)
    | Blob(blobId: nat, kind: nat, data: seq<byte>)
    | Submission(version: nat, submitFlags: nat, contextId: nat, engineId: nat, signalFence: nat,
                 cmdBlob: nat, allocBlob: nat, ranges: seq<Row>)

  datatype ReadError =
    | Eof
    | InvalidMagic
    | UnsupportedHeaderSize
    | UnsupportedFooterSize
    | UnsupportedContainerVersion
    | UnsupportedTocVersion
    | TocOutOfBounds
    | RecordOutOfBounds
    | UnknownRecordType
    | UnknownBlobKind
    | MalformedBlob

  predicate KnownKind(kind: nat) {
    kind in {1, 2, 3, 4, 5, 0x100, 0x101, 0x102}
  }

  // Writing

  function RowBytes(x: Row): (s: seq<byte>)
    ensures |s| == 32
  {
    U32Bytes(x.id) + U32Bytes(x.flags) + U64Bytes(x.x) + U64Bytes(x.y) + U64Bytes(x.z)
  }

  function RowsBytes(xs: seq<Row>): (s: seq<byte>)
    ensures |s| == 32 * |xs|
  {
    if xs == [] then [] else RowsBytes(xs[..|xs| - 1]) + RowBytes(xs[|xs| - 1])
  }

  /** Six 32-bit numbers in a row, as in the file header and in a submission. */
  function SixBytes(a: nat, b: nat, c: nat, d: nat, e: nat, f: nat): (s: seq<byte>)
    ensures |s| == 24
  {
    U32Bytes(a) + U32Bytes(b) + U32Bytes(c) + U32Bytes(d) + U32Bytes(e) + U32Bytes(f)
  }

  /** The second half of a submission's fixed part: fence, blob references and the number of ranges. */
  function ReferenceBytes(fence: nat, cmd: nat, alloc: nat, count: nat): (s: seq<byte>)
    ensures |s| == 32
  {
    U64Bytes(fence) + U64Bytes(cmd) + U64Bytes(alloc) + U32Bytes(count) + U32Bytes(0)
  }

  function TypeByte(r: Record): byte {
    match r
    case BeginFrame(_) => 1
    case Present(_) => 2
    case Packet(_) => 3
    case Blob(_, _, _) => 4
    case Submission(_, _, _, _, _, _, _, _) => 5
  }

  function Payload(r: Record): seq<byte> {
    match r
    case BeginFrame(i) => U32Bytes(i)
    case Present(i) => U32Bytes(i)
    case Packet(bytes) => bytes
    case Blob(id, kind, data) => U64Bytes(id) + U32Bytes(kind) + U32Bytes(0) + data
    case Submission(version, flags, context, engine, fence, cmd, alloc, ranges) =>
      SixBytes(version, 56, flags, context, engine, 0) + ReferenceBytes(fence, cmd, alloc, |ranges|) + RowsBytes(ranges)
  }

  function Encode(r: Record): (s: seq<byte>)
    ensures |s| == 8 + |Payload(r)|
  {
    [TypeByte(r), 0, 0, 0] + U32Bytes(|Payload(r)|) + Payload(r)
  }

  function EncodeAll(rs: seq<Record>): seq<byte> {
    if rs == [] then [] else Encode(rs[0]) + EncodeAll(rs[1..])
  }

  predicate RowFits(x: Row) {
    x.id < U32 && x.flags < U32 && x.x < U64 && x.y < U64 && x.z < U64
  }

  /** Every field fits its width, the payload its length field, and the record its container version. */
  predicate Fits(r: Record, containerVersion: nat) {
    |Payload(r)| < U32 &&
    match r
    case BeginFrame(i) => i < U32
    case Present(i) => i < U32
    case Packet(_) => true
    case Blob(id, kind, _) => id < U64 && KnownKind(kind)
    case Submission(version, flags, context, engine, fence, cmd, alloc, ranges) =>
      && containerVersion >= 2
      && version < U32 && flags < U32 && context < U32 && engine < U32 && fence < U64 && cmd < U64 && alloc < U64
      && forall i | 0 <= i < |ranges| :: RowFits(ranges[i])
  }

  // Reading

  function RowAt(p: seq<byte>, off: nat): Row
    requires off + 32 <= |p|
  {
    Row(U32At(p, off), U32At(p, off + 4), U64At(p, off + 8), U64At(p, off + 16), U64At(p, off + 24))
  }

  function RowsAt(p: seq<byte>, off: nat, n: nat): (rows: seq<Row>)
    requires off + 32 * n <= |p|
    ensures |rows| == n
  {
    if n == 0 then [] else RowsAt(p, off, n - 1) + [RowAt(p, off + 32 * (n - 1))]
  }

  function DecodeSubmission(p: seq<byte>): Result<Record, ReadError> {
    if |p| < 56 then Err(RecordOutOfBounds)
    else
      var headerSize, count := U32At(p, 4), U32At(p, 48);
      if headerSize < 56 || headerSize > |p| || headerSize + 32 * count > |p| then Err(RecordOutOfBounds)
      else
        Ok(Submission(U32At(p, 0), U32At(p, 8), U32At(p, 12), U32At(p, 16), U64At(p, 24), U64At(p, 32), U64At(p, 40),
                      RowsAt(p, headerSize, count)))
  }

  function DecodeBlob(p: seq<byte>): Result<Record, ReadError> {
    if |p| < 16 then Err(MalformedBlob)
    else if !KnownKind(U32At(p, 8)) then Err(UnknownBlobKind)
    else Ok(Blob(U64At(p, 0), U32At(p, 8), p[16..]))
  }

  function DecodePayload(kind: byte, p: seq<byte>, containerVersion: nat): Result<Record, ReadError> {
    if kind == 1 then (if |p| == 4 then Ok(BeginFrame(U32At(p, 0))) else Err(RecordOutOfBounds))
    else if kind == 2 then (if |p| == 4 then Ok(Present(U32At(p, 0))) else Err(RecordOutOfBounds))
    else if kind == 3 then Ok(Packet(p))
    else if kind == 4 then DecodeBlob(p)
    else if kind == 5 && containerVersion >= 2 then DecodeSubmission(p)
    else Err(UnknownRecordType)
  }

  /** One record from position `at`, not reaching past `end`; with it the position behind it. */
  function ReadRecord(file: seq<byte>, at: nat, end: nat, containerVersion: nat): (r: Result<(Record, nat), ReadError>)
    ensures r.Ok? ==> at + 8 <= r.value.1 <= end && r.value.1 <= |file|
  {
    if at + 8 > |file| then Err(Eof)
    else
      var len := U32At(file, at + 4);
      if at + 8 + len > end then Err(RecordOutOfBounds)
      else if at + 8 + len > |file| then Err(Eof)
      else
        match DecodePayload(file[at], file[at + 8..at + 8 + len], containerVersion)
        case Err(e) => Err(e)
        case Ok(rec) => Ok((rec, at + 8 + len))
  }

  /** The records from `start` up to `end`, one after the other. */
  function ReadAll(file: seq<byte>, start: nat, end: nat, containerVersion: nat): Result<seq<Record>, ReadError>
    decreases end - start
  {
    if start >= end then Ok([])
    else
      match ReadRecord(file, start, end, containerVersion)
      case Err(e) => Err(e)
      case Ok(p) =>
        match ReadAll(file, p.1, end, containerVersion)
        case Err(e) => Err(e)
        case Ok(rest) => Ok([p.0] + rest)
  }

  // Fields read back

  lemma RowReadsBack(x: Row)
    requires RowFits(x)
    ensures RowAt(RowBytes(x), 0) == x
  {
    hide U32Bytes, U64Bytes, FromLittleEndian;
    ReadBack32(x.id);
    ReadBack32(x.flags);
    ReadBack64(x.x);
    ReadBack64(x.y);
    ReadBack64(x.z);
    Seqs.Five(U32Bytes(x.id), U32Bytes(x.flags), U64Bytes(x.x), U64Bytes(x.y), U64Bytes(x.z));
    assert RowBytes(x)[24..32] == RowBytes(x)[24..];
  }

  lemma RowShift(a: seq<byte>, x: Row, b: seq<byte>)
    requires RowFits(x)
    ensures RowAt(a + RowBytes(x) + b, |a|) == x
  {
    hide RowBytes, U32At, U64At;
    RowReadsBack(x);
    var s := RowBytes(x);
    Shift32(a, s, b, 0);
    Shift32(a, s, b, 4);
    Shift64(a, s, b, 8);
    Shift64(a, s, b, 16);
    Shift64(a, s, b, 24);
  }

  /** A table written row by row reads back row by row, wherever in a byte string it stands. */
  lemma {:induction false} RowsReadBack(a: seq<byte>, xs: seq<Row>, b: seq<byte>)
    requires forall i | 0 <= i < |xs| :: RowFits(xs[i])
    ensures RowsAt(a + RowsBytes(xs) + b, |a|, |xs|) == xs
    decreases |xs|
  {
    hide RowBytes, RowAt, RowFits;
    if xs == [] {
    } else {
      var ys, x := xs[..|xs| - 1], xs[|xs| - 1];
      RowsReadBack(a, ys, RowBytes(x) + b);
      RowShift(a + RowsBytes(ys), x, b);
      assert a + RowsBytes(xs) + b == a + RowsBytes(ys) + (RowBytes(x) + b);
      assert a + RowsBytes(xs) + b == (a + RowsBytes(ys)) + RowBytes(x) + b;
    }
  }

  lemma SixReadBack(a: nat, b: nat, c: nat, d: nat, e: nat, f: nat)
    requires a < U32 && b < U32 && c < U32 && d < U32 && e < U32 && f < U32
    ensures var s := SixBytes(a, b, c, d, e, f);
            && U32At(s, 0) == a && U32At(s, 4) == b && U32At(s, 8) == c
            && U32At(s, 12) == d && U32At(s, 16) == e && U32At(s, 20) == f
  {
    hide U32Bytes, FromLittleEndian;
    ReadBack32(a);
    ReadBack32(b);
    ReadBack32(c);
    ReadBack32(d);
    ReadBack32(e);
    ReadBack32(f);
    var p, q, r, t, u, v := U32Bytes(a), U32Bytes(b), U32Bytes(c), U32Bytes(d), U32Bytes(e), U32Bytes(f);
    Seqs.Five(p, q, r, t, u);
    var w, s := p + q + r + t + u, SixBytes(a, b, c, d, e, f);
    assert s == w + v;
    assert s[0..4] == w[..4] && s[4..8] == w[4..8] && s[8..12] == w[8..12] && s[12..16] == w[12..16]
        && s[16..20] == w[16..];
    assert s[20..24] == v;
  }

  lemma ReferenceReadsBack(fence: nat, cmd: nat, alloc: nat, count: nat)
    requires fence < U64 && cmd < U64 && alloc < U64 && count < U32
    ensures var s := ReferenceBytes(fence, cmd, alloc, count);
            U64At(s, 0) == fence && U64At(s, 8) == cmd && U64At(s, 16) == alloc && U32At(s, 24) == count
  {
    hide U32Bytes, U64Bytes, FromLittleEndian;
    ReadBack64(fence);
    ReadBack64(cmd);
    ReadBack64(alloc);
    ReadBack32(count);
    Seqs.Five(U64Bytes(fence), U64Bytes(cmd), U64Bytes(alloc), U32Bytes(count), U32Bytes(0));
  }

  // Records read back

  lemma SubmissionReadsBack(r: Record, containerVersion: nat)
    requires r.Submission? && Fits(r, containerVersion)
    ensures DecodeSubmission(Payload(r)) == Ok(r)
  {
    SubmissionPayload(r, containerVersion);
    var six := SixBytes(r.version, 56, r.submitFlags, r.contextId, r.engineId, 0);
    var refs := ReferenceBytes(r.signalFence, r.cmdBlob, r.allocBlob, |r.ranges|);
    hide SixBytes, ReferenceBytes, RowsBytes, U32At, U64At, RowsAt, RowFits;
    SixReadBack(r.version, 56, r.submitFlags, r.contextId, r.engineId, 0);
    ReferenceReadsBack(r.signalFence, r.cmdBlob, r.allocBlob, |r.ranges|);
    SubmissionFields(six, refs, RowsBytes(r.ranges));
  }

  lemma SubmissionPayload(r: Record, containerVersion: nat)
    requires r.Submission? && Fits(r, containerVersion)
    ensures |Payload(r)| == 56 + 32 * |r.ranges| && |r.ranges| < U32
    ensures RowsAt(Payload(r), 56, |r.ranges|) == r.ranges
  {
    hide SixBytes, ReferenceBytes, RowsBytes, RowsAt, RowFits;
    var six := SixBytes(r.version, 56, r.submitFlags, r.contextId, r.engineId, 0);
    var refs := ReferenceBytes(r.signalFence, r.cmdBlob, r.allocBlob, |r.ranges|);
    RowsReadBack(six + refs, r.ranges, []);
    assert (six + refs) + RowsBytes(r.ranges) + [] == six + refs + RowsBytes(r.ranges);
  }

  /** The fields of a submission, found behind one another in its payload. */
  lemma SubmissionFields(six: seq<byte>, refs: seq<byte>, rows: seq<byte>)
    requires |six| == 24 && |refs| == 32
    ensures var p := six + refs + rows;
            && U32At(p, 0) == U32At(six, 0) && U32At(p, 4) == U32At(six, 4) && U32At(p, 8) == U32At(six, 8)
            && U32At(p, 12) == U32At(six, 12) && U32At(p, 16) == U32At(six, 16)
            && U64At(p, 24) == U64At(refs, 0) && U64At(p, 32) == U64At(refs, 8) && U64At(p, 40) == U64At(refs, 16)
            && U32At(p, 48) == U32At(refs, 24)
  {
    Shift32([], six, refs + rows, 0);
    Shift32([], six, refs + rows, 4);
    Shift32([], six, refs + rows, 8);
    Shift32([], six, refs + rows, 12);
    Shift32([], six, refs + rows, 16);
    Shift64(six, refs, rows, 0);
    Shift64(six, refs, rows, 8);
    Shift64(six, refs, rows, 16);
    Shift32(six, refs, rows, 24);
    hide U32At, U64At;
    assert six + refs + rows == [] + six + (refs + rows);
  }

  lemma BlobReadsBack(id: nat, kind: nat, data: seq<byte>)
    requires id < U64 && KnownKind(kind)
    ensures DecodeBlob(Payload(Blob(id, kind, data))) == Ok(Blob(id, kind, data))
  {
    hide U32Bytes, U64Bytes, FromLittleEndian;
    ReadBack64(id);
    ReadBack32(kind);
    Seqs.Five(U64Bytes(id), U32Bytes(kind), U32Bytes(0), data, []);
    assert U64Bytes(id) + U32Bytes(kind) + U32Bytes(0) + data + [] == Payload(Blob(id, kind, data));
  }

  lemma IndexReadsBack(i: nat)
    requires i < U32
    ensures U32At(U32Bytes(i), 0) == i
  {
    hide U32Bytes, FromLittleEndian;
    ReadBack32(i);
    assert U32Bytes(i)[0..4] == U32Bytes(i);
  }

  lemma PayloadReadsBack(r: Record, containerVersion: nat)
    requires Fits(r, containerVersion)
    ensures DecodePayload(TypeByte(r), Payload(r), containerVersion) == Ok(r)
  {
    hide U32Bytes, U64Bytes, U32At, DecodeBlob, DecodeSubmission, SixBytes, ReferenceBytes, RowsBytes, RowFits,
        KnownKind;
    match r
    case BeginFrame(i) => IndexReadsBack(i);
    case Present(i) => IndexReadsBack(i);
    case Packet(_) =>
    case Blob(id, kind, data) => BlobReadsBack(id, kind, data);
    case Submission(_, _, _, _, _, _, _, _) => SubmissionReadsBack(r, containerVersion);
  }

  /** A written record is read back, whatever stands before and behind it. */
  lemma RecordReadsBack(pre: seq<byte>, r: Record, post: seq<byte>, end: nat, containerVersion: nat)
    requires Fits(r, containerVersion) && |pre| + |Encode(r)| <= end
    ensures ReadRecord(pre + Encode(r) + post, |pre|, end, containerVersion) == Ok((r, |pre| + |Encode(r)|))
  {
    hide U32Bytes, U32At, DecodePayload, KnownKind, RowFits, Payload, TypeByte;
    var file, p, mark := pre + Encode(r) + post, Payload(r), [TypeByte(r), 0, 0, 0];
    PayloadReadsBack(r, containerVersion);
    RecordParts(pre, mark, U32Bytes(|p|), p, post);
    Field32(pre + mark, |p|, p + post);
  }

  lemma RecordParts(pre: seq<byte>, mark: seq<byte>, len: seq<byte>, p: seq<byte>, post: seq<byte>)
    requires |mark| == 4 && |len| == 4
    ensures var file := pre + (mark + len + p) + post;
            && file[|pre|] == mark[0] && file == (pre + mark) + len + (p + post)
            && file[|pre| + 8..|pre| + 8 + |p|] == p
  {
  }

  /** A run of written records is read back as exactly those records, whatever stands before and behind it. */
  lemma {:induction false} RecordsReadBack(pre: seq<byte>, rs: seq<Record>, post: seq<byte>, containerVersion: nat)
    requires forall i | 0 <= i < |rs| :: Fits(rs[i], containerVersion)
    ensures ReadAll(pre + EncodeAll(rs) + post, |pre|, |pre| + |EncodeAll(rs)|, containerVersion) == Ok(rs)
    decreases |rs|
  {
    hide Encode, Payload, Fits, ReadRecord;
    if rs == [] {
    } else {
      var head, rest := Encode(rs[0]), EncodeAll(rs[1..]);
      RecordReadsBack(pre, rs[0], rest + post, |pre| + |head + rest|, containerVersion);
      RecordsReadBack(pre + head, rs[1..], post, containerVersion);
      Seqs.Assoc(pre, head, rest);
      Seqs.Assoc(pre + head, rest, post);
      assert rs == [rs[0]] + rs[1..];
    }
  }

  lemma EncodeNone()
    ensures EncodeAll([]) == []
  {
  }

  lemma {:induction false} EncodeAllConcat(rs: seq<Record>, ss: seq<Record>)
    ensures EncodeAll(rs + ss) == EncodeAll(rs) + EncodeAll(ss)
    decreases |rs|
  {
    hide Encode, Payload;
    if rs == [] {
      assert rs + ss == ss;
    } else {
      EncodeAllConcat(rs[1..], ss);
      assert (rs + ss)[1..] == rs[1..] + ss;
      Seqs.Assoc(Encode(rs[0]), EncodeAll(rs[1..]), EncodeAll(ss));
    }
  }

  /** What is read is what was written: a record that reads back from a payload is spelt by that payload's fields,
      so two runs of records with the same bytes are the same run. */
  lemma EncodeAllInjective(rs: seq<Record>, ss: seq<Record>, containerVersion: nat)
    requires forall i | 0 <= i < |rs| :: Fits(rs[i], containerVersion)
    requires forall i | 0 <= i < |ss| :: Fits(ss[i], containerVersion)
    requires EncodeAll(rs) == EncodeAll(ss)
    ensures rs == ss
  {
    hide EncodeAll, Fits, ReadAll;
    RecordsReadBack([], rs, [], containerVersion);
    RecordsReadBack([], ss, [], containerVersion);
  }
}
