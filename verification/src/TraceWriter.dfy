/** The trace writer: an object that appends records to a file and notes where its frames lie. */
module TraceWriter {
  import opened Bytes
  import opened TraceFormat
  import opened TraceLayout
  import opened TraceFile
  import opened TraceLog
  import opened Words
  import opened Wrappers
  import Seqs

  type u32 = n: nat | n < U32
  type u64 = n: nat | n < U64

  datatype WriteError =
    | FrameAlreadyOpen
    | NoOpenFrame
    | PresentWithoutFrame
    | DuplicateFrameIndex
    | FinishWithOpenFrame
    | UnsupportedVersion
    | TooLarge

  datatype RangeCapture = RangeCapture(allocId: u32, flags: u32, gpa: u64, sizeBytes: u64, bytes: seq<byte>)

  datatype Capture = Capture(submitFlags: u32, contextId: u32, engineId: u32, signalFence: u64,
                             cmdStream: seq<byte>, allocTable: Option<seq<byte>>, ranges: seq<RangeCapture>)

  // The records of a submission

  /** The blob identifier `k` after `id`; identifiers wrap. */
  function Nth(id: u64, k: nat): u64 {
    (id + k) % U64
  }

  function RangeBlobs(ranges: seq<RangeCapture>, id: u64): (s: seq<Record>)
    ensures |s| == |ranges|
  {
    if ranges == [] then []
    else
      var n := |ranges| - 1;
      RangeBlobs(ranges[..n], id) + [Blob(Nth(id, n), 0x102, ranges[n].bytes)]
  }

  function RangeRows(ranges: seq<RangeCapture>, id: u64): (s: seq<Row>)
    ensures |s| == |ranges|
  {
    if ranges == [] then []
    else
      var n := |ranges| - 1; var r := ranges[n];
      RangeRows(ranges[..n], id) + [Row(r.allocId, r.flags, r.gpa, r.sizeBytes, Nth(id, n))]
  }

  /** The blobs a submission refers to, in the order they are written. */
  function HeadBlobs(c: Capture, id: u64): seq<Record> {
    [Blob(id, 0x100, c.cmdStream)] + (if c.allocTable.None? then [] else [Blob(Nth(id, 1), 0x101, c.allocTable.value)])
  }

  function SubmissionRecord(c: Capture, id: u64): Record {
    Submission(1, c.submitFlags, c.contextId, c.engineId, c.signalFence, id,
               if c.allocTable.None? then 0 else Nth(id, 1),
               RangeRows(c.ranges, Nth(id, |HeadBlobs(c, id)|)))
  }

  /** All blobs of a submission. */
  function BlobsOf(c: Capture, id: u64): (s: seq<Record>)
    ensures |s| == |HeadBlobs(c, id)| + |c.ranges| && forall i | 0 <= i < |s| :: s[i].Blob?
  {
    RangeBlobsAreBlobs(c.ranges, Nth(id, |HeadBlobs(c, id)|));
    HeadBlobs(c, id) + RangeBlobs(c.ranges, Nth(id, |HeadBlobs(c, id)|))
  }

  function SubmissionRecords(c: Capture, id: u64): seq<Record> {
    BlobsOf(c, id) + [SubmissionRecord(c, id)]
  }

  lemma {:induction false} RangeBlobsAreBlobs(ranges: seq<RangeCapture>, id: u64)
    ensures forall i | 0 <= i < |ranges| :: RangeBlobs(ranges, id)[i].Blob?
    decreases |ranges|
  {
    if ranges == [] {
    } else {
      RangeBlobsAreBlobs(ranges[..|ranges| - 1], id);
    }
  }

  lemma RangeBlobData(ranges: seq<RangeCapture>, id: u64, i: nat)
    requires i < |ranges|
    ensures RangeBlobs(ranges, id)[i].Blob? && RangeBlobs(ranges, id)[i].data == ranges[i].bytes
  {
    RangesResolve(ranges, id, i);
  }

  predicate BlobFits(data: seq<byte>) {
    16 + |data| < U32
  }

  predicate RangesFit(ranges: seq<RangeCapture>) {
    forall i | 0 <= i < |ranges| :: BlobFits(ranges[i].bytes)
  }

  predicate CaptureFits(c: Capture) {
    && BlobFits(c.cmdStream)
    && (c.allocTable.Some? ==> BlobFits(c.allocTable.value))
    && RangesFit(c.ranges)
    && 56 + 32 * |c.ranges| < U32
  }

  lemma {:induction false} RangeRowsFit(ranges: seq<RangeCapture>, id: u64)
    ensures forall i | 0 <= i < |ranges| :: RowFits(RangeRows(ranges, id)[i])
    decreases |ranges|
  {
    if ranges == [] {
    } else {
      RangeRowsFit(ranges[..|ranges| - 1], id);
    }
  }

  /** Every range of a submission names the blob that holds its bytes, and that blob was written before. */
  lemma {:induction false} RangesResolve(ranges: seq<RangeCapture>, id: u64, i: nat)
    requires i < |ranges|
    ensures RangeBlobs(ranges, id)[i] == Blob(RangeRows(ranges, id)[i].z, 0x102, ranges[i].bytes)
    ensures RangeRows(ranges, id)[i].z == Nth(id, i)
    decreases |ranges|
  {
    var n := |ranges| - 1;
    if i < n {
      RangesResolve(ranges[..n], id, i);
    }
  }

  lemma {:induction false} RangeBlobsPrefix(ranges: seq<RangeCapture>, id: u64, i: nat)
    requires i <= |ranges|
    ensures RangeBlobs(ranges[..i], id) == RangeBlobs(ranges, id)[..i]
    decreases |ranges|
  {
    var n := |ranges| - 1;
    if i == |ranges| {
      assert ranges[..i] == ranges;
    } else {
      assert ranges[..n][..i] == ranges[..i];
      RangeBlobsPrefix(ranges[..n], id, i);
    }
  }

  /** The blobs of one submission have different identifiers, so that a reference means one of them. */
  lemma BlobIdsDiffer(id: u64, i: nat, j: nat)
    requires i < j < U64
    ensures Nth(id, i) != Nth(id, j)
  {
    if id + j < U64 {
    } else if id + i < U64 {
      assert (id + j) % U64 == id + j - U64;
    } else {
      assert (id + j) % U64 == id + j - U64;
      assert (id + i) % U64 == id + i - U64;
    }
  }

  /** The blobs of a submission are numbered one after the other. */
  lemma SubmissionNumbered(c: Capture, id: u64, j: nat)
    requires j < |SubmissionRecords(c, id)| - 1
    ensures SubmissionRecords(c, id)[j].Blob? && SubmissionRecords(c, id)[j].blobId == Nth(id, j)
  {
    hide SubmissionRecord;
    var h := |HeadBlobs(c, id)|;
    if j >= h {
      RangesResolve(c.ranges, Nth(id, h), j - h);
      NthSum(id, h, j - h);
    }
  }

  /** A reference of the submission record names one blob of the submission, and that one holds the captured bytes. */
  lemma SubmissionResolves(c: Capture, id: u64, i: nat, j: nat)
    requires |SubmissionRecords(c, id)| <= U64
    requires i < |c.ranges| && j < |SubmissionRecords(c, id)| - 1
    requires SubmissionRecords(c, id)[j].Blob?
    requires SubmissionRecords(c, id)[j].blobId == SubmissionRecord(c, id).ranges[i].z
    ensures SubmissionRecords(c, id)[j] == Blob(SubmissionRecord(c, id).ranges[i].z, 0x102, c.ranges[i].bytes)
  {
    var h := |HeadBlobs(c, id)|;
    SubmissionNumbered(c, id, j);
    RangesResolve(c.ranges, Nth(id, h), i);
    hide Nth, RangeBlobs, RangeRows;
    NthSum(id, h, i);
    if j < h + i {
      BlobIdsDiffer(id, j, h + i);
    } else if h + i < j {
      BlobIdsDiffer(id, h + i, j);
    }
  }

  /** The references of a submission record: its own blobs stand where they are looked for. */
  lemma SubmissionBlobs(c: Capture, id: u64)
    ensures var recs, s, h := SubmissionRecords(c, id), SubmissionRecord(c, id), |HeadBlobs(c, id)|;
            && recs[0] == Blob(s.cmdBlob, 0x100, c.cmdStream)
            && (c.allocTable.Some? ==> h == 2 && recs[1] == Blob(s.allocBlob, 0x101, c.allocTable.value))
            && forall i | 0 <= i < |c.ranges| :: recs[h + i] == Blob(s.ranges[i].z, 0x102, c.ranges[i].bytes)
  {
    var recs, s, h := SubmissionRecords(c, id), SubmissionRecord(c, id), |HeadBlobs(c, id)|;
    forall i | 0 <= i < |c.ranges|
      ensures recs[h + i] == Blob(s.ranges[i].z, 0x102, c.ranges[i].bytes)
    {
      RangesResolve(c.ranges, Nth(id, h), i);
    }
  }

  // The bytes of a submission

  /** The record of a submission, field by field, as the capture gives them and with the numbers of its blobs. */
  ghost predicate SubmissionSpelled(s: seq<byte>, c: Capture, id: u64) {
    && FixedSpelled(s, c, id)
    && forall i | 0 <= i < |c.ranges| :: RangeSpelled(s, 64 + 32 * i, c.ranges[i], c.allocTable.Some?, id, i)
  }

  ghost predicate FixedSpelled(s: seq<byte>, c: Capture, id: u64) {
    && |s| == 64 + 32 * |c.ranges| && s[..4] == [5, 0, 0, 0] && Has32(s, 4, 56 + 32 * |c.ranges|)
    && Has32(s, 8, 1) && Has32(s, 12, 56) && Has32(s, 16, c.submitFlags) && Has32(s, 20, c.contextId)
    && Has32(s, 24, c.engineId) && Has32(s, 28, 0) && Has64(s, 32, c.signalFence) && Has64(s, 40, id)
    && Has64(s, 48, if c.allocTable.None? then 0 else (id + 1) % U64)
    && Has32(s, 56, |c.ranges|) && Has32(s, 60, 0)
  }

  /** Allocation, flags, guest address, size, and the number of the blob behind the command stream, the table if there
      is one, and the ranges before. */
  ghost predicate RangeSpelled(s: seq<byte>, at: nat, r: RangeCapture, table: bool, id: u64, i: nat) {
    && Has32(s, at, r.allocId) && Has32(s, at + 4, r.flags) && Has64(s, at + 8, r.gpa) && Has64(s, at + 16, r.sizeBytes)
    && Has64(s, at + 24, (id + (if table then 2 else 1) + i) % U64)
  }

  lemma {:induction false} RangeRowsAre(ranges: seq<RangeCapture>, id: u64, i: nat)
    requires i < |ranges|
    ensures var r := ranges[i]; RangeRows(ranges, id)[i] == Row(r.allocId, r.flags, r.gpa, r.sizeBytes, Nth(id, i))
    decreases |ranges|
  {
    hide Nth;
    if i < |ranges| - 1 {
      RangeRowsAre(ranges[..|ranges| - 1], id, i);
    }
  }

  lemma SubmissionLayout(c: Capture, id: u64, version: nat)
    requires version >= 2 && CaptureFits(c)
    ensures SubmissionSpelled(Encode(SubmissionRecord(c, id)), c, id)
  {
    hide Encode, Fits, Payload, Spelled, FixedSpelled, RangeSpelled, TableStands, SubmissionRecord, RangesFit, BlobFits;
    var r := SubmissionRecord(c, id);
    var s := Encode(r);
    SubmissionFits(c, id, version);
    RecordSpelled(r, version);
    FixedLayout(c, id, s);
    forall i | 0 <= i < |c.ranges|
      ensures RangeSpelled(s, 64 + 32 * i, c.ranges[i], c.allocTable.Some?, id, i)
    {
      RangeLayout(c, id, s, i);
    }
  }

  lemma FixedLayout(c: Capture, id: u64, s: seq<byte>)
    requires Spelled(s, SubmissionRecord(c, id))
    ensures FixedSpelled(s, c, id)
  {
    hide Has32, Has64, RangeRows, TableStands;
  }

  lemma RangeLayout(c: Capture, id: u64, s: seq<byte>, i: nat)
    requires i < |c.ranges| && Spelled(s, SubmissionRecord(c, id))
    ensures RangeSpelled(s, 64 + 32 * i, c.ranges[i], c.allocTable.Some?, id, i)
  {
    hide Has32, Has64, RangeRows;
    assert RowStands(s, 64 + 32 * i, SubmissionRecord(c, id).ranges[i]);
    var heads := if c.allocTable.Some? then 2 else 1;
    RangeRowsAre(c.ranges, Nth(id, heads), i);
    NthSum(id, heads, i);
  }

  lemma TailSpelled(front: seq<byte>, log: seq<Record>, c: Capture, id: u64, version: nat)
    requires version >= 2 && CaptureFits(c)
    ensures var out, size := front + EncodeAll(log + [SubmissionRecord(c, id)]), 64 + 32 * |c.ranges|;
            size <= |out| && SubmissionSpelled(out[|out| - size..], c, id)
  {
    hide *;
    var r := SubmissionRecord(c, id);
    SubmissionLayout(c, id, version);
    SpelledSize(Encode(r), c, id);
    LastBytes(front, log, r);
  }

  lemma SpelledSize(s: seq<byte>, c: Capture, id: u64)
    requires SubmissionSpelled(s, c, id)
    ensures |s| == 64 + 32 * |c.ranges|
  {
  }

  lemma LastBytes(front: seq<byte>, log: seq<Record>, r: Record)
    ensures var out := front + EncodeAll(log + [r]);
            |Encode(r)| <= |out| && out[|out| - |Encode(r)|..] == Encode(r)
  {
    hide *;
    EncodeMore(log, r);
  }

  /** No table is written as reference 0. So is a table whose number has wrapped to 0, and no other. */
  lemma ZeroMeansNoTable(c: Capture, id: u64)
    ensures SubmissionRecord(c, id).allocBlob == 0 <==> c.allocTable.None? || id == U64 - 1
  {
  }

  /** No two blobs of a log have the same number. */
  predicate DistinctIds(log: seq<Record>) {
    forall j, k | 0 <= j < k < |log| && log[j].Blob? && log[k].Blob? :: log[j].blobId != log[k].blobId
  }

  /** In a whole log with distinct numbers, whatever else was written, a submission's references name the blobs with the
      captured bytes and nothing else. */
  lemma ReferencesResolve(log: seq<Record>, c: Capture, id: u64, at: nat, j: nat)
    requires DistinctIds(log) && at + |SubmissionRecords(c, id)| <= |log|
    requires log[at..at + |SubmissionRecords(c, id)|] == SubmissionRecords(c, id)
    requires j < |log| && log[j].Blob?
    ensures var s := SubmissionRecord(c, id);
            && (log[j].blobId == s.cmdBlob ==> log[j] == Blob(s.cmdBlob, 0x100, c.cmdStream))
            && (c.allocTable.Some? && log[j].blobId == s.allocBlob ==>
                  log[j] == Blob(s.allocBlob, 0x101, c.allocTable.value))
            && forall i | 0 <= i < |c.ranges| && log[j].blobId == s.ranges[i].z ::
                 log[j] == Blob(s.ranges[i].z, 0x102, c.ranges[i].bytes)
  {
    hide RangeRows, RangeBlobs, Nth;
    SubmissionBlobs(c, id);
    var recs, s, h := SubmissionRecords(c, id), SubmissionRecord(c, id), |HeadBlobs(c, id)|;
    assert forall k | 0 <= k < |recs| :: log[at + k] == log[at..at + |recs|][k] == recs[k];
    forall i | 0 <= i < |c.ranges| && log[j].blobId == s.ranges[i].z
      ensures log[j] == Blob(s.ranges[i].z, 0x102, c.ranges[i].bytes)
    {
      assert log[at + (h + i)] == recs[h + i];
    }
  }

  // Numbers

  /** `serials` says which of the `issued` numbers each blob of the log got; they were handed out in order. */
  ghost predicate Numbered(log: seq<Record>, serials: seq<nat>, issued: nat) {
    && |serials| == |log|
    && (forall k | 0 <= k < |log| && log[k].Blob? :: serials[k] < issued && log[k].blobId == Nth(1, serials[k]))
    && (forall j, k | 0 <= j < k < |log| && log[j].Blob? && log[k].Blob? :: serials[j] < serials[k])
  }

  /** A record that is no blob, or a blob with a number behind all others. */
  ghost predicate NumberFree(log: seq<Record>, serials: seq<nat>, issued: nat, r: Record, serial: nat) {
    r.Blob? ==>
      && serial < issued && r.blobId == Nth(1, serial)
      && |serials| == |log| && forall k | 0 <= k < |log| && log[k].Blob? :: serials[k] < serial
  }

  lemma NumberedMore(log: seq<Record>, serials: seq<nat>, issued: nat, r: Record, serial: nat)
    requires Numbered(log, serials, issued) && NumberFree(log, serials, issued, r, serial)
    ensures Numbered(log + [r], serials + [serial], issued)
  {
    hide Nth;
  }

  lemma NumberNext(log: seq<Record>, serials: seq<nat>, issued: nat, kind: nat, data: seq<byte>)
    requires Numbered(log, serials, issued)
    ensures Numbered(log, serials, issued + 1)
    ensures NumberFree(log, serials, issued + 1, Blob(Nth(1, issued), kind, data), issued)
    ensures (Nth(1, issued) + 1) % U64 == Nth(1, issued + 1) == Nth(Nth(1, issued), 1)
  {
    NthNext(1, issued);
    hide Nth;
    NthSum(1, issued, 1);
  }

  /** As long as numbers have not come round, they are distinct. */
  lemma NumbersDistinct(log: seq<Record>, serials: seq<nat>, issued: nat)
    requires Numbered(log, serials, issued) && issued <= U64
    ensures DistinctIds(log)
  {
    hide Nth;
    forall j, k | 0 <= j < k < |log| && log[j].Blob? && log[k].Blob?
      ensures log[j].blobId != log[k].blobId
    {
      BlobIdsDiffer(1, serials[j], serials[k]);
    }
  }

  lemma NthNext(id: u64, k: nat)
    ensures (Nth(id, k) + 1) % U64 == Nth(id, k + 1)
    ensures Nth(id, 0) == id
  {
    AddModulo(id + k, 1);
    RemainderIs(id, 0, id);
  }

  lemma NthSum(id: u64, i: nat, j: nat)
    ensures Nth(Nth(id, i), j) == Nth(id, i + j)
  {
    AddModulo(id + i, j);
  }

  // The log grows

  ghost predicate Grows(b: Book, c: Book, rs: seq<Record>) {
    && c.log == b.log + rs && c.toc == b.toc && c.open == b.open && |c.spans| == |b.spans|
    && (forall i | 0 <= i < |b.spans| :: c.spans[i].first == b.spans[i].first)
  }

  lemma GrowsMore(a: Book, b: Book, c: Book, rs: seq<Record>, ss: seq<Record>)
    requires Grows(a, b, rs) && Grows(b, c, ss)
    ensures Grows(a, c, rs + ss)
  {
    Seqs.Assoc(a.log, rs, ss);
  }

  lemma GrowsSame(a: Book, b: Book, c: Book, rs: seq<Record>)
    requires Grows(a, b, rs) && Grows(b, c, [])
    ensures Grows(a, c, rs)
  {
    GrowsMore(a, b, c, rs, []);
    assert rs + [] == rs;
  }

  lemma AppendedGrows(b: Book, r: Record)
    requires b.open ==> b.spans != []
    ensures Grows(b, Appended(b, r), [r])
  {
  }

  lemma SubmissionFits(c: Capture, id: u64, version: nat)
    requires version >= 2
    ensures |Payload(SubmissionRecord(c, id))| == 56 + 32 * |c.ranges|
    ensures |Payload(SubmissionRecord(c, id))| < U32 ==> Fits(SubmissionRecord(c, id), version)
  {
    hide SixBytes, ReferenceBytes, RowsBytes, RangeRows, Nth, RowFits;
    RangeRowsFit(c.ranges, Nth(id, |HeadBlobs(c, id)|));
  }

  lemma EncodeMore(log: seq<Record>, r: Record)
    ensures EncodeAll(log + [r]) == EncodeAll(log) + Encode(r)
  {
    hide Encode, Payload;
    EncodeAllConcat(log, [r]);
    assert EncodeAll([r]) == Encode(r) + EncodeAll([]);
  }

  class Writer {
    const version: nat
    const abi: nat
    const meta: seq<byte>
    var out: seq<byte>
    var toc: seq<Row>
    var openFrame: Option<nat>
    var nextBlobId: u64
    ghost var log: seq<Record>
    ghost var spans: seq<Span>
    ghost var issued: nat
    ghost var serials: seq<nat>

    ghost function Base(): nat {
      32 + |meta|
    }

    ghost function State(): Book
      reads this
    {
      Book(log, toc, spans, openFrame.Some?)
    }

    /** The bytes written so far are the header, the metadata and the records of the log. */
    ghost predicate Written()
      reads this
    {
      && Supported(version) && abi < U32 && |meta| < U32
      && AllFit(log, version)
      && out == HeaderBytes(version, abi, |meta|) + meta + EncodeAll(log)
    }

    ghost predicate Valid()
      reads this
    {
      && Written()
      && Kept(State(), Base())
      && IdsFit(toc)
      && (openFrame.Some? ==> openFrame.value == |toc| - 1)
      && Numbered(log, serials, issued) && nextBlobId == Nth(1, issued)
    }

    constructor (version: nat, abi: u32, meta: seq<byte>)
      requires Supported(version) && |meta| < U32
      ensures Valid() && this.version == version && this.abi == abi && this.meta == meta
      ensures log == [] && toc == [] && openFrame == None && nextBlobId == 1 && issued == 0
    {
      this.version, this.abi, this.meta := version, abi, meta;
      out := HeaderBytes(version, abi, |meta|) + meta;
      toc, openFrame, nextBlobId := [], None, 1;
      log, spans, issued, serials := [], [], 0, [];
      new;
      EncodeNone();
      assert out + [] == out;
    }

    /** Refuses an unknown container version and metadata too long for its length field. */
    static method Create(version: nat, abi: u32, meta: seq<byte>) returns (r: Result<Writer, WriteError>)
      ensures r.Ok? <==> version in {1, 2} && |meta| < U32
      ensures r.Ok? ==> fresh(r.value) && r.value.Valid() && r.value.version == version && r.value.abi == abi
                        && r.value.meta == meta && r.value.log == [] && r.value.issued == 0
      ensures r.Err? ==> r.error == if version in {1, 2} then TooLarge else UnsupportedVersion
    {
      if version != 1 && version != 2 {
        return Err(UnsupportedVersion);
      }
      if |meta| >= U32 {
        return Err(TooLarge);
      }
      var w := new Writer(version, abi, meta);
      return Ok(w);
    }

    /** Appends the bytes of one record; the callers keep the log and the table of contents. */
    method WriteRecord(r: Record, ghost serial: nat) returns (ok: bool)
      requires Written() && (|Payload(r)| < U32 ==> Fits(r, version))
      requires Numbered(log, serials, issued) && NumberFree(log, serials, issued, r, serial)
      modifies `out, `log, `serials
      ensures ok <==> |Payload(r)| < U32
      ensures ok ==> Written() && log == old(log) + [r] && Numbered(log, serials, issued)
      ensures !ok ==> unchanged(this)
    {
      hide Fits, EncodeAll, Encode, HeaderBytes, Payload, Numbered, NumberFree;
      if |Payload(r)| >= U32 {
        return false;
      }
      NumberedMore(log, serials, issued, r, serial);
      EncodeMore(log, r);
      Seqs.Assoc(HeaderBytes(version, abi, |meta|) + meta, EncodeAll(log), Encode(r));
      out := out + Encode(r);
      log, serials := log + [r], serials + [serial];
      return true;
    }

    method Begin(frameIndex: u32) returns (r: Result<(), WriteError>)
      requires Valid()
      modifies this
      ensures Valid() && nextBlobId == old(nextBlobId) && issued == old(issued)
      ensures r.Err? ==> unchanged(this)
      ensures r == if old(openFrame).Some? then Err(FrameAlreadyOpen)
                   else if old(toc) != [] && old(toc)[|old(toc)| - 1].id == frameIndex then Err(DuplicateFrameIndex)
                   else Ok(())
      ensures r.Ok? ==> State() == Begun(old(State()), frameIndex, Base())
    {
      hide EncodeAll, HeaderBytes, Kept, At, Numbered, Nth;
      if openFrame.Some? {
        return Err(FrameAlreadyOpen);
      }
      if toc != [] && toc[|toc| - 1].id == frameIndex {
        return Err(DuplicateFrameIndex);
      }
      BeginKeeps(State(), frameIndex, Base());
      StreamEnd(log, version, abi, meta);
      var startOffset := |out|;
      var ok := WriteRecord(BeginFrame(frameIndex), issued);
      assert ok;
      toc := toc + [Row(frameIndex, 0, startOffset, 0, 0)];
      openFrame := Some(|toc| - 1);
      spans := spans + [Span(|log| - 1, |log|)];
      return Ok(());
    }

    /** A record inside the open frame, or a blob anywhere. */
    method Add(r: Record, ghost serial: nat) returns (ok: bool)
      requires Valid() && (|Payload(r)| < U32 ==> Fits(r, version))
      requires !r.BeginFrame? && !r.Present? && (openFrame.Some? || r.Blob?)
      requires NumberFree(log, serials, issued, r, serial)
      modifies `out, `log, `spans, `serials
      ensures Valid() && (ok <==> |Payload(r)| < U32)
      ensures ok ==> State() == Appended(old(State()), r) && Grows(old(State()), State(), [r])
      ensures !ok ==> unchanged(this)
    {
      hide Fits, EncodeAll, HeaderBytes, Payload, At, ClosedFrame, OpenFrame, Ordered, OnlyBlobsOutside, Numbered,
          NumberFree, Nth;
      AppendKeeps(State(), r, Base());
      AppendedGrows(State(), r);
      ok := WriteRecord(r, serial);
      if ok && openFrame.Some? {
        var n := |toc|;
        spans := spans[..n - 1] + [Grown(spans[n - 1])];
      }
    }

    method WritePacket(bytes: seq<byte>) returns (r: Result<(), WriteError>)
      requires Valid()
      modifies this
      ensures Valid() && nextBlobId == old(nextBlobId) && issued == old(issued)
      ensures r == if old(openFrame).None? then Err(NoOpenFrame) else if |bytes| >= U32 then Err(TooLarge) else Ok(())
      ensures r.Err? ==> unchanged(this)
      ensures r.Ok? ==> State() == Appended(old(State()), Packet(bytes))
    {
      hide EncodeAll, HeaderBytes, Kept, Numbered, Nth;
      if openFrame.None? {
        return Err(NoOpenFrame);
      }
      var ok := Add(Packet(bytes), issued);
      return if ok then Ok(()) else Err(TooLarge);
    }

    /** A blob is numbered before it is written, so a blob that is too large uses up its number. */
    method WriteBlob(kind: nat, data: seq<byte>) returns (r: Result<u64, WriteError>)
      requires Valid() && KnownKind(kind)
      modifies this
      ensures Valid() && nextBlobId == Nth(old(nextBlobId), 1) && issued == old(issued) + 1
      ensures r == if BlobFits(data) then Ok(old(nextBlobId)) else Err(TooLarge)
      ensures State() == if BlobFits(data) then Appended(old(State()), Blob(old(nextBlobId), kind, data))
                else old(State())
      ensures openFrame == old(openFrame)
      ensures Grows(old(State()), State(), if BlobFits(data) then [Blob(old(nextBlobId), kind, data)] else [])
    {
      hide EncodeAll, HeaderBytes, ClosedFrame, OpenFrame, Ordered, OnlyBlobsOutside, KnownKind, Inner, Numbered,
          NumberFree, Nth;
      var blobId := nextBlobId;
      NumberNext(log, serials, issued, kind, data);
      nextBlobId, issued := (nextBlobId + 1) % U64, issued + 1;
      var ok := Add(Blob(blobId, kind, data), issued - 1);
      assert !ok ==> log + [] == log;
      return if ok then Ok(blobId) else Err(TooLarge);
    }

    /** The command stream and the allocation table, each as a blob; `written` of them when one does not fit. */
    method WriteHeadBlobs(c: Capture) returns (ok: bool, cmdBlob: u64, allocBlob: u64, ghost written: nat)
      requires Valid() && openFrame.Some?
      modifies this
      ensures Valid() && openFrame == old(openFrame)
      ensures ok <==> BlobFits(c.cmdStream) && (c.allocTable.Some? ==> BlobFits(c.allocTable.value))
      ensures written <= |HeadBlobs(c, old(nextBlobId))|
      ensures Grows(old(State()), State(), HeadBlobs(c, old(nextBlobId))[..written])
      ensures ok <==> written == |HeadBlobs(c, old(nextBlobId))|
      ensures !ok ==> !BlobFits(HeadBlobs(c, old(nextBlobId))[written].data)
      ensures !ok ==> nextBlobId == Nth(old(nextBlobId), written + 1)
      ensures ok ==> cmdBlob == old(nextBlobId)
      ensures ok ==> allocBlob == if c.allocTable.None? then 0 else Nth(old(nextBlobId), 1)
      ensures ok ==> nextBlobId == Nth(old(nextBlobId), |HeadBlobs(c, old(nextBlobId))|)
    {
      hide Valid, Appended, Nth, BlobFits;
      ghost var id := nextBlobId;
      allocBlob := 0;
      var cmd := WriteBlob(0x100, c.cmdStream);
      if cmd.Err? {
        return false, 0, 0, 0;
      }
      ok, cmdBlob, written := true, cmd.value, 1;
      assert HeadBlobs(c, id)[..1] == [Blob(id, 0x100, c.cmdStream)];
      if c.allocTable.Some? {
        ghost var middle := State();
        var alloc := WriteBlob(0x101, c.allocTable.value);
        NthSum(id, 1, 1);
        if alloc.Err? {
          GrowsSame(old(State()), middle, State(), [Blob(id, 0x100, c.cmdStream)]);
          return false, 0, 0, 1;
        }
        allocBlob, written := alloc.value, 2;
        GrowsMore(old(State()), middle, State(), [Blob(id, 0x100, c.cmdStream)],
                  [Blob(Nth(id, 1), 0x101, c.allocTable.value)]);
        assert HeadBlobs(c, id)[..2] == HeadBlobs(c, id);
      }
    }

    /** One blob for every memory range, and the rows that refer to them. */
    method WriteRangeBlobs(ranges: seq<RangeCapture>) returns (ok: bool, rows: seq<Row>, ghost written: nat)
      requires Valid() && openFrame.Some?
      modifies this
      ensures Valid() && openFrame == old(openFrame)
      ensures ok <==> RangesFit(ranges)
      ensures written <= |ranges| && Grows(old(State()), State(), RangeBlobs(ranges, old(nextBlobId))[..written])
      ensures ok <==> written == |ranges|
      ensures !ok ==> !BlobFits(ranges[written].bytes) && nextBlobId == Nth(old(nextBlobId), written + 1)
      ensures ok ==> rows == RangeRows(ranges, old(nextBlobId)) && nextBlobId == Nth(old(nextBlobId), |ranges|)
    {
      hide Valid, Appended, Nth, BlobFits;
      ghost var id, start := nextBlobId, State();
      rows := [];
      NthNext(id, 0);
      assert log + [] == log;
      assert ranges[..0] == [];
      for i := 0 to |ranges|
        invariant Valid() && openFrame == old(openFrame) && RangesFit(ranges[..i])
        invariant Grows(start, State(), RangeBlobs(ranges[..i], id))
        invariant rows == RangeRows(ranges[..i], id) && nextBlobId == Nth(id, i)
      {
        ghost var before := State();
        var range := ranges[i];
        var blob := WriteBlob(0x102, range.bytes);
        NthSum(id, i, 1);
        if blob.Err? {
          GrowsSame(start, before, State(), RangeBlobs(ranges[..i], id));
          RangeBlobsPrefix(ranges, id, i);
          return false, [], i;
        }
        assert ranges[..i + 1][..i] == ranges[..i];
        GrowsMore(start, before, State(), RangeBlobs(ranges[..i], id), [Blob(Nth(id, i), 0x102, range.bytes)]);
        rows := rows + [Row(range.allocId, range.flags, range.gpa, range.sizeBytes, blob.value)];
      }
      assert ranges[..|ranges|] == ranges;
      RangeBlobsPrefix(ranges, id, |ranges|);
      return true, rows, |ranges|;
    }

    /** The bytes written end with the record just added. */
    lemma SubmissionTail(c: Capture, id: u64, record: Record)
      requires Valid() && version >= 2 && CaptureFits(c) && record == SubmissionRecord(c, id)
      requires log != [] && log[|log| - 1] == record
      ensures var size := 64 + 32 * |c.ranges|; size <= |out| && SubmissionSpelled(out[|out| - size..], c, id)
    {
      hide EncodeAll, Encode, SubmissionSpelled, SubmissionRecord, HeaderBytes, Kept, Numbered, Nth, AllFit, IdsFit,
          CaptureFits;
      assert log == log[..|log| - 1] + [record];
      TailSpelled(HeaderBytes(version, abi, |meta|) + meta, log[..|log| - 1], c, id, version);
    }

    /** The record that refers to the blobs of a submission. */
    method AddSubmission(c: Capture, ghost id: u64, record: Record) returns (ok: bool)
      requires Valid() && openFrame.Some? && version >= 2 && record == SubmissionRecord(c, id)
      requires BlobFits(c.cmdStream) && (c.allocTable.Some? ==> BlobFits(c.allocTable.value)) && RangesFit(c.ranges)
      modifies `out, `log, `spans, `serials
      ensures Valid() && (ok <==> CaptureFits(c))
      ensures ok ==> Grows(old(State()), State(), [record])
      ensures ok ==> var size := 64 + 32 * |c.ranges|; size <= |out| && SubmissionSpelled(out[|out| - size..], c, id)
      ensures !ok ==> unchanged(this)
    {
      hide Valid, Appended, BlobFits, RangesFit, Fits, Payload, SubmissionSpelled;
      SubmissionFits(c, id, version);
      hide SubmissionRecord;
      ok := Add(record, issued);
      if ok {
        SubmissionTail(c, id, record);
      }
    }

    /** A submission is written whole, its blobs first and the record that refers to them last, exactly when the
        container and the frame allow it and every part fits. When a part does not fit, the blobs before it
        stay, and it has used up a number if it is a blob. */
    method WriteSubmission(c: Capture) returns (r: Result<(), WriteError>, ghost written: seq<Record>)
      requires Valid()
      modifies this
      ensures Valid() && openFrame == old(openFrame)
      ensures r == if version < 2 then Err(UnsupportedVersion)
                   else if old(openFrame).None? then Err(NoOpenFrame)
                   else if CaptureFits(c) then Ok(()) else Err(TooLarge)
      ensures r in {Err(UnsupportedVersion), Err(NoOpenFrame)} ==> unchanged(this) && written == []
      ensures Grows(old(State()), State(), written)
      ensures r.Ok? ==> written == SubmissionRecords(c, old(nextBlobId))
      ensures r.Ok? ==> nextBlobId == Nth(old(nextBlobId), |written| - 1)
      ensures r.Ok? ==> var size := 64 + 32 * |c.ranges|;
                        size <= |out| && SubmissionSpelled(out[|out| - size..], c, old(nextBlobId))
      ensures r == Err(TooLarge) ==>
                var blobs := BlobsOf(c, old(nextBlobId));
                && written <= blobs && nextBlobId == Nth(old(nextBlobId), Min(|written| + 1, |blobs|))
                && (|written| < |blobs| ==> !BlobFits(blobs[|written|].data))
    {
      hide Valid, Appended, Nth, BlobFits, RangesFit, RangeRows, RangeBlobs, SubmissionSpelled;
      written := [];
      assert log + [] == log;
      if version < 2 {
        return Err(UnsupportedVersion), [];
      }
      if openFrame.None? {
        return Err(NoOpenFrame), [];
      }
      ghost var id, s0 := nextBlobId, State();
      ghost var heads, some, blobs := HeadBlobs(c, id), 0, BlobsOf(c, id);
      var ok, cmdBlob, allocBlob;
      ok, cmdBlob, allocBlob, some := WriteHeadBlobs(c);
      if !ok {
        assert blobs[some] == heads[some];
        return Err(TooLarge), heads[..some];
      }
      assert heads[..some] == heads;
      ghost var s1, id1 := State(), nextBlobId;
      var rows;
      ok, rows, some := WriteRangeBlobs(c.ranges);
      ghost var s2, ranges := State(), RangeBlobs(c.ranges, id1);
      GrowsMore(s0, s1, s2, heads, ranges[..some]);
      NthSum(id, |heads|, some + 1);
      NthSum(id, |heads|, some);
      if !ok {
        RangeBlobData(c.ranges, id1, some);
        assert blobs[|heads| + some] == ranges[some];
        return Err(TooLarge), heads + ranges[..some];
      }
      assert ranges[..some] == ranges;
      var record := Submission(1, c.submitFlags, c.contextId, c.engineId, c.signalFence, cmdBlob, allocBlob, rows);
      ok := AddSubmission(c, id, record);
      if !ok {
        return Err(TooLarge), blobs;
      }
      GrowsMore(s0, s2, State(), blobs, [record]);
      return Ok(()), SubmissionRecords(c, id);
    }

    /** The frame that is open is closed, and only by its own index. */
    method Present(frameIndex: u32) returns (r: Result<(), WriteError>)
      requires Valid()
      modifies this
      ensures Valid() && nextBlobId == old(nextBlobId) && issued == old(issued)
      ensures r == if old(openFrame).Some? && old(toc)[|old(toc)| - 1].id == frameIndex then Ok(())
                else Err(PresentWithoutFrame)
      ensures r.Err? ==> unchanged(this)
      ensures r.Ok? ==> State() == Presented(old(State()), Base())
    {
      hide EncodeAll, HeaderBytes, At, ClosedFrame, Inner, Ordered, OnlyBlobsOutside, Numbered, Nth;
      if openFrame.None? {
        return Err(PresentWithoutFrame);
      }
      var slot := openFrame.value;
      if toc[slot].id != frameIndex {
        return Err(PresentWithoutFrame);
      }
      PresentKeeps(State(), Base());
      StreamEnd(log, version, abi, meta);
      var presentOffset := |out|;
      var ok := WriteRecord(Record.Present(frameIndex), issued);
      assert ok;
      StreamEnd(log, version, abi, meta);
      toc := toc[..slot] + [toc[slot].(y := presentOffset, z := |out|)];
      openFrame := None;
      spans := spans[..slot] + [Grown(spans[slot])];
      return Ok(());
    }

    /** Closes the file. Below 2^64 bytes the file reads back: it opens with this table of contents, its stream is every
        record that was written, and each frame is its own records. */
    method Finish() returns (r: Result<seq<byte>, WriteError>)
      requires Valid()
      ensures r.Ok? <==> openFrame.None? && |toc| < U32
      ensures r.Err? ==> r.error == if openFrame.Some? then FinishWithOpenFrame else TooLarge
      ensures r.Ok? ==> r.value == Container(version, abi, meta, EncodeAll(log), toc)
      ensures r.Ok? && |r.value| < U64 ==> FileReadsBack(State(), version, abi, meta, r.value)
      ensures issued <= U64 ==> DistinctIds(log)
    {
      hide EncodeAll, ClosedFrame, OpenFrame, Ordered, OnlyBlobsOutside, FileReadsBack,
        HeaderBytes, TocBytes, FooterBytes, AllFit, IdsFit, Numbered, DistinctIds, Nth;
      if issued <= U64 {
        NumbersDistinct(log, serials, issued);
      }
      if openFrame.Some? {
        return Err(FinishWithOpenFrame);
      }
      if |toc| >= U32 {
        return Err(TooLarge);
      }
      var tocOffset := |out|;
      var file := out + TocBytes(toc) + FooterBytes(version, tocOffset, 16 + 32 * |toc|);
      if |file| < U64 {
        FinishedReadsBack(State(), version, abi, meta);
      }
      return Ok(file);
    }
  }

  /** The writer's position is the position of the end of the log. */
  lemma StreamEnd(log: seq<Record>, version: nat, abi: nat, meta: seq<byte>)
    ensures |HeaderBytes(version, abi, |meta|) + meta + EncodeAll(log)| == At(log, |log|, 32 + |meta|)
  {
    hide EncodeAll, HeaderBytes;
    AtEnd(log, 32 + |meta|);
  }
}
