/** The fuzz harness around the trace reader: which ranges of a file it asks the reader to scan. */
module TraceScan {
  import opened Bytes
  import opened TraceFormat
  import opened TraceFile
  import opened Words
  import opened Wrappers

  const MAX_STREAM: nat := 0x1_0000
  const MAX_FRAMES: nat := 32

  datatype Range = Range(start: nat, end: nat)

  function Clamp(fileLen: nat, start: nat, end: nat): Option<Range> {
    var s, e := Min(start, fileLen), Min(end, fileLen);
    if e <= s then None else Some(Range(s, Min(e, s + MAX_STREAM)))
  }

  predicate Within(i: int, start: nat, end: nat) {
    start <= i < end
  }

  /** The scan range of a requested range is the longest prefix of it inside the file that is at most 64 KiB long,
      and there is none exactly when the requested range holds no byte of the file. */
  lemma ClampExact(fileLen: nat, start: nat, end: nat)
    ensures Clamp(fileLen, start, end).None? <==> forall i | Within(i, start, end) :: !Within(i, 0, fileLen)
    ensures Clamp(fileLen, start, end).Some? ==>
              var r := Clamp(fileLen, start, end).value;
              && start == r.start < r.end <= r.start + MAX_STREAM
              && (forall i | Within(i, r.start, r.end) :: Within(i, start, end) && Within(i, 0, fileLen))
              && (forall i | Within(i, start, end) && Within(i, 0, fileLen) && i < start + MAX_STREAM ::
                    Within(i, r.start, r.end))
  {
    assert start < end && start < fileLen ==> Within(start, start, end) && Within(start, 0, fileLen);
  }

  /** The ranges one frame asks for: the frame itself, then from its present record to its end. */
  function FrameRanges(fileLen: nat, e: Row): seq<Range> {
    match Clamp(fileLen, e.x, e.z)
    case None => []
    case Some(r) =>
      [r] + (if e.y == 0 then []
             else match Clamp(fileLen, e.y, e.z)
                  case None => []
                  case Some(p) => [p])
  }

  function AllFrameRanges(fileLen: nat, toc: seq<Row>): seq<Range> {
    if toc == [] then [] else AllFrameRanges(fileLen, toc[..|toc| - 1]) + FrameRanges(fileLen, toc[|toc| - 1])
  }

  /** Some frame's own range is `r`. */
  predicate Covers(fileLen: nat, toc: seq<Row>, r: Range) {
    exists i | 0 <= i < |toc| :: Clamp(fileLen, toc[i].x, toc[i].z) == Some(r)
  }

  function Taken(toc: seq<Row>): seq<Row> {
    toc[..Min(|toc|, MAX_FRAMES)]
  }

  /** The ranges scanned of a file, in order. */
  function Scanned(file: seq<byte>): seq<Range> {
    match OpenTrace(file)
    case Err(_) => []
    case Ok(t) =>
      var frames := Taken(t.toc);
      AllFrameRanges(|file|, frames)
      + (match Clamp(|file|, 32 + |t.meta|, t.tocOffset)
         case None => []
         case Some(r) => if Covers(|file|, frames, r) then [] else [r])
  }

  lemma CoversStep(fileLen: nat, toc: seq<Row>, i: nat, r: Range)
    requires i < |toc|
    ensures Covers(fileLen, toc[..i + 1], r) <==>
              Covers(fileLen, toc[..i], r) || Clamp(fileLen, toc[i].x, toc[i].z) == Some(r)
  {
    hide Clamp;
    var s, t := toc[..i], toc[..i + 1];
    assert t[i] == toc[i];
    assert forall j | 0 <= j < i :: t[j] == s[j];
  }

  lemma FrameRangesStep(fileLen: nat, toc: seq<Row>, i: nat)
    requires i < |toc|
    ensures AllFrameRanges(fileLen, toc[..i + 1]) == AllFrameRanges(fileLen, toc[..i]) + FrameRanges(fileLen, toc[i])
  {
    hide FrameRanges;
    assert toc[..i + 1][..i] == toc[..i];
  }

  method ScanFrame(fileLen: nat, entry: Row) returns (ranges: seq<Range>)
    ensures ranges == FrameRanges(fileLen, entry)
  {
    hide Clamp;
    match Clamp(fileLen, entry.x, entry.z) {
      case None => return [];
      case Some(r) =>
        ranges := [r];
        if entry.y != 0 {
          match Clamp(fileLen, entry.y, entry.z) {
            case None =>
            case Some(p) => ranges := ranges + [p];
          }
        }
    }
  }

  /** The loop over the frames, with its flag for a frame that already covers the record stream. */
  method TryParseTrace(file: seq<byte>) returns (scanned: seq<Range>)
    ensures scanned == Scanned(file)
  {
    hide OpenTrace, Clamp, FrameRanges, AllFrameRanges, Covers, Taken;
    scanned := [];
    var open := OpenTrace(file);
    if open.Err? {
      return;
    }
    var t := open.value;
    var stream := Clamp(|file|, 32 + |t.meta|, t.tocOffset);
    var entries, covered := Taken(t.toc), false;
    NoFrames(|file|, stream);
    assert entries[..0] == [];
    for i := 0 to |entries|
      invariant scanned == AllFrameRanges(|file|, entries[..i])
      invariant covered <==> stream.Some? && Covers(|file|, entries[..i], stream.value)
    {
      FrameRangesStep(|file|, entries, i);
      if stream.Some? {
        CoversStep(|file|, entries, i, stream.value);
      }
      if stream.Some? && Clamp(|file|, entries[i].x, entries[i].z) == stream {
        covered := true;
      }
      var ranges := ScanFrame(|file|, entries[i]);
      scanned := scanned + ranges;
    }
    assert entries[..|entries|] == entries;
    if !covered && stream.Some? {
      scanned := scanned + [stream.value];
    }
  }

  lemma NoFrames(fileLen: nat, stream: Option<Range>)
    ensures AllFrameRanges(fileLen, []) == []
    ensures stream.Some? ==> !Covers(fileLen, [], stream.value)
  {
  }

  predicate Bounded(rs: seq<Range>, fileLen: nat) {
    forall i | 0 <= i < |rs| :: rs[i].start < rs[i].end <= fileLen && rs[i].end <= rs[i].start + MAX_STREAM
  }

  lemma OneFrameBounded(fileLen: nat, e: Row)
    ensures Bounded(FrameRanges(fileLen, e), fileLen) && |FrameRanges(fileLen, e)| <= 2
  {
  }

  lemma {:induction false} FramesBounded(fileLen: nat, toc: seq<Row>)
    ensures Bounded(AllFrameRanges(fileLen, toc), fileLen)
    ensures |AllFrameRanges(fileLen, toc)| <= 2 * |toc|
    decreases |toc|
  {
    if toc == [] {
    } else {
      hide FrameRanges;
      FramesBounded(fileLen, toc[..|toc| - 1]);
      OneFrameBounded(fileLen, toc[|toc| - 1]);
    }
  }

  lemma {:induction false} CoveredIsScanned(fileLen: nat, toc: seq<Row>, r: Range)
    requires Covers(fileLen, toc, r)
    ensures r in AllFrameRanges(fileLen, toc)
    decreases |toc|
  {
    var i :| 0 <= i < |toc| && Clamp(fileLen, toc[i].x, toc[i].z) == Some(r);
    var rest := toc[..|toc| - 1];
    if i < |toc| - 1 {
      assert Clamp(fileLen, rest[i].x, rest[i].z) == Some(r);
      CoveredIsScanned(fileLen, rest, r);
    }
  }

  /** Whatever the file: every scan stays inside it, is not empty and at most 64 KiB long; there are at most 65 of them;
      and the front of the record stream is always among them, unless it is empty. */
  lemma ScanIsBounded(file: seq<byte>)
    ensures Bounded(Scanned(file), |file|) && |Scanned(file)| <= 2 * MAX_FRAMES + 1
    ensures OpenTrace(file).Ok? ==>
              var t := OpenTrace(file).value;
              && (Clamp(|file|, 32 + |t.meta|, t.tocOffset).Some? <==> 32 + |t.meta| < t.tocOffset)
              && (32 + |t.meta| < t.tocOffset ==>
                    Range(32 + |t.meta|, Min(t.tocOffset, 32 + |t.meta| + MAX_STREAM)) in Scanned(file))
  {
    hide OpenTrace;
    if OpenTrace(file).Ok? {
      OpenIsSafe(file);
      var t := OpenTrace(file).value;
      var frames, c := Taken(t.toc), Clamp(|file|, 32 + |t.meta|, t.tocOffset);
      FramesBounded(|file|, frames);
      if c.Some? && Covers(|file|, frames, c.value) {
        CoveredIsScanned(|file|, frames, c.value);
      }
    }
  }

  // The synthetic container

  function Synthetic(stream: seq<byte>): (s: seq<byte>)
    ensures |s| == 32 + |stream| + 80
  {
    Container(2, 0, [], stream, [Row(0, 0, 32, 0, 32 + |stream|)])
  }

  /** The synthetic container of any record stream opens, with one frame that is the whole stream. */
  lemma SyntheticOpens(stream: seq<byte>)
    requires 32 + |stream| < U64
    ensures OpenTrace(Synthetic(stream)) == Ok(Trace(2, 0, 0, [], 32 + |stream|, [Row(0, 0, 32, 0, 32 + |stream|)]))
    ensures Synthetic(stream)[32..32 + |stream|] == stream
  {
    hide OpenTrace, HeaderBytes, TocBytes, FooterBytes;
    var toc := [Row(0, 0, 32, 0, 32 + |stream|)];
    ContainerOpens(2, 0, [], stream, toc);
    ContainerParts(HeaderBytes(2, 0, 0), [], stream, TocBytes(toc), FooterBytes(2, 32 + |stream|, 48));
    var head := HeaderBytes(2, 0, 0);
    assert head + [] == head;
    assert Synthetic(stream) == head + stream + TocBytes(toc) + FooterBytes(2, 32 + |stream|, 48);
  }

  /** A stream of at most 64 KiB is scanned exactly once, as a whole; an empty one not at all. */
  lemma SyntheticScannedOnce(stream: seq<byte>)
    requires |stream| <= MAX_STREAM
    ensures Scanned(Synthetic(stream)) == if stream == [] then [] else [Range(32, 32 + |stream|)]
  {
    hide OpenTrace, Synthetic;
    SyntheticOpens(stream);
    var file, e := Synthetic(stream), Row(0, 0, 32, 0, 32 + |stream|);
    assert Taken([e]) == [e];
    assert AllFrameRanges(|file|, [e]) == AllFrameRanges(|file|, []) + FrameRanges(|file|, e);
    if stream != [] {
      assert Clamp(|file|, [e][0].x, [e][0].z) == Some(Range(32, 32 + |stream|));
      assert Covers(|file|, [e], Range(32, 32 + |stream|));
    }
  }

  /** Records put into a synthetic container come out of its scan. */
  lemma SyntheticReadsBack(rs: seq<Record>)
    requires forall i | 0 <= i < |rs| :: Fits(rs[i], 2)
    ensures var stream := EncodeAll(rs);
            ReadRange(Synthetic(stream), 2, 32, 32 + |stream|) == Ok(rs)
  {
    hide Container, ReadRange, Fits, EncodeAll;
    EncodeNone();
    RangeReadsBack(2, 0, [], [], rs, [], [Row(0, 0, 32, 0, 32 + |EncodeAll(rs)|)]);
    assert [] + rs + [] == rs;
  }

  /** The container built by appending its parts to a growing vector. */
  method BuildSyntheticContainer(stream: seq<byte>) returns (out: seq<byte>)
    ensures out == Synthetic(stream)
  {
    hide U32Bytes, U64Bytes;
    var end := 32 + |stream|;
    out := TRACE_MAGIC + U32Bytes(32) + U32Bytes(2) + U32Bytes(0) + U32Bytes(0) + U32Bytes(0) + U32Bytes(0);
    HeaderSpelled();
    out := out + stream;
    var row := U32Bytes(0) + U32Bytes(0) + U64Bytes(32) + U64Bytes(0) + U64Bytes(end);
    var toc := TOC_MAGIC + U32Bytes(1) + U32Bytes(1) + row;
    TableSpelled(end);
    out := out + toc;
    out := out + (FOOTER_MAGIC + U32Bytes(32) + U32Bytes(2) + U64Bytes(end) + U64Bytes(48));
    assert HeaderBytes(2, 0, 0) + [] == HeaderBytes(2, 0, 0);
  }

  lemma HeaderSpelled()
    ensures TRACE_MAGIC + U32Bytes(32) + U32Bytes(2) + U32Bytes(0) + U32Bytes(0) + U32Bytes(0) + U32Bytes(0)
            == HeaderBytes(2, 0, 0)
  {
    hide U32Bytes;
  }

  lemma TableSpelled(end: nat)
    ensures TOC_MAGIC + U32Bytes(1) + U32Bytes(1)
            + (U32Bytes(0) + U32Bytes(0) + U64Bytes(32) + U64Bytes(0) + U64Bytes(end))
                == TocBytes([Row(0, 0, 32, 0, end)])
  {
    hide U32Bytes, U64Bytes;
    var rows := [Row(0, 0, 32, 0, end)];
    assert rows[..0] == [];
    assert RowsBytes(rows) == RowsBytes(rows[..0]) + RowBytes(rows[0]);
  }

  // Which ranges are scanned

  /** Frame `e` asks for `r`: the frame itself, or its part from the present record on. */
  predicate AsksFor(fileLen: nat, e: Row, r: Range) {
    Clamp(fileLen, e.x, e.z) == Some(r)
    || (Clamp(fileLen, e.x, e.z).Some? && e.y != 0 && Clamp(fileLen, e.y, e.z) == Some(r))
  }

  lemma FrameAsks(fileLen: nat, e: Row, r: Range)
    ensures r in FrameRanges(fileLen, e) <==> AsksFor(fileLen, e, r)
  {
    hide Clamp;
  }

  lemma {:induction false} FramesAsk(fileLen: nat, toc: seq<Row>, r: Range)
    ensures r in AllFrameRanges(fileLen, toc) <==> exists i | 0 <= i < |toc| :: AsksFor(fileLen, toc[i], r)
    decreases |toc|
  {
    hide Clamp, FrameRanges, AsksFor;
    if toc == [] {
    } else {
      var n := |toc| - 1;
      FramesAsk(fileLen, toc[..n], r);
      FrameAsks(fileLen, toc[n], r);
      assert forall i | 0 <= i < n :: toc[..n][i] == toc[i];
    }
  }

  /** Exactly these ranges of a file that opens are scanned: those its first 32 frames ask for, and the record
      stream. */
  lemma ScannedExactly(file: seq<byte>, r: Range)
    requires OpenTrace(file).Ok?
    ensures var t := OpenTrace(file).value;
            r in Scanned(file)
            <==> || (exists i | 0 <= i < |t.toc| && i < 32 :: AsksFor(|file|, t.toc[i], r))
                 || Clamp(|file|, 32 + |t.meta|, t.tocOffset) == Some(r)
  {
    hide OpenTrace, Clamp, AllFrameRanges;
    var t := OpenTrace(file).value;
    var frames := Taken(t.toc);
    FramesAsk(|file|, frames, r);
    assert forall i | 0 <= i < |frames| :: frames[i] == t.toc[i];
    var stream := Clamp(|file|, 32 + |t.meta|, t.tocOffset);
    if stream == Some(r) && Covers(|file|, frames, r) {
      var i :| 0 <= i < |frames| && Clamp(|file|, frames[i].x, frames[i].z) == Some(r);
      assert AsksFor(|file|, t.toc[i], r);
    }
  }

  /** A file that does not open is not scanned. */
  lemma NotScanned(file: seq<byte>)
    requires OpenTrace(file).Err?
    ensures Scanned(file) == []
  {
  }
}
