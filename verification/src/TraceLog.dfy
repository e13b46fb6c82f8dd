/** What a trace writer has written so far, and how its table of contents describes it. */
module TraceLog {
  import opened Bytes
  import opened TraceFormat
  import opened TraceFile
  import opened Words
  import opened Wrappers

  /** The records `first`, ..., `last - 1` of the log. */
  datatype Span = Span(first: nat, last: nat)

  /** The records written, the table of contents, the records each of its frames spans, and whether the last
      frame is open. */
  datatype Book = Book(log: seq<Record>, toc: seq<Row>, spans: seq<Span>, open: bool)

  /** The file position before record `k`, when the record stream starts at `base`. */
  ghost function At(log: seq<Record>, k: nat, base: nat): (p: nat)
    requires k <= |log|
    ensures p >= base
  {
    base + |EncodeAll(log[..k])|
  }

  /** Records that may stand between the start of a frame and its present record. */
  predicate Inner(log: seq<Record>, from: nat, to: nat)
    requires to <= |log|
  {
    forall k | from <= k < to :: !log[k].BeginFrame? && !log[k].Present?
  }

  ghost predicate ClosedFrame(e: Row, s: Span, log: seq<Record>, base: nat) {
    && s.first + 2 <= s.last <= |log|
    && e == Row(e.id, 0, At(log, s.first, base), At(log, s.last - 1, base), At(log, s.last, base))
    && log[s.first] == BeginFrame(e.id) && log[s.last - 1] == Present(e.id)
    && Inner(log, s.first + 1, s.last - 1)
  }

  ghost predicate OpenFrame(e: Row, s: Span, log: seq<Record>, base: nat) {
    && s.first < s.last == |log|
    && e == Row(e.id, 0, At(log, s.first, base), 0, 0)
    && log[s.first] == BeginFrame(e.id)
    && Inner(log, s.first + 1, |log|)
  }

  predicate InSpan(k: nat, s: Span) {
    s.first <= k < s.last
  }

  predicate InSomeSpan(k: nat, spans: seq<Span>) {
    exists i | 0 <= i < |spans| :: InSpan(k, spans[i])
  }

  predicate Ordered(spans: seq<Span>) {
    forall i, j | 0 <= i < j < |spans| :: spans[i].last <= spans[j].first
  }

  /** Outside frames there are only blobs. */
  predicate OnlyBlobsOutside(log: seq<Record>, spans: seq<Span>) {
    forall k | 0 <= k < |log| :: log[k].Blob? || InSomeSpan(k, spans)
  }

  /** Every frame but an open one is described completely by the table of contents. */
  ghost predicate Kept(b: Book, base: nat) {
    && |b.toc| == |b.spans|
    && (b.open ==> b.toc != [])
    && (forall i | 0 <= i < |b.toc| - (if b.open then 1 else 0) :: ClosedFrame(b.toc[i], b.spans[i], b.log, base))
    && (b.open ==> OpenFrame(b.toc[|b.toc| - 1], b.spans[|b.toc| - 1], b.log, base))
    && Ordered(b.spans)
    && OnlyBlobsOutside(b.log, b.spans)
  }

  // The steps of a writer

  function Grown(s: Span): Span {
    s.(last := s.last + 1)
  }

  ghost function Appended(b: Book, r: Record): Book
    requires b.open ==> b.spans != []
  {
    var n := |b.spans|;
    b.(log := b.log + [r], spans := if b.open then b.spans[..n - 1] + [Grown(b.spans[n - 1])] else b.spans)
  }

  ghost function Begun(b: Book, frame: nat, base: nat): Book {
    Book(b.log + [BeginFrame(frame)], b.toc + [Row(frame, 0, At(b.log, |b.log|, base), 0, 0)],
         b.spans + [Span(|b.log|, |b.log| + 1)], true)
  }

  ghost function Presented(b: Book, base: nat): Book
    requires b.open && b.toc != [] && b.spans != []
  {
    var n, e := |b.toc| - 1, b.toc[|b.toc| - 1];
    var c := Appended(b, Present(e.id));
    c.(toc := b.toc[..n] + [Row(e.id, 0, e.x, At(b.log, |b.log|, base), At(c.log, |c.log|, base))], open := false)
  }

  /** Positions of what is already written do not move. */
  lemma AtKept(log: seq<Record>, r: Record, k: nat, base: nat)
    requires k <= |log|
    ensures At(log + [r], k, base) == At(log, k, base)
  {
    hide EncodeAll;
    assert (log + [r])[..k] == log[..k];
  }

  lemma AtEnd(log: seq<Record>, base: nat)
    ensures At(log, |log|, base) == base + |EncodeAll(log)|
  {
    hide EncodeAll;
    assert log[..|log|] == log;
  }

  lemma ClosedKept(e: Row, s: Span, log: seq<Record>, r: Record, base: nat)
    requires ClosedFrame(e, s, log, base)
    ensures ClosedFrame(e, s, log + [r], base)
  {
    hide At;
    AtKept(log, r, s.first, base);
    AtKept(log, r, s.last - 1, base);
    AtKept(log, r, s.last, base);
  }

  lemma OpenKept(e: Row, s: Span, log: seq<Record>, r: Record, base: nat)
    requires OpenFrame(e, s, log, base) && !r.BeginFrame? && !r.Present?
    ensures OpenFrame(e, Grown(s), log + [r], base)
  {
    hide At;
    AtKept(log, r, s.first, base);
  }

  lemma OpenCloses(e: Row, s: Span, log: seq<Record>, base: nat)
    requires OpenFrame(e, s, log, base)
    ensures var r := Present(e.id); var more := log + [r];
            ClosedFrame(Row(e.id, 0, e.x, At(log, |log|, base), At(more, |more|, base)), Grown(s), more, base)
  {
    hide At;
    AtKept(log, Present(e.id), s.first, base);
    AtKept(log, Present(e.id), |log|, base);
  }

  lemma GrownOrdered(spans: seq<Span>)
    requires Ordered(spans) && spans != []
    ensures var n := |spans|; Ordered(spans[..n - 1] + [Grown(spans[n - 1])])
  {
  }

  lemma GrownCovers(log: seq<Record>, spans: seq<Span>, r: Record)
    requires OnlyBlobsOutside(log, spans) && spans != []
    requires spans[|spans| - 1].first <= |log| == spans[|spans| - 1].last
    ensures var n := |spans|; OnlyBlobsOutside(log + [r], spans[..n - 1] + [Grown(spans[n - 1])])
  {
    var n := |spans|;
    var grown := spans[..n - 1] + [Grown(spans[n - 1])];
    assert InSpan(|log|, grown[n - 1]);
    forall k | 0 <= k < |log| && InSomeSpan(k, spans) ensures InSomeSpan(k, grown) {
      var i :| 0 <= i < n && InSpan(k, spans[i]);
      assert InSpan(k, grown[i]);
    }
  }

  /** A record inside an open frame, or a blob anywhere, keeps the book. */
  lemma AppendKeeps(b: Book, r: Record, base: nat)
    requires Kept(b, base) && !r.BeginFrame? && !r.Present? && (b.open || r.Blob?)
    ensures Kept(Appended(b, r), base)
  {
    hide ClosedFrame, Ordered, OnlyBlobsOutside, At, Inner;
    var n := |b.toc|;
    forall i | 0 <= i < n && ClosedFrame(b.toc[i], b.spans[i], b.log, base)
      ensures ClosedFrame(b.toc[i], b.spans[i], b.log + [r], base)
    {
      ClosedKept(b.toc[i], b.spans[i], b.log, r, base);
    }
    if b.open {
      OpenKept(b.toc[n - 1], b.spans[n - 1], b.log, r, base);
      assert b.spans[n - 1].first < b.spans[n - 1].last == |b.log|;
      GrownOrdered(b.spans);
      GrownCovers(b.log, b.spans, r);
    } else {
      BlobOutside(b.log, b.spans, r);
    }
  }

  lemma BlobOutside(log: seq<Record>, spans: seq<Span>, r: Record)
    requires OnlyBlobsOutside(log, spans) && r.Blob?
    ensures OnlyBlobsOutside(log + [r], spans)
  {
  }

  lemma SpanCovers(log: seq<Record>, spans: seq<Span>, r: Record, s: Span)
    requires OnlyBlobsOutside(log, spans) && InSpan(|log|, s)
    ensures OnlyBlobsOutside(log + [r], spans + [s])
  {
    var added := spans + [s];
    assert InSpan(|log|, added[|spans|]);
    forall k | 0 <= k < |log| && InSomeSpan(k, spans) ensures InSomeSpan(k, added) {
      var i :| 0 <= i < |spans| && InSpan(k, spans[i]);
      assert InSpan(k, added[i]);
    }
  }

  lemma SpanOrdered(b: Book, s: Span, base: nat)
    requires Kept(b, base) && !b.open && s.first == |b.log|
    ensures Ordered(b.spans + [s])
  {
    hide At, Inner, OnlyBlobsOutside;
    forall i | 0 <= i < |b.spans| ensures b.spans[i].last <= s.first {
      assert ClosedFrame(b.toc[i], b.spans[i], b.log, base);
    }
  }

  lemma BeginKeeps(b: Book, frame: nat, base: nat)
    requires Kept(b, base) && !b.open
    ensures Kept(Begun(b, frame, base), base)
  {
    hide ClosedFrame, Ordered, OnlyBlobsOutside, At;
    var r, s := BeginFrame(frame), Span(|b.log|, |b.log| + 1);
    SpanOrdered(b, s, base);
    SpanCovers(b.log, b.spans, r, s);
    forall i | 0 <= i < |b.toc| ensures ClosedFrame(b.toc[i], b.spans[i], b.log + [r], base) {
      ClosedKept(b.toc[i], b.spans[i], b.log, r, base);
    }
    AtKept(b.log, r, |b.log|, base);
  }

  lemma PresentKeeps(b: Book, base: nat)
    requires Kept(b, base) && b.open
    ensures Kept(Presented(b, base), base)
  {
    hide ClosedFrame, Ordered, OnlyBlobsOutside, At;
    var n := |b.toc| - 1;
    var r := Present(b.toc[n].id);
    forall i | 0 <= i < n ensures ClosedFrame(b.toc[i], b.spans[i], b.log + [r], base) {
      ClosedKept(b.toc[i], b.spans[i], b.log, r, base);
    }
    OpenCloses(b.toc[n], b.spans[n], b.log, base);
    GrownOrdered(b.spans);
    GrownCovers(b.log, b.spans, r);
  }

  // What a finished file reads back as

  predicate AllFit(log: seq<Record>, version: nat) {
    forall i | 0 <= i < |log| :: Fits(log[i], version)
  }

  lemma AtAfter(log: seq<Record>, i: nat, j: nat, base: nat)
    requires i <= j <= |log|
    ensures At(log, j, base) == At(log, i, base) + |EncodeAll(log[i..j])|
  {
    hide EncodeAll;
    EncodeAllConcat(log[..i], log[i..j]);
    assert log[..j] == log[..i] + log[i..j];
  }

  /** Any stretch of the log reads back from the positions the writer noted for it. */
  lemma StretchReadsBack(version: nat, abi: nat, meta: seq<byte>, log: seq<Record>, toc: seq<Row>, i: nat, j: nat)
    requires AllFit(log, version) && i <= j <= |log|
    ensures var file := Container(version, abi, meta, EncodeAll(log), toc); var base := 32 + |meta|;
            ReadRange(file, version, At(log, i, base), At(log, j, base)) == Ok(log[i..j])
  {
    hide EncodeAll, Fits, Container, ReadRange;
    AtAfter(log, i, j, 32 + |meta|);
    assert log == log[..i] + log[i..j] + log[j..];
    RangeReadsBack(version, abi, meta, log[..i], log[i..j], log[j..], toc);
  }

  /** The frames of a finished book lie in the record stream, so the reader accepts the table of contents. */
  lemma FramesInStream(b: Book, base: nat)
    requires Kept(b, base) && !b.open
    ensures AllInStream(b.toc, base, base + |EncodeAll(b.log)|)
  {
    hide At, EncodeAll, Inner, OnlyBlobsOutside;
    AtEnd(b.log, base);
    forall i | 0 <= i < |b.toc| ensures InStream(b.toc[i], base, base + |EncodeAll(b.log)|) {
      var s := b.spans[i];
      assert ClosedFrame(b.toc[i], s, b.log, base);
      AtAfter(b.log, s.first, s.last - 1, base);
      AtAfter(b.log, s.last - 1, s.last, base);
      AtAfter(b.log, s.last, |b.log|, base);
    }
  }

  predicate IdsFit(toc: seq<Row>) {
    forall i | 0 <= i < |toc| :: toc[i].id < U32
  }

  lemma FramesFit(b: Book, base: nat)
    requires Kept(b, base) && !b.open && IdsFit(b.toc) && base + |EncodeAll(b.log)| < U64
    ensures RowsFit(b.toc)
  {
    hide At, EncodeAll, Inner, Ordered, OnlyBlobsOutside;
    FramesInStream(b, base);
    forall i | 0 <= i < |b.toc| ensures RowFits(b.toc[i]) {
      assert ClosedFrame(b.toc[i], b.spans[i], b.log, base);
      assert InStream(b.toc[i], base, base + |EncodeAll(b.log)|);
    }
  }

  /** The records of frame `i`: from its BeginFrame to its Present. */
  ghost function FrameRecords(b: Book, i: nat): seq<Record>
    requires i < |b.spans| && b.spans[i].first <= b.spans[i].last <= |b.log|
  {
    b.log[b.spans[i].first..b.spans[i].last]
  }

  ghost predicate FrameReadsBack(b: Book, version: nat, file: seq<byte>, i: nat, base: nat)
    requires |b.toc| == |b.spans| && i < |b.toc|
  {
    var e := b.toc[i];
    && ClosedFrame(e, b.spans[i], b.log, base)
    && ReadRange(file, version, e.x, e.z) == Ok(FrameRecords(b, i))
    && ReadRange(file, version, e.y, e.z) == Ok([Present(e.id)])
  }

  ghost predicate FileReadsBack(b: Book, version: nat, abi: nat, meta: seq<byte>, file: seq<byte>)
    requires |b.toc| == |b.spans|
  {
    var base := 32 + |meta|; var end := base + |EncodeAll(b.log)|;
    && OpenTrace(file) == Ok(Trace(version, abi, 0, meta, end, b.toc))
    && ReadRange(file, version, base, end) == Ok(b.log)
    && forall i | 0 <= i < |b.toc| :: FrameReadsBack(b, version, file, i, base)
  }

  lemma OneFrameReadsBack(b: Book, version: nat, abi: nat, meta: seq<byte>, i: nat)
    requires Kept(b, 32 + |meta|) && !b.open && AllFit(b.log, version) && i < |b.toc|
    ensures FrameReadsBack(b, version, Container(version, abi, meta, EncodeAll(b.log), b.toc), i, 32 + |meta|)
  {
    hide At, EncodeAll, Container, ReadRange, Fits, OnlyBlobsOutside, Ordered;
    var s, base := b.spans[i], 32 + |meta|;
    assert ClosedFrame(b.toc[i], s, b.log, base);
    StretchReadsBack(version, abi, meta, b.log, b.toc, s.first, s.last);
    StretchReadsBack(version, abi, meta, b.log, b.toc, s.last - 1, s.last);
    assert b.log[s.last - 1..s.last] == [b.log[s.last - 1]];
  }

  /** A finished file opens with the writer's own table of contents; the whole stream reads back as every record
      written; every frame of the table reads back as its own records, and from its present position as its
      present record alone. */
  lemma FinishedReadsBack(b: Book, version: nat, abi: nat, meta: seq<byte>)
    requires Supported(version) && abi < U32 && |meta| < U32 && |b.toc| < U32 && IdsFit(b.toc)
    requires |b.toc| == |b.spans|
    requires Kept(b, 32 + |meta|) && !b.open && AllFit(b.log, version)
    requires 32 + |meta| + |EncodeAll(b.log)| < U64
    ensures FileReadsBack(b, version, abi, meta, Container(version, abi, meta, EncodeAll(b.log), b.toc))
  {
    hide Kept, EncodeAll, Container, ReadRange, OpenTrace, FrameReadsBack, AllFit, RowsFit, AllInStream, IdsFit;
    FramesInStream(b, 32 + |meta|);
    FramesFit(b, 32 + |meta|);
    ContainerOpens(version, abi, meta, EncodeAll(b.log), b.toc);
    FramesReadBack(b, version, abi, meta);
    StreamReadsBack(b.log, b.toc, version, abi, meta);
  }

  lemma FramesReadBack(b: Book, version: nat, abi: nat, meta: seq<byte>)
    requires |b.toc| == |b.spans|
    requires Kept(b, 32 + |meta|) && !b.open && AllFit(b.log, version)
    ensures var file, base := Container(version, abi, meta, EncodeAll(b.log), b.toc), 32 + |meta|;
            forall i | 0 <= i < |b.toc| :: FrameReadsBack(b, version, file, i, base)
  {
    hide Kept, EncodeAll, Container, FrameReadsBack, AllFit;
    var file, base := Container(version, abi, meta, EncodeAll(b.log), b.toc), 32 + |meta|;
    forall i | 0 <= i < |b.toc| ensures FrameReadsBack(b, version, file, i, base) {
      OneFrameReadsBack(b, version, abi, meta, i);
    }
  }

  lemma StreamReadsBack(log: seq<Record>, toc: seq<Row>, version: nat, abi: nat, meta: seq<byte>)
    requires AllFit(log, version)
    ensures ReadRange(Container(version, abi, meta, EncodeAll(log), toc), version, 32 + |meta|,
                      32 + |meta| + |EncodeAll(log)|)
            == Ok(log)
  {
    hide EncodeAll, Fits, Container, ReadRange;
    StretchReadsBack(version, abi, meta, log, toc, 0, |log|);
    EncodeNone();
    assert log[..0] == [] && log[..|log|] == log && log[0..|log|] == log;
  }
}
