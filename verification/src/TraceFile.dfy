/** The trace container: header, metadata, record stream, table of contents, footer; and the reader that opens it. */
module TraceFile {
  import opened Bytes
  import opened TraceFormat
  import opened Words
  import opened Wrappers
  import Seqs

  const TRACE_MAGIC: seq<byte> := [65, 69, 82, 79, 71, 80, 85, 84]
  const TOC_MAGIC: seq<byte> := [65, 69, 82, 79, 84, 79, 67, 0]
  const FOOTER_MAGIC: seq<byte> := [65, 69, 82, 79, 71, 80, 85, 70]

  datatype Trace = Trace(version: nat, abi: nat, flags: nat, meta: seq<byte>, tocOffset: nat, toc: seq<Row>)

  // Writing

  function HeaderBytes(version: nat, abi: nat, metaLen: nat): (s: seq<byte>)
    ensures |s| == 32
  {
    TRACE_MAGIC + SixBytes(32, version, abi, 0, metaLen, 0)
  }

  function TocBytes(toc: seq<Row>): (s: seq<byte>)
    ensures |s| == 16 + 32 * |toc|
  {
    TOC_MAGIC + U32Bytes(1) + U32Bytes(|toc|) + RowsBytes(toc)
  }

  function FooterBytes(version: nat, tocOffset: nat, tocLen: nat): (s: seq<byte>)
    ensures |s| == 32
  {
    FOOTER_MAGIC + U32Bytes(32) + U32Bytes(version) + U64Bytes(tocOffset) + U64Bytes(tocLen)
  }

  /** A whole file around the record stream `body`. */
  function Container(version: nat, abi: nat, meta: seq<byte>, body: seq<byte>, toc: seq<Row>): (s: seq<byte>)
    ensures |s| == 32 + |meta| + |body| + 16 + 32 * |toc| + 32
  {
    HeaderBytes(version, abi, |meta|) + meta + body + TocBytes(toc)
    + FooterBytes(version, 32 + |meta| + |body|, 16 + 32 * |toc|)
  }

  // Reading

  predicate Supported(version: nat) {
    1 <= version <= 2
  }

  /** The 32 bytes at the front: container version, command ABI version, flags and length of the metadata. */
  function ReadHeader(file: seq<byte>): (r: Result<(nat, nat, nat, nat), ReadError>)
    ensures r.Ok? ==> |file| >= 32
  {
    if |file| < 8 then Err(Eof)
    else if file[..8] != TRACE_MAGIC then Err(InvalidMagic)
    else if |file| < 12 then Err(Eof)
    else if U32At(file, 8) != 32 then Err(UnsupportedHeaderSize)
    else if |file| < 16 then Err(Eof)
    else if !Supported(U32At(file, 12)) then Err(UnsupportedContainerVersion)
    else if |file| < 32 then Err(Eof)
    else Ok((U32At(file, 12), U32At(file, 16), U32At(file, 20), U32At(file, 24)))
  }

  /** The last 32 bytes: container version, offset and length of the table of contents. */
  function ReadFooter(s: seq<byte>): Result<(nat, nat, nat), ReadError>
    requires |s| == 32
  {
    if s[..8] != FOOTER_MAGIC then Err(InvalidMagic)
    else if U32At(s, 8) != 32 then Err(UnsupportedFooterSize)
    else if !Supported(U32At(s, 12)) then Err(UnsupportedContainerVersion)
    else Ok((U32At(s, 12), U64At(s, 16), U64At(s, 24)))
  }

  function ReadToc(s: seq<byte>): (r: Result<seq<Row>, ReadError>)
    ensures r.Ok? ==> |s| == 16 + 32 * |r.value|
  {
    if |s| < 16 then Err(TocOutOfBounds)
    else if s[..8] != TOC_MAGIC then Err(InvalidMagic)
    else if U32At(s, 8) != 1 then Err(UnsupportedTocVersion)
    else if |s| != 16 + 32 * U32At(s, 12) then Err(TocOutOfBounds)
    else Ok(RowsAt(s, 16, U32At(s, 12)))
  }

  /** A frame lies in the record stream, and its present record, when it has one, in the frame. */
  predicate InStream(e: Row, start: nat, end: nat) {
    && start <= e.x <= e.z <= end
    && (e.y != 0 ==> e.x <= e.y <= e.z)
  }

  predicate AllInStream(toc: seq<Row>, start: nat, end: nat) {
    forall i | 0 <= i < |toc| :: InStream(toc[i], start, end)
  }

  function OpenTrace(file: seq<byte>): Result<Trace, ReadError> {
    match ReadHeader(file)
    case Err(e) => Err(e)
    case Ok((version, abi, flags, metaLen)) =>
      if 32 + metaLen > |file| then Err(RecordOutOfBounds)
      else
        match ReadFooter(file[|file| - 32..])
        case Err(e) => Err(e)
        case Ok((footerVersion, tocOffset, tocLen)) =>
          if footerVersion != version then Err(UnsupportedContainerVersion)
          else if tocOffset + tocLen > |file| then Err(TocOutOfBounds)
          else
            match ReadToc(file[tocOffset..tocOffset + tocLen])
            case Err(e) => Err(e)
            case Ok(toc) =>
              if tocOffset < 32 + metaLen || !AllInStream(toc, 32 + metaLen, tocOffset) then Err(TocOutOfBounds)
              else Ok(Trace(version, abi, flags, file[32..32 + metaLen], tocOffset, toc))
  }

  function ReadRange(file: seq<byte>, version: nat, start: nat, end: nat): Result<seq<Record>, ReadError> {
    if start > end || end > |file| then Err(RecordOutOfBounds) else ReadAll(file, start, end, version)
  }

  /** Whatever the bytes of a file: once it opens, its table of contents lies inside it, behind the record stream,
      and every frame it lists lies inside the record stream. */
  lemma OpenIsSafe(file: seq<byte>)
    requires OpenTrace(file).Ok?
    ensures var t := OpenTrace(file).value;
            && Supported(t.version)
            && 32 + |t.meta| <= t.tocOffset
            && t.tocOffset + 16 + 32 * |t.toc| <= |file|
            && AllInStream(t.toc, 32 + |t.meta|, t.tocOffset)
            && t.meta == file[32..32 + |t.meta|]
  {
    hide RowsAt, U32At, U64At;
  }

  // The parts of a container read back

  lemma HeaderReadsBack(version: nat, abi: nat, metaLen: nat, rest: seq<byte>)
    requires Supported(version) && abi < U32 && metaLen < U32
    ensures ReadHeader(HeaderBytes(version, abi, metaLen) + rest) == Ok((version, abi, 0, metaLen))
  {
    hide SixBytes, U32At;
    var six := SixBytes(32, version, abi, 0, metaLen, 0);
    SixReadBack(32, version, abi, 0, metaLen, 0);
    Shift32(TRACE_MAGIC, six, rest, 0);
    Shift32(TRACE_MAGIC, six, rest, 4);
    Shift32(TRACE_MAGIC, six, rest, 8);
    Shift32(TRACE_MAGIC, six, rest, 12);
    Shift32(TRACE_MAGIC, six, rest, 16);
    assert (TRACE_MAGIC + six + rest)[..8] == TRACE_MAGIC;
  }

  lemma FooterReadsBack(version: nat, tocOffset: nat, tocLen: nat)
    requires Supported(version) && tocOffset < U64 && tocLen < U64
    ensures ReadFooter(FooterBytes(version, tocOffset, tocLen)) == Ok((version, tocOffset, tocLen))
  {
    hide U32Bytes, U64Bytes, FromLittleEndian;
    ReadBack32(32);
    ReadBack32(version);
    ReadBack64(tocOffset);
    ReadBack64(tocLen);
    Seqs.Five(FOOTER_MAGIC, U32Bytes(32), U32Bytes(version), U64Bytes(tocOffset), U64Bytes(tocLen));
    var s := FooterBytes(version, tocOffset, tocLen);
    assert s[24..32] == s[24..];
  }

  predicate RowsFit(toc: seq<Row>) {
    forall i | 0 <= i < |toc| :: RowFits(toc[i])
  }

  lemma TocReadsBack(toc: seq<Row>)
    requires RowsFit(toc) && |toc| < U32
    ensures ReadToc(TocBytes(toc)) == Ok(toc)
  {
    hide U32Bytes, RowsBytes, RowsAt, RowFits, FromLittleEndian;
    ReadBack32(1);
    ReadBack32(|toc|);
    var head, s := TOC_MAGIC + U32Bytes(1) + U32Bytes(|toc|), TocBytes(toc);
    Seqs.Five(TOC_MAGIC, U32Bytes(1), U32Bytes(|toc|), RowsBytes(toc), []);
    RowsReadBack(head, toc, []);
    assert head + RowsBytes(toc) + [] == s;
  }

  lemma ContainerParts(a: seq<byte>, meta: seq<byte>, body: seq<byte>, toc: seq<byte>, foot: seq<byte>)
    requires |a| == 32 && |foot| == 32
    ensures var file := a + meta + body + toc + foot; var at := 32 + |meta| + |body|;
            && file == a + (meta + body + toc + foot)
            && file[|file| - 32..] == foot
            && file[at..at + |toc|] == toc
            && file[32..32 + |meta|] == meta
  {
    Seqs.Five(a, meta, body, toc, foot);
  }

  /** A container opens exactly when every frame of its table of contents lies in the record stream, and then as what
      was put into it. The record stream itself is not looked at. */
  lemma ContainerOpens(version: nat, abi: nat, meta: seq<byte>, body: seq<byte>, toc: seq<Row>)
    requires Supported(version) && abi < U32 && |meta| < U32 && |toc| < U32 && RowsFit(toc)
    requires 32 + |meta| + |body| < U64
    ensures var file := Container(version, abi, meta, body, toc); var at := 32 + |meta| + |body|;
            && (OpenTrace(file).Ok? <==> AllInStream(toc, 32 + |meta|, at))
            && (OpenTrace(file).Ok? ==> OpenTrace(file) == Ok(Trace(version, abi, 0, meta, at, toc)))
  {
    hide HeaderBytes, TocBytes, FooterBytes, ReadHeader, ReadFooter, ReadToc, AllInStream, RowsFit;
    var at, len := 32 + |meta| + |body|, 16 + 32 * |toc|;
    var head, rows, foot := HeaderBytes(version, abi, |meta|), TocBytes(toc), FooterBytes(version, at, len);
    ContainerParts(head, meta, body, rows, foot);
    HeaderReadsBack(version, abi, |meta|, meta + body + rows + foot);
    FooterReadsBack(version, at, len);
    TocReadsBack(toc);
  }

  /** A frame that spans whole records reads back as those records, wherever the frame lies in the stream. */
  lemma RangeReadsBack(version: nat, abi: nat, meta: seq<byte>, before: seq<Record>, rs: seq<Record>,
                       after: seq<Record>, toc: seq<Row>)
    requires forall i | 0 <= i < |rs| :: Fits(rs[i], version)
    ensures var start := 32 + |meta| + |EncodeAll(before)|;
            ReadRange(Container(version, abi, meta, EncodeAll(before + rs + after), toc), version, start,
                      start + |EncodeAll(rs)|)
            == Ok(rs)
  {
    hide HeaderBytes, TocBytes, FooterBytes, Fits, EncodeAll, ReadAll;
    var front := HeaderBytes(version, abi, |meta|) + meta;
    var x, y, z := EncodeAll(before), EncodeAll(rs), EncodeAll(after);
    var body := EncodeAll(before + rs + after);
    var back := TocBytes(toc) + FooterBytes(version, 32 + |meta| + |body|, 16 + 32 * |toc|);
    EncodeAllConcat(before, rs);
    EncodeAllConcat(before + rs, after);
    assert Container(version, abi, meta, body, toc) == (front + x) + y + (z + back);
    RecordsReadBack(front + x, rs, z + back, version);
  }

  // The reader's loops

  method ReadRows(file: seq<byte>, at: nat, n: nat) returns (rows: seq<Row>)
    requires at + 32 * n <= |file|
    ensures rows == RowsAt(file, at, n)
  {
    rows := [];
    for i := 0 to n
      invariant rows == RowsAt(file, at, i)
    {
      rows := rows + [RowAt(file, at + 32 * i)];
    }
  }

  lemma {:induction false} ReadAllStep(file: seq<byte>, start: nat, at: nat, end: nat, version: nat, done: seq<Record>)
    requires at < end
    requires ReadAll(file, start, end, version) == Prefixed(done, ReadAll(file, at, end, version))
    ensures var r := ReadRecord(file, at, end, version);
            && (r.Err? ==> ReadAll(file, start, end, version) == Err(r.error))
            && (r.Ok? ==> ReadAll(file, start, end, version)
                          == Prefixed(done + [r.value.0], ReadAll(file, r.value.1, end, version)))
  {
    hide ReadRecord;
    var r := ReadRecord(file, at, end, version);
    if r.Ok? && ReadAll(file, r.value.1, end, version).Ok? {
      Seqs.Assoc(done, [r.value.0], ReadAll(file, r.value.1, end, version).value);
    }
  }

  ghost function Prefixed(done: seq<Record>, r: Result<seq<Record>, ReadError>): Result<seq<Record>, ReadError> {
    match r
    case Err(e) => Err(e)
    case Ok(rest) => Ok(done + rest)
  }

  lemma PrefixedNone(r: Result<seq<Record>, ReadError>)
    ensures Prefixed([], r) == r
  {
    if r.Ok? {
      assert [] + r.value == r.value;
    }
  }

  /** The loop that reads records until the end of the range is reached yields what reading them one by one means. */
  method ReadRecordsInRange(file: seq<byte>, version: nat, start: nat, end: nat)
    returns (r: Result<seq<Record>, ReadError>)
    ensures r == ReadRange(file, version, start, end)
  {
    if start > end || start > |file| || end > |file| {
      return Err(RecordOutOfBounds);
    }
    var at, out := start, [];
    PrefixedNone(ReadAll(file, start, end, version));
    while at < end
      invariant at <= end
      invariant ReadAll(file, start, end, version) == Prefixed(out, ReadAll(file, at, end, version))
    {
      ReadAllStep(file, start, at, end, version, out);
      match ReadRecord(file, at, end, version) {
        case Err(e) => return Err(e);
        case Ok(p) => out, at := out + [p.0], p.1;
      }
    }
    assert out + [] == out;
    return Ok(out);
  }

  /** The loop that checks every frame of an untrusted table. */
  method CheckEntries(toc: seq<Row>, start: nat, end: nat) returns (ok: bool)
    ensures ok == AllInStream(toc, start, end)
  {
    for i := 0 to |toc|
      invariant AllInStream(toc[..i], start, end)
    {
      var e := toc[i];
      if e.x < start || e.x > end || e.z < e.x || e.z > end || (e.y != 0 && (e.y < e.x || e.y > e.z)) {
        return false;
      }
    }
    assert toc[..|toc|] == toc;
    return true;
  }

  /** Opening a file, with the table of contents read and checked row by row. */
  method Open(file: seq<byte>) returns (r: Result<Trace, ReadError>)
    ensures r == OpenTrace(file)
  {
    hide RowsAt, U32At, U64At, AllInStream, ReadHeader, ReadFooter;
    var header := ReadHeader(file);
    if header.Err? {
      return Err(header.error);
    }
    var (version, abi, flags, metaLen) := header.value;
    if 32 + metaLen > |file| {
      return Err(RecordOutOfBounds);
    }
    var footer := ReadFooter(file[|file| - 32..]);
    if footer.Err? {
      return Err(footer.error);
    }
    var (footerVersion, tocOffset, tocLen) := footer.value;
    if footerVersion != version {
      return Err(UnsupportedContainerVersion);
    }
    if tocOffset + tocLen > |file| {
      return Err(TocOutOfBounds);
    }
    var table := file[tocOffset..tocOffset + tocLen];
    if tocLen < 16 {
      return Err(TocOutOfBounds);
    }
    if table[..8] != TOC_MAGIC {
      return Err(InvalidMagic);
    }
    if U32At(table, 8) != 1 {
      return Err(UnsupportedTocVersion);
    }
    var count := U32At(table, 12);
    if tocLen != 16 + 32 * count {
      return Err(TocOutOfBounds);
    }
    var toc := ReadRows(table, 16, count);
    if tocOffset < 32 + metaLen {
      return Err(TocOutOfBounds);
    }
    var ok := CheckEntries(toc, 32 + metaLen, tocOffset);
    if !ok {
      return Err(TocOutOfBounds);
    }
    return Ok(Trace(version, abi, flags, file[32..32 + metaLen], tocOffset, toc));
  }
}
