/** How the split of a byte stream into chunks shows, or does not show, in a connection. */
module WsChunking {
  import opened Bytes
  import opened Wrappers
  import opened WsFrame
  import opened WsConnection
  import Seqs

  /** The drain stops on a frame it has already consumed: text that does not decode, or an opcode
      it does not support. Every other stop leaves the offending bytes in the buffer. */
  predicate Poisoned(cfg: Config, c: Conn)
    decreases |c.buffer|
  {
    StepShrinks(cfg, c);
    match Step(cfg, c)
    case Halt(d) => ParseFront(cfg, c).Frame?
    case Again(d) => Poisoned(cfg, d)
  }

  /** Draining would change nothing. */
  predicate Settled(cfg: Config, c: Conn) {
    Step(cfg, c) == Halt(c) && !ParseFront(cfg, c).Frame?
  }

  function AppendPass(p: Pass, more: seq<byte>): Pass {
    match p
    case Halt(d) => Halt(Append(d, more))
    case Again(d) => Again(Append(d, more))
  }

  lemma ReceiveAppend(cfg: Config, c: Conn, opcode: nat, payload: seq<byte>, more: seq<byte>)
    ensures Receive(cfg, Append(c, more), opcode, payload) == AppendPass(Receive(cfg, c, opcode, payload), more)
  {
  }

  /** A pass that reached a judgement reaches the same one with more bytes behind it. */
  lemma StepAppend(cfg: Config, c: Conn, more: seq<byte>)
    requires !ParseFront(cfg, c).NeedMore?
    ensures ParseFront(cfg, Append(c, more)) == ParseFront(cfg, c)
    ensures Step(cfg, Append(c, more)) == AppendPass(Step(cfg, c), more)
  {
    hide Parse, Receive;
    ParseStable(c.buffer, more, cfg.isClient, cfg.maxPayload);
    match ParseFront(cfg, c)
    case Frame(opcode, payload, n) =>
      assert (c.buffer + more)[n..] == c.buffer[n..] + more;
      assert (c.buffer + more)[..n] == c.buffer[..n];
      assert Take(Append(c, more), n) == Append(Take(c, n), more);
      ReceiveAppend(cfg, Take(c, n), opcode, payload, more);
    case _ =>
  }

  lemma AppendTwice(c: Conn, a: seq<byte>, b: seq<byte>)
    ensures Append(Append(c, a), b) == Append(c, a + b)
    ensures Append(c, []) == c
  {
    assert (c.buffer + a) + b == c.buffer + (a + b);
    assert c.buffer + [] == c.buffer;
  }

  lemma FailSets(cfg: Config, c: Conn, code: nat, reason: string)
    ensures Fail(cfg, c, code, reason).sentClose
    ensures Fail(cfg, c, code, reason).buffer == c.buffer
    ensures c.sentClose ==> Fail(cfg, c, code, reason) == c
  {
  }

  /** Draining first and draining again with more bytes is draining once, unless poisoned. */
  lemma {:induction false} DrainAppend(cfg: Config, c: Conn, more: seq<byte>)
    ensures !Poisoned(cfg, c) ==> Settled(cfg, Drain(cfg, c))
    ensures !Poisoned(cfg, c) ==> Drain(cfg, Append(Drain(cfg, c), more)) == Drain(cfg, Append(c, more))
    ensures !Poisoned(cfg, c) ==>
              Poisoned(cfg, Append(Drain(cfg, c), more)) == Poisoned(cfg, Append(c, more))
    ensures Poisoned(cfg, c) ==> Poisoned(cfg, Append(c, more))
    ensures Poisoned(cfg, c) ==> Drain(cfg, Append(c, more)) == Append(Drain(cfg, c), more)
    decreases |c.buffer|
  {
    StepShrinks(cfg, c);
    match ParseFront(cfg, c)
    case NeedMore =>
    case Reject(code, reason) =>
      var d := Drain(cfg, c);
      FailSets(cfg, c, code, reason);
      FailSets(cfg, Append(d, more), code, reason);
      StepAppend(cfg, c, more);
      StepAppend(cfg, d, more);
    case Frame(opcode, payload, n) =>
      StepAppend(cfg, c, more);
      if Step(cfg, c).Again? {
        DrainAppend(cfg, Step(cfg, c).conn, more);
      }
  }

  // Conservation

  ghost function Received(c: Conn): seq<byte> {
    Concat(c.taken) + c.buffer
  }

  lemma StepConserves(cfg: Config, c: Conn)
    ensures Received(Step(cfg, c).conn) == Received(c)
    ensures |Step(cfg, c).conn.taken| == |c.taken| + (if ParseFront(cfg, c).Frame? then 1 else 0)
  {
    match ParseFront(cfg, c)
    case Frame(opcode, payload, n) =>
      ConcatAppend(c.taken, c.buffer[..n]);
      Seqs.Assoc(Concat(c.taken), c.buffer[..n], c.buffer[n..]);
      assert c.buffer[..n] + c.buffer[n..] == c.buffer;
      ReceiveKeeps(cfg, Take(c, n), opcode, payload);
    case _ =>
  }

  lemma ReceiveKeeps(cfg: Config, c: Conn, opcode: nat, payload: seq<byte>)
    ensures Receive(cfg, c, opcode, payload).conn.buffer == c.buffer
    ensures Receive(cfg, c, opcode, payload).conn.taken == c.taken
  {
  }

  /** Draining moves bytes from the buffer to the consumed frames and loses none. */
  lemma {:induction false} DrainConserves(cfg: Config, c: Conn)
    ensures Received(Drain(cfg, c)) == Received(c)
    ensures |Drain(cfg, c).taken| >= |c.taken| + (if ParseFront(cfg, c).Frame? then 1 else 0)
    decreases |c.buffer|
  {
    hide Step;
    StepShrinks(cfg, c);
    StepConserves(cfg, c);
    if Step(cfg, c).Again? {
      DrainConserves(cfg, Step(cfg, c).conn);
    }
  }

  /** At every point of a stream the consumed frames followed by the buffer are the bytes received. */
  lemma {:induction false} FeedConserves(cfg: Config, c: Conn, chunks: seq<seq<byte>>)
    ensures Received(Feed(cfg, c, chunks)) == Received(c) + Concat(chunks)
    ensures |Feed(cfg, c, chunks).taken| >= |c.taken|
    decreases |chunks|
  {
    if chunks == [] {
    } else {
      var d := OnData(cfg, c, chunks[0]);
      DrainConserves(cfg, Append(c, chunks[0]));
      Seqs.Assoc(Concat(c.taken), c.buffer, chunks[0]);
      FeedConserves(cfg, d, chunks[1..]);
      assert Received(d) == Received(c) + chunks[0];
      Seqs.Assoc(Received(c), chunks[0], Concat(chunks[1..]));
    }
  }

  // The exact condition

  function LastNonEmpty(chunks: seq<seq<byte>>): seq<byte> {
    if chunks == [] then []
    else if LastNonEmpty(chunks[1..]) != [] then LastNonEmpty(chunks[1..])
    else chunks[0]
  }

  lemma {:induction false} LastWithin(chunks: seq<seq<byte>>)
    ensures |LastNonEmpty(chunks)| <= |Concat(chunks)|
    ensures LastNonEmpty(chunks) == [] ==> Concat(chunks) == []
    decreases |chunks|
  {
    if chunks == [] {
    } else {
      LastWithin(chunks[1..]);
    }
  }

  /** Draining all the bytes at once stops on a consumed frame that had arrived before the last
      chunk did, with another whole frame behind it. */
  predicate Resumes(cfg: Config, c: Conn, chunks: seq<seq<byte>>) {
    var whole := Append(c, Concat(chunks));
    var rest := Drain(cfg, whole);
    Poisoned(cfg, whole) && |LastNonEmpty(chunks)| <= |rest.buffer| && ParseFront(cfg, rest).Frame?
  }

  lemma {:induction false} PoisonedStops(cfg: Config, c: Conn)
    requires Poisoned(cfg, c)
    ensures Drain(cfg, c).sentClose
    ensures ParseFront(cfg, c).Frame?
    ensures |Drain(cfg, c).buffer| <= |c.buffer| - ParseFront(cfg, c).size
    decreases |c.buffer|
  {
    StepShrinks(cfg, c);
    var Frame(opcode, payload, n) := ParseFront(cfg, c);
    ReceiveKeeps(cfg, Take(c, n), opcode, payload);
    if Step(cfg, c).Again? {
      PoisonedStops(cfg, Step(cfg, c).conn);
    }
  }

  /** A connection that has sent its Close and sees no whole frame only buffers. */
  lemma ClosedBuffers(cfg: Config, c: Conn)
    requires c.sentClose && !ParseFront(cfg, c).Frame?
    ensures Drain(cfg, c) == c
  {
  }

  /** After a poisoned stop, the remaining chunks are only buffered exactly when they do not bring
      a whole frame to the front. */
  lemma {:induction false} AfterPoison(cfg: Config, d: Conn, chunks: seq<seq<byte>>)
    requires d.sentClose && LastNonEmpty(chunks) != []
    ensures Feed(cfg, d, chunks) == Append(d, Concat(chunks)) <==>
            !ParseFront(cfg, Append(d, Concat(chunks))).Frame?
    decreases |chunks|
  {
    hide Drain, ParseFront;
    var x, xs := chunks[0], chunks[1..];
    var e := Append(d, x);
    AppendTwice(d, x, Concat(xs));
    if x == [] {
      AppendTwice(d, [], []);
      AfterPoison(cfg, d, xs);
    } else if ParseFront(cfg, e).Frame? {
      FrameStays(cfg, e, Concat(xs));
      DrainConserves(cfg, e);
      FeedConserves(cfg, Drain(cfg, e), xs);
      assert |Feed(cfg, d, chunks).taken| > |d.taken|;
    } else {
      ClosedBuffers(cfg, e);
      if LastNonEmpty(xs) != [] {
        AfterPoison(cfg, e, xs);
      } else {
        FeedNothing(cfg, e, xs);
        LastWithin(xs);
        AppendTwice(e, [], []);
      }
    }
  }

  lemma FrameStays(cfg: Config, c: Conn, more: seq<byte>)
    requires ParseFront(cfg, c).Frame?
    ensures ParseFront(cfg, Append(c, more)) == ParseFront(cfg, c)
  {
    ParseStable(c.buffer, more, cfg.isClient, cfg.maxPayload);
  }

  lemma {:induction false} FeedNothing(cfg: Config, c: Conn, chunks: seq<seq<byte>>)
    requires LastNonEmpty(chunks) == []
    ensures Feed(cfg, c, chunks) == c
    decreases |chunks|
  {
    if chunks == [] {
    } else {
      FeedNothing(cfg, c, chunks[1..]);
    }
  }

  /** A whole frame at the front that was not there before the last bytes uses some of them. */
  lemma FrameReachesIntoChunk(cfg: Config, c: Conn, x: seq<byte>)
    requires !ParseFront(cfg, c).Frame? && ParseFront(cfg, Append(c, x)).Frame?
    ensures ParseFront(cfg, Append(c, x)).size > |c.buffer|
  {
    if ParseFront(cfg, Append(c, x)).size <= |c.buffer| {
      ParseLocal(c.buffer, x, cfg.isClient, cfg.maxPayload);
    }
  }

  /** Chunking is invisible, in every field and in the log, exactly when the stream does not resume
      behind a poisoned frame. */
  lemma {:induction false} ChunkingExact(cfg: Config, c: Conn, chunks: seq<seq<byte>>)
    requires Settled(cfg, c)
    ensures Feed(cfg, c, chunks) == OnData(cfg, c, Concat(chunks)) <==> !Resumes(cfg, c, chunks)
    decreases |chunks|
  {
    hide Drain, Step, ParseFront, Poisoned;
    LastWithin(chunks);
    if LastNonEmpty(chunks) == [] {
      FeedNothing(cfg, c, chunks);
      AppendTwice(c, [], []);
      SettledIsClean(cfg, c);
    } else {
      var x, xs := chunks[0], chunks[1..];
      var e := Append(c, x);
      AppendTwice(c, x, Concat(xs));
      DrainAppend(cfg, e, Concat(xs));
      if x == [] {
        AppendTwice(c, [], []);
        assert Concat(chunks) == Concat(xs);
        ChunkingExact(cfg, c, xs);
      } else if !Poisoned(cfg, e) {
        CleanChunk(cfg, c, chunks);
      } else {
        PoisonedChunk(cfg, c, chunks);
      }
    }
  }

  lemma SettledIsClean(cfg: Config, c: Conn)
    requires Settled(cfg, c)
    ensures !Poisoned(cfg, c) && Drain(cfg, c) == c && !ParseFront(cfg, c).Frame?
  {
  }

  lemma CleanChunk(cfg: Config, c: Conn, chunks: seq<seq<byte>>)
    requires Settled(cfg, c) && chunks != [] && chunks[0] != [] && !Poisoned(cfg, Append(c, chunks[0]))
    ensures Feed(cfg, c, chunks) == OnData(cfg, c, Concat(chunks)) <==> !Resumes(cfg, c, chunks)
    decreases |chunks|, 0
  {
    hide Drain, Step, ParseFront, Poisoned;
    var x, xs := chunks[0], chunks[1..];
    var e := Append(c, x);
    var d := Drain(cfg, e);
    AppendTwice(c, x, Concat(xs));
    DrainAppend(cfg, e, Concat(xs));
    LastWithin(xs);
    if LastNonEmpty(xs) == [] {
      FeedNothing(cfg, d, xs);
      AppendTwice(e, [], []);
    } else {
      ChunkingExact(cfg, d, xs);
    }
  }

  lemma PoisonedChunk(cfg: Config, c: Conn, chunks: seq<seq<byte>>)
    requires Settled(cfg, c) && chunks != [] && chunks[0] != [] && Poisoned(cfg, Append(c, chunks[0]))
    ensures Feed(cfg, c, chunks) == OnData(cfg, c, Concat(chunks)) <==> !Resumes(cfg, c, chunks)
  {
    hide Drain, Step, ParseFront, Poisoned;
    var x, xs := chunks[0], chunks[1..];
    var e := Append(c, x);
    var d := Drain(cfg, e);
    AppendTwice(c, x, Concat(xs));
    DrainAppend(cfg, e, Concat(xs));
    LastWithin(xs);
    PoisonedStops(cfg, e);
    if LastNonEmpty(xs) == [] {
      FeedNothing(cfg, d, xs);
      AppendTwice(e, [], []);
      SettledIsClean(cfg, c);
      FrameReachesIntoChunk(cfg, c, x);
    } else {
      AfterPoison(cfg, d, xs);
    }
  }

  /** Two frames, the first with the reserved opcode 3: in one chunk the second is never looked at,
      in two chunks it is delivered. */
  lemma SplitShowsAfterPoison(cfg: Config)
    requires cfg.isClient && cfg.maxPayload <= 0
    ensures var bad, good := [0x83, 0], [0x82, 0];
            Feed(cfg, Open(), [bad, good]) != OnData(cfg, Open(), bad + good)
  {
    hide Drain, Poisoned;
    var bad: seq<byte>, good: seq<byte> := [0x83, 0], [0x82, 0];
    assert Encode(3, [], None) == bad && Encode(2, [], None) == good;
    FrameRoundTrip(3, [], None, good, cfg.maxPayload);
    FrameRoundTrip(2, [], None, [], cfg.maxPayload);
    var whole := Append(Open(), bad + good);
    var chunks: seq<seq<byte>> := [bad, good];
    var tail: seq<seq<byte>> := [good];
    assert chunks[1..] == tail && |tail[1..]| == 0;
    assert Concat(tail) == good && Concat(chunks) == bad + good;
    assert LastNonEmpty(tail) == good;
    assert LastNonEmpty(chunks) == LastNonEmpty(tail);
    assert whole.buffer == bad + good && (bad + good)[2..] == good && good + [] == good;
    PoisonedPass(cfg, whole);
    ChunkingExact(cfg, Open(), chunks);
  }

  lemma PoisonedPass(cfg: Config, c: Conn)
    requires ParseFront(cfg, c).Frame? && ParseFront(cfg, c).opcode == 3
    ensures Poisoned(cfg, c) && Drain(cfg, c).buffer == c.buffer[ParseFront(cfg, c).size..]
  {
  }
}
