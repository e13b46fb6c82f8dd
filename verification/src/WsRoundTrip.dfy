/** Delivery: what a stream of encoded frames does to the connection at the other end. */
module WsRoundTrip {
  import opened Bytes
  import opened Wrappers
  import opened WsFrame
  import opened WsConnection
  import opened WsChunking
  import Seqs
  import Utf8

  datatype Outgoing = Outgoing(opcode: nat, payload: seq<byte>, key: Option<Key>)

  /** A data, Ping or Pong frame that the receiver `cfg` is willing to read. */
  predicate Deliverable(cfg: Config, f: Outgoing) {
    && f.opcode in {TEXT, BINARY, PING, PONG}
    && f.key.None? == cfg.isClient
    && |f.payload| < 0x1_0000_0000
    && (cfg.maxPayload > 0 ==> |f.payload| <= cfg.maxPayload)
    && (f.opcode == TEXT ==> Utf8.DecodeFatal(f.payload).Some?)
  }

  function Wire(fs: seq<Outgoing>): seq<byte> {
    if fs == [] then [] else Encode(fs[0].opcode, fs[0].payload, fs[0].key) + Wire(fs[1..])
  }

  /** The receiver's answer to one frame: a message for data, an equal-payload Pong for a Ping. */
  function Reaction(cfg: Config, drawn: nat, f: Outgoing): seq<Event> {
    if f.opcode == TEXT then
      (match Utf8.DecodeFatal(f.payload) case Some(text) => [TextMessage(text)] case None => [])
    else if f.opcode == BINARY then [BinaryMessage(f.payload)]
    else if f.opcode == PING then
      [Wrote(Encode(PONG, f.payload, if cfg.isClient then Some(cfg.keys(drawn)) else None))]
    else []
  }

  function KeysDrawn(cfg: Config, f: Outgoing): nat {
    if cfg.isClient && f.opcode == PING then 1 else 0
  }

  function Reactions(cfg: Config, drawn: nat, fs: seq<Outgoing>): seq<Event>
    decreases |fs|
  {
    if fs == [] then []
    else Reaction(cfg, drawn, fs[0]) + Reactions(cfg, drawn + KeysDrawn(cfg, fs[0]), fs[1..])
  }

  function AllKeysDrawn(cfg: Config, fs: seq<Outgoing>): nat {
    if fs == [] then 0 else KeysDrawn(cfg, fs[0]) + AllKeysDrawn(cfg, fs[1..])
  }

  function Frames(fs: seq<Outgoing>): seq<seq<byte>> {
    if fs == [] then [] else [Encode(fs[0].opcode, fs[0].payload, fs[0].key)] + Frames(fs[1..])
  }

  /** The connection once every frame has been answered: the log, the keys drawn and the record of
      consumed frames grow, the buffer is empty, nothing else moves. */
  function Answered(cfg: Config, c: Conn, fs: seq<Outgoing>): Conn {
    c.(buffer := [],
       log := c.log + Reactions(cfg, c.drawn, fs),
       drawn := c.drawn + AllKeysDrawn(cfg, fs),
       taken := c.taken + Frames(fs))
  }

  /** The state after the first frame of the buffer. */
  function AnsweredOne(cfg: Config, c: Conn, f: Outgoing, rest: seq<byte>): Conn {
    c.(buffer := rest,
       log := c.log + Reaction(cfg, c.drawn, f),
       drawn := c.drawn + KeysDrawn(cfg, f),
       taken := c.taken + [Encode(f.opcode, f.payload, f.key)])
  }

  lemma FirstFrame(cfg: Config, c: Conn, f: Outgoing, rest: seq<byte>)
    requires c.connected && Deliverable(cfg, f)
    requires c.buffer == Encode(f.opcode, f.payload, f.key) + rest
    ensures Step(cfg, c) == Again(AnsweredOne(cfg, c, f, rest))
  {
    hide Parse, Encode, Utf8.DecodeFatal, ReceiveClose, Fail;
    var e := Encode(f.opcode, f.payload, f.key);
    FrameRoundTrip(f.opcode, f.payload, f.key, rest, cfg.maxPayload);
    assert (e + rest)[|e|..] == rest && (e + rest)[..|e|] == e;
    assert c.log + [] == c.log;
  }

  lemma AnsweredCons(cfg: Config, c: Conn, fs: seq<Outgoing>, buf: seq<byte>)
    requires fs != []
    ensures Answered(cfg, AnsweredOne(cfg, c, fs[0], buf), fs[1..]) == Answered(cfg, c, fs)
  {
    hide Encode, Reaction;
    var f := fs[0];
    Seqs.Assoc(c.taken, [Encode(f.opcode, f.payload, f.key)], Frames(fs[1..]));
    Seqs.Assoc(c.log, Reaction(cfg, c.drawn, f), Reactions(cfg, c.drawn + KeysDrawn(cfg, f), fs[1..]));
  }

  lemma {:induction false} DrainWire(cfg: Config, c: Conn, fs: seq<Outgoing>)
    requires c.connected && c.buffer == Wire(fs)
    requires forall i | 0 <= i < |fs| :: Deliverable(cfg, fs[i])
    ensures Drain(cfg, c) == Answered(cfg, c, fs)
    ensures !Poisoned(cfg, c)
    decreases |fs|
  {
    hide Encode, Step, Deliverable;
    if fs == [] {
      NothingBuffered(cfg, c);
      assert c.log + [] == c.log && c.taken + [] == c.taken;
    } else {
      FirstFrame(cfg, c, fs[0], Wire(fs[1..]));
      StepShrinks(cfg, c);
      DrainWire(cfg, Step(cfg, c).conn, fs[1..]);
      AnsweredCons(cfg, c, fs, Wire(fs[1..]));
    }
  }

  lemma NothingBuffered(cfg: Config, c: Conn)
    requires c.buffer == []
    ensures Step(cfg, c) == Halt(c) && Settled(cfg, c) && !ParseFront(cfg, c).Frame?
  {
  }

  /** Every list of deliverable frames, encoded with any mask keys, concatenated and cut into any
      chunks, is answered frame by frame and leaves nothing buffered and no failure behind. */
  lemma StreamRoundTrip(cfg: Config, c: Conn, fs: seq<Outgoing>, chunks: seq<seq<byte>>)
    requires c.connected && c.buffer == [] && Concat(chunks) == Wire(fs)
    requires forall i | 0 <= i < |fs| :: Deliverable(cfg, fs[i])
    ensures Feed(cfg, c, chunks) == Answered(cfg, c, fs)
  {
    hide Poisoned, Drain, Step, ParseFront, Encode;
    var whole := Append(c, Wire(fs));
    assert whole.buffer == Wire(fs);
    DrainWire(cfg, whole, fs);
    NothingBuffered(cfg, c);
    ChunkingExact(cfg, c, chunks);
    assert Answered(cfg, whole, fs) == Answered(cfg, c, fs);
    if Wire(fs) == [] {
      assert whole == c;
      SettledIsClean(cfg, c);
    }
  }

  // End to end

  function SendAll(cfg: Config, c: Conn, ms: seq<Message>): Conn
    decreases |ms|
  {
    if ms == [] then c else SendAll(cfg, Send(cfg, c, ms[0]), ms[1..])
  }

  function Written(log: seq<Event>): seq<byte> {
    if log == [] then []
    else (match log[0] case Wrote(b) => b case _ => []) + Written(log[1..])
  }

  function Payload(m: Message): seq<byte> {
    match m
    case TextData(t) => Utf8.Encode(t)
    case BinaryData(b) => b
  }

  function Opcode(m: Message): nat {
    if m.TextData? then TEXT else BINARY
  }

  /** The frames `send` writes for these messages, drawing keys from position `drawn`. */
  function Sent(cfg: Config, drawn: nat, ms: seq<Message>): seq<Outgoing>
    decreases |ms|
  {
    if ms == [] then []
    else
      [Outgoing(Opcode(ms[0]), Payload(ms[0]), if cfg.isClient then Some(cfg.keys(drawn)) else None)]
      + Sent(cfg, if cfg.isClient then drawn + 1 else drawn, ms[1..])
  }

  lemma {:induction false} WrittenAppend(log: seq<Event>, e: Event)
    ensures Written(log + [e]) == Written(log) + (match e case Wrote(b) => b case _ => [])
    decreases |log|
  {
    if log == [] {
      assert log + [e] == [e];
    } else {
      assert (log + [e])[1..] == log[1..] + [e];
      WrittenAppend(log[1..], e);
    }
  }

  lemma {:induction false} SendAllWrites(cfg: Config, c: Conn, ms: seq<Message>)
    requires c.connected
    ensures Written(SendAll(cfg, c, ms).log) == Written(c.log) + Wire(Sent(cfg, c.drawn, ms))
    decreases |ms|
  {
    hide Encode;
    if ms == [] {
    } else {
      var d := Send(cfg, c, ms[0]);
      SendAllWrites(cfg, d, ms[1..]);
      var e := Encode(Opcode(ms[0]), Payload(ms[0]), NextKey(cfg, c));
      WrittenAppend(c.log, Wrote(e));
      var fs := Sent(cfg, c.drawn, ms);
      assert fs[1..] == Sent(cfg, d.drawn, ms[1..]);
      Seqs.Assoc(Written(c.log), e, Wire(fs[1..]));
    }
  }

  predicate Sendable(cfg: Config, m: Message) {
    |Payload(m)| < 0x1_0000_0000 && (cfg.maxPayload > 0 ==> |Payload(m)| <= cfg.maxPayload)
  }

  /** The message event the peer should see: its own content, except that unpaired surrogates become
      U+FFFD and a leading byte order mark is dropped. */
  function Arrives(m: Message): Event {
    match m
    case TextData(t) => TextMessage(Utf8.StripMark(Utf8.Scalars(t)))
    case BinaryData(b) => BinaryMessage(b)
  }

  function Arrivals(ms: seq<Message>): (es: seq<Event>)
    ensures |es| == |ms|
  {
    if ms == [] then [] else [Arrives(ms[0])] + Arrivals(ms[1..])
  }

  lemma {:induction false} SentIsDeliverable(src: Config, dst: Config, drawn: nat, ms: seq<Message>)
    requires src.isClient != dst.isClient
    requires forall i | 0 <= i < |ms| :: Sendable(dst, ms[i])
    ensures var fs := Sent(src, drawn, ms);
            && |fs| == |ms|
            && (forall i | 0 <= i < |fs| :: Deliverable(dst, fs[i]))
            && forall k: nat :: Reactions(dst, k, fs) == Arrivals(ms)
    decreases |ms|
  {
    if ms == [] {
    } else {
      var rest := Sent(src, if src.isClient then drawn + 1 else drawn, ms[1..]);
      SentIsDeliverable(src, dst, if src.isClient then drawn + 1 else drawn, ms[1..]);
      var fs := Sent(src, drawn, ms);
      assert fs[1..] == rest;
      assert Sendable(dst, ms[0]);
      ArrivesDecoded(ms[0]);
      assert Deliverable(dst, fs[0]);
      forall k: nat
        ensures Reactions(dst, k, fs) == Arrivals(ms)
      {
        assert Reactions(dst, k, rest) == Arrivals(ms[1..]);
      }
    }
  }

  lemma ArrivesDecoded(m: Message)
    ensures m.TextData? ==> Utf8.DecodeFatal(Payload(m)) == Some(Utf8.StripMark(Utf8.Scalars(m.text)))
  {
    if m.TextData? {
      Utf8.DecodeAllOfEncoded(m.text, []);
      assert Utf8.Encode(m.text) + [] == Utf8.Encode(m.text);
      assert Utf8.Scalars(m.text) + [] == Utf8.Scalars(m.text);
    }
  }

  /** Two endpoints in opposite roles: whatever one sends is what the other reports, in order,
      however the bytes are cut on the way. */
  lemma EndToEnd(src: Config, dst: Config, ms: seq<Message>, chunks: seq<seq<byte>>)
    requires src.isClient != dst.isClient
    requires forall i | 0 <= i < |ms| :: Sendable(dst, ms[i])
    requires Concat(chunks) == Written(SendAll(src, Open(), ms).log)
    ensures var peer := Feed(dst, Open(), chunks);
            peer.log == Arrivals(ms) && peer.buffer == [] && !peer.sentClose
  {
    SendAllWrites(src, Open(), ms);
    SentIsDeliverable(src, dst, 0, ms);
    StreamRoundTrip(dst, Open(), Sent(src, 0, ms), chunks);
  }

  /** A text arrives unchanged exactly when it is well formed and does not open with U+FEFF. */
  lemma TextArrivesUnchanged(t: Utf8.Text)
    ensures Arrives(TextData(t)) == TextMessage(t)
            <==> Utf8.WellFormed(t) && !(t != [] && t[0] == Utf8.BYTE_ORDER_MARK)
  {
    ArrivesDecoded(TextData(t));
    Utf8.TextRoundTrip(t);
  }

  /** A text that is only the mark arrives empty. */
  lemma MarkIsLost()
    ensures Arrives(TextData([Utf8.BYTE_ORDER_MARK])) == TextMessage([])
  {
    assert Utf8.Scalars([Utf8.BYTE_ORDER_MARK]) == [Utf8.BYTE_ORDER_MARK] + Utf8.Scalars([]);
  }
}
