/** The WebSocket connection as a value: what each call makes of the fields.
    The socket is an append-only log of the writes, ends and events it saw; `taken` records the
    raw bytes of every consumed frame. Mask keys come from a supply that each masked write draws
    the next key from. */
module WsConnection {
  import opened Bytes
  import opened Wrappers
  import opened WsFrame
  import Utf8
  import OneLine

  const MAX_CLOSE_REASON: nat := 123

  datatype Config = Config(isClient: bool, maxPayload: int, keys: nat -> Key)

  datatype Event =
    | TextMessage(text: Utf8.Text)
    | BinaryMessage(payload: seq<byte>)
    | Wrote(bytes: seq<byte>)
    | Ended
    | CloseEvent(code: nat, reason: seq<byte>)

  datatype Reason = Str(text: Utf8.Text) | Buf(bytes: seq<byte>)

  datatype Message = TextData(text: Utf8.Text) | BinaryData(bytes: seq<byte>)

  datatype Conn = Conn(
    connected: bool,
    buffer: seq<byte>,
    sentClose: bool,
    closeCode: Option<nat>,
    closeReason: seq<byte>,
    closeEmitted: bool,
    drawn: nat,
    log: seq<Event>,
    taken: seq<seq<byte>>)

  function Fresh(): Conn {
    Conn(false, [], false, None, [], false, 0, [], [])
  }

  /** A connection whose socket has just arrived with nothing buffered. */
  function Open(): Conn {
    Fresh().(connected := true)
  }

  // Close payloads

  function ReasonBytes(reason: Reason): seq<byte> {
    match reason
    case Str(t) => Utf8.Encode(OneLine.Format(t, MAX_CLOSE_REASON))
    case Buf(b) => if |b| <= MAX_CLOSE_REASON then b else b[..MAX_CLOSE_REASON]
  }

  function EncodeClose(code: nat, reason: Reason): seq<byte> {
    BigEndian(code, 2) + ReasonBytes(reason)
  }

  function DecodeClose(payload: seq<byte>): (nat, seq<byte>) {
    if |payload| < 2 then (1005, []) else (FromBigEndian(payload[..2]), payload[2..])
  }

  lemma ReasonFits(reason: Reason)
    ensures |ReasonBytes(reason)| <= MAX_CLOSE_REASON
  {
    match reason
    case Str(t) => OneLine.FormatRefinesTwoPass(t, MAX_CLOSE_REASON);
    case Buf(b) =>
  }

  /** A Close payload always carries its code and at most 123 bytes of reason, and decodes to them. */
  lemma CloseRoundTrip(code: nat, reason: Reason)
    requires code < 0x1_0000
    ensures 2 <= |EncodeClose(code, reason)| <= 125
    ensures DecodeClose(EncodeClose(code, reason)) == (code, ReasonBytes(reason))
  {
    ReasonFits(reason);
    Pow256Values();
    BigEndianRoundTrip(code, 2);
    assert EncodeClose(code, reason)[..2] == BigEndian(code, 2);
    assert EncodeClose(code, reason)[2..] == ReasonBytes(reason);
  }

  lemma DecodedCode(payload: seq<byte>)
    ensures DecodeClose(payload).0 < 0x1_0000
  {
    if |payload| >= 2 {
      BigEndianOfRead(payload[..2]);
      Pow256Values();
    }
  }

  /** The reply to a Close repeats the payload exactly when it has between 2 and 125 bytes: an empty
      Close is answered with code 1005 on the wire, and a longer reason is cut. */
  lemma CloseEcho(payload: seq<byte>)
    ensures var (code, reason) := DecodeClose(payload);
            EncodeClose(code, Buf(reason)) == payload <==> 2 <= |payload| <= 125
  {
    var (code, reason) := DecodeClose(payload);
    DecodedCode(payload);
    CloseRoundTrip(code, Buf(reason));
    if 2 <= |payload| <= 125 {
      BigEndianOfRead(payload[..2]);
      assert payload == payload[..2] + payload[2..];
    }
  }

  // Calls

  function NextKey(cfg: Config, c: Conn): Option<Key> {
    if cfg.isClient then Some(cfg.keys(c.drawn)) else None
  }

  function Write(cfg: Config, c: Conn, opcode: nat, payload: seq<byte>): Conn {
    c.(log := c.log + [Wrote(Encode(opcode, payload, NextKey(cfg, c)))],
       drawn := if cfg.isClient then c.drawn + 1 else c.drawn)
  }

  function Emit(c: Conn, e: Event): Conn {
    c.(log := c.log + [e])
  }

  /** `close(code, reason)`: the flag is set before the payload is built, so a code outside 16 bits
      throws with the flag already set. */
  function Close(cfg: Config, c: Conn, code: int, reason: Reason): Conn {
    if c.sentClose then c
    else
      var c := c.(sentClose := true);
      if c.connected && 0 <= code < 0x1_0000
      then Emit(Write(cfg, c, CLOSE, EncodeClose(code, reason)), Ended)
      else c
  }

  predicate CloseThrows(c: Conn, code: int) {
    !c.sentClose && !(0 <= code < 0x1_0000)
  }

  function Fail(cfg: Config, c: Conn, code: nat, reason: string): Conn {
    Close(cfg, c, code, Str(Utf8.CodePoints(reason)))
  }

  function Send(cfg: Config, c: Conn, m: Message): Conn {
    if !c.connected then c
    else
      match m
      case TextData(t) => Write(cfg, c, TEXT, Utf8.Encode(t))
      case BinaryData(b) => Write(cfg, c, BINARY, b)
  }

  function ReceiveClose(cfg: Config, c: Conn, payload: seq<byte>): Conn {
    var (code, reason) := DecodeClose(payload);
    var c1 := c.(closeCode := Some(code), closeReason := reason, sentClose := true);
    var c2 := if !c.sentClose && c.connected then Write(cfg, c1, CLOSE, EncodeClose(code, Buf(reason))) else c1;
    if c.connected then Emit(c2, Ended) else c2
  }

  /** One pass of the drain loop either leaves it or goes round again. */
  datatype Pass = Halt(conn: Conn) | Again(conn: Conn)

  function Receive(cfg: Config, c: Conn, opcode: nat, payload: seq<byte>): Pass {
    if opcode == TEXT then
      match Utf8.DecodeFatal(payload)
      case None => Halt(Fail(cfg, c, 1007, "Invalid UTF-8"))
      case Some(text) => Again(Emit(c, TextMessage(text)))
    else if opcode == BINARY then Again(Emit(c, BinaryMessage(payload)))
    else if opcode == PING then Again(if c.connected then Write(cfg, c, PONG, payload) else c)
    else if opcode == PONG then Again(c)
    else if opcode == CLOSE then Again(ReceiveClose(cfg, c, payload))
    else Halt(Fail(cfg, c, 1002, "Unsupported opcode"))
  }

  function Take(c: Conn, n: nat): Conn
    requires n <= |c.buffer|
  {
    c.(buffer := c.buffer[n..], taken := c.taken + [c.buffer[..n]])
  }

  function ParseFront(cfg: Config, c: Conn): (r: Parsed)
    ensures r.Frame? ==> 2 <= r.size <= |c.buffer|
  {
    FrameSize(c.buffer, cfg.isClient, cfg.maxPayload);
    Parse(c.buffer, cfg.isClient, cfg.maxPayload)
  }

  function Step(cfg: Config, c: Conn): Pass {
    match ParseFront(cfg, c)
    case NeedMore => Halt(c)
    case Reject(code, reason) => Halt(Fail(cfg, c, code, reason))
    case Frame(opcode, payload, n) => Receive(cfg, Take(c, n), opcode, payload)
  }

  lemma StepShrinks(cfg: Config, c: Conn)
    ensures Step(cfg, c).Again? ==> |Step(cfg, c).conn.buffer| <= |c.buffer| - 2
  {
  }

  function Drain(cfg: Config, c: Conn): Conn
    decreases |c.buffer|
  {
    StepShrinks(cfg, c);
    match Step(cfg, c)
    case Halt(d) => d
    case Again(d) => Drain(cfg, d)
  }

  function Append(c: Conn, more: seq<byte>): Conn {
    c.(buffer := c.buffer + more)
  }

  function OnData(cfg: Config, c: Conn, chunk: seq<byte>): Conn {
    if chunk == [] then c else Drain(cfg, Append(c, chunk))
  }

  /** The socket arrives, with the bytes that came after the handshake. */
  function Connect(cfg: Config, c: Conn, head: seq<byte>): Conn {
    var c := c.(connected := true, buffer := head);
    if head == [] then c else Drain(cfg, c)
  }

  function SocketClosed(c: Conn): Conn {
    if c.closeEmitted then c
    else
      var code := match c.closeCode case Some(n) => n case None => if c.sentClose then 1000 else 1006;
      Emit(c.(closeEmitted := true), CloseEvent(code, c.closeReason))
  }

  function Feed(cfg: Config, c: Conn, chunks: seq<seq<byte>>): Conn
    decreases |chunks|
  {
    if chunks == [] then c else Feed(cfg, OnData(cfg, c, chunks[0]), chunks[1..])
  }

  // Closes that are not answered in kind

  /** A Close that arrives whole, before this side has sent one, is answered with what was decoded from it. */
  lemma CloseArrives(cfg: Config, c: Conn, payload: seq<byte>, key: Option<Key>)
    requires c.connected && !c.sentClose && c.buffer == [] && (key.None? <==> cfg.isClient)
    requires |payload| < 0x1_0000_0000 && (cfg.maxPayload > 0 ==> |payload| <= cfg.maxPayload)
    ensures var (code, reason) := DecodeClose(payload);
            OnData(cfg, c, Encode(CLOSE, payload, key)).log
            == c.log + [Wrote(Encode(CLOSE, EncodeClose(code, Buf(reason)), NextKey(cfg, c)))] + [Ended]
  {
    hide Encode, Parse, DecodeClose, EncodeClose;
    var f := Encode(CLOSE, payload, key);
    var d := Append(c, f);
    assert [] + f == f && f + [] == f && f[|f|..] == [];
    FrameRoundTrip(CLOSE, payload, key, [], cfg.maxPayload);
    var next := ReceiveClose(cfg, Take(d, |f|), payload);
    assert Step(cfg, d) == Again(next);
    assert next.buffer == [];
    NothingToDrain(cfg, next);
  }

  lemma NothingToDrain(cfg: Config, c: Conn)
    requires c.buffer == []
    ensures Drain(cfg, c) == c
  {
  }

  lemma EmptyCloseReadsAs1005()
    ensures DecodeClose([]) == (1005, []) && EncodeClose(1005, Buf([])) == [0x03, 0xED]
  {
    assert BigEndian(1005, 2) == BigEndian(3, 1) + [0xED];
    assert BigEndian(3, 1) == BigEndian(0, 0) + [3];
  }

  /** An empty Close is answered with the code 1005 on the wire. */
  lemma EmptyCloseIsAnsweredWith1005(cfg: Config, c: Conn, key: Option<Key>)
    requires c.connected && !c.sentClose && c.buffer == [] && (key.None? <==> cfg.isClient)
    ensures OnData(cfg, c, Encode(CLOSE, [], key)).log
            == c.log + [Wrote(Encode(CLOSE, [0x03, 0xED], NextKey(cfg, c)))] + [Ended]
  {
    hide OnData, Encode, DecodeClose, EncodeClose;
    CloseArrives(cfg, c, [], key);
    EmptyCloseReadsAs1005();
  }

  /** A Close of 126 bytes is accepted and its answer is a byte shorter. */
  lemma LongCloseIsCut(cfg: Config, c: Conn, reason: seq<byte>, key: Option<Key>)
    requires c.connected && !c.sentClose && c.buffer == [] && (key.None? <==> cfg.isClient)
    requires |reason| == 124 && (cfg.maxPayload > 0 ==> 126 <= cfg.maxPayload)
    ensures OnData(cfg, c, Encode(CLOSE, BigEndian(1000, 2) + reason, key)).log
            == c.log + [Wrote(Encode(CLOSE, BigEndian(1000, 2) + reason[..123], NextKey(cfg, c)))] + [Ended]
  {
    hide OnData, Encode, DecodeClose, EncodeClose;
    CloseArrives(cfg, c, BigEndian(1000, 2) + reason, key);
    LongCloseReads(reason);
  }

  lemma LongCloseReads(reason: seq<byte>)
    requires |reason| == 124
    ensures DecodeClose(BigEndian(1000, 2) + reason) == (1000, reason)
    ensures EncodeClose(1000, Buf(reason)) == BigEndian(1000, 2) + reason[..123]
  {
    var payload := BigEndian(1000, 2) + reason;
    assert payload[..2] == BigEndian(1000, 2) && payload[2..] == reason;
    Pow256Values();
    BigEndianRoundTrip(1000, 2);
  }
}
