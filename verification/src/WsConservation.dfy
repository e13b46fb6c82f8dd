/** No byte is lost or made up over any run of a connection, from the bytes that came with the socket on. */
module WsConservation {
  import opened Bytes
  import opened WsFrame
  import opened WsConnection
  import opened WsChunking
  import opened WsClose
  import Seqs

  /** A socket has been attached. */
  predicate Attached(ops: seq<Op>) {
    exists i | 0 <= i < |ops| :: ops[i].Connected?
  }

  /** The bytes an attached socket delivered: those that came with it, then the chunks. */
  function Arrived(ops: seq<Op>): seq<byte> {
    if ops == [] then []
    else
      var before := ops[..|ops| - 1];
      match ops[|ops| - 1]
      case Connected(head) => if Attached(before) then Arrived(before) else Arrived(before) + head
      case Data(chunk) => if Attached(before) then Arrived(before) + chunk else Arrived(before)
      case _ => Arrived(before)
  }

  /** What was consumed is whole frames. */
  predicate AllFrames(cfg: Config, taken: seq<seq<byte>>) {
    forall k | 0 <= k < |taken| :: IsFrame(cfg, taken[k])
  }

  predicate IsFrame(cfg: Config, raw: seq<byte>) {
    var p := Parse(raw, cfg.isClient, cfg.maxPayload);
    p.Frame? && p.size == |raw|
  }

  lemma CloseSpares(cfg: Config, c: Conn, code: int, reason: Reason)
    ensures var d := Close(cfg, c, code, reason);
            d.buffer == c.buffer && d.taken == c.taken && d.connected == c.connected
  {
    hide EncodeClose, Encode;
  }

  lemma SendSpares(cfg: Config, c: Conn, m: Message)
    ensures var d := Send(cfg, c, m); d.buffer == c.buffer && d.taken == c.taken && d.connected == c.connected
  {
    hide Encode;
  }

  lemma StepFrames(cfg: Config, c: Conn)
    requires AllFrames(cfg, c.taken)
    ensures AllFrames(cfg, Step(cfg, c).conn.taken) && Step(cfg, c).conn.connected == c.connected
  {
    hide Parse, Encode, EncodeClose;
    match ParseFront(cfg, c)
    case Frame(opcode, payload, n) =>
      RawFrame(cfg, c);
      ReceiveKeeps(cfg, Take(c, n), opcode, payload);
    case _ =>
  }

  lemma {:induction false} DrainFrames(cfg: Config, c: Conn)
    requires AllFrames(cfg, c.taken)
    ensures AllFrames(cfg, Drain(cfg, c).taken) && Drain(cfg, c).connected == c.connected
    decreases |c.buffer|
  {
    hide Step, AllFrames;
    StepShrinks(cfg, c);
    StepFrames(cfg, c);
    if Step(cfg, c).Again? {
      DrainFrames(cfg, Step(cfg, c).conn);
    } else {
    }
  }

  /** What every run keeps, with the bytes `arrived` so far. */
  ghost predicate Conserved(cfg: Config, c: Conn, arrived: seq<byte>) {
    Received(c) == arrived && AllFrames(cfg, c.taken) && (!c.connected ==> arrived == [])
  }

  lemma DataConserves(cfg: Config, c: Conn, arrived: seq<byte>, chunk: seq<byte>)
    requires Conserved(cfg, c, arrived) && c.connected
    ensures Conserved(cfg, OnData(cfg, c, chunk), arrived + chunk) && OnData(cfg, c, chunk).connected
  {
    hide Drain, AllFrames, Concat;
    if chunk == [] {
      assert arrived + chunk == arrived;
    } else {
      DrainConserves(cfg, Append(c, chunk));
      DrainFrames(cfg, Append(c, chunk));
      Seqs.Assoc(Concat(c.taken), c.buffer, chunk);
    }
  }

  /** Before the socket there was nothing, so attaching it loses nothing. */
  lemma ConnectConserves(cfg: Config, c: Conn, arrived: seq<byte>, head: seq<byte>)
    requires Conserved(cfg, c, arrived) && !c.connected
    ensures Conserved(cfg, Connect(cfg, c, head), arrived + head) && Connect(cfg, c, head).connected
  {
    hide Drain, AllFrames;
    var d := c.(connected := true, buffer := head);
    assert Concat(c.taken) == [] && arrived + head == head == Received(d);
    if head == [] {
    } else {
      DrainConserves(cfg, d);
      DrainFrames(cfg, d);
    }
  }

  /** In every reachable state the consumed frames, each of them whole, followed by the buffer are exactly
      the bytes the socket delivered. */
  lemma {:induction false} RunConserves(cfg: Config, ops: seq<Op>)
    ensures Received(Run(cfg, ops)) == Arrived(ops)
    ensures AllFrames(cfg, Run(cfg, ops).taken)
    ensures Run(cfg, ops).connected <==> Attached(ops)
    ensures !Attached(ops) ==> Arrived(ops) == []
    decreases |ops|
  {
    hide Connect, OnData, Close, Send, Received, AllFrames;
    if ops == [] {
      NothingYet(cfg);
    } else {
      var before, op := ops[..|ops| - 1], ops[|ops| - 1];
      var c := Run(cfg, before);
      RunConserves(cfg, before);
      AttachedNow(ops);
      match op
      case Connected(head) => if !c.connected { ConnectConserves(cfg, c, Arrived(before), head); }
      case Data(chunk) => if c.connected { DataConserves(cfg, c, Arrived(before), chunk); }
      case CloseCall(code, reason) => CloseSpares(cfg, c, code, reason); SameBytes(cfg, c, Run(cfg, ops));
      case SendCall(m) => SendSpares(cfg, c, m); SameBytes(cfg, c, Run(cfg, ops));
      case SocketGone => SameBytes(cfg, c, Run(cfg, ops));
    }
  }

  lemma NothingYet(cfg: Config)
    ensures Received(Fresh()) == [] && AllFrames(cfg, Fresh().taken)
  {
  }

  lemma SameBytes(cfg: Config, c: Conn, d: Conn)
    requires c.buffer == d.buffer && c.taken == d.taken
    ensures Received(c) == Received(d)
  {
  }

  lemma AttachedNow(ops: seq<Op>)
    requires ops != []
    ensures Attached(ops) <==> Attached(ops[..|ops| - 1]) || ops[|ops| - 1].Connected?
  {
    var before := ops[..|ops| - 1];
    assert forall i | 0 <= i < |before| :: ops[i] == before[i];
  }
}
