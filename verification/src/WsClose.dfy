/** The close handshake over every run of a connection's calls and socket events. */
module WsClose {
  import opened Bytes
  import opened Wrappers
  import opened WsFrame
  import opened WsConnection
  import opened WsChunking
  import Utf8

  datatype Op =
    | Connected(head: seq<byte>)
    | Data(chunk: seq<byte>)
    | CloseCall(code: int, reason: Reason)
    | SendCall(message: Message)
    | SocketGone

  /** Events that only an attached socket can deliver are ignored without one, and a connection is
      attached to one socket only. */
  function Apply(cfg: Config, c: Conn, op: Op): Conn {
    match op
    case Connected(head) => if c.connected then c else Connect(cfg, c, head)
    case Data(chunk) => if c.connected then OnData(cfg, c, chunk) else c
    case CloseCall(code, reason) => Close(cfg, c, code, reason)
    case SendCall(m) => Send(cfg, c, m)
    case SocketGone => if c.connected then SocketClosed(c) else c
  }

  function Run(cfg: Config, ops: seq<Op>): Conn {
    if ops == [] then Fresh() else Apply(cfg, Run(cfg, ops[..|ops| - 1]), ops[|ops| - 1])
  }

  // Reading the log

  predicate IsCloseFrame(e: Event) {
    e.Wrote? && e.bytes != [] && e.bytes[0] == 0x88
  }

  /** The Close frames written, in order. */
  function CloseFrames(log: seq<Event>): seq<seq<byte>> {
    if log == [] then []
    else
      var e := log[|log| - 1];
      CloseFrames(log[..|log| - 1]) + if IsCloseFrame(e) then [e.bytes] else []
  }

  /** The close events emitted, in order. */
  function CloseEvents(log: seq<Event>): seq<Event> {
    if log == [] then []
    else
      var e := log[|log| - 1];
      CloseEvents(log[..|log| - 1]) + if e.CloseEvent? then [e] else []
  }

  lemma LogAppend(log: seq<Event>, e: Event)
    ensures CloseFrames(log + [e]) == CloseFrames(log) + if IsCloseFrame(e) then [e.bytes] else []
    ensures CloseEvents(log + [e]) == CloseEvents(log) + if e.CloseEvent? then [e] else []
  {
    assert (log + [e])[..|log|] == log;
  }

  // Reading the consumed frames

  function CloseOf(cfg: Config, raw: seq<byte>): Option<(nat, seq<byte>)> {
    match Parse(raw, cfg.isClient, cfg.maxPayload)
    case Frame(opcode, payload, _) => if opcode == CLOSE then Some(DecodeClose(payload)) else None
    case _ => None
  }

  /** Code and reason of the last Close among the consumed frames. */
  function LastClose(cfg: Config, taken: seq<seq<byte>>): Option<(nat, seq<byte>)> {
    if taken == [] then None
    else
      match CloseOf(cfg, taken[|taken| - 1])
      case Some(p) => Some(p)
      case None => LastClose(cfg, taken[..|taken| - 1])
  }

  /** What the close event should report, from what arrived and whether a close was initiated. */
  function Verdict(cfg: Config, c: Conn): Event {
    match LastClose(cfg, c.taken)
    case Some((code, reason)) => CloseEvent(code, reason)
    case None => CloseEvent(if c.sentClose then 1000 else 1006, [])
  }

  /** At the peer's role the frame is a Close whose payload has a code and a bounded reason. */
  predicate WellFormedClose(cfg: Config, f: seq<byte>) {
    var p := Parse(f, !cfg.isClient, 0);
    p.Frame? && p.opcode == CLOSE && p.size == |f| && 2 <= |p.payload| <= 125
  }

  ghost predicate Consistent(cfg: Config, c: Conn) {
    && |CloseFrames(c.log)| <= (if c.sentClose && c.connected then 1 else 0)
    && (forall i | 0 <= i < |CloseFrames(c.log)| :: WellFormedClose(cfg, CloseFrames(c.log)[i]))
    && |CloseEvents(c.log)| == (if c.closeEmitted then 1 else 0)
    && (match LastClose(cfg, c.taken)
        case Some((code, reason)) => c.closeCode == Some(code) && c.closeReason == reason
        case None => c.closeCode == None && c.closeReason == [])
  }

  lemma WriteData(cfg: Config, c: Conn, opcode: nat, payload: seq<byte>)
    requires opcode in {TEXT, BINARY, PONG}
    ensures CloseFrames(Write(cfg, c, opcode, payload).log) == CloseFrames(c.log)
    ensures CloseEvents(Write(cfg, c, opcode, payload).log) == CloseEvents(c.log)
  {
    var e := Encode(opcode, payload, NextKey(cfg, c));
    EncodeStarts(opcode, payload, NextKey(cfg, c));
    LogAppend(c.log, Wrote(e));
  }

  lemma EncodeStarts(opcode: nat, payload: seq<byte>, key: Option<Key>)
    ensures Encode(opcode, payload, key)[0] == 128 + opcode % 16
  {
  }

  lemma WriteClose(cfg: Config, c: Conn, code: nat, reason: Reason)
    requires code < 0x1_0000
    ensures var d := Write(cfg, c, CLOSE, EncodeClose(code, reason));
            && CloseEvents(d.log) == CloseEvents(c.log)
            && |CloseFrames(d.log)| == |CloseFrames(c.log)| + 1
            && CloseFrames(d.log)[..|CloseFrames(c.log)|] == CloseFrames(c.log)
            && WellFormedClose(cfg, CloseFrames(d.log)[|CloseFrames(c.log)|])
  {
    hide Parse, Encode;
    var p := EncodeClose(code, reason);
    var e := Encode(CLOSE, p, NextKey(cfg, c));
    EncodeStarts(CLOSE, p, NextKey(cfg, c));
    LogAppend(c.log, Wrote(e));
    CloseRoundTrip(code, reason);
    assert e + [] == e;
    FrameRoundTrip(CLOSE, p, NextKey(cfg, c), [], 0);
  }

  lemma EmitOther(c: Conn, e: Event)
    requires !e.Wrote? && !e.CloseEvent?
    ensures CloseFrames(Emit(c, e).log) == CloseFrames(c.log)
    ensures CloseEvents(Emit(c, e).log) == CloseEvents(c.log)
  {
    LogAppend(c.log, e);
  }

  lemma CloseKeeps(cfg: Config, c: Conn, code: int, reason: Reason)
    requires Consistent(cfg, c)
    ensures Consistent(cfg, Close(cfg, c, code, reason))
    ensures Close(cfg, c, code, reason).taken == c.taken
  {
    hide LastClose, WellFormedClose, CloseFrames, CloseEvents, Encode, EncodeClose;
    if !c.sentClose && c.connected && 0 <= code < 0x1_0000 {
      var d := c.(sentClose := true);
      WriteClose(cfg, d, code, reason);
      EmitOther(Write(cfg, d, CLOSE, EncodeClose(code, reason)), Ended);
    }
  }

  /** Receiving a Close writes the reply at most once and leaves the record of codes to the caller. */
  lemma ReceiveCloseWrites(cfg: Config, c: Conn, payload: seq<byte>)
    requires |CloseFrames(c.log)| <= (if c.sentClose && c.connected then 1 else 0)
    requires forall i | 0 <= i < |CloseFrames(c.log)| :: WellFormedClose(cfg, CloseFrames(c.log)[i])
    ensures var d := ReceiveClose(cfg, c, payload);
            && |CloseFrames(d.log)| <= (if d.sentClose && d.connected then 1 else 0)
            && (forall i | 0 <= i < |CloseFrames(d.log)| :: WellFormedClose(cfg, CloseFrames(d.log)[i]))
            && CloseEvents(d.log) == CloseEvents(c.log)
  {
    hide LastClose, WellFormedClose, CloseFrames, CloseEvents, Encode, EncodeClose, DecodeClose;
    var (code, reason) := DecodeClose(payload);
    DecodedCode(payload);
    var c1 := c.(closeCode := Some(code), closeReason := reason, sentClose := true);
    if c.connected {
      if !c.sentClose {
        WriteClose(cfg, c1, code, Buf(reason));
        EmitOther(Write(cfg, c1, CLOSE, EncodeClose(code, Buf(reason))), Ended);
      } else {
        EmitOther(c1, Ended);
      }
    }
  }

  lemma ReceiveDataKeeps(cfg: Config, c: Conn, opcode: nat, payload: seq<byte>)
    requires Consistent(cfg, c) && opcode != CLOSE
    ensures Consistent(cfg, Receive(cfg, c, opcode, payload).conn)
    ensures Receive(cfg, c, opcode, payload).conn.taken == c.taken
  {
    hide LastClose, WellFormedClose, CloseFrames, CloseEvents, Encode, Close, Utf8.DecodeFatal;
    if opcode == TEXT {
      match Utf8.DecodeFatal(payload)
      case None => CloseKeeps(cfg, c, 1007, Str(Utf8.CodePoints("Invalid UTF-8")));
      case Some(text) => EmitOther(c, TextMessage(text));
    } else if opcode == BINARY {
      EmitOther(c, BinaryMessage(payload));
    } else if opcode == PING {
      WriteData(cfg, c, PONG, payload);
    } else if opcode != PONG {
      CloseKeeps(cfg, c, 1002, Str(Utf8.CodePoints("Unsupported opcode")));
    }
  }

  lemma LastCloseAppend(cfg: Config, taken: seq<seq<byte>>, raw: seq<byte>)
    ensures LastClose(cfg, taken + [raw]) ==
            match CloseOf(cfg, raw) case Some(p) => Some(p) case None => LastClose(cfg, taken)
  {
    assert (taken + [raw])[..|taken|] == taken;
  }

  lemma RawFrame(cfg: Config, c: Conn)
    requires ParseFront(cfg, c).Frame?
    ensures Parse(c.buffer[..ParseFront(cfg, c).size], cfg.isClient, cfg.maxPayload) == ParseFront(cfg, c)
  {
    var n := ParseFront(cfg, c).size;
    assert c.buffer[..n] + c.buffer[n..] == c.buffer;
    ParseLocal(c.buffer[..n], c.buffer[n..], cfg.isClient, cfg.maxPayload);
  }

  lemma StepKeeps(cfg: Config, c: Conn)
    requires Consistent(cfg, c)
    ensures Consistent(cfg, Step(cfg, c).conn)
  {
    hide LastClose, WellFormedClose, CloseFrames, CloseEvents, Encode, Close, Receive, ReceiveClose, Parse;
    match ParseFront(cfg, c)
    case NeedMore =>
    case Reject(code, reason) =>
      CloseKeeps(cfg, c, code, Str(Utf8.CodePoints(reason)));
    case Frame(opcode, payload, n) =>
      RawFrame(cfg, c);
      LastCloseAppend(cfg, c.taken, c.buffer[..n]);
      if opcode == CLOSE {
        TakeClose(cfg, c, payload, n);
      } else {
        ReceiveDataKeeps(cfg, Take(c, n), opcode, payload);
      }
  }

  lemma TakeClose(cfg: Config, c: Conn, payload: seq<byte>, n: nat)
    requires Consistent(cfg, c) && n <= |c.buffer|
    requires LastClose(cfg, c.taken + [c.buffer[..n]]) == Some(DecodeClose(payload))
    ensures Consistent(cfg, Receive(cfg, Take(c, n), CLOSE, payload).conn)
  {
    hide WellFormedClose, CloseFrames, CloseEvents, Encode, Parse, EncodeClose, DecodeClose;
    ReceiveCloseWrites(cfg, Take(c, n), payload);
    ReceiveKeeps(cfg, Take(c, n), CLOSE, payload);
  }

  lemma {:induction false} DrainKeeps(cfg: Config, c: Conn)
    requires Consistent(cfg, c)
    ensures Consistent(cfg, Drain(cfg, c))
    decreases |c.buffer|
  {
    hide Step, Consistent;
    StepShrinks(cfg, c);
    StepKeeps(cfg, c);
    if Step(cfg, c).Again? {
      DrainKeeps(cfg, Step(cfg, c).conn);
    }
  }

  lemma {:induction false} DrainFlags(cfg: Config, c: Conn)
    ensures Drain(cfg, c).closeEmitted == c.closeEmitted
    ensures CloseEvents(c.log) == CloseEvents(Drain(cfg, c).log)
    decreases |c.buffer|
  {
    StepShrinks(cfg, c);
    StepFlags(cfg, c);
    hide Step;
    if Step(cfg, c).Again? {
      DrainFlags(cfg, Step(cfg, c).conn);
    }
  }

  lemma CloseFlags(cfg: Config, c: Conn, code: int, reason: Reason)
    ensures Close(cfg, c, code, reason).closeEmitted == c.closeEmitted
    ensures CloseEvents(Close(cfg, c, code, reason).log) == CloseEvents(c.log)
  {
    hide Encode, EncodeClose;
    if !c.sentClose && c.connected && 0 <= code < 0x1_0000 {
      var d := c.(sentClose := true);
      LogAppend(d.log, Wrote(Encode(CLOSE, EncodeClose(code, reason), NextKey(cfg, d))));
      EmitOther(Write(cfg, d, CLOSE, EncodeClose(code, reason)), Ended);
    }
  }

  lemma StepFlags(cfg: Config, c: Conn)
    ensures Step(cfg, c).conn.closeEmitted == c.closeEmitted
    ensures CloseEvents(Step(cfg, c).conn.log) == CloseEvents(c.log)
  {
    hide Encode, Close, Parse, EncodeClose, DecodeClose, CloseEvents, CloseFrames, Utf8.DecodeFatal;
    match ParseFront(cfg, c)
    case NeedMore =>
    case Reject(code, reason) =>
      CloseFlags(cfg, c, code, Str(Utf8.CodePoints(reason)));
    case Frame(opcode, payload, n) =>
      var d := Take(c, n);
      if opcode == TEXT {
        match Utf8.DecodeFatal(payload)
        case None => CloseFlags(cfg, d, 1007, Str(Utf8.CodePoints("Invalid UTF-8")));
        case Some(text) => EmitOther(d, TextMessage(text));
      } else if opcode == BINARY {
        EmitOther(d, BinaryMessage(payload));
      } else if opcode == PING {
        WriteData(cfg, d, PONG, payload);
      } else if opcode == CLOSE {
        var (code, reason) := DecodeClose(payload);
        var c1 := d.(closeCode := Some(code), closeReason := reason, sentClose := true);
        var reply := Encode(CLOSE, EncodeClose(code, Buf(reason)), NextKey(cfg, c1));
        LogAppend(c1.log, Wrote(reply));
        EmitOther(c1, Ended);
        EmitOther(Write(cfg, c1, CLOSE, EncodeClose(code, Buf(reason))), Ended);
      } else if opcode != PONG {
        CloseFlags(cfg, d, 1002, Str(Utf8.CodePoints("Unsupported opcode")));
      }
  }

  lemma SocketClosedKeeps(cfg: Config, c: Conn)
    requires Consistent(cfg, c)
    ensures Consistent(cfg, SocketClosed(c))
    ensures !c.closeEmitted ==> CloseEvents(SocketClosed(c).log) == [Verdict(cfg, c)]
  {
    hide LastClose, WellFormedClose, CloseFrames, CloseEvents;
    if !c.closeEmitted {
      LogAppend(c.log, Verdict(cfg, c));
    }
  }

  lemma ApplyKeeps(cfg: Config, c: Conn, op: Op)
    requires Consistent(cfg, c)
    ensures Consistent(cfg, Apply(cfg, c, op))
  {
    hide Drain, Close, LastClose, WellFormedClose, CloseFrames, CloseEvents, Encode, Utf8.Encode;
    match op
    case Connected(head) =>
      if !c.connected && head != [] {
        DrainKeeps(cfg, c.(connected := true, buffer := head));
      }
    case Data(chunk) =>
      DrainKeeps(cfg, Append(c, chunk));
    case CloseCall(code, reason) =>
      CloseKeeps(cfg, c, code, reason);
    case SendCall(m) =>
      match m {
        case TextData(t) => WriteData(cfg, c, TEXT, Utf8.Encode(t));
        case BinaryData(b) => WriteData(cfg, c, BINARY, b);
      }
    case SocketGone =>
      SocketClosedKeeps(cfg, c);
  }

  /** Every reachable connection is consistent. */
  lemma {:induction false} RunKeeps(cfg: Config, ops: seq<Op>)
    ensures Consistent(cfg, Run(cfg, ops))
    decreases |ops|
  {
    hide Apply;
    if ops == [] {
    } else {
      RunKeeps(cfg, ops[..|ops| - 1]);
      ApplyKeeps(cfg, Run(cfg, ops[..|ops| - 1]), ops[|ops| - 1]);
    }
  }

  /** Over all runs at most one Close frame is written, and it carries 2 to 125 payload bytes. */
  lemma AtMostOneClose(cfg: Config, ops: seq<Op>)
    ensures var frames := CloseFrames(Run(cfg, ops).log);
            |frames| <= 1 && forall i | 0 <= i < |frames| :: WellFormedClose(cfg, frames[i])
  {
    RunKeeps(cfg, ops);
  }

  lemma ApplyFlags(cfg: Config, c: Conn, op: Op)
    requires !op.SocketGone?
    ensures Apply(cfg, c, op).closeEmitted == c.closeEmitted
    ensures CloseEvents(Apply(cfg, c, op).log) == CloseEvents(c.log)
  {
    hide Drain, Close, Encode, CloseEvents, CloseFrames, Utf8.Encode;
    match op
    case Connected(head) =>
      DrainFlags(cfg, c.(connected := true, buffer := head));
    case Data(chunk) =>
      DrainFlags(cfg, Append(c, chunk));
    case CloseCall(code, reason) =>
      CloseFlags(cfg, c, code, reason);
    case SendCall(m) =>
      match m {
        case TextData(t) => WriteData(cfg, c, TEXT, Utf8.Encode(t));
        case BinaryData(b) => WriteData(cfg, c, BINARY, b);
      }
  }

  /** The run contains the moment `k` at which the socket went away for the first time. */
  ghost predicate GoneAt(cfg: Config, ops: seq<Op>, k: nat) {
    && k < |ops| && ops[k].SocketGone?
    && Run(cfg, ops[..k]).connected && !Run(cfg, ops[..k]).closeEmitted
  }

  /** The close events of a run: none before the socket goes, then one, decided at that moment. */
  ghost predicate EventOnce(cfg: Config, ops: seq<Op>) {
    var c := Run(cfg, ops);
    if c.closeEmitted
    then exists k: nat :: GoneAt(cfg, ops, k) && CloseEvents(c.log) == [Verdict(cfg, Run(cfg, ops[..k]))]
    else CloseEvents(c.log) == []
  }

  /** The close event fires at most once, when the socket goes, with the last code received, else
      1000 if a close was initiated, else 1006. */
  lemma {:induction false} CloseEventOnce(cfg: Config, ops: seq<Op>)
    ensures EventOnce(cfg, ops)
    decreases |ops|
  {
    hide CloseEvents, Verdict, Consistent, Drain, Close, Send;
    if ops == [] {
      assert CloseEvents([]) == [] by { NoEvents(); }
    } else {
      var n := |ops| - 1;
      var b := Run(cfg, ops[..n]);
      CloseEventOnce(cfg, ops[..n]);
      if ops[n].SocketGone? && b.connected && !b.closeEmitted {
        RunKeeps(cfg, ops[..n]);
        SocketClosedKeeps(cfg, b);
        FirstGone(cfg, ops);
      } else {
        if !ops[n].SocketGone? {
          ApplyFlags(cfg, b, ops[n]);
        }
        SameEvents(cfg, ops);
      }
    }
  }

  lemma NoEvents()
    ensures CloseEvents([]) == []
  {
  }

  lemma FirstGone(cfg: Config, ops: seq<Op>)
    requires ops != [] && GoneAt(cfg, ops, |ops| - 1)
    requires CloseEvents(Run(cfg, ops).log) == [Verdict(cfg, Run(cfg, ops[..|ops| - 1]))]
    ensures EventOnce(cfg, ops)
  {
  }

  lemma SameEvents(cfg: Config, ops: seq<Op>)
    requires ops != [] && EventOnce(cfg, ops[..|ops| - 1])
    requires Run(cfg, ops).closeEmitted == Run(cfg, ops[..|ops| - 1]).closeEmitted
    requires CloseEvents(Run(cfg, ops).log) == CloseEvents(Run(cfg, ops[..|ops| - 1]).log)
    ensures EventOnce(cfg, ops)
  {
    hide Verdict, CloseEvents, Apply;
    var before := ops[..|ops| - 1];
    var b := Run(cfg, before);
    if b.closeEmitted {
      var k: nat :| GoneAt(cfg, before, k) && CloseEvents(b.log) == [Verdict(cfg, Run(cfg, before[..k]))];
      assert before[..k] == ops[..k];
      assert GoneAt(cfg, ops, k);
    }
  }
}
