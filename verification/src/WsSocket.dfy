/** The connection object: the fields a WebSocket updates in place, with each method tied to the
    value-level call it performs. */
module WsSocket {
  import opened Bytes
  import opened Wrappers
  import opened WsFrame
  import opened WsConnection
  import Utf8

  class WebSocket {
    const cfg: Config
    var connected: bool
    var buffer: seq<byte>
    var sentClose: bool
    var closeCode: Option<nat>
    var closeReason: seq<byte>
    var closeEmitted: bool
    var drawn: nat
    var log: seq<Event>
    ghost var taken: seq<seq<byte>>

    ghost function View(): Conn
      reads this
    {
      Conn(connected, buffer, sentClose, closeCode, closeReason, closeEmitted, drawn, log, taken)
    }

    constructor (cfg: Config)
      ensures this.cfg == cfg && View() == WsConnection.Fresh()
    {
      this.cfg := cfg;
      connected, buffer, sentClose := false, [], false;
      closeCode, closeReason, closeEmitted := None, [], false;
      drawn, log, taken := 0, [], [];
    }

    method WriteFrame(opcode: nat, payload: seq<byte>)
      modifies this
      ensures View() == WsConnection.Write(cfg, old(View()), opcode, payload)
    {
      var key := if cfg.isClient then Some(cfg.keys(drawn)) else None;
      var frame := EncodeFrame(opcode, payload, key);
      log := log + [Wrote(frame)];
      if cfg.isClient {
        drawn := drawn + 1;
      }
    }

    method EncodeClosePayload(code: nat, reason: Reason) returns (payload: seq<byte>)
      ensures payload == EncodeClose(code, reason)
    {
      var bytes: seq<byte>;
      match reason {
        case Str(t) =>
          var line := OneLine.FormatOneLine(t, MAX_CLOSE_REASON);
          bytes := Utf8.Encode(line);
        case Buf(b) =>
          bytes := if |b| <= MAX_CLOSE_REASON then b else b[..MAX_CLOSE_REASON];
      }
      payload := BigEndian(code, 2) + bytes;
    }

    method Close(code: int, reason: Reason) returns (threw: bool)
      modifies this
      ensures View() == WsConnection.Close(cfg, old(View()), code, reason)
      ensures threw == CloseThrows(old(View()), code)
    {
      if sentClose {
        return false;
      }
      sentClose := true;
      if !(0 <= code < 0x1_0000) {
        return true;
      }
      var payload := EncodeClosePayload(code, reason);
      if connected {
        WriteFrame(CLOSE, payload);
        log := log + [Ended];
      }
      return false;
    }

    method Fail(code: nat, reason: string)
      modifies this
      ensures View() == WsConnection.Fail(cfg, old(View()), code, reason)
    {
      var _ := Close(code, Str(Utf8.CodePoints(reason)));
    }

    method Send(message: Message) returns (threw: bool)
      modifies this
      ensures View() == WsConnection.Send(cfg, old(View()), message)
      ensures threw == !old(connected)
    {
      if !connected {
        return true;
      }
      match message {
        case TextData(t) => WriteFrame(TEXT, Utf8.Encode(t));
        case BinaryData(b) => WriteFrame(BINARY, b);
      }
      return false;
    }

    /** The header checks and reads of one pass, in the order they are made. */
    method ParseBuffer() returns (r: Parsed)
      ensures r == ParseFront(cfg, View())
    {
      hide ReadPayload;
      FrameSize(buffer, cfg.isClient, cfg.maxPayload);
      if |buffer| < 2 {
        return NeedMore;
      }
      var fin, opcode: nat := buffer[0] >= 128, buffer[0] % 16;
      var masked, len: nat := buffer[1] >= 128, buffer[1] % 128;
      if !fin {
        return Reject(1002, "Fragmented frames not supported");
      }
      if masked != !cfg.isClient {
        return Reject(1002, "Invalid masking");
      }
      var offset := 2;
      if len == 126 {
        if |buffer| < offset + 2 {
          return NeedMore;
        }
        len := FromBigEndian(buffer[offset..offset + 2]);
        offset := offset + 2;
      } else if len == 127 {
        if |buffer| < offset + 8 {
          return NeedMore;
        }
        var big := FromBigEndian(buffer[offset..offset + 8]);
        if big > MAX_SAFE_INTEGER {
          return Reject(1009, "Message too large");
        }
        len := big;
        offset := offset + 8;
      }
      assert ReadLength(buffer) == LengthOk(len, offset);
      if cfg.maxPayload > 0 && len > cfg.maxPayload {
        return Reject(1009, "Message too large");
      }
      r := ParsePayload(opcode, masked, len, offset);
    }

    /** The rest of the pass: the key, then the payload, when they have arrived. */
    method ParsePayload(opcode: nat, masked: bool, len: nat, start: nat) returns (r: Parsed)
      requires 2 <= start <= |buffer| && opcode == buffer[0] % 16
      ensures r == ReadPayload(buffer, masked, len, start)
    {
      var offset := start;
      if masked {
        if |buffer| < offset + 4 {
          return NeedMore;
        }
        var key := buffer[offset..offset + 4];
        offset := offset + 4;
        if |buffer| < offset + len {
          return NeedMore;
        }
        var payload := MaskBuffer(buffer[offset..offset + len], key);
        return Frame(opcode, payload, offset + len);
      }
      if |buffer| < offset + len {
        return NeedMore;
      }
      return Frame(opcode, buffer[offset..offset + len], offset + len);
    }

    method ReceiveClose(payload: seq<byte>)
      modifies this
      ensures View() == WsConnection.ReceiveClose(cfg, old(View()), payload)
    {
      var (code, reason) := DecodeClose(payload);
      closeCode := Some(code);
      closeReason := reason;
      if !sentClose {
        sentClose := true;
        if connected {
          var reply := EncodeClosePayload(code, Buf(reason));
          WriteFrame(CLOSE, reply);
        }
      }
      if connected {
        log := log + [Ended];
      }
    }

    /** What the loop does with a consumed frame; false means leave the loop. */
    method Handle(opcode: nat, payload: seq<byte>) returns (again: bool)
      modifies this
      ensures var p := Receive(cfg, old(View()), opcode, payload); View() == p.conn && again == p.Again?
    {
      if opcode == TEXT {
        match Utf8.DecodeFatal(payload) {
          case None =>
            Fail(1007, "Invalid UTF-8");
            return false;
          case Some(text) =>
            log := log + [TextMessage(text)];
            return true;
        }
      }
      if opcode == BINARY {
        log := log + [BinaryMessage(payload)];
        return true;
      }
      if opcode == PING {
        if connected {
          WriteFrame(PONG, payload);
        }
        return true;
      }
      if opcode == PONG {
        return true;
      }
      if opcode == CLOSE {
        ReceiveClose(payload);
        return true;
      }
      Fail(1002, "Unsupported opcode");
      return false;
    }

    /** The loop over the buffer; each pass that goes round again removes a whole frame. */
    method DrainFrames()
      modifies this
      ensures View() == Drain(cfg, old(View()))
    {
      while true
        invariant Drain(cfg, View()) == Drain(cfg, old(View()))
        decreases |buffer|
      {
        ghost var before := View();
        StepShrinks(cfg, before);
        var r := ParseBuffer();
        match r {
          case NeedMore =>
            return;
          case Reject(code, reason) =>
            Fail(code, reason);
            return;
          case Frame(opcode, payload, n) =>
            taken := taken + [buffer[..n]];
            buffer := buffer[n..];
            assert View() == Take(before, n);
            var again := Handle(opcode, payload);
            if !again {
              return;
            }
        }
      }
    }

    method OnData(chunk: seq<byte>)
      modifies this
      ensures View() == WsConnection.OnData(cfg, old(View()), chunk)
    {
      if chunk == [] {
        return;
      }
      buffer := buffer + chunk;
      DrainFrames();
    }

    method InitFromSocket(head: seq<byte>)
      modifies this
      ensures View() == Connect(cfg, old(View()), head)
    {
      connected := true;
      buffer := head;
      if |buffer| > 0 {
        DrainFrames();
      }
    }

    method OnSocketClose()
      modifies this
      ensures View() == SocketClosed(old(View()))
    {
      if closeEmitted {
        return;
      }
      closeEmitted := true;
      var code := match closeCode case Some(n) => n case None => if sentClose then 1000 else 1006;
      log := log + [CloseEvent(code, closeReason)];
    }
  }
}
