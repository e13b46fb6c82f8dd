/** The wire byte by byte: where the fields of a frame stand, which frames are refused and with what answer, how a Close
    goes there and back, and what a length limit means for whole runs. */
module WsWire {
  import opened Bytes
  import opened Wrappers
  import opened WsFrame
  import opened WsConnection
  import opened WsClose
  import Utf8
  import OneLine

  // Close reasons that are short plain lines

  predicate Printable(t: Utf8.Text) {
    forall i | 0 <= i < |t| :: 0x20 <= t[i] < 0x7F
  }

  /** Printable ASCII with single spaces and none at the end. */
  predicate PlainRest(t: Utf8.Text) {
    && Printable(t)
    && (t != [] ==> t[|t| - 1] != 0x20)
    && forall i | 0 < i < |t| :: t[i - 1] != 0x20 || t[i] != 0x20
  }

  lemma PlainTail(t: Utf8.Text)
    requires PlainRest(t) && t != []
    ensures PlainRest(t[1..])
    ensures t[0] == 0x20 ==> |t| > 1 && t[1] != 0x20
    ensures OneLine.Blank(t[0]) <==> t[0] == 0x20
  {
    assert forall i | 0 < i < |t| - 1 :: t[1..][i - 1] == t[i] && t[1..][i] == t[i + 1];
  }

  lemma {:induction false} EmitPlain(t: Utf8.Text, started: bool)
    requires PlainRest(t) && (t != [] && t[0] == 0x20 ==> started)
    ensures OneLine.Emit(t, started, false) == t
    decreases |t|
  {
    hide PlainRest;
    if t == [] {
    } else if t[0] != 0x20 {
      PlainTail(t);
      EmitPlain(t[1..], true);
      assert OneLine.Emit(t, started, false) == [] + [t[0]] + OneLine.Emit(t[1..], true, false);
    } else {
      PlainTail(t);
      PlainTail(t[1..]);
      assert t[1..][0] == t[1] != 0x20 && t[1..][1..] == t[2..];
      EmitPlain(t[2..], true);
      assert OneLine.Emit(t, true, false) == OneLine.Emit(t[1..], true, true);
      assert OneLine.Emit(t[1..], true, true) == [0x20] + [t[1]] + OneLine.Emit(t[2..], true, false);
    }
  }

  lemma {:induction false} FitPlain(t: Utf8.Text, budget: int)
    requires Printable(t) && |t| <= budget
    ensures OneLine.Fit(t, budget) == t
    decreases |t|
  {
    if t == [] {
    } else {
      FitPlain(t[1..], budget - 1);
      AsciiPoint(t[0]);
      hide Utf8.EncodePoint;
      assert t == [t[0]] + t[1..];
    }
  }

  lemma AsciiPoint(c: Utf8.CodePoint)
    requires c < 0x7F
    ensures Utf8.EncodePoint(c) == [c] && Utf8.Scalar(c) == c
  {
  }

  lemma {:induction false} EncodePlain(t: Utf8.Text)
    requires Printable(t)
    ensures Utf8.Scalars(t) == t
    ensures |Utf8.Encode(t)| == |t| && forall i | 0 <= i < |t| :: Utf8.Encode(t)[i] == t[i]
    decreases |t|
  {
    if t == [] {
    } else {
      EncodePlain(t[1..]);
      AsciiPoint(t[0]);
      hide Utf8.EncodePoint, Utf8.Scalar;
      assert t == [t[0]] + t[1..];
      assert Utf8.Encode(t) == [t[0]] + Utf8.Encode(t[1..]);
    }
  }

  predicate PlainString(s: string) {
    && |s| <= 123 && (forall i | 0 <= i < |s| :: ' ' <= s[i] <= '~')
    && (s != "" ==> s[0] != ' ' && s[|s| - 1] != ' ')
    && forall i | 0 < i < |s| :: s[i - 1] != ' ' || s[i] != ' '
  }

  function Ascii(s: string): (b: seq<byte>)
    requires PlainString(s)
    ensures |b| == |s|
  {
    seq(|s|, i requires 0 <= i < |s| => s[i] as int)
  }

  /** A short plain line is its own close reason. */
  lemma PlainReason(s: string)
    requires PlainString(s)
    ensures ReasonBytes(Str(Utf8.CodePoints(s))) == Ascii(s)
  {
    var t := Utf8.CodePoints(s);
    EmitPlain(t, false);
    FitPlain(t, 123);
    EncodePlain(t);
    hide OneLine.Emit, OneLine.Fit, Utf8.Scalars, Utf8.Encode;
  }

  // The refusal

  /** Attached, nothing sent to close it, nothing buffered. */
  predicate Ready(c: Conn) {
    c.connected && !c.sentClose && c.buffer == []
  }

  /** One Close frame with this code and reason, then the end of the socket. */
  function Refusal(cfg: Config, c: Conn, code: seq<byte>, reason: string): seq<Event>
    requires PlainString(reason)
  {
    [Wrote(Encode(0x8, code + Ascii(reason), NextKey(cfg, c))), Ended]
  }

  lemma FailWrites(cfg: Config, c: Conn, code: nat, reason: string)
    requires c.connected && !c.sentClose && code < 0x1_0000
    requires PlainString(reason)
    ensures var d := Fail(cfg, c, code, reason);
            && d.log == c.log + Refusal(cfg, c, [code / 256, code % 256], reason)
            && d.sentClose && d.buffer == c.buffer && d.taken == c.taken && d.closeCode == c.closeCode
  {
    hide Encode, ReasonBytes;
    PlainReason(reason);
    TwoBytes(code);
  }

  lemma TwoBytes(n: nat)
    requires n < 0x1_0000
    ensures BigEndian(n, 2) == [n / 256, n % 256]
  {
    assert BigEndian(n / 256, 1) == BigEndian(n / 256 / 256, 0) + [n / 256 % 256];
  }

  lemma HeaderReasons()
    ensures PlainString("Fragmented frames not supported")
  {
  }

  lemma MaskReasons()
    ensures PlainString("Invalid masking") && PlainString("Message too large")
  {
  }

  lemma PayloadReasons()
    ensures PlainString("Invalid UTF-8") && PlainString("Unsupported opcode")
  {
  }

  /** A chunk whose first pass fails: the refusal is all that happens. */
  lemma RefusedAtOnce(cfg: Config, c: Conn, chunk: seq<byte>, code: nat, reason: string)
    requires Ready(c) && chunk != [] && code < 0x1_0000 && PlainString(reason)
    requires Parse(chunk, cfg.isClient, cfg.maxPayload) == Reject(code, reason)
    ensures var d := OnData(cfg, c, chunk);
            && d.log == c.log + Refusal(cfg, c, [code / 256, code % 256], reason)
            && d.sentClose && d.buffer == chunk && d.taken == c.taken
  {
    hide Fail, Parse, Refusal;
    assert [] + chunk == chunk;
    FailWrites(cfg, Append(c, chunk), code, reason);
    SameKey(cfg, c, Append(c, chunk), [code / 256, code % 256], reason);
  }

  lemma SameKey(cfg: Config, c: Conn, d: Conn, code: seq<byte>, reason: string)
    requires c.drawn == d.drawn && PlainString(reason)
    ensures Refusal(cfg, c, code, reason) == Refusal(cfg, d, code, reason)
  {
  }

  /** A frame without its FIN bit is refused with 1002. */
  lemma FragmentRefused(cfg: Config, c: Conn, chunk: seq<byte>)
    requires Ready(c) && |chunk| >= 2 && chunk[0] < 0x80
    ensures PlainString("Fragmented frames not supported")
    ensures var d := OnData(cfg, c, chunk);
            && d.log == c.log + Refusal(cfg, c, [0x03, 0xEA], "Fragmented frames not supported")
            && d.sentClose && d.buffer == chunk && d.taken == c.taken
  {
    hide PlainString, Refusal, OnData;
    HeaderReasons();
    RefusedAtOnce(cfg, c, chunk, 1002, "Fragmented frames not supported");
  }

  /** A masked frame at a client, or an unmasked one at a server, is refused with 1002. */
  lemma WrongMaskRefused(cfg: Config, c: Conn, chunk: seq<byte>)
    requires Ready(c) && |chunk| >= 2 && chunk[0] >= 0x80 && (chunk[1] >= 0x80 <==> cfg.isClient)
    ensures PlainString("Invalid masking")
    ensures var d := OnData(cfg, c, chunk);
            && d.log == c.log + Refusal(cfg, c, [0x03, 0xEA], "Invalid masking")
            && d.sentClose && d.buffer == chunk && d.taken == c.taken
  {
    hide PlainString, Refusal, OnData;
    MaskReasons();
    RefusedAtOnce(cfg, c, chunk, 1002, "Invalid masking");
  }

  // Announced lengths

  /** The header at the front of `b` is there and announces `len` payload bytes, with `offset` bytes before the mask key
      or the payload. */
  predicate Announces(b: seq<byte>, len: nat, offset: nat) {
    |b| >= 2 &&
    if b[1] % 128 < 126 then len == b[1] % 128 && offset == 2
    else if b[1] % 128 == 126 then |b| >= 4 && offset == 4 && len == 0x100 * (b[2] as nat) + b[3]
    else
      && |b| >= 10 && offset == 10
      && len == 0x1_0000_0000 * Word(b[2], b[3], b[4], b[5]) + Word(b[6], b[7], b[8], b[9])
  }

  /** Four bytes, the most significant first. */
  function Word(a: nat, b: nat, c: nat, d: nat): nat {
    0x100_0000 * a + 0x1_0000 * b + 0x100 * c + d
  }

  lemma OneMoreByte(s: seq<byte>, n: nat)
    requires n < |s|
    ensures FromBigEndian(s[..n + 1]) == 256 * FromBigEndian(s[..n]) + s[n]
  {
    assert s[..n + 1][..n] == s[..n];
  }

  lemma OneMoreWord(s: seq<byte>, n: nat)
    requires n + 4 <= |s|
    ensures FromBigEndian(s[..n + 4])
            == 0x1_0000_0000 * FromBigEndian(s[..n]) + Word(s[n], s[n + 1], s[n + 2], s[n + 3])
  {
    hide FromBigEndian;
    OneMoreByte(s, n);
    OneMoreByte(s, n + 1);
    OneMoreByte(s, n + 2);
    OneMoreByte(s, n + 3);
  }

  lemma ReadsTwoWords(s: seq<byte>)
    requires |s| == 8
    ensures FromBigEndian(s) == 0x1_0000_0000 * Word(s[0], s[1], s[2], s[3]) + Word(s[4], s[5], s[6], s[7])
  {
    assert FromBigEndian(s[..0]) == 0;
    hide FromBigEndian, Word;
    OneMoreWord(s, 0);
    OneMoreWord(s, 4);
    assert s[..8] == s;
  }

  lemma ReadsTwoBytes(s: seq<byte>)
    requires |s| == 2
    ensures FromBigEndian(s) == 0x100 * (s[0] as nat) + s[1]
  {
    assert FromBigEndian(s[..0]) == 0;
    hide FromBigEndian;
    OneMoreByte(s, 0);
    OneMoreByte(s, 1);
    assert s[..2] == s;
  }

  lemma AnnouncedIsRead(b: seq<byte>, len: nat, offset: nat)
    requires Announces(b, len, offset)
    ensures ReadLength(b) == if len > 0x1F_FFFF_FFFF_FFFF then LengthOverflow else LengthOk(len, offset)
  {
    hide FromBigEndian, Word;
    if b[1] % 128 == 126 {
      ReadsTwoBytes(b[2..4]);
    } else if b[1] % 128 == 127 {
      ReadsTwoWords(b[2..10]);
    }
  }

  /** A frame this side may read: the FIN bit set, and masked exactly at a server. */
  predicate RightStart(cfg: Config, b: seq<byte>) {
    |b| >= 2 && b[0] >= 0x80 && (b[1] >= 0x80 <==> !cfg.isClient)
  }

  predicate TooLong(cfg: Config, len: nat) {
    len > 0x1F_FFFF_FFFF_FFFF || (cfg.maxPayload > 0 && len > cfg.maxPayload)
  }

  /** How many bytes the whole frame takes. */
  function WholeSize(cfg: Config, len: nat, offset: nat): nat {
    offset + (if cfg.isClient then 0 else 4) + len
  }

  /** What an accepted header leads to. */
  lemma ParseAnnounced(cfg: Config, b: seq<byte>, len: nat, offset: nat)
    requires RightStart(cfg, b) && Announces(b, len, offset)
    ensures var p := Parse(b, cfg.isClient, cfg.maxPayload);
            && (TooLong(cfg, len) ==> p == Reject(1009, "Message too large"))
            && (!TooLong(cfg, len) && |b| < WholeSize(cfg, len, offset) ==> p == NeedMore)
            && (!TooLong(cfg, len) && |b| >= WholeSize(cfg, len, offset) ==>
                  && p.Frame? && p.opcode == b[0] % 16 && p.size == WholeSize(cfg, len, offset) && |p.payload| == len
                  && forall k | 0 <= k < len ::
                       p.payload[k] == if cfg.isClient then b[offset + k]
                                       else Xor(b[offset + 4 + k], b[offset + k % 4]))
  {
    AnnouncedIsRead(b, len, offset);
    hide ReadLength, FromBigEndian, Word, Xor;
  }

  /** A header that announces too much is refused with 1009, at once and with nothing consumed; otherwise a frame that
      is not all there is waited for, and one that is all there is consumed. */
  lemma LengthJudged(cfg: Config, c: Conn, chunk: seq<byte>, len: nat, offset: nat)
    requires Ready(c) && RightStart(cfg, chunk) && Announces(chunk, len, offset)
    ensures PlainString("Message too large")
    ensures TooLong(cfg, len) ==>
              var d := OnData(cfg, c, chunk);
              && d.log == c.log + Refusal(cfg, c, [0x03, 0xF1], "Message too large")
              && d.sentClose && d.buffer == chunk && d.taken == c.taken
    ensures !TooLong(cfg, len) && |chunk| < WholeSize(cfg, len, offset) ==>
              OnData(cfg, c, chunk) == c.(buffer := chunk)
    ensures !TooLong(cfg, len) && |chunk| == WholeSize(cfg, len, offset) ==>
              var d := OnData(cfg, c, chunk); d.buffer == [] && d.taken == c.taken + [chunk]
  {
    hide PlainString, Refusal, OnData;
    MaskReasons();
    ParseAnnounced(cfg, chunk, len, offset);
    if TooLong(cfg, len) {
      RefusedAtOnce(cfg, c, chunk, 1009, "Message too large");
    } else {
      WaitedForOrTaken(cfg, c, chunk);
    }
  }

  lemma WaitedForOrTaken(cfg: Config, c: Conn, chunk: seq<byte>)
    requires c.buffer == [] && chunk != []
    ensures var p := Parse(chunk, cfg.isClient, cfg.maxPayload); var d := OnData(cfg, c, chunk);
            && (p.NeedMore? ==> d == c.(buffer := chunk))
            && (p.Frame? && p.size == |chunk| ==> d.buffer == [] && d.taken == c.taken + [chunk])
  {
    hide Parse, Receive;
    var d := Append(c, chunk);
    assert [] + chunk == chunk && chunk[..|chunk|] == chunk;
    match ParseFront(cfg, d)
    case Frame(opcode, payload, n) =>
      if n == |chunk| {
        WsChunking.ReceiveKeeps(cfg, Take(d, n), opcode, payload);
        var next := Receive(cfg, Take(d, n), opcode, payload);
        if next.Again? {
          NothingToDrain(cfg, next.conn);
        }
      }
    case _ =>
  }

  // Written frames

  lemma FourBytes(n: nat)
    requires n < 0x1_0000_0000
    ensures var s := BigEndian(n, 4); Word(s[0], s[1], s[2], s[3]) == n
  {
    Pow256Values();
    BigEndianRoundTrip(n, 4);
    var s := BigEndian(n, 4);
    assert FromBigEndian(s[..0]) == 0 && s[..4] == s;
    hide FromBigEndian, BigEndian, Word;
    OneMoreWord(s, 0);
  }

  function HeaderSize(len: nat): nat {
    if len < 126 then 2 else if len <= 0xFFFF then 4 else 10
  }

  /** A written frame: FIN and opcode, mask bit and length, the key if there is one, and the payload under the key. */
  lemma EncodeLayout(opcode: nat, payload: seq<byte>, key: Option<Key>)
    requires opcode < 16 && |payload| < 0x1_0000_0000
    ensures var f, at := Encode(opcode, payload, key), HeaderSize(|payload|) + if key.Some? then 4 else 0;
            && |f| == at + |payload| && f[0] == 0x80 + opcode && (f[1] >= 0x80 <==> key.Some?)
            && Announces(f, |payload|, HeaderSize(|payload|))
            && (key.Some? ==> f[at - 4..at] == key.value)
            && forall k | 0 <= k < |payload| ::
                 f[at + k] == if key.Some? then Xor(payload[k], key.value[k % 4]) else payload[k]
  {
    PrefixLayout(opcode, |payload|, key.Some?);
    var f, p := Encode(opcode, payload, key), Prefix(opcode, |payload|, key.Some?);
    hide Prefix, Xor, Announces;
    if key.Some? {
      assert f == p + (key.value + Masked(payload, key.value));
      AnnouncesMore(p, key.value + Masked(payload, key.value), |payload|, HeaderSize(|payload|));
    } else {
      AnnouncesMore(p, payload, |payload|, HeaderSize(|payload|));
    }
  }

  lemma AnnouncesMore(p: seq<byte>, more: seq<byte>, len: nat, offset: nat)
    requires Announces(p, len, offset)
    ensures Announces(p + more, len, offset)
  {
    hide Word;
  }

  lemma PrefixLayout(opcode: nat, len: nat, masked: bool)
    requires opcode < 16 && len < 0x1_0000_0000
    ensures var p := Prefix(opcode, len, masked);
            && |p| == HeaderSize(len) && p[0] == 0x80 + opcode && (p[1] >= 0x80 <==> masked)
            && Announces(p, len, HeaderSize(len))
  {
    hide Word, BigEndian;
    if 126 <= len <= 0xFFFF {
      TwoBytes(len);
    } else if len > 0xFFFF {
      FourBytes(0);
      FourBytes(len);
    }
  }

  // A Close there and back

  /** The frame `f` has been taken and `rest` is left. */
  function Front(c: Conn, f: seq<byte>, rest: seq<byte>): Conn {
    c.(buffer := rest, taken := c.taken + [f])
  }

  lemma CloseTaken(cfg: Config, c: Conn, payload: seq<byte>, key: Option<Key>)
    requires c.connected && c.buffer == [] && (key.None? <==> cfg.isClient)
    requires |payload| < 0x1_0000_0000 && (cfg.maxPayload > 0 ==> |payload| <= cfg.maxPayload)
    ensures var f := Encode(0x8, payload, key);
            OnData(cfg, c, f) == ReceiveClose(cfg, Front(c, f, []), payload)
  {
    hide Encode, Parse, DecodeClose, EncodeClose;
    var f := Encode(0x8, payload, key);
    var d := Append(c, f);
    assert [] + f == f && f + [] == f && f[|f|..] == [] && f[..|f|] == f;
    FrameRoundTrip(0x8, payload, key, [], cfg.maxPayload);
    assert Take(d, |f|) == Front(c, f, []);
    var next := ReceiveClose(cfg, Front(c, f, []), payload);
    assert Step(cfg, d) == Again(next);
    NothingToDrain(cfg, next);
  }

  /** One side closes with a code and a reason: its Close frame is answered by a Close frame with the same payload, both
      sockets are ended, and both sides report that code and that reason, cut to 123 bytes, when their sockets are
      gone. */
  lemma CloseHandshake(p: Config, q: Config, a: Conn, b: Conn, code: nat, reason: Reason)
    requires p.isClient != q.isClient && Ready(a) && Ready(b) && !a.closeEmitted && !b.closeEmitted
    requires code < 0x1_0000
    requires (p.maxPayload > 0 ==> 125 <= p.maxPayload) && (q.maxPayload > 0 ==> 125 <= q.maxPayload)
    ensures var payload := [code / 256, code % 256] + ReasonBytes(reason);
            var f, g := Encode(0x8, payload, NextKey(p, a)), Encode(0x8, payload, NextKey(q, b));
            var a1 := Close(p, a, code, reason);
            var b1 := OnData(q, b, f);
            var a2 := OnData(p, a1, g);
            && a1.log == a.log + [Wrote(f)] + [Ended]
            && SocketClosed(b1).log == b.log + [Wrote(g)] + [Ended] + [CloseEvent(code, ReasonBytes(reason))]
            && SocketClosed(a2).log == a1.log + [Ended] + [CloseEvent(code, ReasonBytes(reason))]
  {
    hide Encode, OnData, ReasonBytes, DecodeClose, EncodeClose;
    var payload := EncodeClose(code, reason);
    PayloadOf(code, reason);
    CloseRoundTrip(code, reason);
    CloseEcho(payload);
    CloseTaken(q, b, payload, NextKey(p, a));
    CloseTaken(p, Close(p, a, code, reason), payload, NextKey(q, b));
  }

  lemma PayloadOf(code: nat, reason: Reason)
    requires code < 0x1_0000
    ensures EncodeClose(code, reason) == [code / 256, code % 256] + ReasonBytes(reason)
  {
    hide BigEndian;
    TwoBytes(code);
  }

  // Refused payloads

  lemma BadTextFails(cfg: Config, d: Conn, payload: seq<byte>)
    requires Utf8.DecodeFatal(payload).None?
    ensures Receive(cfg, d, 0x1, payload) == Halt(Fail(cfg, d, 1007, "Invalid UTF-8"))
  {
    hide Fail;
  }

  lemma BadOpcodeFails(cfg: Config, d: Conn, opcode: nat, payload: seq<byte>)
    requires opcode !in {0x1, 0x2, 0x8, 0x9, 0xA}
    ensures Receive(cfg, d, opcode, payload) == Halt(Fail(cfg, d, 1002, "Unsupported opcode"))
  {
    hide Fail;
  }

  /** A text frame that is not well-formed UTF-8 is consumed and refused with 1007, whatever follows it. */
  lemma BadTextRefused(cfg: Config, c: Conn, payload: seq<byte>, key: Option<Key>, rest: seq<byte>)
    requires Ready(c) && (key.None? <==> cfg.isClient) && Utf8.DecodeFatal(payload).None?
    requires |payload| < 0x1_0000_0000 && (cfg.maxPayload > 0 ==> |payload| <= cfg.maxPayload)
    ensures PlainString("Invalid UTF-8")
    ensures var f := Encode(0x1, payload, key); var d := OnData(cfg, c, f + rest);
            && d.log == c.log + Refusal(cfg, c, [0x03, 0xEF], "Invalid UTF-8")
            && d.sentClose && d.buffer == rest && d.taken == c.taken + [f]
  {
    hide *;
    PayloadReasons();
    BadTextFails(cfg, Front(c, Encode(0x1, payload, key), rest), payload);
    RefusedWhenTaken(cfg, c, 0x1, payload, key, rest, 1007, "Invalid UTF-8");
  }

  /** An opcode other than text, binary, Close, Ping and Pong is consumed and refused with 1002. */
  lemma BadOpcodeRefused(cfg: Config, c: Conn, opcode: nat, payload: seq<byte>, key: Option<Key>, rest: seq<byte>)
    requires Ready(c) && (key.None? <==> cfg.isClient) && opcode < 16 && opcode !in {0x1, 0x2, 0x8, 0x9, 0xA}
    requires |payload| < 0x1_0000_0000 && (cfg.maxPayload > 0 ==> |payload| <= cfg.maxPayload)
    ensures PlainString("Unsupported opcode")
    ensures var f := Encode(opcode, payload, key); var d := OnData(cfg, c, f + rest);
            && d.log == c.log + Refusal(cfg, c, [0x03, 0xEA], "Unsupported opcode")
            && d.sentClose && d.buffer == rest && d.taken == c.taken + [f]
  {
    hide *;
    PayloadReasons();
    BadOpcodeFails(cfg, Front(c, Encode(opcode, payload, key), rest), opcode, payload);
    RefusedWhenTaken(cfg, c, opcode, payload, key, rest, 1002, "Unsupported opcode");
  }

  lemma RefusedWhenTaken(cfg: Config, c: Conn, opcode: nat, payload: seq<byte>, key: Option<Key>, rest: seq<byte>,
                         code: nat, reason: string)
    requires Ready(c) && (key.None? <==> cfg.isClient) && opcode < 16 && code < 0x1_0000 && PlainString(reason)
    requires |payload| < 0x1_0000_0000 && (cfg.maxPayload > 0 ==> |payload| <= cfg.maxPayload)
    requires var d := Front(c, Encode(opcode, payload, key), rest);
             Receive(cfg, d, opcode, payload) == Halt(Fail(cfg, d, code, reason))
    ensures var f := Encode(opcode, payload, key); var d := OnData(cfg, c, f + rest);
            && d.log == c.log + Refusal(cfg, c, [code / 256, code % 256], reason)
            && d.sentClose && d.buffer == rest && d.taken == c.taken + [f]
  {
    hide Fail, Parse, Refusal, Encode, Receive;
    var f := Encode(opcode, payload, key);
    var d := Append(c, f + rest);
    assert [] + (f + rest) == f + rest;
    assert (f + rest)[|f|..] == rest && (f + rest)[..|f|] == f;
    FrameRoundTrip(opcode, payload, key, rest, cfg.maxPayload);
    assert Take(d, |f|) == Front(c, f, rest);
    FailWrites(cfg, Front(c, f, rest), code, reason);
    SameKey(cfg, c, Front(c, f, rest), [code / 256, code % 256], reason);
  }

  // The limit over whole runs

  /** No message is longer than the limit; a text is measured by its encoding. */
  ghost predicate WithinLimit(max: int, log: seq<Event>) {
    forall i | 0 <= i < |log| ::
      match log[i]
      case BinaryMessage(p) => |p| <= max
      case TextMessage(t) => |Utf8.Encode(t)| <= max
      case _ => true
  }

  lemma TextWithin(payload: seq<byte>)
    requires Utf8.DecodeFatal(payload).Some?
    ensures |Utf8.Encode(Utf8.DecodeFatal(payload).value)| <= |payload|
  {
    Utf8.EncodeOfDecoded(payload);
  }

  lemma WithinMore(max: int, log: seq<Event>, e: Event)
    requires WithinLimit(max, log) && (e.BinaryMessage? ==> |e.payload| <= max)
    requires e.TextMessage? ==> |Utf8.Encode(e.text)| <= max
    ensures WithinLimit(max, log + [e])
  {
    hide Utf8.Encode;
  }

  lemma WriteWithin(max: int, cfg: Config, c: Conn, opcode: nat, payload: seq<byte>)
    requires WithinLimit(max, c.log)
    ensures WithinLimit(max, Write(cfg, c, opcode, payload).log)
  {
    WithinMore(max, c.log, Wrote(Encode(opcode, payload, NextKey(cfg, c))));
  }

  lemma CloseWithin(max: int, cfg: Config, c: Conn, code: int, reason: Reason)
    requires WithinLimit(max, c.log)
    ensures WithinLimit(max, Close(cfg, c, code, reason).log)
  {
    hide EncodeClose, WithinLimit;
    if !c.sentClose && c.connected && 0 <= code < 0x1_0000 {
      var d := Write(cfg, c.(sentClose := true), CLOSE, EncodeClose(code, reason));
      WriteWithin(max, cfg, c.(sentClose := true), CLOSE, EncodeClose(code, reason));
      WithinMore(max, d.log, Ended);
    }
  }

  lemma ReceiveCloseWithin(max: int, cfg: Config, c: Conn, payload: seq<byte>)
    requires WithinLimit(max, c.log)
    ensures WithinLimit(max, ReceiveClose(cfg, c, payload).log)
  {
    hide EncodeClose, DecodeClose, WithinLimit;
    var (code, reason) := DecodeClose(payload);
    var c1 := c.(closeCode := Some(code), closeReason := reason, sentClose := true);
    var c2 := Write(cfg, c1, CLOSE, EncodeClose(code, Buf(reason)));
    WriteWithin(max, cfg, c1, CLOSE, EncodeClose(code, Buf(reason)));
    WithinMore(max, c1.log, Ended);
    WithinMore(max, c2.log, Ended);
  }

  lemma ReceiveWithin(max: int, cfg: Config, c: Conn, opcode: nat, payload: seq<byte>)
    requires WithinLimit(max, c.log) && |payload| <= max
    ensures WithinLimit(max, Receive(cfg, c, opcode, payload).conn.log)
  {
    hide Close, ReceiveClose, WithinLimit, Encode, Utf8.DecodeFatal, Utf8.Encode;
    if opcode == TEXT {
      match Utf8.DecodeFatal(payload)
      case None => CloseWithin(max, cfg, c, 1007, Str(Utf8.CodePoints("Invalid UTF-8")));
      case Some(text) =>
        TextWithin(payload);
        WithinMore(max, c.log, TextMessage(text));
    } else if opcode == BINARY {
      WithinMore(max, c.log, BinaryMessage(payload));
    } else if opcode == PING {
      WriteWithin(max, cfg, c, PONG, payload);
    } else if opcode == CLOSE {
      ReceiveCloseWithin(max, cfg, c, payload);
    } else if opcode != PONG {
      CloseWithin(max, cfg, c, 1002, Str(Utf8.CodePoints("Unsupported opcode")));
    }
  }

  /** No frame longer than the limit is read. */
  lemma FrameWithin(buf: seq<byte>, isClient: bool, max: int)
    requires max > 0 && Parse(buf, isClient, max).Frame?
    ensures |Parse(buf, isClient, max).payload| <= max
  {
    hide FromBigEndian;
  }

  lemma {:induction false} DrainWithin(cfg: Config, c: Conn)
    requires cfg.maxPayload > 0 && WithinLimit(cfg.maxPayload, c.log)
    ensures WithinLimit(cfg.maxPayload, Drain(cfg, c).log)
    decreases |c.buffer|
  {
    hide Close, Receive, WithinLimit, Parse;
    StepShrinks(cfg, c);
    match ParseFront(cfg, c)
    case NeedMore =>
    case Reject(code, reason) => CloseWithin(cfg.maxPayload, cfg, c, code, Str(Utf8.CodePoints(reason)));
    case Frame(opcode, payload, n) =>
      FrameWithin(c.buffer, cfg.isClient, cfg.maxPayload);
      ReceiveWithin(cfg.maxPayload, cfg, Take(c, n), opcode, payload);
      if Step(cfg, c).Again? {
        DrainWithin(cfg, Step(cfg, c).conn);
      }
  }

  lemma ApplyWithin(cfg: Config, c: Conn, op: Op)
    requires cfg.maxPayload > 0 && WithinLimit(cfg.maxPayload, c.log)
    ensures WithinLimit(cfg.maxPayload, Apply(cfg, c, op).log)
  {
    hide Close, Drain, WithinLimit, Utf8.Encode;
    match op
    case Connected(head) => DrainWithin(cfg, c.(connected := true, buffer := head));
    case Data(chunk) => DrainWithin(cfg, Append(c, chunk));
    case CloseCall(code, reason) => CloseWithin(cfg.maxPayload, cfg, c, code, reason);
    case SendCall(m) =>
      match m {
        case TextData(t) => WriteWithin(cfg.maxPayload, cfg, c, TEXT, Utf8.Encode(t));
        case BinaryData(b) => WriteWithin(cfg.maxPayload, cfg, c, BINARY, b);
      }
    case SocketGone =>
      var code := match c.closeCode case Some(n) => n case None => if c.sentClose then 1000 else 1006;
      WithinMore(cfg.maxPayload, c.log, CloseEvent(code, c.closeReason));
  }

  /** With a limit, no run of a connection ever delivers a message whose bytes exceed it. */
  lemma {:induction false} MessagesWithinLimit(cfg: Config, ops: seq<Op>)
    requires cfg.maxPayload > 0
    ensures WithinLimit(cfg.maxPayload, Run(cfg, ops).log)
    decreases |ops|
  {
    if ops == [] {
    } else {
      MessagesWithinLimit(cfg, ops[..|ops| - 1]);
      hide WithinLimit, Apply;
      ApplyWithin(cfg, Run(cfg, ops[..|ops| - 1]), ops[|ops| - 1]);
    }
  }
}
