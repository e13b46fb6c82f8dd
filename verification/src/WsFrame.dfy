/** The WebSocket frame codec: one unfragmented frame, three length forms, optional masking. */
module WsFrame {
  import opened Bytes
  import opened Wrappers
  import Seqs

  type Key = k: seq<byte> | |k| == 4 witness [0, 0, 0, 0]

  const TEXT: nat := 0x1
  const BINARY: nat := 0x2
  const CLOSE: nat := 0x8
  const PING: nat := 0x9
  const PONG: nat := 0xA

  const MAX_SAFE_INTEGER: nat := 0x1F_FFFF_FFFF_FFFF

  function Masked(payload: seq<byte>, key: Key): (m: seq<byte>)
    ensures |m| == |payload|
  {
    seq(|payload|, i requires 0 <= i < |payload| => Xor(payload[i], key[i % 4]))
  }

  lemma MaskedTwice(payload: seq<byte>, key: Key)
    ensures Masked(Masked(payload, key), key) == payload
  {
    forall i | 0 <= i < |payload|
      ensures Masked(Masked(payload, key), key)[i] == payload[i]
    {
      XorCancels(payload[i], key[i % 4]);
    }
  }

  // Encoding

  function LengthField(len: nat): (f: nat)
    ensures f < 128
  {
    if len < 126 then len else if len <= 0xFFFF then 126 else 127
  }

  /** The extended length; the 64-bit form writes a zero high word and the low 32 bits. */
  function ExtendedLength(len: nat): seq<byte> {
    if len < 126 then []
    else if len <= 0xFFFF then BigEndian(len, 2)
    else BigEndian(0, 4) + BigEndian(len % 0x1_0000_0000, 4)
  }

  function Prefix(opcode: nat, len: nat, masked: bool): (p: seq<byte>)
    ensures |p| >= 2 && p[0] == 128 + opcode % 16
  {
    [128 + opcode % 16, (if masked then 128 else 0) + LengthField(len)] + ExtendedLength(len)
  }

  function Encode(opcode: nat, payload: seq<byte>, key: Option<Key>): (f: seq<byte>)
    ensures |f| >= 2
  {
    match key
    case None => Prefix(opcode, |payload|, false) + payload
    case Some(k) => Prefix(opcode, |payload|, true) + k + Masked(payload, k)
  }

  // Decoding

  datatype LengthRead = LengthMore | LengthOverflow | LengthOk(len: nat, offset: nat)

  datatype Parsed =
    | NeedMore
    | Reject(code: nat, reason: string)
    | Frame(opcode: nat, payload: seq<byte>, size: nat)

  function ReadLength(buf: seq<byte>): (r: LengthRead)
    requires |buf| >= 2
    ensures r.LengthOk? ==> 2 <= r.offset <= |buf| && r.offset <= 10
  {
    var field: nat := buf[1] % 128;
    if field == 126 then
      if |buf| < 4 then LengthMore else LengthOk(FromBigEndian(buf[2..4]), 4)
    else if field == 127 then
      if |buf| < 10 then LengthMore
      else
        var big := FromBigEndian(buf[2..10]);
        if big > MAX_SAFE_INTEGER then LengthOverflow else LengthOk(big, 10)
    else LengthOk(field, 2)
  }

  function ReadPayload(buf: seq<byte>, masked: bool, len: nat, offset: nat): Parsed
    requires 2 <= offset <= |buf|
  {
    var opcode: nat := buf[0] % 16;
    if masked then
      if |buf| < offset + 4 + len then NeedMore
      else Frame(opcode, Masked(buf[offset + 4..offset + 4 + len], buf[offset..offset + 4]), offset + 4 + len)
    else
      if |buf| < offset + len then NeedMore
      else Frame(opcode, buf[offset..offset + len], offset + len)
  }

  /** What one pass of the drain loop makes of the front of the buffer. */
  function Parse(buf: seq<byte>, isClient: bool, maxPayload: int): Parsed {
    if |buf| < 2 then NeedMore
    else if buf[0] < 128 then Reject(1002, "Fragmented frames not supported")
    else
      var masked := buf[1] >= 128;
      if masked != !isClient then Reject(1002, "Invalid masking")
      else
        match ReadLength(buf)
        case LengthMore => NeedMore
        case LengthOverflow => Reject(1009, "Message too large")
        case LengthOk(len, offset) =>
          if maxPayload > 0 && len > maxPayload then Reject(1009, "Message too large")
          else ReadPayload(buf, masked, len, offset)
  }

  /** A consumed frame takes at least two bytes, six when masked, and only bytes that are there. */
  lemma FrameSize(buf: seq<byte>, isClient: bool, maxPayload: int)
    ensures Parse(buf, isClient, maxPayload).Frame? ==>
              (if isClient then 2 else 6) <= Parse(buf, isClient, maxPayload).size <= |buf|
  {
  }

  lemma ReadLengthStable(buf: seq<byte>, more: seq<byte>)
    requires |buf| >= 2 && !ReadLength(buf).LengthMore?
    ensures ReadLength(buf + more) == ReadLength(buf)
  {
    var all := buf + more;
    assert all[1] == buf[1];
    if buf[1] % 128 == 126 {
      assert all[2..4] == buf[2..4];
    } else if buf[1] % 128 == 127 {
      assert all[2..10] == buf[2..10];
    }
  }

  lemma ReadPayloadStable(buf: seq<byte>, more: seq<byte>, masked: bool, len: nat, offset: nat)
    requires 2 <= offset <= |buf| && !ReadPayload(buf, masked, len, offset).NeedMore?
    ensures ReadPayload(buf + more, masked, len, offset) == ReadPayload(buf, masked, len, offset)
  {
    var all := buf + more;
    assert all[0] == buf[0];
    if masked {
      assert all[offset..offset + 4] == buf[offset..offset + 4];
      assert all[offset + 4..offset + 4 + len] == buf[offset + 4..offset + 4 + len];
    } else {
      assert all[offset..offset + len] == buf[offset..offset + len];
    }
  }

  /** Once the front of the buffer has been judged, later bytes do not change the judgement. */
  lemma ParseStable(buf: seq<byte>, more: seq<byte>, isClient: bool, maxPayload: int)
    requires !Parse(buf, isClient, maxPayload).NeedMore?
    ensures Parse(buf + more, isClient, maxPayload) == Parse(buf, isClient, maxPayload)
  {
    assert (buf + more)[0] == buf[0] && (buf + more)[1] == buf[1];
    if buf[0] >= 128 && (buf[1] >= 128) == !isClient {
      ReadLengthStable(buf, more);
      match ReadLength(buf)
      case LengthOk(len, offset) =>
        if !(maxPayload > 0 && len > maxPayload) {
          ReadPayloadStable(buf, more, buf[1] >= 128, len, offset);
        }
      case _ =>
    }
  }

  /** A frame is judged from its own bytes alone. */
  lemma ParseLocal(buf: seq<byte>, more: seq<byte>, isClient: bool, maxPayload: int)
    requires Parse(buf + more, isClient, maxPayload).Frame?
    requires Parse(buf + more, isClient, maxPayload).size <= |buf|
    ensures Parse(buf, isClient, maxPayload) == Parse(buf + more, isClient, maxPayload)
  {
    var all := buf + more;
    FrameSize(all, isClient, maxPayload);
    assert all[0] == buf[0] && all[1] == buf[1];
    var LengthOk(len, offset) := ReadLength(all);
    assert offset <= |buf|;
    assert !ReadLength(buf).LengthMore?;
    ReadLengthStable(buf, more);
    assert !ReadPayload(buf, buf[1] >= 128, len, offset).NeedMore?;
    ReadPayloadStable(buf, more, buf[1] >= 128, len, offset);
  }

  // Round trip

  /** The length a receiver reads from the header of an encoded frame. */
  function Carried(len: nat): nat {
    if len <= 0xFFFF then len else len % 0x1_0000_0000
  }

  lemma PrefixReadsBack(opcode: nat, len: nat, masked: bool, rest: seq<byte>)
    ensures var buf := Prefix(opcode, len, masked) + rest;
            && |buf| >= 2
            && buf[0] == 128 + opcode % 16
            && (buf[1] >= 128 <==> masked)
            && ReadLength(buf) ==
               LengthOk(Carried(len), |Prefix(opcode, len, masked)|)
  {
    var buf := Prefix(opcode, len, masked) + rest;
    assert buf[1] % 128 == LengthField(len);
    Pow256Values();
    if 126 <= len <= 0xFFFF {
      assert buf[2..4] == BigEndian(len, 2);
      BigEndianRoundTrip(len, 2);
    } else if len > 0xFFFF {
      var low := len % 0x1_0000_0000;
      assert buf[2..10] == BigEndian(0, 4) + BigEndian(low, 4);
      FromBigEndianZeros(4, BigEndian(low, 4));
      BigEndianRoundTrip(low, 4);
    }
  }

  lemma EncodedPayloadReadsBack(opcode: nat, payload: seq<byte>, key: Option<Key>, rest: seq<byte>)
    ensures var pre := Prefix(opcode, |payload|, key.Some?);
            ReadPayload(Encode(opcode, payload, key) + rest, key.Some?, |payload|, |pre|) ==
            Frame(opcode % 16, payload, |Encode(opcode, payload, key)|)
  {
    hide Prefix, Xor;
    var pre := Prefix(opcode, |payload|, key.Some?);
    match key
    case None =>
      Seqs.Middle(pre, payload, rest);
    case Some(k) =>
      MaskedTwice(payload, k);
      ReadMasked(pre, k, payload, rest);
  }

  lemma ReadMasked(pre: seq<byte>, k: Key, payload: seq<byte>, rest: seq<byte>)
    requires |pre| >= 2
    ensures ReadPayload(pre + k + Masked(payload, k) + rest, true, |payload|, |pre|) ==
            Frame(pre[0] % 16, Masked(Masked(payload, k), k), |pre + k + Masked(payload, k)|)
  {
    hide Masked;
    var m := Masked(payload, k);
    var buf := pre + k + m + rest;
    Seqs.Middle(pre + k, m, rest);
    Seqs.Middle(pre, k, m + rest);
    Seqs.Assoc(pre + k, m, rest);
    assert buf[0] == pre[0];
  }

  lemma EncodedSplit(opcode: nat, payload: seq<byte>, key: Option<Key>, rest: seq<byte>) returns (tail: seq<byte>)
    ensures Encode(opcode, payload, key) + rest == Prefix(opcode, |payload|, key.Some?) + tail
    ensures tail == (if key.Some? then key.value + Masked(payload, key.value) else payload) + rest
  {
    var pre := Prefix(opcode, |payload|, key.Some?);
    match key
    case None =>
      tail := payload + rest;
    case Some(k) =>
      tail := k + Masked(payload, k) + rest;
      assert pre + k + Masked(payload, k) + rest == pre + (k + Masked(payload, k) + rest);
  }

  lemma ParseByParts(buf: seq<byte>, masked: bool, maxPayload: int, len: nat, offset: nat)
    requires |buf| >= 2 && buf[0] >= 128 && (buf[1] >= 128 <==> masked)
    requires ReadLength(buf) == LengthOk(len, offset)
    requires maxPayload > 0 ==> len <= maxPayload
    ensures Parse(buf, !masked, maxPayload) == ReadPayload(buf, masked, len, offset)
  {
  }

  /** The codec law: at the receiving role, an encoded frame parses back to its opcode and payload,
      consuming exactly its own bytes, whatever follows it and whatever key masked it. */
  lemma FrameRoundTrip(opcode: nat, payload: seq<byte>, key: Option<Key>, rest: seq<byte>, maxPayload: int)
    requires |payload| < 0x1_0000_0000
    requires maxPayload > 0 ==> |payload| <= maxPayload
    ensures Parse(Encode(opcode, payload, key) + rest, key.None?, maxPayload) ==
            Frame(opcode % 16, payload, |Encode(opcode, payload, key)|)
  {
    hide Parse, Encode, Prefix, ReadPayload;
    var tail := EncodedSplit(opcode, payload, key, rest);
    PrefixReadsBack(opcode, |payload|, key.Some?, tail);
    EncodedPayloadReadsBack(opcode, payload, key, rest);
    var pre := Prefix(opcode, |payload|, key.Some?);
    ParseByParts(pre + tail, key.Some?, maxPayload, |payload|, |pre|);
  }

  /** The bound is exact: a payload of 2^32 bytes or more never parses back, because only the low
      32 bits of its length are written. */
  lemma FrameRoundTripExact(opcode: nat, payload: seq<byte>, key: Option<Key>)
    ensures Parse(Encode(opcode, payload, key), key.None?, 0) ==
            Frame(opcode % 16, payload, |Encode(opcode, payload, key)|)
            <==> |payload| < 0x1_0000_0000
  {
    var f := Encode(opcode, payload, key);
    assert f + [] == f;
    if |payload| < 0x1_0000_0000 {
      FrameRoundTrip(opcode, payload, key, [], 0);
    } else {
      var tail := EncodedSplit(opcode, payload, key, []);
      PrefixReadsBack(opcode, |payload|, key.Some?, tail);
    }
  }

  lemma PrefixOfHeader(buf: seq<byte>)
    requires |buf| >= 2 && 128 <= buf[0] < 144 && ReadLength(buf).LengthOk?
    requires LengthField(ReadLength(buf).len) == buf[1] % 128 && ReadLength(buf).len < 0x1_0000_0000
    ensures Prefix(buf[0] % 16, ReadLength(buf).len, buf[1] >= 128) == buf[..ReadLength(buf).offset]
  {
    hide BigEndian, FromBigEndian;
    var LengthOk(len, offset) := ReadLength(buf);
    if buf[1] % 128 == 126 {
      BigEndianOfRead(buf[2..4]);
      assert ExtendedLength(len) == buf[2..4];
      assert buf[..4] == [buf[0], buf[1]] + buf[2..4];
    } else if buf[1] % 128 == 127 {
      LongLengthOfRead(buf[2..10]);
      assert ExtendedLength(len) == buf[2..10];
      assert buf[..10] == [buf[0], buf[1]] + buf[2..10];
    } else {
      assert buf[..2] == [buf[0], buf[1]] + ExtendedLength(len);
    }
  }

  lemma LongLengthOfRead(s: seq<byte>)
    requires |s| == 8 && FromBigEndian(s) < 0x1_0000_0000
    ensures BigEndian(0, 4) + BigEndian(FromBigEndian(s), 4) == s
  {
    Pow256Values();
    BigEndianOfRead(s);
    BigEndianPad(FromBigEndian(s), 4, 4);
  }

  /** The key bytes that follow the length of a masked frame. */
  function HeaderKey(buf: seq<byte>, isClient: bool, maxPayload: int): Option<Key>
    requires Parse(buf, isClient, maxPayload).Frame?
  {
    var offset := ReadLength(buf).offset;
    if isClient then None else Some(buf[offset..offset + 4])
  }

  /** Clear reserved bits and the shortest length form, below 2^32. */
  predicate Canonical(buf: seq<byte>, len: nat)
    requires |buf| >= 2
  {
    buf[0] < 144 && LengthField(len) == buf[1] % 128 && len < 0x1_0000_0000
  }

  lemma CanonicalIsEncoded(buf: seq<byte>, isClient: bool, maxPayload: int)
    requires Parse(buf, isClient, maxPayload).Frame?
    requires Canonical(buf, |Parse(buf, isClient, maxPayload).payload|)
    ensures var Frame(opcode, payload, size) := Parse(buf, isClient, maxPayload);
            size <= |buf| && buf[..size] == Encode(opcode, payload, HeaderKey(buf, isClient, maxPayload))
  {
    hide Prefix, Xor, FromBigEndian;
    var Frame(opcode, payload, size) := Parse(buf, isClient, maxPayload);
    var offset := ReadLength(buf).offset;
    PrefixOfHeader(buf);
    if isClient {
      assert buf[..size] == buf[..offset] + buf[offset..size];
    } else {
      MaskedTwice(buf[offset + 4..size], buf[offset..offset + 4]);
      assert buf[..size] == buf[..offset] + buf[offset..offset + 4] + buf[offset + 4..size];
    }
  }

  lemma EncodedIsCanonical(buf: seq<byte>, n: nat, opcode: nat, payload: seq<byte>, key: Option<Key>)
    requires n <= |buf| && buf[..n] == Encode(opcode, payload, key)
    requires |buf| >= 2 && ReadLength(buf).LengthOk? && ReadLength(buf).len == |payload|
    ensures Canonical(buf, |payload|)
  {
    var tail := EncodedSplit(opcode, payload, key, buf[n..]);
    assert buf[..n] + buf[n..] == buf;
    PrefixReadsBack(opcode, |payload|, key.Some?, tail);
  }

  /** The frames the decoder accepts that the encoder would also write are exactly the canonical
      ones; it accepts set reserved bits and longer length forms as well. */
  lemma AcceptedSpelling(buf: seq<byte>, isClient: bool, maxPayload: int)
    requires Parse(buf, isClient, maxPayload).Frame?
    ensures var Frame(opcode, payload, size) := Parse(buf, isClient, maxPayload);
            && size <= |buf|
            && (buf[..size] == Encode(opcode, payload, HeaderKey(buf, isClient, maxPayload))
                <==> Canonical(buf, |payload|))
  {
    var Frame(opcode, payload, size) := Parse(buf, isClient, maxPayload);
    if Canonical(buf, |payload|) {
      CanonicalIsEncoded(buf, isClient, maxPayload);
    } else if buf[..size] == Encode(opcode, payload, HeaderKey(buf, isClient, maxPayload)) {
      EncodedIsCanonical(buf, size, opcode, payload, HeaderKey(buf, isClient, maxPayload));
    }
  }

  /** The encoder as written: header bytes, extended length, then the mask loop over the payload. */
  method EncodeFrame(opcode: nat, payload: seq<byte>, key: Option<Key>) returns (frame: seq<byte>)
    ensures frame == Encode(opcode, payload, key)
  {
    var n := |payload|;
    var lenField, extended: seq<byte> := n, [];
    if n >= 126 {
      if n <= 0xFFFF {
        lenField, extended := 126, BigEndian(n, 2);
      } else {
        lenField, extended := 127, BigEndian(0, 4) + BigEndian(n % 0x1_0000_0000, 4);
      }
    }
    var maskBit := if key.Some? then 128 else 0;
    frame := [128 + opcode % 16, maskBit + lenField] + extended;
    match key {
      case None =>
        frame := frame + payload;
      case Some(k) =>
        var masked := MaskBuffer(payload, k);
        frame := frame + k + masked;
    }
  }

  /** The byte loop shared by masking and unmasking, filling a buffer of the payload's length. */
  method MaskBuffer(payload: seq<byte>, key: Key) returns (masked: seq<byte>)
    ensures masked == Masked(payload, key)
  {
    var buffer := new byte[|payload|];
    for i := 0 to |payload|
      invariant forall j | 0 <= j < i :: buffer[j] == Masked(payload, key)[j]
    {
      buffer[i] := Xor(payload[i], key[i % 4]);
    }
    masked := buffer[..];
  }

  // Spellings the encoder does not write

  /** A frame with a reserved bit set is read like one without. */
  lemma ReservedBitIsAccepted()
    ensures Parse([0xC1, 0], true, 0) == Frame(TEXT, [], 2) && Encode(TEXT, [], None) == [0x81, 0]
  {
    assert [0xC1, 0][2..2] == [];
  }

  /** An empty payload may be announced in sixteen bits. */
  lemma LongLengthIsAccepted()
    ensures Parse([0x82, 126, 0, 0], true, 0) == Frame(BINARY, [], 4) && Encode(BINARY, [], None) == [0x82, 0]
  {
    var buf: seq<byte> := [0x82, 126, 0, 0];
    assert buf[2..4] == [0, 0] && [0, 0][..1] == [0];
    assert FromBigEndian([0]) == 0 by {
      assert [0][..0] == [];
    }
    assert FromBigEndian([0, 0]) == 0;
    assert buf[4..4] == [];
  }

  /** A payload of exactly 2^32 bytes is announced as empty, and read as an empty frame followed by its own bytes. */
  lemma HugePayloadReadsAsEmpty(payload: seq<byte>)
    requires |payload| == 0x1_0000_0000
    ensures Parse(Encode(BINARY, payload, None), true, 0) == Frame(BINARY, [], 10)
  {
    var ext, f := ExtendedLength(|payload|), Encode(BINARY, payload, None);
    BigEndianPad(0, 4, 4);
    assert ext == BigEndian(0, 8);
    FromBigEndianZeros(8, []);
    assert BigEndian(0, 8) + [] == BigEndian(0, 8);
    assert f[2..10] == ext;
    assert f[10..10] == [];
  }
}
