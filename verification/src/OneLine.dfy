/** One-line, byte-bounded text: the formatter that every string close reason passes through.
    `FormatOneLine` is the single-pass form; `Truncate(Sanitize(t), n)` is the two-pass form, and
    `JoinWords(Words(t))` says what a sanitised line is. */
module OneLine {
  import opened Bytes
  import opened Utf8
  import Seqs

  const SPACE: CodePoint := 0x20

  /** Control characters, line separators and everything the `\s` class matches. */
  predicate Blank(c: CodePoint) {
    c <= 0x20 || c == 0x7F || c == 0x85 || c == 0xA0 || c == 0x1680 || 0x2000 <= c <= 0x200A
    || c == 0x2028 || c == 0x2029 || c == 0x202F || c == 0x205F || c == 0x3000 || c == BYTE_ORDER_MARK
  }

  /** The maximal runs of characters that are not blank. */
  function Words(t: Text): (ws: seq<Text>)
    ensures t != [] && !Blank(t[0]) ==> ws != []
  {
    if t == [] then []
    else if Blank(t[0]) then Words(t[1..])
    else if |t| == 1 || Blank(t[1]) then [[t[0]]] + Words(t[1..])
    else
      var ws := Words(t[1..]);
      [[t[0]] + ws[0]] + ws[1..]
  }

  function JoinWords(ws: seq<Text>): Text {
    if ws == [] then []
    else if |ws| == 1 then ws[0]
    else ws[0] + ([SPACE] + JoinWords(ws[1..]))
  }

  /** What the sanitising loop still emits, given whether it has emitted anything and whether a
      space is owed. */
  function Emit(t: Text, started: bool, pending: bool): Text {
    if t == [] then []
    else if Blank(t[0]) then Emit(t[1..], started, started)
    else (if pending then [SPACE] else []) + [t[0]] + Emit(t[1..], true, false)
  }

  function Sanitize(t: Text): Text {
    Emit(t, false, false)
  }

  lemma JoinCons(w: Text, ws: seq<Text>)
    ensures JoinWords([w] + ws) == if ws == [] then w else w + ([SPACE] + JoinWords(ws))
  {
    assert ([w] + ws)[1..] == ws;
  }

  lemma JoinGrow(c: CodePoint, ws: seq<Text>)
    requires ws != []
    ensures JoinWords([[c] + ws[0]] + ws[1..]) == [c] + JoinWords(ws)
  {
    var w, rest := ws[0], ws[1..];
    JoinCons([c] + w, rest);
    assert ws == [w] + rest;
    JoinCons(w, rest);
    Seqs.Assoc([c], w, [SPACE] + JoinWords(rest));
  }

  lemma {:induction false} EmitIsJoin(t: Text)
    ensures Emit(t, true, true) == if Words(t) == [] then [] else [SPACE] + JoinWords(Words(t))
    ensures Emit(t, false, false) == JoinWords(Words(t))
    ensures t != [] && !Blank(t[0]) ==> Emit(t, true, false) == JoinWords(Words(t))
    decreases |t|
  {
    if t == [] {
    } else {
      EmitIsJoin(t[1..]);
      if !Blank(t[0]) {
        assert Emit(t, false, false) == [t[0]] + Emit(t[1..], true, false);
        assert Emit(t, true, false) == [t[0]] + Emit(t[1..], true, false);
        assert Emit(t, true, true) == [SPACE] + ([t[0]] + Emit(t[1..], true, false));
        if |t| == 1 || Blank(t[1]) {
          JoinCons([t[0]], Words(t[1..]));
          if |t| > 1 {
            assert Emit(t[1..], true, false) == Emit(t[1..], true, true);
          }
        } else {
          JoinGrow(t[0], Words(t[1..]));
        }
      }
    }
  }

  /** Sanitising keeps the words of the input, in order, with one space between neighbours and
      none at either end. */
  lemma SanitizeIsWords(t: Text)
    ensures Sanitize(t) == JoinWords(Words(t))
  {
    EmitIsJoin(t);
  }

  lemma {:induction false} SanitizeStart(t: Text)
    ensures Sanitize(t) != [] ==> !Blank(Sanitize(t)[0])
    decreases |t|
  {
    if t != [] && Blank(t[0]) {
      SanitizeStart(t[1..]);
    }
  }

  /** The longest prefix whose encoding fits in `budget` bytes. */
  function Fit(t: Text, budget: int): (p: Text)
    ensures p <= t
  {
    if t == [] || |EncodePoint(t[0])| > budget then []
    else [t[0]] + Fit(t[1..], budget - |EncodePoint(t[0])|)
  }

  lemma {:induction false} FitFits(t: Text, budget: nat)
    ensures |Encode(Fit(t, budget))| <= budget
    decreases |t|
  {
    if t != [] && |EncodePoint(t[0])| <= budget {
      FitFits(t[1..], budget - |EncodePoint(t[0])|);
      assert Fit(t, budget)[1..] == Fit(t[1..], budget - |EncodePoint(t[0])|);
    }
  }

  /** No longer prefix of the text fits. */
  lemma {:induction false} FitIsLongest(t: Text, budget: int, q: Text)
    requires q <= t && |Encode(q)| <= budget
    ensures |q| <= |Fit(t, budget)|
    decreases |t|
  {
    if q == [] {
    } else {
      assert q[0] == t[0];
      FitIsLongest(t[1..], budget - |EncodePoint(t[0])|, q[1..]);
    }
  }

  function Truncate(t: Text, maxBytes: int): Text {
    var p := Fit(t, maxBytes);
    if maxBytes <= 0 then [] else if p == t then t else StripMark(Scalars(p))
  }

  function Format(t: Text, maxBytes: int): Text {
    Scalars(Fit(Sanitize(t), maxBytes))
  }

  lemma {:induction false} EncodeScalars(t: Text)
    ensures Encode(Scalars(t)) == Encode(t)
    decreases |t|
  {
    if t == [] {
    } else {
      EncodeScalars(t[1..]);
      assert Scalars(t)[1..] == Scalars(t[1..]);
    }
  }

  /** The single-pass formatter and the sanitise-then-truncate pair produce the same bytes, and
      never more than asked for. */
  lemma FormatRefinesTwoPass(t: Text, maxBytes: nat)
    ensures Encode(Format(t, maxBytes)) == Encode(Truncate(Sanitize(t), maxBytes))
    ensures |Encode(Format(t, maxBytes))| <= maxBytes
  {
    var p := Fit(Sanitize(t), maxBytes);
    EncodeScalars(p);
    FitFits(Sanitize(t), maxBytes);
    SanitizeStart(t);
    ScalarsAt(p);
    if maxBytes > 0 && p != [] {
      assert p[0] == Sanitize(t)[0];
      assert StripMark(Scalars(p)) == Scalars(p);
    }
  }

  lemma FitBudget(c: CodePoint, rest: Text, budget: int)
    ensures |EncodePoint(c)| <= budget ==>
              Encode(Fit([c] + rest, budget)) == EncodePoint(c) + Encode(Fit(rest, budget - |EncodePoint(c)|))
    ensures |EncodePoint(c)| > budget ==> Fit([c] + rest, budget) == []
  {
    assert ([c] + rest)[1..] == rest;
    if |EncodePoint(c)| <= budget {
      assert Fit([c] + rest, budget)[1..] == Fit(rest, budget - |EncodePoint(c)|);
    }
  }

  /** The bytes the formatter ends up with from position `i`, having written `w`. */
  ghost function Outcome(t: Text, i: nat, w: seq<byte>, pending: bool, max: int): seq<byte>
    requires i <= |t|
  {
    w + Encode(Fit(Emit(t[i..], w != [], pending), max - |w|))
  }

  lemma OutcomeAtBlank(t: Text, i: nat, w: seq<byte>, pending: bool, max: int)
    requires i < |t| && Blank(t[i])
    ensures Outcome(t, i, w, pending, max) == Outcome(t, i + 1, w, w != [], max)
  {
    assert t[i..][1..] == t[i + 1..];
  }

  lemma EmitPoint(t: Text, i: nat, started: bool)
    requires i < |t| && !Blank(t[i])
    ensures Emit(t[i..], started, false) == [t[i]] + Emit(t[i + 1..], true, false)
    ensures Emit(t[i..], started, true) == [SPACE] + Emit(t[i..], true, false)
  {
    assert t[i..][1..] == t[i + 1..];
    assert [] + [t[i]] + Emit(t[i + 1..], true, false) == [t[i]] + Emit(t[i + 1..], true, false);
    assert [SPACE] + [t[i]] + Emit(t[i + 1..], true, false) == [SPACE] + ([t[i]] + Emit(t[i + 1..], true, false));
  }

  lemma FitPush(w: seq<byte>, c: CodePoint, e: seq<byte>, rest: Text, max: int)
    requires e == EncodePoint(c)
    ensures |w| + |e| <= max ==>
              w + Encode(Fit([c] + rest, max - |w|)) == (w + e) + Encode(Fit(rest, max - |w + e|))
    ensures |w| + |e| > max ==> w + Encode(Fit([c] + rest, max - |w|)) == w
  {
    FitBudget(c, rest, max - |w|);
    if |w| + |e| <= max {
      var tail := Encode(Fit(rest, max - |w + e|));
      assert w + (e + tail) == (w + e) + tail;
    }
  }

  lemma OutcomeAtSpace(t: Text, i: nat, w: seq<byte>, max: int)
    requires i < |t| && !Blank(t[i]) && |w| < max && w != []
    ensures Outcome(t, i, w, true, max) == Outcome(t, i, w + [0x20], false, max)
  {
    EmitPoint(t, i, true);
    FitPush(w, SPACE, [0x20], Emit(t[i..], true, false), max);
  }

  lemma OutcomeAtPoint(t: Text, i: nat, w: seq<byte>, e: seq<byte>, max: int)
    requires i < |t| && !Blank(t[i]) && e == EncodePoint(t[i])
    ensures |w| + |e| <= max ==> Outcome(t, i, w, false, max) == Outcome(t, i + 1, w + e, false, max)
    ensures |w| + |e| > max ==> Outcome(t, i, w, false, max) == w
  {
    EmitPoint(t, i, w != []);
    FitPush(w, t[i], e, Emit(t[i + 1..], true, false), max);
  }

  lemma OutcomeWhenFull(t: Text, i: nat, w: seq<byte>, pending: bool, max: int)
    requires i <= |t| && (|w| >= max || i == |t|)
    ensures Outcome(t, i, w, pending, max) == w
  {
  }

  /** The byte-level loop of the formatter: `written` grows until the input ends or the next
      character does not fit. */
  method FormatOneLine(t: Text, maxBytes: int) returns (out: Text)
    ensures out == if maxBytes <= 0 then [] else Format(t, maxBytes)
  {
    if maxBytes <= 0 {
      return [];
    }
    var written: seq<byte> := [];
    var pendingSpace := false;
    var i := 0;
    ghost var target := Outcome(t, 0, [], false, maxBytes);
    while i < |t|
      invariant 0 <= i <= |t|
      invariant |written| < maxBytes
      invariant pendingSpace ==> written != []
      invariant target == Outcome(t, i, written, pendingSpace, maxBytes)
    {
      if Blank(t[i]) {
        OutcomeAtBlank(t, i, written, pendingSpace, maxBytes);
        pendingSpace := written != [];
        i := i + 1;
        continue;
      }
      if pendingSpace {
        OutcomeAtSpace(t, i, written, maxBytes);
        written := written + [0x20];
        pendingSpace := false;
        if |written| >= maxBytes {
          break;
        }
      }
      var encoded := EncodePoint(t[i]);
      OutcomeAtPoint(t, i, written, encoded, maxBytes);
      if |encoded| > maxBytes - |written| {
        out := DecodeWritten(t, maxBytes, written);
        return;
      }
      written := written + encoded;
      i := i + 1;
      if |written| >= maxBytes {
        break;
      }
    }
    OutcomeWhenFull(t, i, written, pendingSpace, maxBytes);
    out := DecodeWritten(t, maxBytes, written);
  }

  /** The bytes written are well-formed text with no leading mark, so decoding them is lossless. */
  method DecodeWritten(ghost t: Text, ghost maxBytes: nat, written: seq<byte>) returns (out: Text)
    requires written == Outcome(t, 0, [], false, maxBytes)
    ensures out == Format(t, maxBytes)
  {
    ghost var p := Fit(Sanitize(t), maxBytes);
    assert t[0..] == t && [] + Encode(p) == Encode(p);
    DecodeAllOfEncoded(p, []);
    assert Encode(p) + [] == Encode(p);
    assert Scalars(p) + [] == Scalars(p);
    SanitizeStart(t);
    ScalarsAt(p);
    assert p != [] ==> p[0] == Sanitize(t)[0];
    var decoded := DecodeAll(written);
    out := StripMark(decoded.value);
  }

  /** A control character between two letters is not dropped but becomes a space. */
  lemma ControlBecomesSpace()
    ensures Sanitize([97, 1, 98]) == [97, SPACE, 98]
  {
    SanitizeIsWords([97, 1, 98]);
    var ab: Text := [97, 1, 98];
    assert ab[1..] == [1, 98] && ab[1..][1..] == [98] && ab[1..][1..][1..] == [];
    assert Emit([98], true, true) == [SPACE] + [98] + Emit([], true, false);
    assert Emit([1, 98], true, false) == Emit([98], true, true);
    assert Emit(ab, false, false) == [] + [97] + Emit([1, 98], true, false);
  }

  /** What counts as blank: the C0 controls and DEL, NEL, the two Unicode line separators, and the white space and line
      terminators of ECMAScript. */
  lemma BlankExactly(c: CodePoint)
    ensures Blank(c) <==> (|| c <= 0x1F || c in {0x7F, 0x85, 0x2028, 0x2029}
                           || c in {0x9, 0xA, 0xB, 0xC, 0xD, 0x20, 0xA0, 0x1680, 0x202F, 0x205F, 0x3000, 0xFEFF}
                           || c in {0x2000, 0x2001, 0x2002, 0x2003, 0x2004, 0x2005, 0x2006, 0x2007, 0x2008, 0x2009}
                           || c == 0x200A)
  {
  }
}
