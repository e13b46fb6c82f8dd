/** Subprotocol negotiation: the list a client offers, the header it becomes, and what the server
    reads from that header. */
module Subprotocol {
  import opened Wrappers
  import opened TokenList
  import Seqs

  const MAX_HEADER_LEN: nat := 4096
  const MAX_TOKENS: nat := 32

  datatype Part = Text(s: Str) | NotText

  /** A header value: absent (or of no known type), one string, or an array. */
  datatype Header = Absent | Single(s: Str) | Many(parts: seq<Part>)

  datatype OfferError = TooMany | InvalidToken | TooLong

  // Server

  function ReadParts(parts: seq<Part>, out: seq<Str>, total: nat): Option<seq<Str>>
    requires |out| <= MAX_TOKENS
  {
    if parts == [] then Some(out)
    else
      match parts[0]
      case NotText => None
      case Text(s) =>
        if total + |s| > MAX_HEADER_LEN then None
        else
          match Parse(s, MAX_HEADER_LEN, MAX_TOKENS - |out|)
          case None => None
          case Some(ts) =>
            if |out + ts| >= MAX_TOKENS then Some(out + ts)
            else ReadParts(parts[1..], out + ts, total + |s|)
  }

  function ReadHeader(h: Header): Option<seq<Str>> {
    match h
    case Absent => Some([])
    case Single(s) => Parse(s, MAX_HEADER_LEN, MAX_TOKENS)
    case Many(parts) => ReadParts(parts, [], 0)
  }

  method ParseProtocolsHeader(h: Header) returns (r: Option<seq<Str>>)
    ensures r == ReadHeader(h)
    ensures h.Absent? ==> r == Some([])
    ensures h.Single? ==>
              && (r.Some? <==> |h.s| <= 4096 && |Tokens(h.s)| <= 32 && AllTokensValid(Tokens(h.s)))
              && (r.Some? ==> r.value == Tokens(h.s))
  {
    match h {
      case Absent =>
        r := Some([]);
      case Single(s) =>
        r := CommaSeparatedTokens(s, MAX_HEADER_LEN, MAX_TOKENS);
      case Many(parts) =>
        var total: nat := 0;
        var out: seq<Str> := [];
        var i := 0;
        assert parts[0..] == parts;
        hide Parse;
        while i < |parts|
          invariant 0 <= i <= |parts| && |out| < MAX_TOKENS
          invariant ReadParts(parts, [], 0) == ReadParts(parts[i..], out, total)
        {
          assert parts[i..][0] == parts[i] && parts[i..][1..] == parts[i + 1..];
          if parts[i].NotText? {
            return None;
          }
          total := total + |parts[i].s|;
          if total > MAX_HEADER_LEN {
            return None;
          }
          var tokens := CommaSeparatedTokens(parts[i].s, MAX_HEADER_LEN, MAX_TOKENS - |out|);
          if tokens.None? {
            return None;
          }
          out := out + tokens.value;
          i := i + 1;
          if |out| >= MAX_TOKENS {
            return Some(out);
          }
        }
        r := Some(out);
    }
  }

  // An array header against its comma-join

  function Join(ss: seq<Str>): Str {
    if ss == [] then []
    else if |ss| == 1 then ss[0]
    else ss[0] + [COMMA] + Join(ss[1..])
  }

  function TotalLen(ss: seq<Str>): nat {
    if ss == [] then 0 else |ss[0]| + TotalLen(ss[1..])
  }

  function Texts(ss: seq<Str>): (parts: seq<Part>)
    ensures |parts| == |ss| && forall i | 0 <= i < |ss| :: parts[i] == Text(ss[i])
  {
    if ss == [] then [] else [Text(ss[0])] + Texts(ss[1..])
  }

  function AllTokens(ss: seq<Str>): seq<Str> {
    if ss == [] then [] else Tokens(ss[0]) + AllTokens(ss[1..])
  }

  lemma {:induction false} JoinFacts(ss: seq<Str>)
    ensures Tokens(Join(ss)) == AllTokens(ss)
    ensures TotalLen(ss) <= |Join(ss)|
    decreases |ss|
  {
    if ss == [] {
      TokensPiece([]);
    } else if |ss| == 1 {
      assert AllTokens(ss[1..]) == [];
      assert Tokens(ss[0]) + [] == Tokens(ss[0]);
    } else {
      JoinFacts(ss[1..]);
      TokensConcat(ss[0], Join(ss[1..]));
    }
  }

  /** Some prefix of the array holds exactly the maximum number of tokens, all valid, and a later
      part holds another: the loop stops early and never sees it. */
  predicate StopsEarly(ss: seq<Str>, out: seq<Str>) {
    ss != [] &&
    var o := out + Tokens(ss[0]);
    && AllTokensValid(o) && |o| <= MAX_TOKENS
    && if |o| == MAX_TOKENS then AllTokens(ss[1..]) != [] else StopsEarly(ss[1..], o)
  }

  function Judge(ts: seq<Str>): Option<seq<Str>> {
    if |ts| > MAX_TOKENS || !AllTokensValid(ts) then None else Some(ts)
  }

  lemma ValidConcat(a: seq<Str>, b: seq<Str>)
    ensures AllTokensValid(a + b) <==> AllTokensValid(a) && AllTokensValid(b)
  {
    hide IsToken;
    if AllTokensValid(a + b) {
      assert forall i | 0 <= i < |a| :: a[i] == (a + b)[i];
      assert forall i | 0 <= i < |b| :: b[i] == (a + b)[|a| + i];
    }
  }

  lemma {:induction false} ReadPartsJudges(ss: seq<Str>, out: seq<Str>, total: nat)
    requires |out| < MAX_TOKENS && AllTokensValid(out) && total + TotalLen(ss) <= MAX_HEADER_LEN
    ensures ReadParts(Texts(ss), out, total) == Judge(out + AllTokens(ss)) <==> !StopsEarly(ss, out)
    decreases |ss|
  {
    hide Tokens, AllTokensValid;
    if ss == [] {
      assert out + [] == out;
    } else {
      var ts, rest := Tokens(ss[0]), AllTokens(ss[1..]);
      var o := out + ts;
      Seqs.Assoc(out, ts, rest);
      ValidConcat(out, ts);
      ValidConcat(o, rest);
      assert Texts(ss)[1..] == Texts(ss[1..]);
      if AllTokensValid(ts) && |o| < MAX_TOKENS {
        ReadPartsJudges(ss[1..], o, total + |ss[0]|);
      } else if rest == [] {
        assert o + [] == o;
      }
    }
  }

  /** An array header reads like its comma-join, when the join is not too long, exactly when the loop
      does not stop early. */
  lemma ArrayReadsLikeJoin(ss: seq<Str>)
    requires |Join(ss)| <= MAX_HEADER_LEN
    ensures ReadHeader(Many(Texts(ss))) == ReadHeader(Single(Join(ss))) <==> !StopsEarly(ss, [])
  {
    JoinFacts(ss);
    ReadPartsJudges(ss, [], 0);
    assert [] + AllTokens(ss) == AllTokens(ss);
  }

  /** An array is refused for a part that is no text, and for one that makes it longer than 4096, unless the loop has
      stopped before. */
  lemma {:induction false} PartRefused(ss: seq<Str>, bad: Part, more: seq<Part>, out: seq<Str>, total: nat)
    requires |out + AllTokens(ss)| < 32 && total + TotalLen(ss) <= 4096
    requires bad.NotText? || total + TotalLen(ss) + |bad.s| > 4096
    ensures ReadParts(Texts(ss) + [bad] + more, out, total) == None
    decreases |ss|
  {
    hide Tokens;
    var parts := Texts(ss) + [bad] + more;
    if ss == [] {
      assert parts[0] == bad;
    } else {
      assert parts[0] == Text(ss[0]) && parts[1..] == Texts(ss[1..]) + [bad] + more;
      Seqs.Assoc(out, Tokens(ss[0]), AllTokens(ss[1..]));
      PartRefused(ss[1..], bad, more, out + Tokens(ss[0]), total + |ss[0]|);
    }
  }

  lemma ArrayRefused(ss: seq<Str>, bad: Part, more: seq<Part>)
    requires |AllTokens(ss)| < 32 && TotalLen(ss) <= 4096
    requires bad.NotText? || TotalLen(ss) + |bad.s| > 4096
    ensures ReadHeader(Many(Texts(ss) + [bad] + more)) == None
  {
    hide Tokens;
    assert [] + AllTokens(ss) == AllTokens(ss);
    PartRefused(ss, bad, more, [], 0);
  }

  /** In particular whenever there are at most 32 tokens in all. */
  lemma {:induction false} FewTokensNeverStopEarly(ss: seq<Str>, out: seq<Str>)
    requires |out| + |AllTokens(ss)| <= MAX_TOKENS
    ensures !StopsEarly(ss, out)
    decreases |ss|
  {
    if ss == [] {
    } else {
      FewTokensNeverStopEarly(ss[1..], out + Tokens(ss[0]));
    }
  }

  // Client

  /** The header text: the protocols separated by a comma and a space. */
  function JoinOffer(ps: seq<Str>): Str {
    if ps == [] then []
    else if |ps| == 1 then ps[0]
    else ps[0] + [COMMA] + ([SPACE] + JoinOffer(ps[1..]))
  }

  /** A comma and a space between neighbours. */
  lemma JoinOfferSpelled(p: Str, ps: seq<Str>)
    requires ps != []
    ensures JoinOffer([p]) == p && JoinOffer([p] + ps) == p + [0x2C, 0x20] + JoinOffer(ps)
  {
    assert ([p] + ps)[1..] == ps;
    assert p + [COMMA] + ([SPACE] + JoinOffer(ps)) == p + [0x2C, 0x20] + JoinOffer(ps);
  }

  lemma {:induction false} JoinOfferLen(ps: seq<Str>)
    requires ps != []
    ensures |JoinOffer(ps)| == TotalLen(ps) + 2 * (|ps| - 1)
    decreases |ps|
  {
    if |ps| > 1 {
      JoinOfferLen(ps[1..]);
    } else {
      assert TotalLen(ps[1..]) == 0;
    }
  }

  /** Total length of a prefix, as the client's loop accumulates it. */
  lemma {:induction false} TotalLenAppend(ps: seq<Str>, p: Str)
    ensures TotalLen(ps + [p]) == TotalLen(ps) + |p|
    decreases |ps|
  {
    if ps == [] {
      assert ps + [p] == [p];
    } else {
      assert (ps + [p])[1..] == ps[1..] + [p];
      TotalLenAppend(ps[1..], p);
    }
  }

  lemma {:induction false} TotalLenPrefix(ps: seq<Str>, k: nat)
    requires k <= |ps|
    ensures TotalLen(ps[..k]) <= TotalLen(ps)
    decreases |ps|
  {
    if k == 0 {
    } else {
      TotalLenPrefix(ps[1..], k - 1);
      assert ps[..k][1..] == ps[1..][..k - 1];
    }
  }

  predicate Acceptable(ps: seq<Str>) {
    |ps| <= MAX_TOKENS && AllTokensValid(ps) && |JoinOffer(ps)| <= MAX_HEADER_LEN
  }

  /** The client's checks accept exactly the lists of at most 32 tokens whose header fits; no header
      is sent for an empty list. */
  method OfferProtocols(ps: seq<Str>) returns (r: Result<Option<Str>, OfferError>)
    ensures r.Ok? <==> Acceptable(ps)
    ensures r.Ok? ==> r.value == if ps == [] then None else Some(JoinOffer(ps))
    ensures r == Err(TooMany) <==> |ps| > MAX_TOKENS
    ensures r == Err(InvalidToken) ==> !AllTokensValid(ps)
    ensures r == Err(TooLong) ==> |JoinOffer(ps)| > MAX_HEADER_LEN
  {
    if |ps| > MAX_TOKENS {
      return Err(TooMany);
    }
    if ps == [] {
      return Ok(None);
    }
    JoinOfferLen(ps);
    var total := 0;
    hide IsToken, JoinOffer;
    for i := 0 to |ps|
      invariant AllTokensValid(ps[..i])
      invariant total == TotalLen(ps[..i])
    {
      if !IsToken(ps[i]) {
        return Err(InvalidToken);
      }
      total := total + |ps[i]|;
      assert ps[..i + 1] == ps[..i] + [ps[i]];
      TotalLenAppend(ps[..i], ps[i]);
      if total > MAX_HEADER_LEN {
        TotalLenPrefix(ps, i + 1);
        return Err(TooLong);
      }
    }
    assert ps[..|ps|] == ps;
    if total + (|ps| - 1) * 2 > MAX_HEADER_LEN {
      return Err(TooLong);
    }
    r := Ok(Some(JoinOffer(ps)));
  }

  // Round trip

  lemma TokenIsPlain(t: Str)
    requires IsToken(t)
    ensures NoComma(t) && TrimLeft(t) == t && TrimRight(t) == t
    ensures TrimLeft([SPACE] + t) == t && NoComma([SPACE] + t)
  {
    assert forall i | 0 <= i < |t| :: IsTchar(t[i]);
    assert ([SPACE] + t)[1..] == t;
  }

  lemma TokenIsKept(pre: Str, t: Str)
    requires IsToken(t) && (pre == [] || pre == [SPACE])
    ensures NoComma(pre + t) && Kept(pre + t) == [t]
  {
    TokenIsPlain(t);
    assert [] + t == t;
  }

  lemma {:induction false} OfferTokens(pre: Str, ps: seq<Str>)
    requires AllTokensValid(ps) && (pre == [] || pre == [SPACE]) && ps != []
    ensures Tokens(pre + JoinOffer(ps)) == ps
    decreases |ps|
  {
    hide Tokens, Kept, IsToken, NoComma;
    TokenIsKept(pre, ps[0]);
    if |ps| == 1 {
      TokensPiece(pre + ps[0]);
    } else {
      var tail := [SPACE] + JoinOffer(ps[1..]);
      OfferTokens([SPACE], ps[1..]);
      assert pre + (ps[0] + [COMMA] + tail) == (pre + ps[0]) + [COMMA] + tail;
      TokensAtComma(pre + ps[0], tail);
      assert [ps[0]] + ps[1..] == ps;
    }
  }

  /** Every list the client accepts is read back unchanged by the server, as a header of its own or,
      when empty, from the absent header. */
  lemma OfferRoundTrip(ps: seq<Str>)
    requires Acceptable(ps)
    ensures ReadHeader(if ps == [] then Absent else Single(JoinOffer(ps))) == Some(ps)
  {
    if ps != [] {
      OfferTokens([], ps);
      assert [] + JoinOffer(ps) == JoinOffer(ps);
    }
  }

  // An array that reads more kindly than its join

  const LETTER: Str := [97]

  function Letters(n: nat): (ss: seq<Str>)
    ensures |ss| == n
  {
    if n == 0 then [] else [LETTER] + Letters(n - 1)
  }

  lemma LetterTokens()
    ensures Tokens(LETTER) == [LETTER] && IsToken(LETTER)
  {
    TokensPiece(LETTER);
  }

  lemma {:induction false} LettersFacts(n: nat)
    ensures AllTokens(Letters(n)) == Letters(n) && AllTokensValid(Letters(n)) && TotalLen(Letters(n)) == n
    ensures Letters(n) + [LETTER] == Letters(n + 1)
    decreases n
  {
    hide Tokens, IsToken;
    LetterTokens();
    if n == 0 {
    } else {
      LettersFacts(n - 1);
      assert Letters(n)[1..] == Letters(n - 1);
    }
  }

  /** The loop over the remaining letters stops with 32. */
  lemma {:induction false} ReadLetters(k: nat, m: nat)
    requires k < MAX_TOKENS && k + m >= MAX_TOKENS && m < 64
    ensures ReadParts(Texts(Letters(m)), Letters(k), k) == Some(Letters(MAX_TOKENS))
    decreases m
  {
    hide Tokens, IsToken, AllTokensValid;
    LetterTokens();
    LettersFacts(k);
    LettersFacts(1);
    assert Letters(1) == [LETTER];
    assert Texts(Letters(m))[0] == Text(LETTER) && Texts(Letters(m))[1..] == Texts(Letters(m - 1));
    if k + 1 < MAX_TOKENS {
      ReadLetters(k + 1, m - 1);
    } else {
    }
  }

  /** Thirty-three parts of one letter each are read as thirty-two tokens; joined by commas they are refused. */
  lemma ArrayStopsAtLimit()
    ensures ReadHeader(Many(Texts(Letters(33)))) == Some(Letters(32))
    ensures ReadHeader(Single(Join(Letters(33)))) == None
  {
    hide Tokens, Letters;
    ReadLetters(0, 33);
    LettersFacts(33);
    JoinFacts(Letters(33));
    assert Letters(0) == [];
  }
}
