/** Comma-separated token lists: the scanning parser and the split-trim-filter reading of it.
    Strings are sequences of UTF-16 code units. */
module TokenList {
  import opened Wrappers
  import Seqs

  type CodeUnit = c: int | 0 <= c < 0x10000
  type Str = seq<CodeUnit>

  const COMMA: CodeUnit := 0x2C
  const SPACE: CodeUnit := 0x20

  predicate IsTchar(c: CodeUnit) {
    0x30 <= c <= 0x39 || 0x41 <= c <= 0x5A || 0x61 <= c <= 0x7A
    || c in {0x21, 0x23, 0x24, 0x25, 0x26, 0x27, 0x2A, 0x2B, 0x2D, 0x2E, 0x5E, 0x5F, 0x60, 0x7C, 0x7E}
  }

  predicate IsToken(s: Str) {
    s != [] && forall i | 0 <= i < |s| :: IsTchar(s[i])
  }

  predicate AllTokensValid(ts: seq<Str>) {
    forall i | 0 <= i < |ts| :: IsToken(ts[i])
  }

  // The simple reading

  predicate Blank(c: CodeUnit) {
    c <= 0x20
  }

  function TrimLeft(s: Str): Str {
    if s != [] && Blank(s[0]) then TrimLeft(s[1..]) else s
  }

  function TrimRight(s: Str): Str {
    if s != [] && Blank(s[|s| - 1]) then TrimRight(s[..|s| - 1]) else s
  }

  function Trim(s: Str): Str {
    TrimRight(TrimLeft(s))
  }

  /** The pieces between commas; there is always at least one. */
  function Split(s: Str): (ps: seq<Str>)
    ensures ps != []
  {
    if s == [] then [[]]
    else
      var ps := Split(s[1..]);
      if s[0] == COMMA then [[]] + ps else [[s[0]] + ps[0]] + ps[1..]
  }

  function Kept(piece: Str): seq<Str> {
    if Trim(piece) == [] then [] else [Trim(piece)]
  }

  function TrimAll(ps: seq<Str>): seq<Str> {
    if ps == [] then [] else Kept(ps[0]) + TrimAll(ps[1..])
  }

  /** Split on commas, trim characters up to 0x20, drop what is empty. */
  function Tokens(s: Str): seq<Str> {
    TrimAll(Split(s))
  }

  function Parse(raw: Str, maxLen: nat, maxTokens: nat): Option<seq<Str>> {
    var ts := Tokens(raw);
    if |raw| > maxLen || |ts| > maxTokens || !AllTokensValid(ts) then None else Some(ts)
  }

  // Facts about the simple reading

  predicate NoComma(s: Str) {
    forall i | 0 <= i < |s| :: s[i] != COMMA
  }

  lemma {:induction false} SplitPiece(p: Str)
    requires NoComma(p)
    ensures Split(p) == [p]
    decreases |p|
  {
    if p == [] {
    } else {
      SplitPiece(p[1..]);
      var ps: seq<Str> := [p[1..]];
      assert ps[1..] == [] && [p[0]] + p[1..] == p;
    }
  }

  lemma {:induction false} SplitAtComma(p: Str, rest: Str)
    requires NoComma(p)
    ensures Split(p + [COMMA] + rest) == [p] + Split(rest)
    decreases |p|
  {
    var s := p + [COMMA] + rest;
    if p == [] {
      assert s[1..] == rest;
    } else {
      SplitAtComma(p[1..], rest);
      assert s[1..] == p[1..] + [COMMA] + rest;
      assert [p[0]] + p[1..] == p;
    }
  }

  lemma TokensPiece(p: Str)
    requires NoComma(p)
    ensures Tokens(p) == Kept(p)
  {
    SplitPiece(p);
    var ps: seq<Str> := [p];
    assert Split(p) == ps && ps[1..] == [];
    assert TrimAll(ps) == Kept(ps[0]) + TrimAll(ps[1..]);
    assert Kept(p) + [] == Kept(p);
  }

  lemma TokensAtComma(p: Str, rest: Str)
    requires NoComma(p)
    ensures Tokens(p + [COMMA] + rest) == Kept(p) + Tokens(rest)
  {
    SplitAtComma(p, rest);
    assert ([p] + Split(rest))[1..] == Split(rest);
  }

  lemma {:induction false} TrimLeftBlank(s: Str)
    requires forall i | 0 <= i < |s| :: Blank(s[i])
    ensures TrimLeft(s) == []
    decreases |s|
  {
    if s == [] {
    } else {
      TrimLeftBlank(s[1..]);
    }
  }

  lemma KeptBlank(s: Str)
    requires forall i | 0 <= i < |s| :: Blank(s[i])
    ensures Kept(s) == []
  {
    TrimLeftBlank(s);
  }

  /** The tokens of a comma-join are the tokens of the parts. */
  lemma {:induction false} TokensConcat(s: Str, rest: Str)
    ensures Tokens(s + [COMMA] + rest) == Tokens(s) + Tokens(rest)
    decreases |s|
  {
    if NoComma(s) {
      TokensAtComma(s, rest);
      TokensPiece(s);
    } else {
      var k := FirstComma(s);
      var p, q := s[..k], s[k + 1..];
      assert s == p + [COMMA] + q;
      assert s + [COMMA] + rest == p + [COMMA] + (q + [COMMA] + rest);
      TokensAtComma(p, q);
      TokensAtComma(p, q + [COMMA] + rest);
      TokensConcat(q, rest);
      Seqs.Assoc(Kept(p), Tokens(q), Tokens(rest));
    }
  }

  function FirstComma(s: Str): (k: nat)
    requires !NoComma(s)
    ensures k < |s| && s[k] == COMMA && NoComma(s[..k])
  {
    if s[0] == COMMA then 0
    else
      assert !NoComma(s[1..]) by {
        var i :| 0 <= i < |s| && s[i] == COMMA;
        assert s[1..][i - 1] == COMMA;
      }
      1 + FirstComma(s[1..])
  }

  /** The characters of a token (section 3.2.6 of RFC 7230). */
  lemma TokenCharacters(c: CodeUnit)
    ensures IsTchar(c) <==> (|| '0' as int <= c <= '9' as int || 'A' as int <= c <= 'Z' as int
                             || 'a' as int <= c <= 'z' as int || IsOneOf(c, "!#$%&'*+-.^_`|~"))
  {
    var marks := "!#$%&'*+-.^_`|~";
    assert marks[0] == '!' && marks[1] == '#' && marks[2] == '$' && marks[3] == '%' && marks[4] == '&';
    assert marks[5] == '\'' && marks[6] == '*' && marks[7] == '+' && marks[8] == '-' && marks[9] == '.';
    assert marks[10] == '^' && marks[11] == '_' && marks[12] == '`' && marks[13] == '|' && marks[14] == '~';
  }

  predicate IsOneOf(c: CodeUnit, marks: string) {
    exists k | 0 <= k < |marks| :: marks[k] as int == c
  }

  /** Pieces put together again, with a comma between neighbours. */
  function Rejoined(ps: seq<Str>): Str
    requires ps != []
  {
    if |ps| == 1 then ps[0] else ps[0] + [0x2C] + Rejoined(ps[1..])
  }

  /** Splitting cuts at every comma and nowhere else. */
  lemma {:induction false} SplitExact(s: Str)
    ensures Rejoined(Split(s)) == s
    ensures forall i | 0 <= i < |Split(s)| :: NoComma(Split(s)[i])
    decreases |s|
  {
    if s == [] {
    } else {
      SplitExact(s[1..]);
      var ps := Split(s[1..]);
      hide Rejoined;
      if s[0] == COMMA {
        RejoinedComma(ps);
        assert [0x2C] + s[1..] == s;
      } else {
        RejoinedMore(s[0], ps);
        assert [s[0]] + s[1..] == s;
      }
    }
  }

  lemma RejoinedComma(ps: seq<Str>)
    requires ps != []
    ensures Rejoined([[]] + ps) == [0x2C] + Rejoined(ps)
  {
    assert ([[]] + ps)[1..] == ps;
  }

  lemma RejoinedMore(c: CodeUnit, ps: seq<Str>)
    requires ps != []
    ensures Rejoined([[c] + ps[0]] + ps[1..]) == [c] + Rejoined(ps)
  {
    var qs := [[c] + ps[0]] + ps[1..];
    if |ps| > 1 {
      assert qs[1..] == ps[1..];
      assert [c] + (ps[0] + [0x2C] + Rejoined(ps[1..])) == [c] + ps[0] + [0x2C] + Rejoined(ps[1..]);
    }
  }

  /** Trimming takes characters up to 0x20 off both ends, and all of them. */
  lemma TrimExact(s: Str) returns (left: Str, right: Str)
    ensures s == left + Trim(s) + right
    ensures (forall i | 0 <= i < |left| :: left[i] <= 0x20) && (forall i | 0 <= i < |right| :: right[i] <= 0x20)
    ensures Trim(s) != [] ==> Trim(s)[0] > 0x20 && Trim(s)[|Trim(s)| - 1] > 0x20
  {
    left := TrimLeftExact(s);
    right := TrimRightExact(TrimLeft(s));
    Seqs.Assoc(left, Trim(s), right);
  }

  lemma {:induction false} TrimLeftExact(s: Str) returns (left: Str)
    ensures s == left + TrimLeft(s) && forall i | 0 <= i < |left| :: left[i] <= 0x20
    ensures TrimLeft(s) != [] ==> TrimLeft(s)[0] > 0x20
    decreases |s|
  {
    left := [];
    if s != [] && Blank(s[0]) {
      var rest := TrimLeftExact(s[1..]);
      left := [s[0]] + rest;
    }
  }

  lemma {:induction false} TrimRightExact(s: Str) returns (right: Str)
    ensures s == TrimRight(s) + right && forall i | 0 <= i < |right| :: right[i] <= 0x20
    ensures TrimRight(s) != [] ==> TrimRight(s)[0] == s[0] && TrimRight(s)[|TrimRight(s)| - 1] > 0x20
    decreases |s|
  {
    right := [];
    if s != [] && Blank(s[|s| - 1]) {
      var n := |s| - 1;
      var rest := TrimRightExact(s[..n]);
      right := rest + [s[n]];
      assert s == s[..n] + [s[n]];
      Seqs.Assoc(TrimRight(s[..n]), rest, [s[n]]);
      assert TrimRight(s) == TrimRight(s[..n]);
      hide TrimRight, Blank;
    }
  }

  // The scanning parser

  method IndexOfComma(raw: Str, from: nat) returns (k: nat)
    requires from <= |raw|
    ensures from <= k <= |raw| && NoComma(raw[from..k])
    ensures k < |raw| ==> raw[k] == COMMA
  {
    k := from;
    while k < |raw| && raw[k] != COMMA
      invariant from <= k <= |raw| && NoComma(raw[from..k])
    {
      assert raw[from..k + 1] == raw[from..k] + [raw[k]];
      k := k + 1;
    }
  }

  /** The two inner loops: `start` moves right, then `end` moves left, over blanks. */
  method TrimRange(raw: Str, i: nat, k: nat) returns (start: nat, end: nat)
    requires i <= k <= |raw|
    ensures i <= start <= end <= k
    ensures raw[start..end] == Trim(raw[i..k])
    ensures forall j | end <= j < k :: Blank(raw[j])
  {
    start, end := i, k;
    while start < end && Blank(raw[start])
      invariant i <= start <= end
      invariant TrimLeft(raw[start..end]) == TrimLeft(raw[i..k])
    {
      assert raw[start..end][1..] == raw[start + 1..end];
      start := start + 1;
    }
    assert TrimLeft(raw[i..k]) == raw[start..end];
    while end > start && Blank(raw[end - 1])
      invariant start <= end <= k
      invariant TrimRight(raw[start..end]) == Trim(raw[i..k])
      invariant forall j | end <= j < k :: Blank(raw[j])
    {
      assert raw[start..end][..end - start - 1] == raw[start..end - 1];
      end := end - 1;
    }
  }

  /** Tokens from position `i`, where `i` may be one past the end. */
  ghost function TokensFrom(raw: Str, i: nat): seq<Str> {
    if i <= |raw| then Tokens(raw[i..]) else []
  }

  lemma TokensFromPiece(raw: Str, i: nat, k: nat)
    requires i <= k <= |raw| && NoComma(raw[i..k]) && (k < |raw| ==> raw[k] == COMMA)
    ensures TokensFrom(raw, i) == Kept(raw[i..k]) + TokensFrom(raw, k + 1)
  {
    hide Tokens, Kept;
    var piece := raw[i..k];
    if k == |raw| {
      assert raw[i..] == piece;
      TokensPiece(piece);
    } else {
      assert raw[i..] == piece + [COMMA] + raw[k + 1..];
      TokensAtComma(piece, raw[k + 1..]);
    }
  }

  /** Resuming one past the trimmed end, before the comma when blanks were trimmed, skips nothing
      and repeats nothing. */
  lemma ResumePoint(raw: Str, i: nat, k: nat, end: nat)
    requires i <= end <= k <= |raw| && NoComma(raw[i..k]) && (k < |raw| ==> raw[k] == COMMA)
    requires forall j | end <= j < k :: Blank(raw[j])
    ensures TokensFrom(raw, i) == Kept(raw[i..k]) + TokensFrom(raw, end + 1)
  {
    hide TokensFrom, Kept;
    TokensFromPiece(raw, i, k);
    if end < k {
      var blanks := raw[end + 1..k];
      forall j | 0 <= j < |blanks|
        ensures Blank(blanks[j]) && blanks[j] != COMMA
      {
        assert blanks[j] == raw[i..k][end + 1 + j - i];
      }
      KeptBlank(blanks);
      TokensFromPiece(raw, end + 1, k);
    }
  }

  lemma NoTokensAtEnd(raw: Str, i: nat)
    requires i >= |raw|
    ensures TokensFrom(raw, i) == []
  {
    if i == |raw| {
      TokensPiece([]);
    }
  }

  lemma ScanStart(raw: Str)
    ensures Tokens(raw) == [] + TokensFrom(raw, 0)
  {
    assert raw[0..] == raw;
  }

  lemma ScanBlank(raw: Str, out: seq<Str>, i: nat, k: nat, end: nat)
    requires i <= end <= k <= |raw| && NoComma(raw[i..k]) && (k < |raw| ==> raw[k] == COMMA)
    requires forall j | end <= j < k :: Blank(raw[j])
    requires Trim(raw[i..k]) == []
    ensures out + TokensFrom(raw, i) == out + TokensFrom(raw, end + 1)
  {
    hide TokensFrom;
    ResumePoint(raw, i, k, end);
    assert [] + TokensFrom(raw, end + 1) == TokensFrom(raw, end + 1);
  }

  lemma ScanToken(raw: Str, out: seq<Str>, i: nat, k: nat, end: nat, token: Str)
    requires i <= end <= k <= |raw| && NoComma(raw[i..k]) && (k < |raw| ==> raw[k] == COMMA)
    requires forall j | end <= j < k :: Blank(raw[j])
    requires Trim(raw[i..k]) == token && token != []
    ensures out + TokensFrom(raw, i) == (out + [token]) + TokensFrom(raw, end + 1)
  {
    hide TokensFrom;
    ResumePoint(raw, i, k, end);
    Seqs.Assoc(out, [token], TokensFrom(raw, end + 1));
  }

  lemma ParseFails(raw: Str, out: seq<Str>, token: Str, rest: seq<Str>, maxLen: nat, maxTokens: nat)
    requires Tokens(raw) == (out + [token]) + rest
    requires |out| >= maxTokens || !IsToken(token)
    ensures Parse(raw, maxLen, maxTokens) == None
  {
    assert Tokens(raw)[|out|] == token;
  }

  lemma ParseSucceeds(raw: Str, out: seq<Str>, i: nat, maxLen: nat, maxTokens: nat)
    requires i >= |raw| && Tokens(raw) == out + TokensFrom(raw, i)
    requires |out| <= maxTokens && AllTokensValid(out) && |raw| <= maxLen
    ensures Parse(raw, maxLen, maxTokens) == Some(out)
  {
    NoTokensAtEnd(raw, i);
    assert out + [] == out;
  }

  lemma ParseTooLong(raw: Str, maxLen: nat, maxTokens: nat)
    requires |raw| > maxLen
    ensures Parse(raw, maxLen, maxTokens) == None
  {
    hide Tokens;
  }

  lemma NoneValid()
    ensures AllTokensValid([])
  {
  }

  lemma MoreValid(out: seq<Str>, token: Str)
    requires AllTokensValid(out) && IsToken(token)
    ensures AllTokensValid(out + [token])
  {
    hide IsToken;
  }

  /** One round of the scan from `i`: the trimmed range and the fact that resuming one past its end
      accounts for everything before. */
  method NextPiece(raw: Str, i: nat, ghost out: seq<Str>) returns (start: nat, end: nat)
    requires i < |raw|
    ensures i <= start <= end <= |raw|
    ensures out + TokensFrom(raw, i) ==
            (if start < end then out + [raw[start..end]] else out) + TokensFrom(raw, end + 1)
  {
    hide Tokens, Trim, TokensFrom;
    var k := IndexOfComma(raw, i);
    start, end := TrimRange(raw, i, k);
    if start < end {
      ScanToken(raw, out, i, k, end, raw[start..end]);
    } else {
      ScanBlank(raw, out, i, k, end);
    }
  }

  /** The scanner computes the simple reading: null exactly for an over-long text, too many tokens
      or an invalid token. */
  method CommaSeparatedTokens(raw: Str, maxLen: nat, maxTokens: nat) returns (r: Option<seq<Str>>)
    ensures r == Parse(raw, maxLen, maxTokens)
  {
    hide Tokens, TokensFrom, IsToken, Parse, AllTokensValid;
    if |raw| > maxLen {
      ParseTooLong(raw, maxLen, maxTokens);
      return None;
    }
    var out: seq<Str> := [];
    var i := 0;
    ScanStart(raw);
    NoneValid();
    while i < |raw|
      invariant 0 <= i <= |raw| + 1
      invariant |out| <= maxTokens && AllTokensValid(out)
      invariant Tokens(raw) == out + TokensFrom(raw, i)
      decreases |raw| + 1 - i
    {
      var start, end := NextPiece(raw, i, out);
      if end > start {
        var token := raw[start..end];
        if |out| >= maxTokens || !IsToken(token) {
          ParseFails(raw, out, token, TokensFrom(raw, end + 1), maxLen, maxTokens);
          return None;
        }
        MoreValid(out, token);
        out := out + [token];
      }
      i := end + 1;
    }
    ParseSucceeds(raw, out, i, maxLen, maxTokens);
    r := Some(out);
  }
}
