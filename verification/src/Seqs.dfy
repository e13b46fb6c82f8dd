/** Small facts about sequences, stated once so that proofs can name them. */
module Seqs {
  lemma Assoc<T>(a: seq<T>, b: seq<T>, c: seq<T>)
    ensures (a + b) + c == a + (b + c)
  {
  }

  /** The middle part of a concatenation, read back by position. */
  lemma Middle<T>(a: seq<T>, b: seq<T>, c: seq<T>)
    ensures (a + b + c)[|a|..|a| + |b|] == b
  {
  }

  /** The parts of a concatenation of five, read back by position. */
  lemma Five<T>(a: seq<T>, b: seq<T>, c: seq<T>, d: seq<T>, e: seq<T>)
    ensures var s := a + b + c + d + e; var i := |a|; var j := i + |b|; var k := j + |c|; var l := k + |d|;
            s[..i] == a && s[i..j] == b && s[j..k] == c && s[k..l] == d && s[l..] == e
  {
    var ab, abc := a + b, a + b + c;
    var abcd := abc + d;
    assert abcd[|abc|..] == d && abc[|ab|..] == c && ab[|a|..] == b;
  }
}
