/** Sorted lists of address ranges, as the physical memory bus keeps them for ROM and for MMIO, with the
    binary-search lookups it makes. Addresses are 64-bit. */
module MemoryMap {
  import opened Wrappers
  import opened Words

  datatype Span = Span(start: nat, end: nat)

  predicate Contains(s: Span, addr: int) {
    s.start <= addr < s.end
  }

  /** Ranges in address order, none running into the next; empty ranges are possible. */
  ghost predicate Ordered(ss: seq<Span>) {
    && (forall i | 0 <= i < |ss| :: ss[i].start <= ss[i].end < U64)
    && (forall i, j | 0 <= i < j < |ss| :: ss[i].end <= ss[j].start)
  }

  /** `partition_point` for `start <= addr`, `end <= addr` and `start < addr`. */
  function StartsUpTo(ss: seq<Span>, addr: int): (k: nat)
    ensures k <= |ss|
  {
    if ss == [] || ss[0].start > addr then 0 else 1 + StartsUpTo(ss[1..], addr)
  }

  function EndsUpTo(ss: seq<Span>, addr: int): (k: nat)
    ensures k <= |ss|
  {
    if ss == [] || ss[0].end > addr then 0 else 1 + EndsUpTo(ss[1..], addr)
  }

  function StartsBelow(ss: seq<Span>, addr: int): (k: nat)
    ensures k <= |ss|
  {
    StartsUpTo(ss, addr - 1)
  }

  lemma OrderedTail(ss: seq<Span>)
    requires Ordered(ss) && ss != []
    ensures Ordered(ss[1..])
  {
  }

  lemma {:induction false} StartsPartition(ss: seq<Span>, addr: int)
    requires Ordered(ss)
    ensures var k := StartsUpTo(ss, addr);
            && (forall i | 0 <= i < k :: ss[i].start <= addr)
            && (forall i | k <= i < |ss| :: ss[i].start > addr)
    decreases |ss|
  {
    if ss == [] {
    } else {
      OrderedTail(ss);
      if ss[0].start <= addr {
        StartsPartition(ss[1..], addr);
      }
      forall i | StartsUpTo(ss, addr) <= i < |ss|
        ensures ss[i].start > addr
      {
        if ss[0].start <= addr {
          assert ss[i] == ss[1..][i - 1];
        } else if i > 0 {
          assert ss[0].end <= ss[i].start;
        }
      }
    }
  }

  lemma {:induction false} EndsPartition(ss: seq<Span>, addr: int)
    requires Ordered(ss)
    ensures var k := EndsUpTo(ss, addr);
            && (forall i | 0 <= i < k :: ss[i].end <= addr)
            && (forall i | k <= i < |ss| :: ss[i].end > addr)
    decreases |ss|
  {
    if ss == [] {
    } else {
      OrderedTail(ss);
      if ss[0].end <= addr {
        EndsPartition(ss[1..], addr);
      }
      forall i | EndsUpTo(ss, addr) <= i < |ss|
        ensures ss[i].end > addr
      {
        if ss[0].end <= addr {
          assert ss[i] == ss[1..][i - 1];
        } else if i > 0 {
          assert ss[0].end <= ss[i].start;
        }
      }
    }
  }

  /** The range holding an address: only the last one starting at or below it is looked at. */
  function Find(ss: seq<Span>, addr: int): (r: Option<nat>)
    ensures r.Some? ==> r.value < |ss|
  {
    var k := StartsUpTo(ss, addr);
    if k > 0 && Contains(ss[k - 1], addr) then Some(k - 1) else None
  }

  /** That one look is enough. */
  lemma FindExact(ss: seq<Span>, addr: int, i: nat)
    requires Ordered(ss) && i < |ss|
    ensures Find(ss, addr) == Some(i) <==> Contains(ss[i], addr)
  {
    StartsPartition(ss, addr);
    var k := StartsUpTo(ss, addr);
    assert i + 1 < k ==> ss[i].end <= ss[k - 1].start;
  }

  function NextStart(ss: seq<Span>, addr: int): (r: Option<nat>) {
    var k := StartsUpTo(ss, addr);
    if k < |ss| then Some(ss[k].start) else None
  }

  lemma NextStartIsLater(ss: seq<Span>, addr: int)
    requires Ordered(ss)
    ensures NextStart(ss, addr).Some? ==> addr < NextStart(ss, addr).value < U64
  {
    StartsPartition(ss, addr);
  }

  /** From an address outside every range, nothing is met before the next start. */
  lemma QuietUntil(ss: seq<Span>, addr: int, limit: int, a: int)
    requires Ordered(ss) && Find(ss, addr).None? && addr <= a < limit
    requires NextStart(ss, addr).Some? ==> limit <= NextStart(ss, addr).value
    ensures Find(ss, a).None?
  {
    StartsPartition(ss, addr);
    var k := StartsUpTo(ss, addr);
    forall i | 0 <= i < |ss|
      ensures !Contains(ss[i], a)
    {
      FindExact(ss, addr, i);
      if k < i {
        assert ss[k].end <= ss[i].start;
      }
    }
  }

  /** Inside a range, the rest of it is the same range. */
  lemma SameSpan(ss: seq<Span>, addr: int, a: int)
    requires Ordered(ss) && Find(ss, addr).Some? && addr <= a < ss[Find(ss, addr).value].end
    ensures Find(ss, a) == Find(ss, addr)
  {
    FindExact(ss, addr, Find(ss, addr).value);
    FindExact(ss, a, Find(ss, addr).value);
  }

  /** The overlap test of the RAM fast path: only the first range that ends after `paddr` is looked
      at. */
  predicate Clear(ss: seq<Span>, paddr: int, end: int) {
    var k := EndsUpTo(ss, paddr);
    k < |ss| ==> ss[k].start >= end
  }

  lemma ClearMeansNothingFound(ss: seq<Span>, paddr: int, end: int, a: int)
    requires Ordered(ss) && Clear(ss, paddr, end) && paddr <= a < end
    ensures Find(ss, a).None?
  {
    EndsPartition(ss, paddr);
    var k := EndsUpTo(ss, paddr);
    forall i | 0 <= i < |ss|
      ensures !Contains(ss[i], a)
    {
      if k < i {
        assert ss[k].end <= ss[i].start;
      }
    }
  }

  // Mapping a new range

  function InsertAt(ss: seq<Span>, k: nat, s: Span): (t: seq<Span>)
    requires k <= |ss|
    ensures |t| == |ss| + 1
  {
    ss[..k] + [s] + ss[k..]
  }

  /** Only the neighbours of the insertion point are compared with the new range. */
  predicate Fits(ss: seq<Span>, s: Span) {
    var k := StartsBelow(ss, s.start);
    && (k > 0 ==> ss[k - 1].end <= s.start)
    && (k < |ss| ==> s.end <= ss[k].start)
  }

  /** Looking at the neighbours decides against every range: those that start below must end by then,
      and the others must not start before the new one ends. */
  lemma FitsExact(ss: seq<Span>, s: Span)
    requires Ordered(ss)
    ensures Fits(ss, s) <==>
            forall i | 0 <= i < |ss| :: if ss[i].start < s.start then ss[i].end <= s.start else s.end <= ss[i].start
  {
    StartsPartition(ss, s.start - 1);
    var k := StartsBelow(ss, s.start);
    if Fits(ss, s) {
      forall i | 0 <= i < |ss|
        ensures if ss[i].start < s.start then ss[i].end <= s.start else s.end <= ss[i].start
      {
        if i < k {
          assert i == k - 1 || ss[i].end <= ss[k - 1].start;
        } else {
          assert i == k || ss[k].end <= ss[i].start;
        }
      }
    }
  }

  lemma InsertedElement(ss: seq<Span>, k: nat, s: Span, i: nat)
    requires k <= |ss| && i <= |ss|
    ensures InsertAt(ss, k, s)[i] == if i < k then ss[i] else if i == k then s else ss[i - 1]
  {
  }

  lemma InsertKeepsOrder(ss: seq<Span>, s: Span)
    requires Ordered(ss) && Fits(ss, s) && s.start <= s.end < U64
    ensures Ordered(InsertAt(ss, StartsBelow(ss, s.start), s))
  {
    FitsExact(ss, s);
    StartsPartition(ss, s.start - 1);
    var k := StartsBelow(ss, s.start);
    var t := InsertAt(ss, k, s);
    hide InsertAt, Fits, StartsBelow;
    forall i, j | 0 <= i < j < |t|
      ensures t[i].end <= t[j].start
    {
      InsertedElement(ss, k, s, i);
      InsertedElement(ss, k, s, j);
    }
    forall i | 0 <= i < |t|
      ensures t[i].start <= t[i].end < U64
    {
      InsertedElement(ss, k, s, i);
    }
  }
}
