/** The history file: appending one report to the entry of a timestamp and commit, and keeping the
    entries in timestamp order. `Order` is how string comparison orders timestamps. */
module HistoryFile {
  import opened Wrappers
  import opened History

  type Order = (string, string) -> bool

  /** Any two timestamps compare, and comparison is transitive. */
  ghost predicate IsOrder(le: Order) {
    && (forall a, b :: le(a, b) || le(b, a))
    && (forall a, b, c :: le(a, b) && le(b, c) ==> le(a, c))
  }

  /** An entry as stored under its id; an empty `url` means none was recorded. */
  datatype Entry = Entry(id: string, timestamp: string, sha: string, url: string, body: Report)

  datatype AppendError = IdCollision | UrlConflict | Incompatible

  function EntryId(timestamp: string, sha: string): string {
    timestamp + "-" + sha
  }

  /** An id is the timestamp, a dash and the commit. */
  lemma EntryIdSpelled(timestamp: string, sha: string)
    ensures var id, n := EntryId(timestamp, sha), |timestamp|;
            |id| == n + 1 + |sha| && id[..n] == timestamp && id[n] == '-' && id[n + 1..] == sha
  {
  }

  /** Commits without a dash in their names have different ids, at one timestamp or at two. */
  lemma EntryIdsDiffer(t: string, s: string, u: string, r: string)
    requires '-' !in s && '-' !in r && EntryId(t, s) == EntryId(u, r)
    ensures t == u && s == r
  {
    EntryIdSpelled(t, s);
    EntryIdSpelled(u, r);
    if |t| < |u| {
      LaterDash(t, s, u, r);
    } else if |u| < |t| {
      LaterDash(u, r, t, s);
    }
  }

  lemma LaterDash(t: string, s: string, u: string, r: string)
    requires EntryId(t, s) == EntryId(u, r) && |t| < |u|
    ensures '-' in s
  {
    EntryIdSpelled(t, s);
    EntryIdSpelled(u, r);
    assert s[|u| - |t| - 1] == EntryId(t, s)[|u|];
  }

  /** With dashes in them two commits can share an id. */
  lemma EntryIdsCollide()
    ensures EntryId("1-2", "3") == EntryId("1", "2-3")
  {
  }

  /** The position of an id, or the length when it is not there. */
  function IndexOf(es: seq<Entry>, id: string): (k: nat)
    ensures k <= |es| && (k < |es| ==> es[k].id == id)
    ensures forall i | 0 <= i < k :: es[i].id != id
  {
    if es == [] || es[0].id == id then 0 else 1 + IndexOf(es[1..], id)
  }

  function Get(es: seq<Entry>, id: string): Option<Entry> {
    var k := IndexOf(es, id);
    if k < |es| then Some(es[k]) else None
  }

  /** Storing under an id: in place when the id is there, at the end otherwise. */
  function Put(es: seq<Entry>, e: Entry): seq<Entry> {
    var k := IndexOf(es, e.id);
    if k < |es| then es[k := e] else es + [e]
  }

  ghost predicate Keyed(es: seq<Entry>) {
    forall i, j | 0 <= i < j < |es| :: es[i].id != es[j].id
  }

  ghost predicate InOrder(le: Order, es: seq<Entry>) {
    forall i, j | 0 <= i < j < |es| :: le(es[i].timestamp, es[j].timestamp)
  }

  lemma GetExact(es: seq<Entry>, e: Entry)
    requires Keyed(es)
    ensures e in es <==> Get(es, e.id) == Some(e)
  {
    if e in es {
      var i :| 0 <= i < |es| && es[i] == e;
      var k := IndexOf(es, e.id);
      assert k == i;
    }
  }

  // The stable sort

  /** Where a later entry goes: behind every entry that is not newer. */
  function InsertByTime(le: Order, es: seq<Entry>, e: Entry): (r: seq<Entry>)
    ensures |r| == |es| + 1
  {
    if es == [] then [e]
    else if le(es[|es| - 1].timestamp, e.timestamp) then es + [e]
    else InsertByTime(le, es[..|es| - 1], e) + [es[|es| - 1]]
  }

  function SortByTime(le: Order, es: seq<Entry>): seq<Entry> {
    if es == [] then [] else InsertByTime(le, SortByTime(le, es[..|es| - 1]), es[|es| - 1])
  }

  lemma {:induction false} InsertKeeps(le: Order, es: seq<Entry>, e: Entry)
    requires IsOrder(le) && InOrder(le, es)
    ensures InOrder(le, InsertByTime(le, es, e))
    ensures multiset(InsertByTime(le, es, e)) == multiset(es) + multiset{e}
    decreases |es|
  {
    if es != [] && !le(es[|es| - 1].timestamp, e.timestamp) {
      var n := |es| - 1;
      InsertKeeps(le, es[..n], e);
      var r := InsertByTime(le, es[..n], e);
      assert es == es[..n] + [es[n]];
      assert multiset(es) == multiset(es[..n]) + multiset{es[n]};
      hide InsertByTime;
      forall i | 0 <= i < |r|
        ensures le(r[i].timestamp, es[n].timestamp)
      {
        assert r[i] in multiset(r);
        if r[i] != e {
          assert r[i] in multiset(es[..n]);
        }
      }
    }
  }

  lemma {:induction false} SortKeeps(le: Order, es: seq<Entry>)
    requires IsOrder(le)
    ensures InOrder(le, SortByTime(le, es))
    ensures multiset(SortByTime(le, es)) == multiset(es)
    decreases |es|
  {
    if es == [] {
    } else {
      var n := |es| - 1;
      SortKeeps(le, es[..n]);
      InsertKeeps(le, SortByTime(le, es[..n]), es[n]);
      assert es == es[..n] + [es[n]];
    }
  }

  predicate SameTime(le: Order, e: Entry, t: string) {
    le(e.timestamp, t) && le(t, e.timestamp)
  }

  /** The entries that compare equal to a timestamp, in their order. */
  function AtTime(le: Order, es: seq<Entry>, t: string): seq<Entry> {
    if es == [] then []
    else AtTime(le, es[..|es| - 1], t) + if SameTime(le, es[|es| - 1], t) then [es[|es| - 1]] else []
  }

  lemma AtTimeMore(le: Order, es: seq<Entry>, e: Entry, t: string)
    ensures AtTime(le, es + [e], t) == AtTime(le, es, t) + if SameTime(le, e, t) then [e] else []
  {
    assert (es + [e])[..|es|] == es;
  }

  lemma {:induction false} InsertStable(le: Order, es: seq<Entry>, e: Entry, t: string)
    requires IsOrder(le)
    ensures AtTime(le, InsertByTime(le, es, e), t) == AtTime(le, es, t) + if SameTime(le, e, t) then [e] else []
    decreases |es|
  {
    hide IsOrder, SameTime, AtTime;
    if es == [] || le(es[|es| - 1].timestamp, e.timestamp) {
      AtTimeMore(le, es, e, t);
      assert [] + [e] == [e];
    } else {
      var n := |es| - 1;
      InsertStable(le, es[..n], e, t);
      AtTimeMore(le, InsertByTime(le, es[..n], e), es[n], t);
      NotBoth(le, es[n], e, t);
      AtTimeMore(le, es[..n], es[n], t);
      assert es[..n] + [es[n]] == es;
    }
  }

  lemma NotBoth(le: Order, a: Entry, b: Entry, t: string)
    requires IsOrder(le) && !le(a.timestamp, b.timestamp)
    ensures !(SameTime(le, a, t) && SameTime(le, b, t))
  {
  }

  /** Entries of equal timestamps stay in the order they were in. */
  lemma {:induction false} SortStable(le: Order, es: seq<Entry>, t: string)
    requires IsOrder(le)
    ensures AtTime(le, SortByTime(le, es), t) == AtTime(le, es, t)
    decreases |es|
  {
    if es == [] {
    } else {
      SortStable(le, es[..|es| - 1], t);
      InsertStable(le, SortByTime(le, es[..|es| - 1]), es[|es| - 1], t);
    }
  }

  /** Ids stay distinct under reordering. */
  lemma KeyedByMultiset(a: seq<Entry>, b: seq<Entry>)
    requires Keyed(a) && multiset(a) == multiset(b)
    ensures Keyed(b)
  {
    forall i, j | 0 <= i < j < |b|
      ensures b[i].id != b[j].id
    {
      OnceEach(a, b[i]);
      NoTwo(b, i, j);
      assert b[i] in multiset(a) && b[j] in multiset(a);
      GetExact(a, b[i]);
      GetExact(a, b[j]);
    }
  }

  lemma NoTwo(b: seq<Entry>, i: nat, j: nat)
    requires i < j < |b| && multiset(b)[b[i]] <= 1
    ensures b[i] != b[j]
  {
    var u, v := b[..i] + [b[i]] + b[i + 1..j], b[j + 1..];
    assert b == u + [b[j]] + v;
    assert multiset(b) == multiset(u) + multiset{b[j]} + multiset(v);
    assert b[i] in multiset(u);
  }

  lemma {:induction false} OnceEach(a: seq<Entry>, e: Entry)
    requires Keyed(a)
    ensures multiset(a)[e] <= 1
    decreases |a|
  {
    if a == [] {
    } else {
      var n := |a| - 1;
      OnceEach(a[..n], e);
      assert a == a[..n] + [a[n]];
      if a[n] == e {
        assert e !in a[..n];
      }
    }
  }

  // Appending

  /** The entry that one append leaves under its id, or why there is none. */
  function NextEntry(existing: Option<Entry>, timestamp: string, sha: string, url: string, r: Report)
    : Result<Entry, AppendError>
  {
    match existing
    case None => Ok(Entry(EntryId(timestamp, sha), timestamp, sha, url, r))
    case Some(e) =>
      if e.sha != sha then Err(IdCollision)
      else if e.url != "" && e.url != url then Err(UrlConflict)
      else if !Compatible(e.body, r) then Err(Incompatible)
      else Ok(e.(body := Join(e.body, Seen(Owns(e.body), r))))
  }

  function Append(le: Order, es: seq<Entry>, timestamp: string, sha: string, url: string, r: Report)
    : Result<seq<Entry>, AppendError>
  {
    match NextEntry(Get(es, EntryId(timestamp, sha)), timestamp, sha, url, r)
    case Err(error) => Err(error)
    case Ok(e) => Ok(SortByTime(le, Put(es, e)))
  }

  lemma PutKeeps(es: seq<Entry>, e: Entry)
    requires Keyed(es)
    ensures Keyed(Put(es, e))
    ensures forall x | x in Put(es, e) :: x == e || (x in es && x.id != e.id)
    ensures e in Put(es, e) && forall x | x in es && x.id != e.id :: x in Put(es, e)
  {
    var k := IndexOf(es, e.id);
    var r := Put(es, e);
    assert k < |es| ==> r[k] == e;
    assert k == |es| ==> r[|es|] == e;
    forall x | x in es && x.id != e.id
      ensures x in r
    {
      var i :| 0 <= i < |es| && es[i] == x;
      assert r[i] == x;
    }
  }

  lemma NextEntryId(es: seq<Entry>, timestamp: string, sha: string, url: string, r: Report)
    ensures var id := EntryId(timestamp, sha);
            var next := NextEntry(Get(es, id), timestamp, sha, url, r);
            next.Ok? ==> next.value.id == id
  {
  }

  lemma GetSame(a: seq<Entry>, b: seq<Entry>, id: string)
    requires Keyed(a) && Keyed(b)
    requires forall x: Entry | x.id == id :: x in a <==> x in b
    ensures Get(a, id) == Get(b, id)
  {
    if Get(a, id).Some? {
      GetExact(a, Get(a, id).value);
      GetExact(b, Get(a, id).value);
    }
    if Get(b, id).Some? {
      GetExact(a, Get(b, id).value);
      GetExact(b, Get(b, id).value);
    }
  }

  /** One append keeps entries keyed and in order, stores the merged entry under its id and touches no
      other. */
  lemma AppendKeeps(le: Order, es: seq<Entry>, timestamp: string, sha: string, url: string, r: Report, other: string)
    requires IsOrder(le) && Keyed(es) && Append(le, es, timestamp, sha, url, r).Ok?
    ensures var id, after := EntryId(timestamp, sha), Append(le, es, timestamp, sha, url, r).value;
            && Keyed(after) && InOrder(le, after)
            && Some(NextEntry(Get(es, id), timestamp, sha, url, r).value) == Get(after, id)
            && (other != id ==> Get(after, other) == Get(es, other))
  {
    hide SortByTime, Put, NextEntry;
    var id := EntryId(timestamp, sha);
    var e := NextEntry(Get(es, id), timestamp, sha, url, r).value;
    NextEntryId(es, timestamp, sha, url, r);
    var put := Put(es, e);
    var after := SortByTime(le, put);
    PutKeeps(es, e);
    SortKeeps(le, put);
    KeyedByMultiset(put, after);
    assert forall x: Entry :: x in after <==> x in multiset(after);
    assert forall x: Entry :: x in put <==> x in multiset(put);
    GetExact(after, e);
    if other != id {
      GetSame(es, after, other);
    }
  }

  /** Appending reports one after another to the same timestamp, commit and address. */
  function AppendAll(le: Order, es: seq<Entry>, timestamp: string, sha: string, url: string, rs: seq<Report>)
    : Result<seq<Entry>, AppendError>
    decreases |rs|
  {
    if rs == [] then Ok(es)
    else
      match Append(le, es, timestamp, sha, url, rs[0])
      case Err(error) => Err(error)
      case Ok(next) => AppendAll(le, next, timestamp, sha, url, rs[1..])
  }

  /** Only the entry under `id` may differ. */
  ghost predicate OthersKept(a: seq<Entry>, b: seq<Entry>, id: string) {
    forall other: string | other != id :: Get(a, other) == Get(b, other)
  }

  /** An entry a report of this commit and address may join; one without a recorded address takes any. */
  predicate Joinable(e: Entry, sha: string, url: string) {
    e.sha == sha && (e.url == "" || e.url == url)
  }

  /** One append to an entry that is there: exactly when it may be joined and the report is compatible with it. */
  lemma AppendMore(le: Order, es: seq<Entry>, timestamp: string, sha: string, url: string, e: Entry, r: Report)
    requires IsOrder(le) && Keyed(es) && Get(es, EntryId(timestamp, sha)) == Some(e)
    ensures Append(le, es, timestamp, sha, url, r).Ok? <==> Joinable(e, sha, url) && Compatible(e.body, r)
    ensures Append(le, es, timestamp, sha, url, r).Ok? ==>
              var id, after := EntryId(timestamp, sha), Append(le, es, timestamp, sha, url, r).value;
              && Keyed(after) && InOrder(le, after) && OthersKept(after, es, id)
              && Get(after, id) == Some(e.(body := Join(e.body, Seen(Owns(e.body), r))))
  {
    hide Compatible, Join, Seen, Owns, Get;
    if Append(le, es, timestamp, sha, url, r).Ok? {
      forall other: string
        ensures var id, after := EntryId(timestamp, sha), Append(le, es, timestamp, sha, url, r).value;
                && Keyed(after) && InOrder(le, after)
                && Some(NextEntry(Get(es, id), timestamp, sha, url, r).value) == Get(after, id)
                && (other != id ==> Get(after, other) == Get(es, other))
      {
        AppendKeeps(le, es, timestamp, sha, url, r, other);
      }
    }
  }

  /** Why an append is refused, the first reason first: another commit under the id, another address, a conflict. */
  lemma AppendRefused(le: Order, es: seq<Entry>, timestamp: string, sha: string, url: string, e: Entry, r: Report)
    requires Get(es, EntryId(timestamp, sha)) == Some(e)
    ensures var end := Append(le, es, timestamp, sha, url, r);
            && (e.sha != sha ==> end == Err(IdCollision))
            && (e.sha == sha && e.url != "" && e.url != url ==> end == Err(UrlConflict))
            && (Joinable(e, sha, url) && !Compatible(e.body, r) ==> end == Err(Incompatible))
  {
    hide Compatible, Get;
  }

  /** A series of appends to an entry that is there. */
  lemma {:induction false} AppendAllMore(le: Order, es: seq<Entry>, timestamp: string, sha: string, url: string,
                                         e: Entry, rs: seq<Report>)
    requires IsOrder(le) && Keyed(es) && Get(es, EntryId(timestamp, sha)) == Some(e) && Joinable(e, sha, url)
    ensures AppendAll(le, es, timestamp, sha, url, rs).Ok? <==> AbsorbAll(Some(e.body), rs).Some?
    ensures AppendAll(le, es, timestamp, sha, url, rs).Ok? ==>
              var id, after := EntryId(timestamp, sha), AppendAll(le, es, timestamp, sha, url, rs).value;
              && Keyed(after) && (rs != [] ==> InOrder(le, after)) && OthersKept(after, es, id)
              && Get(after, id) == Some(e.(body := AbsorbAll(Some(e.body), rs).value))
    decreases |rs|
  {
    hide Compatible, Join, Seen, Owns, Append, Keyed, InOrder, Get, IsOrder;
    if rs == [] {
    } else {
      AppendMore(le, es, timestamp, sha, url, e, rs[0]);
      SeenCompatible(e.body, rs[0]);
      FailedAbsorbs(rs[1..]);
      if Compatible(e.body, rs[0]) {
        var next := Append(le, es, timestamp, sha, url, rs[0]).value;
        AppendAllMore(le, next, timestamp, sha, url, e.(body := Join(e.body, Seen(Owns(e.body), rs[0]))), rs[1..]);
      }
    }
  }

  /** The entry a series finds: the one under its id, or a new one with nothing in it, which owns the name
      `__proto__` just when the first report does. */
  function Found(es: seq<Entry>, timestamp: string, sha: string, url: string, first: Report): Entry {
    var id := EntryId(timestamp, sha);
    match Get(es, id)
    case Some(e) => e
    case None => Entry(id, timestamp, sha, url, Blank(Owns(first)))
  }

  /** Any nonempty series: when it succeeds, and the history it leaves, in terms of merging reports. */
  lemma SeriesMeaning(le: Order, es: seq<Entry>, timestamp: string, sha: string, url: string, rs: seq<Report>)
    requires IsOrder(le) && Keyed(es) && rs != []
    ensures var e := Found(es, timestamp, sha, url, rs[0]); var end := AppendAll(le, es, timestamp, sha, url, rs);
            && (end.Ok? <==> Joinable(e, sha, url) && AbsorbAll(Some(e.body), rs).Some?)
            && (end.Ok? ==> var id := EntryId(timestamp, sha);
                            && Keyed(end.value) && InOrder(le, end.value) && OthersKept(end.value, es, id)
                            && Get(end.value, id) == Some(e.(body := AbsorbAll(Some(e.body), rs).value)))
  {
    hide Compatible, Join, Seen, Owns, Blank, Absorb, Keyed, InOrder, Append, IsOrder, Get, OthersKept;
    var id, e := EntryId(timestamp, sha), Found(es, timestamp, sha, url, rs[0]);
    if Get(es, id).None? {
      FirstAppend(le, es, timestamp, sha, url, rs[0]);
      BlankIsNeutral(rs[0]);
      var next := Append(le, es, timestamp, sha, url, rs[0]).value;
      AppendAllMore(le, next, timestamp, sha, url, e.(body := rs[0]), rs[1..]);
      if AppendAll(le, es, timestamp, sha, url, rs).Ok? {
        var after := AppendAll(le, es, timestamp, sha, url, rs).value;
        KeptTwice(after, next, es, id);
        NothingMore(le, next, timestamp, sha, url, rs[1..]);
      }
    } else if Joinable(e, sha, url) {
      AppendAllMore(le, es, timestamp, sha, url, e, rs);
    } else {
      AppendMore(le, es, timestamp, sha, url, e, rs[0]);
    }
  }

  lemma KeptTwice(a: seq<Entry>, b: seq<Entry>, c: seq<Entry>, id: string)
    requires OthersKept(a, b, id) && OthersKept(b, c, id)
    ensures OthersKept(a, c, id)
  {
    hide Get;
  }

  lemma NothingMore(le: Order, es: seq<Entry>, timestamp: string, sha: string, url: string, rs: seq<Report>)
    ensures rs == [] ==> AppendAll(le, es, timestamp, sha, url, rs) == Ok(es)
  {
  }

  lemma FirstAppend(le: Order, es: seq<Entry>, timestamp: string, sha: string, url: string, r: Report)
    requires IsOrder(le) && Keyed(es) && Get(es, EntryId(timestamp, sha)).None?
    ensures Append(le, es, timestamp, sha, url, r).Ok?
    ensures var id, after := EntryId(timestamp, sha), Append(le, es, timestamp, sha, url, r).value;
            && Keyed(after) && InOrder(le, after) && OthersKept(after, es, id)
            && Get(after, id) == Some(Entry(id, timestamp, sha, url, r))
  {
    hide Get;
    forall other: string
      ensures var id, after := EntryId(timestamp, sha), Append(le, es, timestamp, sha, url, r).value;
              && Keyed(after) && InOrder(le, after)
              && Some(NextEntry(Get(es, id), timestamp, sha, url, r).value) == Get(after, id)
              && (other != id ==> Get(after, other) == Get(es, other))
    {
      AppendKeeps(le, es, timestamp, sha, url, r, other);
    }
  }

  /** When a series succeeds: its entry may be joined, and the reports are compatible with it, and two by two in
      what it can store of them. No entry but its own is changed. */
  lemma SeriesOfAppends(le: Order, es: seq<Entry>, timestamp: string, sha: string, url: string, rs: seq<Report>)
    requires IsOrder(le) && Keyed(es) && rs != []
    ensures var e := Found(es, timestamp, sha, url, rs[0]); var end := AppendAll(le, es, timestamp, sha, url, rs);
            && (end.Ok? <==> && Joinable(e, sha, url) && AllCompatible(e.body, rs)
                             && PairwiseCompatible(SeenAll(Owns(e.body), rs)))
            && (end.Ok? ==> OthersKept(end.value, es, EntryId(timestamp, sha)))
  {
    hide Compatible, Seen, Owns, PairwiseCompatible, AllCompatible, SeenAll, Get, AppendAll, AbsorbAll, IsOrder, Keyed;
    var e := Found(es, timestamp, sha, url, rs[0]);
    SeriesMeaning(le, es, timestamp, sha, url, rs);
    SuccessExact(e.body, rs);
  }

  /** Two histories a reader cannot tell apart, or two failures. */
  ghost predicate SameOutcome(one: Result<seq<Entry>, AppendError>, two: Result<seq<Entry>, AppendError>) {
    && (one.Ok? <==> two.Ok?)
    && (one.Ok? ==> forall id: string :: Get(one.value, id) == Get(two.value, id))
  }

  /** Series that find the same entry and leave the same body there have the same outcome. */
  lemma OutcomeExact(le: Order, es: seq<Entry>, timestamp: string, sha: string, url: string,
                     rs: seq<Report>, ts: seq<Report>)
    requires IsOrder(le) && Keyed(es) && rs != [] && ts != []
    requires Joinable(Found(es, timestamp, sha, url, rs[0]), sha, url)
    ensures var one, two := AppendAll(le, es, timestamp, sha, url, rs), AppendAll(le, es, timestamp, sha, url, ts);
            SameOutcome(one, two) <==> AbsorbAll(Some(Found(es, timestamp, sha, url, rs[0]).body), rs)
                                       == AbsorbAll(Some(Found(es, timestamp, sha, url, ts[0]).body), ts)
  {
    hide Owns, Blank, Get, AppendAll, AbsorbAll, IsOrder, Keyed, InOrder;
    SeriesMeaning(le, es, timestamp, sha, url, rs);
    SeriesMeaning(le, es, timestamp, sha, url, ts);
  }

  /** Every order of the series has the same outcome. */
  ghost predicate AnyOrder(le: Order, es: seq<Entry>, timestamp: string, sha: string, url: string, rs: seq<Report>) {
    forall ts: seq<Report> | multiset(ts) == multiset(rs) ::
      SameOutcome(AppendAll(le, es, timestamp, sha, url, rs), AppendAll(le, es, timestamp, sha, url, ts))
  }

  /** The order of a series that joins an entry never shows, whatever history it starts from. */
  lemma JoiningOrder(le: Order, es: seq<Entry>, timestamp: string, sha: string, url: string, rs: seq<Report>)
    requires IsOrder(le) && Keyed(es) && rs != [] && Get(es, EntryId(timestamp, sha)).Some?
    ensures AnyOrder(le, es, timestamp, sha, url, rs)
  {
    hide Get, AppendAll, AbsorbAll, IsOrder, Keyed, SameOutcome;
    var e := Found(es, timestamp, sha, url, rs[0]);
    forall ts: seq<Report> | multiset(ts) == multiset(rs)
      ensures SameOutcome(AppendAll(le, es, timestamp, sha, url, rs), AppendAll(le, es, timestamp, sha, url, ts))
    {
      assert |multiset(rs)| == |rs| && |multiset(ts)| == |ts|;
      if Joinable(e, sha, url) {
        OrderIndependent(Some(e.body), rs, ts);
        OutcomeExact(le, es, timestamp, sha, url, rs, ts);
      } else {
        BothFail(le, es, timestamp, sha, url, rs, ts);
      }
    }
  }

  lemma BothFail(le: Order, es: seq<Entry>, timestamp: string, sha: string, url: string,
                 rs: seq<Report>, ts: seq<Report>)
    requires IsOrder(le) && Keyed(es) && rs != [] && ts != []
    requires !Joinable(Found(es, timestamp, sha, url, rs[0]), sha, url)
    ensures SameOutcome(AppendAll(le, es, timestamp, sha, url, rs), AppendAll(le, es, timestamp, sha, url, ts))
  {
    hide Owns, Blank, Get, AppendAll, AbsorbAll, IsOrder, Keyed, InOrder;
    SeriesMeaning(le, es, timestamp, sha, url, rs);
    SeriesMeaning(le, es, timestamp, sha, url, ts);
  }

  /** The order of a series that makes its entry shows exactly when some reports have a scenario `__proto__`, some
      have none, and no two conflict elsewhere. */
  lemma MakingOrder(le: Order, es: seq<Entry>, timestamp: string, sha: string, url: string, rs: seq<Report>)
    requires IsOrder(le) && Keyed(es) && rs != [] && Get(es, EntryId(timestamp, sha)).None?
    ensures AnyOrder(le, es, timestamp, sha, url, rs) <==> OrderSafe(rs)
  {
    hide Get, AppendAll, AbsorbAll, IsOrder, Keyed, SameOutcome, Owns, Blank, NewEntry, OrderSafe, PairwiseCompatible,
      SeenAll;
    NewOrderExact(rs);
    assert |multiset(rs)| == |rs|;
    forall ts: seq<Report> | ts != [] && multiset(ts) == multiset(rs)
      ensures SameOutcome(AppendAll(le, es, timestamp, sha, url, rs), AppendAll(le, es, timestamp, sha, url, ts))
              <==> NewEntry(ts) == NewEntry(rs)
    {
      NewEntryExact(rs);
      NewEntryExact(ts);
      OutcomeExact(le, es, timestamp, sha, url, rs, ts);
    }
    if OrderSafe(rs) {
      forall ts: seq<Report> | multiset(ts) == multiset(rs)
        ensures SameOutcome(AppendAll(le, es, timestamp, sha, url, rs), AppendAll(le, es, timestamp, sha, url, ts))
      {
        assert |multiset(ts)| == |ts|;
      }
    }
  }

  // The store

  /** The history object: its entries are replaced by the merged and sorted ones, or left alone when an append fails. */
  class Store {
    var entries: seq<Entry>

    constructor ()
      ensures entries == []
    {
      entries := [];
    }

    method AppendHistoryEntry(le: Order, timestamp: string, sha: string, url: string, r: Report)
      returns (ok: Result<(), AppendError>)
      modifies this
      ensures match Append(le, old(entries), timestamp, sha, url, r)
              case Ok(after) => ok == Ok(()) && entries == after
              case Err(error) => ok == Err(error) && entries == old(entries)
    {
      hide SortByTime, Put, IndexOf;
      var id := EntryId(timestamp, sha);
      var existing := Get(entries, id);
      var next;
      if existing.Some? {
        var e := existing.value;
        if e.sha != sha {
          return Err(IdCollision);
        }
        if e.url != "" && e.url != url {
          return Err(UrlConflict);
        }
        var env := MergeEnvironment(e.body.env, r.env);
        if env.Err? {
          return Err(Incompatible);
        }
        var scenarios := MergeScenarios(e.body.scenarios, r.scenarios);
        if scenarios.Err? {
          return Err(Incompatible);
        }
        next := e.(body := Report(env.value, scenarios.value));
      } else {
        next := Entry(id, timestamp, sha, url, r);
      }
      entries := SortByTime(le, Put(entries, next));
      return Ok(());
    }
  }
}
