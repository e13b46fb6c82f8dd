/** The benchmark history: reports merged into the entry of one commit.

    A report can have a scenario called `__proto__` as a property of its own, and so can an entry that was
    made from it. Assigning to that name on an object that does not own it calls the inherited setter, which
    stores nothing. */
module History {
  import opened Wrappers

  /** Names are only compared for equality, and so are the values they are given; numbers stand for both.
      Environment fields and metrics are never called `__proto__`: a report's own are assigned one by one to
      an empty object, where that name leaves nothing behind. */
  type Name = nat
  type Value = nat

  /** The scenario called `__proto__`. */
  const PROTO: Name := 0

  type Env = map<Name, Value>

  type Metrics = map<Name, Value>

  type Scenarios = map<Name, Metrics>

  datatype Report = Report(env: Option<Env>, scenarios: Scenarios)

  // One merge

  predicate Agree(a: Env, b: Env) {
    forall k | k in a && k in b :: a[k] == b[k]
  }

  predicate EnvCompatible(a: Option<Env>, b: Option<Env>) {
    a.Some? && b.Some? ==> Agree(a.value, b.value)
  }

  predicate MetricsDisjoint(a: Scenarios, b: Scenarios) {
    forall s | s in a && s in b :: a[s].Keys !! b[s].Keys
  }

  predicate Compatible(a: Report, b: Report) {
    EnvCompatible(a.env, b.env) && MetricsDisjoint(a.scenarios, b.scenarios)
  }

  function JoinEnv(a: Option<Env>, b: Option<Env>): Option<Env> {
    if a.None? then b else if b.None? then a else Some(a.value + b.value)
  }

  function MetricsOf(a: Scenarios, s: Name): Metrics {
    if s in a then a[s] else map[]
  }

  function JoinScenarios(a: Scenarios, b: Scenarios): Scenarios {
    map s | s in a.Keys + b.Keys :: MetricsOf(a, s) + MetricsOf(b, s)
  }

  /** All of both, as if no assignment called the setter. */
  function Join(a: Report, b: Report): Report {
    Report(JoinEnv(a.env, b.env), JoinScenarios(a.scenarios, b.scenarios))
  }

  /** Every scenario but the one that only the setter sees. */
  function Stripped(b: Scenarios): Scenarios {
    map s | s in b && s != PROTO :: b[s]
  }

  /** What is stored of incoming scenarios where the name is owned, or is not. */
  function Stored(owns: bool, b: Scenarios): (r: Scenarios)
    ensures r.Keys <= b.Keys
    ensures forall s | s in r :: r[s] == b[s]
    ensures forall s | s in b :: s in r <==> s != PROTO || owns
  {
    if owns then b else Stripped(b)
  }

  predicate Owns(r: Report) {
    PROTO in r.scenarios
  }

  /** What an entry that owns the name, or does not, can store of a report. */
  function Seen(owns: bool, r: Report): Report {
    r.(scenarios := Stored(owns, r.scenarios))
  }

  /** Merging everything: it succeeds exactly for compatible reports. */
  function Merge(a: Option<Report>, b: Report): Option<Report> {
    if a.Some? && Compatible(a.value, b) then Some(Join(a.value, b)) else None
  }

  /** One append to an entry that is there. */
  function Absorb(a: Option<Report>, r: Report): Option<Report> {
    if a.None? then None else Merge(a, Seen(Owns(a.value), r))
  }

  /** Stripping does not make a report compatible that was not. */
  lemma SeenCompatible(a: Report, r: Report)
    ensures Compatible(a, Seen(Owns(a), r)) <==> Compatible(a, r)
  {
  }

  /** An entry never gains or loses the name. */
  lemma OwnershipStays(a: Report, r: Report)
    ensures Owns(Join(a, Seen(Owns(a), r))) <==> Owns(a)
  {
  }

  lemma JoinMetrics(a: Scenarios, b: Scenarios, s: Name)
    ensures MetricsOf(JoinScenarios(a, b), s) == MetricsOf(a, s) + MetricsOf(b, s)
    ensures s in JoinScenarios(a, b) <==> s in a || s in b
  {
    if s !in a && s !in b {
      var none: Metrics := map[];
      assert none + none == none;
    }
  }

  lemma SameSlices(l: Scenarios, r: Scenarios)
    requires forall t :: (t in l <==> t in r) && MetricsOf(l, t) == MetricsOf(r, t)
    ensures l == r
  {
    forall t | t in l
      ensures l[t] == r[t]
    {
      assert MetricsOf(l, t) == MetricsOf(r, t);
    }
  }

  // The loops

  /** The part of a map that a loop over its keys has dealt with. */
  function Part<V>(m: map<Name, V>, todo: set<Name>): map<Name, V> {
    map k | k in m && k !in todo :: m[k]
  }

  lemma PartGrows(a: Metrics, b: Metrics, todo: set<Name>, k: Name)
    requires k in b && k in todo
    ensures (a + Part(b, todo))[k := b[k]] == a + Part(b, todo - {k})
    ensures k in a + Part(b, todo) <==> k in a
  {
  }

  lemma PartEnds<V>(b: map<Name, V>, keys: set<Name>)
    requires b.Keys <= keys
    ensures Part(b, keys) == map[] && Part(b, {}) == b
  {
  }

  lemma MergeEnds(a: Metrics, b: Metrics)
    ensures a + Part(b, b.Keys) == a && a + Part(b, {}) == a + b
  {
    PartEnds(b, b.Keys);
  }

  /** Copies incoming keys over the existing ones in whatever order they come, and stops at a conflict. */
  method MergeEnvironment(existing: Option<Env>, incoming: Option<Env>) returns (r: Result<Option<Env>, Name>)
    ensures r.Ok? <==> EnvCompatible(existing, incoming)
    ensures r.Ok? ==> r.value == JoinEnv(existing, incoming)
    ensures r.Err? ==> existing.Some? && incoming.Some? && r.error in existing.value && r.error in incoming.value
                       && existing.value[r.error] != incoming.value[r.error]
  {
    if existing.None? {
      return Ok(incoming);
    }
    if incoming.None? {
      return Ok(existing);
    }
    var a, b := existing.value, incoming.value;
    var merged, todo := a, b.Keys;
    hide Part;
    MergeEnds(a, b);
    while todo != {}
      invariant todo <= b.Keys
      invariant forall k | k in b && k !in todo && k in a :: a[k] == b[k]
      invariant merged == a + Part(b, todo)
      decreases todo
    {
      var k :| k in todo;
      if k in a && a[k] != b[k] {
        return Err(k);
      }
      PartGrows(a, b, todo, k);
      merged := merged[k := b[k]];
      todo := todo - {k};
    }
    return Ok(Some(merged));
  }

  /** Adds the incoming metrics of one scenario, and stops at a name already present. */
  method MergeMetrics(existing: Metrics, incoming: Metrics) returns (r: Result<Metrics, Name>)
    ensures r.Ok? <==> existing.Keys !! incoming.Keys
    ensures r.Ok? ==> r.value == existing + incoming
    ensures r.Err? ==> r.error in existing && r.error in incoming
  {
    var next, todo := existing, incoming.Keys;
    hide Part;
    MergeEnds(existing, incoming);
    while todo != {}
      invariant todo <= incoming.Keys
      invariant forall k | k in incoming && k !in todo :: k !in existing
      invariant next == existing + Part(incoming, todo)
      decreases todo
    {
      var k :| k in todo;
      PartGrows(existing, incoming, todo, k);
      if k in next {
        return Err(k);
      }
      next := next[k := incoming[k]];
      todo := todo - {k};
    }
    return Ok(next);
  }

  lemma PartSlice(b: Scenarios, todo: set<Name>, s: Name, t: Name)
    requires s in b && s in todo
    ensures t in Part(b, todo - {s}) <==> t == s || t in Part(b, todo)
    ensures MetricsOf(Part(b, todo - {s}), t) == if t == s then b[s] else MetricsOf(Part(b, todo), t)
    ensures s !in Part(b, todo)
  {
  }

  lemma JoinGrows(a: Scenarios, b: Scenarios, todo: set<Name>, s: Name)
    requires s in b && s in todo
    ensures JoinScenarios(a, Part(b, todo))[s := MetricsOf(a, s) + b[s]] == JoinScenarios(a, Part(b, todo - {s}))
    ensures s in JoinScenarios(a, Part(b, todo)) <==> s in a
    ensures s in a ==> JoinScenarios(a, Part(b, todo))[s] == a[s]
    ensures s !in a ==> MetricsOf(a, s) + b[s] == b[s]
  {
    hide Part, JoinScenarios;
    var before, after := Part(b, todo), Part(b, todo - {s});
    var l, r := JoinScenarios(a, before)[s := MetricsOf(a, s) + b[s]], JoinScenarios(a, after);
    forall t
      ensures (t in l <==> t in r) && MetricsOf(l, t) == MetricsOf(r, t)
    {
      GrowsAt(a, b, todo, s, t);
    }
    SameSlices(l, r);
    PartSlice(b, todo, s, s);
    JoinMetrics(a, before, s);
    if s in a {
      assert a[s] + map[] == a[s];
    }
  }

  lemma GrowsAt(a: Scenarios, b: Scenarios, todo: set<Name>, s: Name, t: Name)
    requires s in b && s in todo
    ensures var l, r := JoinScenarios(a, Part(b, todo))[s := MetricsOf(a, s) + b[s]],
              JoinScenarios(a, Part(b, todo - {s}));
            (t in l <==> t in r) && MetricsOf(l, t) == MetricsOf(r, t)
  {
    hide Part, JoinScenarios;
    PartSlice(b, todo, s, t);
    JoinMetrics(a, Part(b, todo), t);
    JoinMetrics(a, Part(b, todo - {s}), t);
  }

  lemma JoinNothing(a: Scenarios)
    ensures JoinScenarios(a, map[]) == a
  {
    assert forall s | s in a :: a[s] + map[] == a[s];
  }

  /** The name is met on an object that does not own it: nothing is stored. */
  lemma SetterStoresNothing(a: Scenarios, b: Scenarios, todo: set<Name>, s: Name)
    requires s !in b && s !in a
    ensures Part(b, todo - {s}) == Part(b, todo)
    ensures s !in JoinScenarios(a, Part(b, todo))
  {
  }

  /** Scenario by scenario; a new scenario is taken as it is, unless its assignment calls the setter. */
  method MergeScenarios(existing: Scenarios, incoming: Scenarios) returns (r: Result<Scenarios, Name>)
    ensures r.Ok? <==> MetricsDisjoint(existing, incoming)
    ensures r.Ok? ==> r.value == JoinScenarios(existing, Stored(PROTO in existing, incoming))
    ensures r.Err? ==> && r.error in existing && r.error in incoming
                       && !(existing[r.error].Keys !! incoming[r.error].Keys)
  {
    hide Part, JoinScenarios, Stored;
    var merged, todo := existing, incoming.Keys;
    ghost var b := Stored(PROTO in existing, incoming);
    PartEnds(b, todo);
    JoinNothing(existing);
    while todo != {}
      invariant todo <= incoming.Keys
      invariant forall s | s in incoming && s !in todo && s in existing :: existing[s].Keys !! incoming[s].Keys
      invariant merged == JoinScenarios(existing, Part(b, todo))
      decreases todo
    {
      var s :| s in todo;
      if s in b {
        JoinGrows(existing, b, todo, s);
      } else {
        SetterStoresNothing(existing, b, todo, s);
      }
      if s in merged {
        var metrics := MergeMetrics(merged[s], incoming[s]);
        if metrics.Err? {
          return Err(s);
        }
        merged := merged[s := metrics.value];
      } else if s != PROTO {
        merged := merged[s := incoming[s]];
      }
      todo := todo - {s};
    }
    return Ok(merged);
  }

  // Many merges

  function MergeAll(a: Option<Report>, rs: seq<Report>): Option<Report>
    decreases |rs|
  {
    if rs == [] then a else MergeAll(Merge(a, rs[0]), rs[1..])
  }

  lemma DisjointBySlice(a: Scenarios, b: Scenarios)
    ensures MetricsDisjoint(a, b) <==> forall s :: MetricsOf(a, s).Keys !! MetricsOf(b, s).Keys
  {
    if forall s :: MetricsOf(a, s).Keys !! MetricsOf(b, s).Keys {
      forall s | s in a && s in b
        ensures a[s].Keys !! b[s].Keys
      {
        assert MetricsOf(a, s).Keys !! MetricsOf(b, s).Keys;
      }
    }
  }

  /** A third report is compatible with a merge exactly when it is with both parts. */
  lemma CompatibleWithJoin(a: Report, b: Report, c: Report)
    requires Compatible(a, b)
    ensures Compatible(Join(a, b), c) <==> Compatible(a, c) && Compatible(b, c)
  {
    EnvWithJoin(a.env, b.env, c.env);
    ScenariosWithJoin(a.scenarios, b.scenarios, c.scenarios);
  }

  lemma EnvWithJoin(a: Option<Env>, b: Option<Env>, c: Option<Env>)
    requires EnvCompatible(a, b)
    ensures EnvCompatible(JoinEnv(a, b), c) <==> EnvCompatible(a, c) && EnvCompatible(b, c)
  {
    if a.Some? && b.Some? && c.Some? {
      var j := a.value + b.value;
      assert forall k | k in a.value :: k in j && j[k] == a.value[k];
      assert forall k | k in b.value :: k in j && j[k] == b.value[k];
    }
  }

  lemma ScenariosWithJoin(a: Scenarios, b: Scenarios, c: Scenarios)
    ensures MetricsDisjoint(JoinScenarios(a, b), c) <==> MetricsDisjoint(a, c) && MetricsDisjoint(b, c)
  {
    DisjointBySlice(a, c);
    DisjointBySlice(b, c);
    DisjointBySlice(JoinScenarios(a, b), c);
    forall s
      ensures MetricsOf(JoinScenarios(a, b), s).Keys == MetricsOf(a, s).Keys + MetricsOf(b, s).Keys
    {
      JoinMetrics(a, b, s);
    }
  }

  lemma CompatibleSymmetric(a: Report, b: Report)
    ensures Compatible(a, b) <==> Compatible(b, a)
  {
  }

  lemma UnionCommutes(a: Metrics, b: Metrics, c: Metrics)
    requires forall k | k in b && k in c :: b[k] == c[k]
    ensures (a + b) + c == (a + c) + b
  {
  }

  /** Two compatible reports can be merged in either order. */
  lemma JoinSwap(a: Report, b: Report, c: Report)
    requires Compatible(b, c)
    ensures Join(Join(a, b), c) == Join(Join(a, c), b)
  {
    hide EnvCompatible, MetricsDisjoint, JoinScenarios, JoinEnv;
    EnvSwap(a.env, b.env, c.env);
    var l, r := JoinScenarios(JoinScenarios(a.scenarios, b.scenarios), c.scenarios),
                JoinScenarios(JoinScenarios(a.scenarios, c.scenarios), b.scenarios);
    forall t
      ensures (t in l <==> t in r) && MetricsOf(l, t) == MetricsOf(r, t)
    {
      SliceSwap(a.scenarios, b.scenarios, c.scenarios, t);
    }
    SameSlices(l, r);
  }

  lemma SliceSwap(a: Scenarios, b: Scenarios, c: Scenarios, s: Name)
    requires MetricsDisjoint(b, c)
    ensures var l, r := JoinScenarios(JoinScenarios(a, b), c), JoinScenarios(JoinScenarios(a, c), b);
            (s in l <==> s in r) && MetricsOf(l, s) == MetricsOf(r, s)
  {
    hide JoinScenarios;
    DisjointBySlice(b, c);
    JoinMetrics(a, b, s);
    JoinMetrics(JoinScenarios(a, b), c, s);
    JoinMetrics(a, c, s);
    JoinMetrics(JoinScenarios(a, c), b, s);
    assert MetricsOf(b, s).Keys !! MetricsOf(c, s).Keys;
    UnionCommutes(MetricsOf(a, s), MetricsOf(b, s), MetricsOf(c, s));
  }

  lemma EnvSwap(a: Option<Env>, b: Option<Env>, c: Option<Env>)
    requires EnvCompatible(b, c)
    ensures JoinEnv(JoinEnv(a, b), c) == JoinEnv(JoinEnv(a, c), b)
  {
    if b.Some? && c.Some? {
      if a.Some? {
        UnionCommutes(a.value, b.value, c.value);
      } else {
        assert b.value + c.value == c.value + b.value;
      }
    }
  }

  lemma MergeSwap(a: Option<Report>, b: Report, c: Report)
    ensures Merge(Merge(a, b), c) == Merge(Merge(a, c), b)
  {
    hide Compatible, Join;
    if a.Some? {
      CompatibleSymmetric(b, c);
      if Compatible(a.value, b) {
        CompatibleWithJoin(a.value, b, c);
      }
      if Compatible(a.value, c) {
        CompatibleWithJoin(a.value, c, b);
      }
      if Compatible(b, c) {
        JoinSwap(a.value, b, c);
      }
    }
  }

  // Appends

  function AbsorbAll(a: Option<Report>, rs: seq<Report>): Option<Report>
    decreases |rs|
  {
    if rs == [] then a else AbsorbAll(Absorb(a, rs[0]), rs[1..])
  }

  lemma AbsorbSwap(a: Option<Report>, b: Report, c: Report)
    ensures Absorb(Absorb(a, b), c) == Absorb(Absorb(a, c), b)
  {
    hide Compatible, Join, Seen, Owns;
    if a.Some? {
      var o := Owns(a.value);
      OwnershipStays(a.value, b);
      OwnershipStays(a.value, c);
      MergeSwap(a, Seen(o, b), Seen(o, c));
    }
  }

  lemma {:induction false} MoveFront(a: Option<Report>, rs: seq<Report>, j: nat)
    requires j < |rs|
    ensures AbsorbAll(a, rs) == AbsorbAll(Absorb(a, rs[j]), rs[..j] + rs[j + 1..])
    decreases j
  {
    hide Absorb;
    if j == 0 {
      assert rs[..0] + rs[1..] == rs[1..];
    } else {
      MoveFront(Absorb(a, rs[0]), rs[1..], j - 1);
      assert rs[1..][..j - 1] + rs[1..][j..] == rs[1..j] + rs[j + 1..];
      AbsorbSwap(a, rs[0], rs[j]);
      var rest := rs[..j] + rs[j + 1..];
      assert rest[0] == rs[0] && rest[1..] == rs[1..j] + rs[j + 1..];
    }
  }

  /** Appending the same reports in another order to an entry that is there gives the same entry, or fails just
      as well. */
  lemma {:induction false} OrderIndependent(a: Option<Report>, rs: seq<Report>, ts: seq<Report>)
    requires multiset(rs) == multiset(ts)
    ensures AbsorbAll(a, rs) == AbsorbAll(a, ts)
    decreases |rs|
  {
    hide Absorb;
    if rs == [] {
      assert |multiset(ts)| == 0;
    } else {
      var j := FoundIn(rs, ts);
      MoveFront(a, ts, j);
      OrderIndependent(Absorb(a, rs[0]), rs[1..], ts[..j] + ts[j + 1..]);
    }
  }

  /** Where the first report of one order is in another, whose rest is then the rest of the first. */
  lemma FoundIn(rs: seq<Report>, ts: seq<Report>) returns (j: nat)
    requires rs != [] && multiset(rs) == multiset(ts)
    ensures j < |ts| && ts[j] == rs[0] && multiset(rs[1..]) == multiset(ts[..j] + ts[j + 1..])
  {
    assert rs[0] in multiset(ts);
    j :| 0 <= j < |ts| && ts[j] == rs[0];
    RemoveOne(ts, j);
    RemoveOne(rs, 0);
    assert rs[..0] + rs[1..] == rs[1..];
    CancelOne(multiset(rs[1..]), multiset(ts[..j] + ts[j + 1..]), rs[0]);
  }

  lemma CancelOne(a: multiset<Report>, b: multiset<Report>, x: Report)
    requires multiset{x} + a == multiset{x} + b
    ensures a == b
  {
    assert a == (multiset{x} + a) - multiset{x};
    assert b == (multiset{x} + b) - multiset{x};
  }

  lemma RemoveOne(ts: seq<Report>, j: nat)
    requires j < |ts|
    ensures multiset(ts) == multiset{ts[j]} + multiset(ts[..j] + ts[j + 1..])
  {
    assert ts == ts[..j] + [ts[j]] + ts[j + 1..];
  }

  ghost predicate PairwiseCompatible(rs: seq<Report>) {
    forall i, j | 0 <= i < j < |rs| :: Compatible(rs[i], rs[j])
  }

  ghost predicate AllCompatible(a: Report, rs: seq<Report>) {
    forall i | 0 <= i < |rs| :: Compatible(a, rs[i])
  }

  lemma {:induction false} MergeAllExact(a: Report, rs: seq<Report>)
    ensures MergeAll(Some(a), rs).Some? <==> AllCompatible(a, rs) && PairwiseCompatible(rs)
    decreases |rs|
  {
    hide Compatible, Join;
    if rs == [] {
    } else {
      var r, rest := rs[0], rs[1..];
      if Compatible(a, r) {
        MergeAllExact(Join(a, r), rest);
        forall i | 0 <= i < |rest|
          ensures Compatible(Join(a, r), rest[i]) <==> Compatible(a, rest[i]) && Compatible(r, rest[i])
        {
          CompatibleWithJoin(a, r, rest[i]);
        }
        HeadAndRest(a, rs);
      } else {
        FailedStays(rest);
      }
    }
  }

  lemma HeadAndRest(a: Report, rs: seq<Report>)
    requires rs != [] && Compatible(a, rs[0])
    requires forall i | 0 <= i < |rs[1..]| ::
               Compatible(Join(a, rs[0]), rs[1..][i]) <==> Compatible(a, rs[1..][i]) && Compatible(rs[0], rs[1..][i])
    ensures AllCompatible(Join(a, rs[0]), rs[1..]) && PairwiseCompatible(rs[1..])
            <==> AllCompatible(a, rs) && PairwiseCompatible(rs)
  {
    hide Compatible, Join;
    var rest := rs[1..];
    assert forall i | 1 <= i < |rs| :: rs[i] == rest[i - 1];
    assert forall i | 0 <= i < |rest| :: rest[i] == rs[i + 1];
    if AllCompatible(Join(a, rs[0]), rest) && PairwiseCompatible(rest) {
      forall i, j | 0 <= i < j < |rs|
        ensures Compatible(rs[i], rs[j])
      {
        assert rs[j] == rest[j - 1];
        if i > 0 {
          assert rs[i] == rest[i - 1];
        }
      }
      forall i | 0 <= i < |rs|
        ensures Compatible(a, rs[i])
      {
        if i > 0 {
          assert rs[i] == rest[i - 1];
        }
      }
    }
  }

  lemma {:induction false} FailedStays(rs: seq<Report>)
    ensures MergeAll(None, rs) == None
    decreases |rs|
  {
    if rs == [] {
    } else {
      FailedStays(rs[1..]);
    }
  }

  function SeenAll(owns: bool, rs: seq<Report>): (ss: seq<Report>)
    ensures |ss| == |rs| && forall i | 0 <= i < |rs| :: ss[i] == Seen(owns, rs[i])
  {
    if rs == [] then [] else [Seen(owns, rs[0])] + SeenAll(owns, rs[1..])
  }

  /** Appending is merging what can be stored. */
  lemma {:induction false} AbsorbIsMerge(a: Report, rs: seq<Report>)
    ensures AbsorbAll(Some(a), rs) == MergeAll(Some(a), SeenAll(Owns(a), rs))
    decreases |rs|
  {
    hide Compatible, Join, Seen, Owns;
    if rs == [] {
    } else {
      var o := Owns(a);
      assert SeenAll(o, rs)[1..] == SeenAll(o, rs[1..]);
      if Compatible(a, Seen(o, rs[0])) {
        OwnershipStays(a, rs[0]);
        AbsorbIsMerge(Join(a, Seen(o, rs[0])), rs[1..]);
      } else {
        FailedStays(SeenAll(o, rs[1..]));
        FailedAbsorbs(rs[1..]);
      }
    }
  }

  lemma {:induction false} FailedAbsorbs(rs: seq<Report>)
    ensures AbsorbAll(None, rs) == None
    decreases |rs|
  {
    if rs == [] {
    } else {
      FailedAbsorbs(rs[1..]);
    }
  }

  /** All appends to an entry succeed exactly when the reports are compatible with it, and two by two in what can
      be stored of them. */
  lemma SuccessExact(a: Report, rs: seq<Report>)
    ensures AbsorbAll(Some(a), rs).Some? <==> AllCompatible(a, rs) && PairwiseCompatible(SeenAll(Owns(a), rs))
  {
    hide Compatible, Seen, Owns, AbsorbAll, MergeAll, PairwiseCompatible;
    var ss := SeenAll(Owns(a), rs);
    AbsorbIsMerge(a, rs);
    MergeAllExact(a, ss);
    forall i | 0 <= i < |rs|
      ensures Compatible(a, ss[i]) <==> Compatible(a, rs[i])
    {
      SeenCompatible(a, rs[i]);
    }
  }

  // Nothing is lost

  predicate HasEnv(r: Report, k: Name, v: Value) {
    r.env.Some? && k in r.env.value && r.env.value[k] == v
  }

  predicate HasMetric(r: Report, s: Name, m: Name, v: Value) {
    s in r.scenarios && m in r.scenarios[s] && r.scenarios[s][m] == v
  }

  lemma JoinHas(a: Report, b: Report, s: Name, m: Name, v: Value)
    requires Compatible(a, b)
    ensures HasMetric(Join(a, b), s, m, v) <==> HasMetric(a, s, m, v) || HasMetric(b, s, m, v)
    ensures HasEnv(Join(a, b), m, v) <==> HasEnv(a, m, v) || HasEnv(b, m, v)
  {
    JoinMetrics(a.scenarios, b.scenarios, s);
  }

  lemma {:induction false} MergedHas(a: Report, rs: seq<Report>, s: Name, m: Name, v: Value)
    requires MergeAll(Some(a), rs).Some?
    ensures var all := MergeAll(Some(a), rs).value;
            && (HasMetric(all, s, m, v) <==>
                  HasMetric(a, s, m, v) || exists i | 0 <= i < |rs| :: HasMetric(rs[i], s, m, v))
            && (HasEnv(all, m, v) <==> HasEnv(a, m, v) || exists i | 0 <= i < |rs| :: HasEnv(rs[i], m, v))
    decreases |rs|
  {
    hide HasMetric, HasEnv, Compatible, Join;
    if rs == [] {
    } else {
      FailedStays(rs[1..]);
      JoinHas(a, rs[0], s, m, v);
      MergedHas(Join(a, rs[0]), rs[1..], s, m, v);
      assert forall i | 0 < i < |rs| :: rs[i] == rs[1..][i - 1];
      assert forall i | 0 <= i < |rs| - 1 :: rs[1..][i] == rs[i + 1];
    }
  }

  /** A report holds this metric where the entry can store it. */
  predicate Stores(owns: bool, r: Report, s: Name, m: Name, v: Value) {
    HasMetric(r, s, m, v) && (s == PROTO ==> owns)
  }

  lemma SeenHas(owns: bool, r: Report, s: Name, m: Name, v: Value)
    ensures HasMetric(Seen(owns, r), s, m, v) <==> Stores(owns, r, s, m, v)
    ensures HasEnv(Seen(owns, r), m, v) <==> HasEnv(r, m, v)
  {
  }

  /** What an entry holds after a series of appends: what it held, and what some report held, except the metrics
      of a scenario `__proto__` that the entry did not own from the start. */
  lemma NothingLost(a: Report, rs: seq<Report>, s: Name, m: Name, v: Value)
    requires AbsorbAll(Some(a), rs).Some?
    ensures var all := AbsorbAll(Some(a), rs).value;
            && (HasMetric(all, s, m, v) <==>
                  HasMetric(a, s, m, v) || exists i | 0 <= i < |rs| :: Stores(Owns(a), rs[i], s, m, v))
            && (HasEnv(all, m, v) <==> HasEnv(a, m, v) || exists i | 0 <= i < |rs| :: HasEnv(rs[i], m, v))
            && (Owns(all) <==> Owns(a))
  {
    hide HasMetric, HasEnv, Stores, Seen, AbsorbAll, MergeAll;
    var ss := SeenAll(Owns(a), rs);
    AbsorbIsMerge(a, rs);
    MergedHas(a, ss, s, m, v);
    OwnsAfter(a, rs);
    forall i | 0 <= i < |rs|
      ensures HasMetric(ss[i], s, m, v) <==> Stores(Owns(a), rs[i], s, m, v)
      ensures HasEnv(ss[i], m, v) <==> HasEnv(rs[i], m, v)
    {
      SeenHas(Owns(a), rs[i], s, m, v);
    }
  }

  lemma {:induction false} OwnsAfter(a: Report, rs: seq<Report>)
    requires AbsorbAll(Some(a), rs).Some?
    ensures Owns(AbsorbAll(Some(a), rs).value) <==> Owns(a)
    decreases |rs|
  {
    hide Compatible, Join, Seen, Owns;
    if rs == [] {
    } else {
      FailedAbsorbs(rs[1..]);
      OwnershipStays(a, rs[0]);
      OwnsAfter(Join(a, Seen(Owns(a), rs[0])), rs[1..]);
    }
  }

  // A new entry

  /** The entry a series of appends makes where there was none: the first report is taken as it is. */
  function NewEntry(rs: seq<Report>): Option<Report>
    requires rs != []
  {
    AbsorbAll(Some(rs[0]), rs[1..])
  }

  /** An entry with no metrics and no environment, which owns the name or does not. */
  function Blank(owns: bool): Report {
    Report(None, if owns then map[PROTO := map[]] else map[])
  }

  /** Taking a report as it is: appending it to a blank entry that owns the name just when the report does. */
  lemma BlankIsNeutral(r: Report)
    ensures Absorb(Some(Blank(Owns(r))), r) == Some(r)
  {
    var a := Blank(Owns(r));
    assert Seen(Owns(r), r) == r by {
      assert !Owns(r) ==> Stripped(r.scenarios) == r.scenarios;
    }
    assert JoinScenarios(a.scenarios, r.scenarios) == r.scenarios by {
      assert forall s | s in r.scenarios :: map[] + r.scenarios[s] == r.scenarios[s];
    }
  }

  lemma BlankCompatible(owns: bool, rs: seq<Report>)
    ensures AllCompatible(Blank(owns), rs)
    ensures Owns(Blank(owns)) <==> owns
  {
  }

  /** The first report alone decides whether the scenario `__proto__` of any report is stored. */
  lemma NewEntryExact(rs: seq<Report>)
    requires rs != []
    ensures NewEntry(rs) == AbsorbAll(Some(Blank(Owns(rs[0]))), rs)
    ensures NewEntry(rs).Some? <==> PairwiseCompatible(SeenAll(Owns(rs[0]), rs))
    ensures NewEntry(rs).Some? ==> (Owns(NewEntry(rs).value) <==> Owns(rs[0]))
  {
    hide Compatible, Seen, Owns, Absorb, Blank, SeenAll, AllCompatible, PairwiseCompatible;
    var a := Blank(Owns(rs[0]));
    BlankIsNeutral(rs[0]);
    BlankCompatible(Owns(rs[0]), rs);
    SuccessExact(a, rs);
    if NewEntry(rs).Some? {
      OwnsAfter(rs[0], rs[1..]);
    }
  }

  /** Two orders that agree on whether their first report owns the name. */
  lemma SameStart(rs: seq<Report>, ts: seq<Report>)
    requires rs != [] && ts != [] && multiset(rs) == multiset(ts)
    requires Owns(rs[0]) <==> Owns(ts[0])
    ensures NewEntry(rs) == NewEntry(ts)
  {
    hide AbsorbAll, NewEntry, Owns, Blank, SeenAll, PairwiseCompatible;
    NewEntryExact(rs);
    NewEntryExact(ts);
    OrderIndependent(Some(Blank(Owns(rs[0]))), rs, ts);
  }

  predicate AllOwn(rs: seq<Report>) {
    forall i | 0 <= i < |rs| :: Owns(rs[i])
  }

  predicate NoneOwn(rs: seq<Report>) {
    forall i | 0 <= i < |rs| :: !Owns(rs[i])
  }

  /** All reports have a scenario `__proto__`, or none has one, or two conflict elsewhere. */
  ghost predicate OrderSafe(rs: seq<Report>) {
    AllOwn(rs) || NoneOwn(rs) || !PairwiseCompatible(SeenAll(false, rs))
  }

  /** Every order of the reports makes the same entry, or none makes any. */
  ghost predicate OrderNeverShows(rs: seq<Report>)
    requires rs != []
  {
    forall ts: seq<Report> | ts != [] && multiset(ts) == multiset(rs) :: NewEntry(ts) == NewEntry(rs)
  }

  /** Conflicts do not depend on the order. */
  lemma PairwiseAnyOrder(rs: seq<Report>, ts: seq<Report>)
    requires multiset(rs) == multiset(ts)
    ensures PairwiseCompatible(SeenAll(false, rs)) <==> PairwiseCompatible(SeenAll(false, ts))
  {
    hide Compatible, Seen, Owns, AbsorbAll, Blank, SeenAll, AllCompatible, PairwiseCompatible;
    BlankCompatible(false, rs);
    BlankCompatible(false, ts);
    SuccessExact(Blank(false), rs);
    SuccessExact(Blank(false), ts);
    OrderIndependent(Some(Blank(false)), rs, ts);
  }

  /** Storing more can only add conflicts. */
  lemma StoringMoreConflicts(owns: bool, rs: seq<Report>)
    requires PairwiseCompatible(SeenAll(owns, rs))
    ensures PairwiseCompatible(SeenAll(false, rs))
  {
    var all, some := SeenAll(owns, rs), SeenAll(false, rs);
    forall i, j | 0 <= i < j < |rs|
      ensures Compatible(some[i], some[j])
    {
      assert Compatible(all[i], all[j]);
    }
  }

  /** A report brought to the front. */
  function Fronted(rs: seq<Report>, j: nat): (ts: seq<Report>)
    requires j < |rs|
    ensures ts != [] && ts[0] == rs[j] && multiset(ts) == multiset(rs)
  {
    RemoveOne(rs, j);
    [rs[j]] + (rs[..j] + rs[j + 1..])
  }

  /** A safe series: whichever report comes first. */
  lemma SafeOrders(rs: seq<Report>, ts: seq<Report>)
    requires rs != [] && ts != [] && multiset(rs) == multiset(ts) && OrderSafe(rs)
    ensures NewEntry(rs) == NewEntry(ts)
  {
    assert ts[0] in multiset(rs);
    if Owns(rs[0]) <==> Owns(ts[0]) {
      SameStart(rs, ts);
    } else {
      hide Compatible, Seen, Owns, NewEntry, PairwiseCompatible, SeenAll;
      NewEntryExact(rs);
      NewEntryExact(ts);
      PairwiseAnyOrder(rs, ts);
      if NewEntry(rs).Some? {
        StoringMoreConflicts(Owns(rs[0]), rs);
      }
      if NewEntry(ts).Some? {
        StoringMoreConflicts(Owns(ts[0]), ts);
      }
    }
  }

  /** The order of the reports that make a new entry shows exactly when some have a scenario `__proto__`, some have
      none, and no two conflict elsewhere. */
  lemma NewOrderExact(rs: seq<Report>)
    requires rs != []
    ensures OrderNeverShows(rs) <==> OrderSafe(rs)
  {
    hide Compatible, Seen, Owns, NewEntry, PairwiseCompatible, SeenAll, Fronted;
    if OrderSafe(rs) {
      forall ts: seq<Report> | ts != [] && multiset(ts) == multiset(rs)
        ensures NewEntry(ts) == NewEntry(rs)
      {
        SafeOrders(rs, ts);
      }
    } else {
      var i :| 0 <= i < |rs| && Owns(rs[i]);
      var j :| 0 <= j < |rs| && !Owns(rs[j]);
      var us, vs := Fronted(rs, i), Fronted(rs, j);
      NewEntryExact(us);
      NewEntryExact(vs);
      PairwiseAnyOrder(rs, vs);
    }
  }

  /** Two single-scenario reports, the second of the scenario `__proto__`. */
  predicate PlainAndProto(a: Report, p: Report, m: Name, v: Value) {
    a == Report(None, map[1 := map[m := v]]) && p == Report(None, map[PROTO := map[m := v]])
  }

  lemma PlainAbsorbsNothing(a: Report, p: Report, m: Name, v: Value)
    requires PlainAndProto(a, p, m, v)
    ensures Absorb(Some(a), p) == Some(a)
  {
    assert Stripped(p.scenarios) == map[];
    JoinNothing(a.scenarios);
  }

  lemma ProtoAbsorbsAll(a: Report, p: Report, m: Name, v: Value)
    requires PlainAndProto(a, p, m, v)
    ensures Absorb(Some(p), a) == Some(Report(None, map[PROTO := map[m := v], 1 := map[m := v]]))
  {
    var x: Metrics := map[m := v];
    assert x + map[] == x && map[] + x == x;
    assert JoinScenarios(p.scenarios, a.scenarios) == map[PROTO := x, 1 := x];
  }

  /** One report with a scenario `__proto__` and one without: the second order loses a metric and says nothing. */
  lemma OrderShows(a: Report, p: Report, m: Name, v: Value)
    requires PlainAndProto(a, p, m, v)
    ensures NewEntry([p, a]) == Some(Report(None, map[PROTO := map[m := v], 1 := map[m := v]]))
    ensures NewEntry([a, p]) == Some(a)
  {
    hide Absorb;
    PlainAbsorbsNothing(a, p, m, v);
    ProtoAbsorbsAll(a, p, m, v);
    assert AbsorbAll(Some(p), [a]) == AbsorbAll(Absorb(Some(p), a), []);
    assert AbsorbAll(Some(a), [p]) == AbsorbAll(Absorb(Some(a), p), []);
  }

  /** The same report twice is refused as a duplicate when it comes first, and accepted twice when it does not. */
  lemma DuplicateShows(a: Report, p: Report, m: Name, v: Value)
    requires PlainAndProto(a, p, m, v)
    ensures NewEntry([p, p, a]).None?
    ensures NewEntry([a, p, p]) == Some(a)
  {
    assert Absorb(Some(p), p).None? by {
      assert m in p.scenarios[PROTO].Keys;
    }
    hide Absorb;
    PlainAbsorbsNothing(a, p, m, v);
    assert AbsorbAll(Some(a), [p]) == AbsorbAll(Absorb(Some(a), p), []);
    assert [p, p][1..] == [p] && [a, p, p][1..] == [p, p] && [p, p, a][1..] == [p, a];
    assert AbsorbAll(Some(a), [p, p]) == AbsorbAll(Absorb(Some(a), p), [p]);
    FailedAbsorbs([p, a][1..]);
  }
}
