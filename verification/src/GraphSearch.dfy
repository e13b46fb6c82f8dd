/** Searching an object graph, possibly cyclic, for the first value that parses: a depth-first walk
    that shares one set of visited objects. */
module GraphSearch {
  import opened Wrappers

  /** A JavaScript value; objects and arrays are references into the heap. */
  datatype Value = Undefined | Null | Boolean(b: bool) | Number(x: real) | NotFinite | Text(s: string) | Ref(id: nat)

  datatype Object = Array(items: seq<Value>) | Record(fields: seq<(string, Value)>)

  type Heap = map<nat, Object>

  function Values(fields: seq<(string, Value)>): seq<Value> {
    if fields == [] then [] else [fields[0].1] + Values(fields[1..])
  }

  function Children(heap: Heap, v: Value): seq<Value> {
    if v.Ref? && v.id in heap then
      match heap[v.id]
      case Array(items) => items
      case Record(fields) => Values(fields)
    else []
  }

  // The order of the walk

  /** The values the walk from `v` tries, in order, and the objects it has visited afterwards, given
      those visited before. A visited object is tried again but not entered again. */
  function Visit(heap: Heap, v: Value, seen: set<nat>): (r: (seq<Value>, set<nat>))
    ensures seen <= r.1
    decreases |heap.Keys - seen|, 0
  {
    if v.Ref? && v.id in heap && v.id !in seen then
      assert heap.Keys - (seen + {v.id}) < heap.Keys - seen by { Shrinks(heap, v.id, seen); }
      Smaller(heap.Keys - (seen + {v.id}), heap.Keys - seen);
      var (tried, after) := VisitAll(heap, Children(heap, v), seen + {v.id});
      ([v] + tried, after)
    else ([v], seen)
  }

  function VisitAll(heap: Heap, vs: seq<Value>, seen: set<nat>): (r: (seq<Value>, set<nat>))
    ensures seen <= r.1
    decreases |heap.Keys - seen|, 1 + |vs|
  {
    if vs == [] then ([], seen)
    else
      var (first, mid) := Visit(heap, vs[0], seen);
      SubsetSize(heap.Keys - mid, heap.Keys - seen);
      var (rest, after) := VisitAll(heap, vs[1..], mid);
      (first + rest, after)
  }

  lemma Shrinks(heap: Heap, id: nat, seen: set<nat>)
    requires id in heap && id !in seen
    ensures heap.Keys - (seen + {id}) < heap.Keys - seen
  {
    assert id in heap.Keys - seen;
  }

  lemma SubsetSize(a: set<nat>, b: set<nat>)
    requires a <= b
    ensures |a| <= |b|
  {
    assert b == a + (b - a);
  }

  lemma Smaller(a: set<nat>, b: set<nat>)
    requires a < b
    ensures |a| < |b|
  {
    assert b == a + (b - a);
    assert b - a != {};
  }

  /** The first value of the list that parses. */
  function FirstParsed<T>(vs: seq<Value>, parse: Value -> Option<T>): Option<T> {
    if vs == [] then None
    else if parse(vs[0]).Some? then parse(vs[0])
    else FirstParsed(vs[1..], parse)
  }

  lemma {:induction false} FirstParsedConcat<T>(a: seq<Value>, b: seq<Value>, parse: Value -> Option<T>)
    ensures FirstParsed(a + b, parse) ==
            if FirstParsed(a, parse).Some? then FirstParsed(a, parse) else FirstParsed(b, parse)
    decreases |a|
  {
    if a == [] {
      assert a + b == b;
    } else {
      assert (a + b)[1..] == a[1..] + b;
      FirstParsedConcat(a[1..], b, parse);
    }
  }

  lemma {:induction false} FirstParsedMeaning<T>(vs: seq<Value>, parse: Value -> Option<T>)
    ensures FirstParsed(vs, parse).Some? <==> exists v | v in vs :: parse(v).Some?
    ensures FirstParsed(vs, parse).Some? ==> exists v | v in vs :: parse(v) == FirstParsed(vs, parse)
    decreases |vs|
  {
    if vs == [] {
    } else {
      assert vs[0] in vs;
      FirstParsedMeaning(vs[1..], parse);
      assert forall v | v in vs :: v == vs[0] || v in vs[1..];
    }
  }

  // Reachability

  ghost predicate Path(heap: Heap, path: seq<Value>) {
    && path != []
    && forall i | 0 <= i < |path| - 1 :: path[i + 1] in Children(heap, path[i])
  }

  ghost predicate Reaches(heap: Heap, root: Value, v: Value) {
    exists path: seq<Value> :: Path(heap, path) && path[0] == root && path[|path| - 1] == v
  }

  lemma ReachesSelf(heap: Heap, v: Value)
    ensures Reaches(heap, v, v)
  {
    assert Path(heap, [v]);
  }

  lemma PathLonger(heap: Heap, root: Value, path: seq<Value>)
    requires Path(heap, path) && path[0] in Children(heap, root)
    ensures Path(heap, [root] + path)
  {
    hide Children;
    var longer := [root] + path;
    forall i | 0 <= i < |longer| - 1
      ensures longer[i + 1] in Children(heap, longer[i])
    {
      if i > 0 {
        assert path[i - 1 + 1] in Children(heap, path[i - 1]);
      }
    }
  }

  lemma ReachesThrough(heap: Heap, root: Value, child: Value, v: Value)
    requires child in Children(heap, root) && Reaches(heap, child, v)
    ensures Reaches(heap, root, v)
  {
    var path: seq<Value> :| Path(heap, path) && path[0] == child && path[|path| - 1] == v;
    PathLonger(heap, root, path);
    hide *;
    ReachesBy(heap, root, v, [root] + path);
  }

  lemma ReachesBy(heap: Heap, root: Value, v: Value, path: seq<Value>)
    requires Path(heap, path) && path[0] == root && path[|path| - 1] == v
    ensures Reaches(heap, root, v)
  {
    hide Children;
  }

  /** Everything tried is reachable. */
  lemma {:induction false} VisitIsReachable(heap: Heap, v: Value, seen: set<nat>, w: Value)
    requires w in Visit(heap, v, seen).0
    ensures Reaches(heap, v, w)
    decreases |heap.Keys - seen|, 0
  {
    ReachesSelf(heap, v);
    if w != v {
      Shrinks(heap, v.id, seen);
      Smaller(heap.Keys - (seen + {v.id}), heap.Keys - seen);
      var child := VisitAllIsReachable(heap, Children(heap, v), seen + {v.id}, w);
      ReachesThrough(heap, v, child, w);
    }
  }

  lemma {:induction false} VisitAllIsReachable(heap: Heap, vs: seq<Value>, seen: set<nat>, w: Value)
    returns (from: Value)
    requires w in VisitAll(heap, vs, seen).0
    ensures from in vs && Reaches(heap, from, w)
    decreases |heap.Keys - seen|, 1 + |vs|
  {
    var (first, mid) := Visit(heap, vs[0], seen);
    SubsetSize(heap.Keys - mid, heap.Keys - seen);
    if w in first {
      VisitIsReachable(heap, vs[0], seen, w);
      from := vs[0];
    } else {
      from := VisitAllIsReachable(heap, vs[1..], mid, w);
    }
  }

  /** What a completed walk guarantees: every object tried has been visited, and every object newly
      visited has had all its children tried. */
  ghost predicate Explored(heap: Heap, seen: set<nat>, tried: seq<Value>, after: set<nat>) {
    && (forall w | w in tried && w.Ref? && w.id in heap :: w.id in after)
    && (forall id, c | id in after && id !in seen && c in Children(heap, Ref(id)) :: c in tried)
  }

  lemma {:induction false} VisitExplores(heap: Heap, v: Value, seen: set<nat>)
    ensures var (tried, after) := Visit(heap, v, seen); v in tried && Explored(heap, seen, tried, after)
    decreases |heap.Keys - seen|, 0
  {
    if v.Ref? && v.id in heap && v.id !in seen {
      Shrinks(heap, v.id, seen);
      Smaller(heap.Keys - (seen + {v.id}), heap.Keys - seen);
      VisitAllExplores(heap, Children(heap, v), seen + {v.id});
    }
  }

  lemma {:induction false} VisitAllExplores(heap: Heap, vs: seq<Value>, seen: set<nat>)
    ensures var (tried, after) := VisitAll(heap, vs, seen);
            (forall v | v in vs :: v in tried) && Explored(heap, seen, tried, after)
    decreases |heap.Keys - seen|, 1 + |vs|
  {
    if vs == [] {
    } else {
      var (first, mid) := Visit(heap, vs[0], seen);
      SubsetSize(heap.Keys - mid, heap.Keys - seen);
      VisitExplores(heap, vs[0], seen);
      VisitAllExplores(heap, vs[1..], mid);
      assert forall v | v in vs :: v == vs[0] || v in vs[1..];
    }
  }

  /** Everything reachable is tried, cycles and sharing notwithstanding. */
  lemma {:induction false} ReachableIsVisited(heap: Heap, root: Value, path: seq<Value>)
    requires Path(heap, path) && path[0] == root
    ensures path[|path| - 1] in Visit(heap, root, {}).0
    decreases |path|
  {
    VisitExplores(heap, root, {});
    if |path| > 1 {
      var n := |path| - 1;
      ReachableIsVisited(heap, root, path[..n]);
      var parent := path[n - 1];
      assert path[n - 1 + 1] in Children(heap, parent);
      assert parent == Ref(parent.id);
    }
  }

  /** The walk tries exactly the values reachable from the root. */
  lemma VisitExactlyReachable(heap: Heap, root: Value, v: Value)
    ensures v in Visit(heap, root, {}).0 <==> Reaches(heap, root, v)
  {
    if v in Visit(heap, root, {}).0 {
      VisitIsReachable(heap, root, {}, v);
    }
    if Reaches(heap, root, v) {
      var path: seq<Value> :| Path(heap, path) && path[0] == root && path[|path| - 1] == v;
      ReachableIsVisited(heap, root, path);
    }
  }

  // The search

  /** One search: the visited set is shared by every call of the recursive walk. */
  class Searcher<T> {
    const heap: Heap
    const parse: Value -> Option<T>
    var seen: set<nat>

    constructor (heap: Heap, parse: Value -> Option<T>)
      ensures this.heap == heap && this.parse == parse && seen == {}
    {
      this.heap, this.parse, seen := heap, parse, {};
    }

    /** Stops at the first value that parses; otherwise leaves the visited set of the whole walk. */
    method Walk(value: Value) returns (found: Option<T>)
      modifies this
      ensures found == FirstParsed(Visit(heap, value, old(seen)).0, parse)
      ensures found.None? ==> seen == Visit(heap, value, old(seen)).1
      decreases |heap.Keys - seen|
    {
      var parsed := parse(value);
      if parsed.Some? {
        return parsed;
      }
      if !value.Ref? || value.id !in heap || value.id in seen {
        return None;
      }
      Shrinks(heap, value.id, seen);
      Smaller(heap.Keys - (seen + {value.id}), heap.Keys - seen);
      seen := seen + {value.id};
      ghost var entered := seen;
      var children := Children(heap, value);
      ghost var whole := VisitAll(heap, children, entered);
      var i := 0;
      assert children[0..] == children;
      while i < |children|
        invariant 0 <= i <= |children|
        invariant entered <= seen
        invariant FirstParsed(whole.0, parse) == FirstParsed(VisitAll(heap, children[i..], seen).0, parse)
        invariant whole.1 == VisitAll(heap, children[i..], seen).1
      {
        SubsetSize(heap.Keys - seen, heap.Keys - entered);
        ghost var before := seen;
        ghost var step := Visit(heap, children[i], before);
        assert children[i..][1..] == children[i + 1..];
        FirstParsedConcat(step.0, VisitAll(heap, children[i + 1..], step.1).0, parse);
        found := Walk(children[i]);
        if found.Some? {
          return;
        }
        i := i + 1;
      }
      return None;
    }
  }

  /** The search returns a value exactly when something reachable from the root parses, and then the
      parse of the first such value in walk order. */
  method Find<T>(heap: Heap, root: Value, parse: Value -> Option<T>) returns (found: Option<T>)
    ensures found.Some? <==> exists v: Value :: Reaches(heap, root, v) && parse(v).Some?
    ensures found.Some? ==> exists v: Value :: Reaches(heap, root, v) && parse(v) == found
    ensures found == FirstParsed(Visit(heap, root, {}).0, parse)
  {
    var searcher := new Searcher<T>(heap, parse);
    found := searcher.Walk(root);
    FirstParsedMeaning(Visit(heap, root, {}).0, parse);
    forall v: Value
      ensures v in Visit(heap, root, {}).0 <==> Reaches(heap, root, v)
    {
      VisitExactlyReachable(heap, root, v);
    }
  }

  // What the two searches look for

  datatype Counters = Counters(translateCalls: real, persistentHits: real, persistentMisses: real,
                               disabled: Option<bool>)
  function Get(heap: Heap, v: Value, key: string): Value {
    if v.Ref? && v.id in heap && heap[v.id].Record? then Lookup(heap[v.id].fields, key) else Undefined
  }

  function Lookup(fields: seq<(string, Value)>, key: string): Value {
    if fields == [] then Undefined
    else if fields[0].0 == key then fields[0].1
    else Lookup(fields[1..], key)
  }

  function ParseBool(v: Value): Option<bool> {
    match v
    case Boolean(b) => Some(b)
    case Number(x) => Some(x != 0.0)
    case _ => None
  }

  function Triple(a: Value, b: Value, c: Value, disabled: Option<bool>): Option<Counters> {
    if a.Number? && b.Number? && c.Number? then Some(Counters(a.x, b.x, c.x, disabled)) else None
  }

  function ParseCounters(heap: Heap, v: Value): Option<Counters> {
    var disabled := ParseBool(Get(heap, v, "d3d9_shader_cache_disabled"));
    var d3d9 := Triple(Get(heap, v, "d3d9_shader_translate_calls"), Get(heap, v, "d3d9_shader_cache_persistent_hits"),
                       Get(heap, v, "d3d9_shader_cache_persistent_misses"), disabled);
    var snake := Triple(Get(heap, v, "translate_calls"), Get(heap, v, "persistent_hits"),
                        Get(heap, v, "persistent_misses"), disabled);
    var camel := Triple(Get(heap, v, "translateCalls"), Get(heap, v, "persistentHits"),
                        Get(heap, v, "persistentMisses"), disabled);
    if d3d9.Some? then d3d9 else if snake.Some? then snake else camel
  }

  function ParseVersion(heap: Heap, v: Value): Option<real> {
    var a, b := Get(heap, v, "d3d9TranslatorCacheVersion"), Get(heap, v, "d3d9_translator_cache_version");
    var c, d := Get(heap, v, "d3d9TranslatorVersion"), Get(heap, v, "d3d9_translator_version");
    if a.Number? then Some(a.x) else if b.Number? then Some(b.x)
    else if c.Number? then Some(c.x) else if d.Number? then Some(d.x) else None
  }

  method FindShaderCacheCounters(heap: Heap, root: Value) returns (found: Option<Counters>)
    ensures found.Some? <==> exists v: Value :: Reaches(heap, root, v) && ParseCounters(heap, v).Some?
    ensures found.Some? ==> exists v: Value :: Reaches(heap, root, v) && ParseCounters(heap, v) == found
  {
    found := Find(heap, root, v => ParseCounters(heap, v));
  }

  method FindTranslatorCacheVersion(heap: Heap, root: Value) returns (found: Option<real>)
    ensures found.Some? <==> exists v: Value :: Reaches(heap, root, v) && ParseVersion(heap, v).Some?
    ensures found.Some? ==> exists v: Value :: Reaches(heap, root, v) && ParseVersion(heap, v) == found
  {
    found := Find(heap, root, v => ParseVersion(heap, v));
  }

  // Spellings

  /** One object holds these fields. */
  function One(fields: seq<(string, Value)>): Heap {
    map[0 := Record(fields)]
  }

  lemma {:induction false} FieldFound(fields: seq<(string, Value)>, i: nat)
    requires i < |fields| && forall k | 0 <= k < i :: fields[k].0 != fields[i].0
    ensures Lookup(fields, fields[i].0) == fields[i].1
    decreases |fields|
  {
    if i > 0 {
      FieldFound(fields[1..], i - 1);
    }
  }

  lemma {:induction false} FieldMissing(fields: seq<(string, Value)>, key: string)
    requires forall k | 0 <= k < |fields| :: fields[k].0 != key
    ensures Lookup(fields, key) == Undefined
    decreases |fields|
  {
    if fields == [] {
    } else {
      FieldMissing(fields[1..], key);
    }
  }

  /** Which field is which: calls, hits and misses under each spelling, and the disabled flag as a boolean. */
  lemma CountersSpelled(a: real, b: real, c: real, d: bool)
    ensures ParseCounters(One([("d3d9_shader_translate_calls", Number(a)),
                               ("d3d9_shader_cache_persistent_hits", Number(b)),
                               ("d3d9_shader_cache_persistent_misses", Number(c)),
                               ("d3d9_shader_cache_disabled", Boolean(d))]), Ref(0))
            == Some(Counters(a, b, c, Some(d)))
  {
    var fields := [("d3d9_shader_translate_calls", Number(a)), ("d3d9_shader_cache_persistent_hits", Number(b)),
                   ("d3d9_shader_cache_persistent_misses", Number(c)), ("d3d9_shader_cache_disabled", Boolean(d))];
    hide Lookup;
    FieldFound(fields, 0);
    FieldFound(fields, 1);
    FieldFound(fields, 2);
    FieldFound(fields, 3);
  }

  lemma SnakeSpelled(a: real, b: real, c: real)
    ensures ParseCounters(One([("translate_calls", Number(a)), ("persistent_hits", Number(b)),
                               ("persistent_misses", Number(c))]), Ref(0))
            == Some(Counters(a, b, c, None))
  {
    var fields := [("translate_calls", Number(a)), ("persistent_hits", Number(b)), ("persistent_misses", Number(c))];
    hide Lookup;
    FieldFound(fields, 0);
    FieldFound(fields, 1);
    FieldFound(fields, 2);
    FieldMissing(fields, "d3d9_shader_translate_calls");
    FieldMissing(fields, "d3d9_shader_cache_disabled");
  }

  lemma CamelSpelled(a: real, b: real, c: real)
    ensures ParseCounters(One([("translateCalls", Number(a)), ("persistentHits", Number(b)),
                               ("persistentMisses", Number(c))]), Ref(0))
            == Some(Counters(a, b, c, None))
  {
    var fields := [("translateCalls", Number(a)), ("persistentHits", Number(b)), ("persistentMisses", Number(c))];
    hide Lookup;
    FieldFound(fields, 0);
    FieldFound(fields, 1);
    FieldFound(fields, 2);
    FieldMissing(fields, "d3d9_shader_translate_calls");
    FieldMissing(fields, "translate_calls");
    FieldMissing(fields, "d3d9_shader_cache_disabled");
  }

  /** The cache version is preferred to the translator version, and camel case to snake case. */
  lemma VersionSpelled(a: real, b: real, c: real, d: real)
    ensures ParseVersion(One([("d3d9TranslatorCacheVersion", Number(a)), ("d3d9_translator_cache_version", Number(b)),
                              ("d3d9TranslatorVersion", Number(c)), ("d3d9_translator_version", Number(d))]), Ref(0))
            == Some(a)
    ensures ParseVersion(One([("d3d9_translator_cache_version", Number(b)), ("d3d9TranslatorVersion", Number(c)),
                              ("d3d9_translator_version", Number(d))]), Ref(0)) == Some(b)
    ensures ParseVersion(One([("d3d9TranslatorVersion", Number(c)), ("d3d9_translator_version", Number(d))]), Ref(0))
            == Some(c)
    ensures ParseVersion(One([("d3d9_translator_version", Number(d))]), Ref(0)) == Some(d)
  {
    FieldFound([("d3d9TranslatorCacheVersion", Number(a)), ("d3d9_translator_cache_version", Number(b)),
                ("d3d9TranslatorVersion", Number(c)), ("d3d9_translator_version", Number(d))], 0);
    var three := [("d3d9_translator_cache_version", Number(b)), ("d3d9TranslatorVersion", Number(c)),
                  ("d3d9_translator_version", Number(d))];
    FieldFound(three, 0);
    FieldMissing(three, "d3d9TranslatorCacheVersion");
    var two := [("d3d9TranslatorVersion", Number(c)), ("d3d9_translator_version", Number(d))];
    FieldFound(two, 0);
    FieldMissing(two, "d3d9TranslatorCacheVersion");
    FieldMissing(two, "d3d9_translator_cache_version");
    var one := [("d3d9_translator_version", Number(d))];
    FieldFound(one, 0);
    FieldMissing(one, "d3d9TranslatorCacheVersion");
    FieldMissing(one, "d3d9_translator_cache_version");
    FieldMissing(one, "d3d9TranslatorVersion");
    hide Lookup;
  }

  /** The walk tries an object before what is in it, and what is in the first before the second. */
  lemma WalkOrder(a: Value, b: Value)
    requires !a.Ref? && !b.Ref?
    ensures Visit(map[0 := Array([Ref(1), b]), 1 := Array([a])], Ref(0), {}).0 == [Ref(0), Ref(1), a, b]
  {
    var heap: Heap := map[0 := Array([Ref(1), b]), 1 := Array([a])];
    assert Visit(heap, a, {0, 1}) == ([a], {0, 1}) && Visit(heap, b, {0, 1}) == ([b], {0, 1});
    assert [a][1..] == [] && [b][1..] == [] && [Ref(1), b][1..] == [b];
    assert VisitAll(heap, [a], {0, 1}) == ([a] + [], {0, 1});
    assert {0} + {1} == {0, 1} && {} + {0} == {0};
    assert Visit(heap, Ref(1), {0}) == ([Ref(1)] + ([a] + []), {0, 1});
    assert VisitAll(heap, [b], {0, 1}) == ([b] + [], {0, 1});
    assert VisitAll(heap, [Ref(1), b], {0}) == ([Ref(1)] + ([a] + []) + ([b] + []), {0, 1});
  }
}
