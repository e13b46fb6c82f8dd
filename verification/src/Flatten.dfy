/** Flattening a nested result into dotted and bracketed metric names. */
module Flatten {
  import opened Wrappers
  import Seqs

  /** A JSON-like value; `Other` is a string, boolean, null or a number that is not finite. */
  datatype Json = Number(x: real) | Other | Arr(items: seq<Json>) | Obj(fields: seq<Entry>)

  datatype Entry = Entry(key: string, value: Json)

  datatype Segment = Index(i: nat) | Field(key: string)

  type Path = seq<Segment>

  type Metrics = map<string, real>

  // Names

  function Digit(d: nat): char
    requires d < 10
  {
    "0123456789"[d]
  }

  function Decimal(n: nat): (s: string)
    ensures s != [] && forall k | 0 <= k < |s| :: '0' <= s[k] <= '9'
  {
    if n < 10 then [Digit(n)] else Decimal(n / 10) + [Digit(n % 10)]
  }

  /** How the prefix of a value grows by one step. */
  function Extend(prefix: string, s: Segment): string {
    match s
    case Index(i) => if prefix != "" then prefix + "[" + (Decimal(i) + "]") else "[" + (Decimal(i) + "]")
    case Field(k) => if prefix != "" then prefix + "." + k else k
  }

  function Render(path: Path): string {
    if path == [] then "" else Extend(Render(path[..|path| - 1]), path[|path| - 1])
  }

  // Values

  function Lookup(fields: seq<Entry>, key: string): Option<Json> {
    if fields == [] then None
    else if fields[0].key == key then Some(fields[0].value)
    else Lookup(fields[1..], key)
  }

  /** The value a path leads to. */
  function At(t: Json, path: Path): Option<Json>
    decreases |path|
  {
    if path == [] then Some(t)
    else
      match (t, path[0])
      case (Arr(items), Index(i)) => if i < |items| then At(items[i], path[1..]) else None
      case (Obj(fields), Field(k)) =>
        (match Lookup(fields, k) case Some(v) => At(v, path[1..]) case None => None)
      case _ => None
  }

  predicate Plain(key: string) {
    key != "" && forall k | 0 <= k < |key| :: key[k] != '.' && key[k] != '[' && key[k] != ']'
  }

  /** Every key is nonempty and free of the three separators, and no object repeats a key. */
  ghost predicate Good(t: Json) {
    match t
    case Arr(items) => forall i | 0 <= i < |items| :: Good(items[i])
    case Obj(fields) =>
      && (forall i | 0 <= i < |fields| :: Plain(fields[i].key) && Good(fields[i].value))
      && (forall i, j | 0 <= i < j < |fields| :: fields[i].key != fields[j].key)
    case _ => true
  }

  predicate GoodPath(path: Path) {
    forall k | 0 <= k < |path| && path[k].Field? :: Plain(path[k].key)
  }

  // Names determine paths

  function DecimalValue(s: string): int {
    if s == [] then 0 else 10 * DecimalValue(s[..|s| - 1]) + (s[|s| - 1] as int - '0' as int)
  }

  lemma {:induction false} DecimalReadsBack(n: nat)
    ensures DecimalValue(Decimal(n)) == n
    decreases n
  {
    var s := Decimal(n);
    if n < 10 {
      assert s[..0] == [];
    } else {
      DecimalReadsBack(n / 10);
      assert s[..|s| - 1] == Decimal(n / 10);
    }
  }

  function LastIndex(s: string, c: char): int {
    if s == [] then -1 else if s[|s| - 1] == c then |s| - 1 else LastIndex(s[..|s| - 1], c)
  }

  lemma {:induction false} LastIndexAt(a: string, c: char, u: string)
    requires c !in u
    ensures LastIndex(a + [c] + u, c) == |a|
    decreases |u|
  {
    var s := a + [c] + u;
    if u == [] {
      assert s == a + [c];
    } else {
      assert s[|s| - 1] == u[|u| - 1];
      assert s[..|s| - 1] == a + [c] + u[..|u| - 1];
      LastIndexAt(a, c, u[..|u| - 1]);
    }
  }

  /** Splitting at the last occurrence of a separator is unambiguous. */
  lemma SplitAtLast(a: string, c: char, u: string, b: string, v: string)
    requires a + [c] + u == b + [c] + v && c !in u && c !in v
    ensures a == b && u == v
  {
    LastIndexAt(a, c, u);
    LastIndexAt(b, c, v);
    var s := a + [c] + u;
    assert a == s[..|a|] && b == s[..|b|];
    assert u == s[|a| + 1..] && v == s[|b| + 1..];
  }

  lemma RenderNonEmpty(path: Path)
    requires path != [] && GoodPath(path)
    ensures Render(path) != ""
  {
  }

  lemma GoodPrefix(path: Path)
    requires path != [] && GoodPath(path)
    ensures GoodPath(path[..|path| - 1])
    ensures path[|path| - 1].Field? ==> Plain(path[|path| - 1].key)
  {
  }

  lemma LastChar(path: Path)
    requires path != [] && GoodPath(path)
    ensures Render(path) != ""
    ensures Render(path)[|Render(path)| - 1] == ']' <==> path[|path| - 1].Index?
  {
    var s := path[|path| - 1];
    if s.Field? {
      assert s.key[|s.key| - 1] == Render(path)[|Render(path)| - 1];
    }
  }

  lemma RenderIndex(path: Path)
    requires path != [] && path[|path| - 1].Index?
    ensures Render(path) == Render(path[..|path| - 1]) + "[" + (Decimal(path[|path| - 1].i) + "]")
  {
    hide Decimal;
    assert "" + "[" == "[";
  }

  /** Two paths with plain keys never share a name. */
  lemma {:induction false} RenderInjective(p: Path, q: Path)
    requires GoodPath(p) && GoodPath(q) && Render(p) == Render(q)
    ensures p == q
    decreases |p| + |q|
  {
    if p == [] || q == [] {
      if p != [] {
        RenderNonEmpty(p);
      }
      if q != [] {
        RenderNonEmpty(q);
      }
    } else {
      var p0, q0 := p[..|p| - 1], q[..|q| - 1];
      var ps, qs := p[|p| - 1], q[|q| - 1];
      GoodPrefix(p);
      GoodPrefix(q);
      LastChar(p);
      LastChar(q);
      if ps.Index? {
        RenderIndex(p);
        RenderIndex(q);
        var u, v := Decimal(ps.i) + "]", Decimal(qs.i) + "]";
        SplitAtLast(Render(p0), '[', u, Render(q0), v);
        assert u[..|u| - 1] == Decimal(ps.i) && v[..|v| - 1] == Decimal(qs.i);
        DecimalReadsBack(ps.i);
        DecimalReadsBack(qs.i);
      } else {
        LastFields(p, q);
      }
      RenderInjective(p0, q0);
      assert p == p0 + [ps] && q == q0 + [qs];
    }
  }

  lemma LastFields(p: Path, q: Path)
    requires p != [] && q != [] && GoodPath(p) && GoodPath(q) && Render(p) == Render(q)
    requires p[|p| - 1].Field? && q[|q| - 1].Field?
    ensures p[|p| - 1] == q[|q| - 1] && Render(p[..|p| - 1]) == Render(q[..|q| - 1])
  {
    var p0, q0 := Render(p[..|p| - 1]), Render(q[..|q| - 1]);
    var k, l := p[|p| - 1].key, q[|q| - 1].key;
    GoodPrefix(p);
    GoodPrefix(q);
    DotInField(p0, k);
    DotInField(q0, l);
    if p0 != "" {
      SplitAtLast(p0, '.', k, q0, l);
    }
  }

  lemma DotInField(prefix: string, key: string)
    requires Plain(key)
    ensures '.' !in key
    ensures '.' in Extend(prefix, Field(key)) <==> prefix != ""
  {
    if prefix != "" {
      assert Extend(prefix, Field(key))[|prefix|] == '.';
    }
  }

  // Names written from the front

  /** What one step of a path adds to a name: brackets around an index, a dot before a key unless it comes first. */
  function Piece(s: Segment, first: bool): string {
    match s
    case Index(i) => "[" + Decimal(i) + "]"
    case Field(k) => if first then k else "." + k
  }

  function Pieces(path: Path, first: bool): string {
    if path == [] then "" else Piece(path[0], first) + Pieces(path[1..], false)
  }

  /** A name is its pieces one behind the other. */
  lemma RenderSpelled(path: Path)
    requires GoodPath(path)
    ensures Render(path) == Pieces(path, true)
  {
    if path == [] {
    } else {
      assert path[..0] == [];
      RenderOnwards(path, 0);
      assert path[0..] == path;
    }
  }

  lemma {:induction false} RenderOnwards(path: Path, n: nat)
    requires n <= |path| && GoodPath(path)
    ensures Render(path) == Render(path[..n]) + Pieces(path[n..], n == 0)
    decreases |path| - n
  {
    if n == |path| {
      assert path[..n] == path && path[n..] == [];
    } else {
      RenderOnwards(path, n + 1);
      var s := path[n];
      assert path[..n + 1][..n] == path[..n] && path[n..][1..] == path[n + 1..];
      if n > 0 {
        assert GoodPath(path[..n]);
        RenderNonEmpty(path[..n]);
      }
      StepSpelled(Render(path[..n]), s, n == 0);
      Seqs.Assoc(Render(path[..n]), Piece(s, n == 0), Pieces(path[n + 1..], false));
    }
  }

  lemma StepSpelled(prefix: string, s: Segment, first: bool)
    requires first <==> prefix == ""
    ensures Extend(prefix, s) == prefix + Piece(s, first)
  {
    hide Decimal;
    match s
    case Index(i) =>
      Seqs.Assoc("[", Decimal(i), "]");
      Seqs.Assoc(prefix, "[", Decimal(i) + "]");
    case Field(k) => Seqs.Assoc(prefix, ".", k);
  }

  /** Indices are written without leading zeros. */
  lemma {:induction false} NoLeadingZero(n: nat)
    requires n > 0
    ensures Decimal(n)[0] != '0'
    decreases n
  {
    if n < 10 {
    } else {
      NoLeadingZero(n / 10);
    }
  }

  // Flattening

  /** Assigning to `__proto__` on a plain object stores no property. */
  function Insert(out: Metrics, name: string, x: real): Metrics {
    if name == "__proto__" then out else out[name := x]
  }

  function InsertAll(out: Metrics, named: seq<(string, real)>): Metrics {
    if named == [] then out
    else Insert(InsertAll(out, named[..|named| - 1]), named[|named| - 1].0, named[|named| - 1].1)
  }

  /** The assignments the traversal makes below a value, in order. A number without a prefix has no name. */
  function Named(t: Json, prefix: string): seq<(string, real)>
    decreases t, 1
  {
    match t
    case Number(x) => if prefix != "" then [(prefix, x)] else []
    case Other => []
    case Arr(items) => NamedItems(items, prefix, |items|)
    case Obj(fields) => NamedFields(fields, prefix, |fields|)
  }

  function NamedItems(items: seq<Json>, prefix: string, n: nat): seq<(string, real)>
    requires n <= |items|
    decreases items, 0, n
  {
    if n == 0 then [] else NamedItems(items, prefix, n - 1) + Named(items[n - 1], Extend(prefix, Index(n - 1)))
  }

  function NamedFields(fields: seq<Entry>, prefix: string, n: nat): seq<(string, real)>
    requires n <= |fields|
    decreases fields, 0, n
  {
    if n == 0 then []
    else NamedFields(fields, prefix, n - 1) + Named(fields[n - 1].value, Extend(prefix, Field(fields[n - 1].key)))
  }

  lemma {:induction false} InsertAllConcat(out: Metrics, a: seq<(string, real)>, b: seq<(string, real)>)
    ensures InsertAll(out, a + b) == InsertAll(InsertAll(out, a), b)
    decreases |b|
  {
    if b == [] {
      assert a + b == a;
    } else {
      assert (a + b)[..|a + b| - 1] == a + b[..|b| - 1];
      InsertAllConcat(out, a, b[..|b| - 1]);
    }
  }

  /** The recursive walk with its loops, threading the one output map through every call. */
  method FlattenNumericMetrics(value: Json, prefix: string, out: Metrics) returns (r: Metrics)
    ensures r == InsertAll(out, Named(value, prefix))
    decreases value
  {
    hide Extend, Insert;
    r := out;
    match value {
      case Number(x) =>
        if prefix != "" {
          r := Insert(out, prefix, x);
          assert [(prefix, x)][..0] == [];
        }
      case Other =>
      case Arr(items) =>
        for i := 0 to |items|
          invariant r == InsertAll(out, NamedItems(items, prefix, i))
        {
          InsertAllConcat(out, NamedItems(items, prefix, i), Named(items[i], Extend(prefix, Index(i))));
          r := FlattenNumericMetrics(items[i], Extend(prefix, Index(i)), r);
        }
      case Obj(fields) =>
        for i := 0 to |fields|
          invariant r == InsertAll(out, NamedFields(fields, prefix, i))
        {
          InsertAllConcat(out, NamedFields(fields, prefix, i),
                          Named(fields[i].value, Extend(prefix, Field(fields[i].key))));
          r := FlattenNumericMetrics(fields[i].value, Extend(prefix, Field(fields[i].key)), r);
        }
    }
  }

  // Assignments and leaves

  /** The assignment `(name, x)` is that of the numeric leaf at `path` below a value reached by `base`. */
  ghost predicate LeafNamed(t: Json, base: Path, path: Path, name: string, x: real) {
    GoodPath(base + path) && At(t, path) == Some(Number(x)) && name == Render(base + path)
  }

  lemma RenderSnoc(base: Path, s: Segment)
    ensures Render(base + [s]) == Extend(Render(base), s)
  {
    assert (base + [s])[..|base|] == base;
  }

  lemma GoodSnoc(base: Path, s: Segment)
    requires GoodPath(base) && (s.Field? ==> Plain(s.key))
    ensures GoodPath(base + [s])
  {
  }

  lemma LeafBelow(t: Json, child: Json, base: Path, s: Segment, path: Path, name: string, x: real)
    requires LeafNamed(child, base + [s], path, name, x)
    requires forall rest: Path :: At(t, [s] + rest) == At(child, rest)
    ensures LeafNamed(t, base, [s] + path, name, x)
  {
    Seqs.Assoc(base, [s], path);
  }

  lemma AtItem(items: seq<Json>, i: nat, rest: Path)
    requires i < |items|
    ensures At(Arr(items), [Index(i)] + rest) == At(items[i], rest)
  {
    assert ([Index(i)] + rest)[1..] == rest;
  }

  lemma {:induction false} LookupField(fields: seq<Entry>, i: nat)
    requires i < |fields| && forall a, b | 0 <= a < b < |fields| :: fields[a].key != fields[b].key
    ensures Lookup(fields, fields[i].key) == Some(fields[i].value)
    decreases |fields|
  {
    if i == 0 {
    } else {
      LookupField(fields[1..], i - 1);
    }
  }

  lemma AtField(fields: seq<Entry>, i: nat, rest: Path)
    requires i < |fields| && forall a, b | 0 <= a < b < |fields| :: fields[a].key != fields[b].key
    ensures At(Obj(fields), [Field(fields[i].key)] + rest) == At(fields[i].value, rest)
  {
    LookupField(fields, i);
    assert ([Field(fields[i].key)] + rest)[1..] == rest;
  }

  /** Every assignment names a numeric leaf by its rendered path. */
  lemma {:induction false} NamedIsLeaf(t: Json, base: Path, k: nat) returns (path: Path)
    requires Good(t) && GoodPath(base) && k < |Named(t, Render(base))|
    ensures LeafNamed(t, base, path, Named(t, Render(base))[k].0, Named(t, Render(base))[k].1)
    decreases t, 1
  {
    match t
    case Number(x) =>
      path := [];
      assert base + [] == base;
    case Arr(items) =>
      path := ItemIsLeaf(items, base, |items|, k);
    case Obj(fields) =>
      path := FieldIsLeaf(fields, base, |fields|, k);
  }

  lemma {:induction false} ItemIsLeaf(items: seq<Json>, base: Path, n: nat, k: nat) returns (path: Path)
    requires n <= |items| && (forall i | 0 <= i < |items| :: Good(items[i])) && GoodPath(base)
    requires k < |NamedItems(items, Render(base), n)|
    ensures var named := NamedItems(items, Render(base), n)[k]; LeafNamed(Arr(items), base, path, named.0, named.1)
    decreases items, 0, n
  {
    hide LeafNamed, Extend;
    var before := NamedItems(items, Render(base), n - 1);
    if k < |before| {
      path := ItemIsLeaf(items, base, n - 1, k);
    } else {
      var s := Index(n - 1);
      RenderSnoc(base, s);
      GoodSnoc(base, s);
      var rest := NamedIsLeaf(items[n - 1], base + [s], k - |before|);
      path := [s] + rest;
      forall r: Path
        ensures At(Arr(items), [s] + r) == At(items[n - 1], r)
      {
        AtItem(items, n - 1, r);
      }
      var named := NamedItems(items, Render(base), n)[k];
      LeafBelow(Arr(items), items[n - 1], base, s, rest, named.0, named.1);
    }
  }

  lemma {:induction false} FieldIsLeaf(fields: seq<Entry>, base: Path, n: nat, k: nat) returns (path: Path)
    requires n <= |fields| && GoodPath(base) && Good(Obj(fields))
    requires k < |NamedFields(fields, Render(base), n)|
    ensures var named := NamedFields(fields, Render(base), n)[k]; LeafNamed(Obj(fields), base, path, named.0, named.1)
    decreases fields, 0, n
  {
    hide LeafNamed, Extend;
    var before := NamedFields(fields, Render(base), n - 1);
    if k < |before| {
      path := FieldIsLeaf(fields, base, n - 1, k);
    } else {
      var s := Field(fields[n - 1].key);
      RenderSnoc(base, s);
      GoodSnoc(base, s);
      var rest := NamedIsLeaf(fields[n - 1].value, base + [s], k - |before|);
      path := [s] + rest;
      forall r: Path
        ensures At(Obj(fields), [s] + r) == At(fields[n - 1].value, r)
      {
        AtField(fields, n - 1, r);
      }
      var named := NamedFields(fields, Render(base), n)[k];
      LeafBelow(Obj(fields), fields[n - 1].value, base, s, rest, named.0, named.1);
    }
  }

  lemma {:induction false} LookupIndex(fields: seq<Entry>, key: string) returns (i: nat)
    requires Lookup(fields, key).Some?
    ensures i < |fields| && fields[i].key == key && fields[i].value == Lookup(fields, key).value
    decreases |fields|
  {
    if fields[0].key == key {
      i := 0;
    } else {
      var j := LookupIndex(fields[1..], key);
      i := j + 1;
    }
  }

  lemma {:induction false} ItemsContain(items: seq<Json>, prefix: string, n: nat, i: nat, e: (string, real))
    requires i < n <= |items| && e in Named(items[i], Extend(prefix, Index(i)))
    ensures e in NamedItems(items, prefix, n)
    decreases n
  {
    hide Extend;
    if i < n - 1 {
      ItemsContain(items, prefix, n - 1, i, e);
    }
  }

  lemma {:induction false} FieldsContain(fields: seq<Entry>, prefix: string, n: nat, i: nat, e: (string, real))
    requires i < n <= |fields| && e in Named(fields[i].value, Extend(prefix, Field(fields[i].key)))
    ensures e in NamedFields(fields, prefix, n)
    decreases n
  {
    hide Extend;
    if i < n - 1 {
      FieldsContain(fields, prefix, n - 1, i, e);
    }
  }

  /** Every numeric leaf is assigned under its rendered path, which has plain keys only. */
  lemma {:induction false} LeafIsNamed(t: Json, base: Path, path: Path, x: real)
    requires Good(t) && GoodPath(base) && base + path != [] && At(t, path) == Some(Number(x))
    ensures GoodPath(base + path)
    ensures (Render(base + path), x) in Named(t, Render(base))
    decreases |path|
  {
    hide Render, Extend;
    if path == [] {
      assert base + path == base;
      RenderNonEmpty(base);
    } else {
      var s, rest := path[0], path[1..];
      assert path == [s] + rest;
      Seqs.Assoc(base, [s], rest);
      RenderSnoc(base, s);
      match t
      case Arr(items) =>
        GoodSnoc(base, s);
        LeafIsNamed(items[s.i], base + [s], rest, x);
        ItemsContain(items, Render(base), |items|, s.i, (Render(base + path), x));
      case Obj(fields) =>
        var i := LookupIndex(fields, s.key);
        GoodSnoc(base, s);
        LeafIsNamed(fields[i].value, base + [s], rest, x);
        FieldsContain(fields, Render(base), |fields|, i, (Render(base + path), x));
    }
  }

  /** Equal names carry equal values. */
  ghost predicate Consistent(named: seq<(string, real)>) {
    forall a, b | 0 <= a < |named| && 0 <= b < |named| && named[a].0 == named[b].0 :: named[a].1 == named[b].1
  }

  lemma {:induction false} InsertAllMeaning(named: seq<(string, real)>)
    requires Consistent(named)
    ensures forall k | 0 <= k < |named| && named[k].0 != "__proto__" ::
              named[k].0 in InsertAll(map[], named) && InsertAll(map[], named)[named[k].0] == named[k].1
    ensures forall name | name in InsertAll(map[], named) ::
              name != "__proto__" && exists k | 0 <= k < |named| :: named[k].0 == name
    decreases |named|
  {
    if named == [] {
    } else {
      var n := |named| - 1;
      InsertAllMeaning(named[..n]);
      forall name | name in InsertAll(map[], named)
        ensures name != "__proto__" && exists k | 0 <= k < |named| :: named[k].0 == name
      {
        if name in InsertAll(map[], named[..n]) {
          var k :| 0 <= k < |named[..n]| && named[..n][k].0 == name;
          assert named[k].0 == name;
        }
      }
      forall k | 0 <= k < |named| && named[k].0 != "__proto__"
        ensures named[k].0 in InsertAll(map[], named) && InsertAll(map[], named)[named[k].0] == named[k].1
      {
        if k < n {
          assert named[..n][k] == named[k];
        }
      }
    }
  }

  lemma NamedConsistent(t: Json)
    requires Good(t)
    ensures Consistent(Named(t, ""))
  {
    var named := Named(t, "");
    forall a, b | 0 <= a < |named| && 0 <= b < |named| && named[a].0 == named[b].0
      ensures named[a].1 == named[b].1
    {
      var p := NamedIsLeaf(t, [], a);
      var q := NamedIsLeaf(t, [], b);
      assert [] + p == p && [] + q == q;
      RenderInjective(p, q);
    }
  }

  /** The result of flattening a whole value. */
  function Flat(t: Json): Metrics {
    InsertAll(map[], Named(t, ""))
  }

  /** The names are exactly the rendered paths of the finite numeric leaves, each with its leaf's value;
      the one leaf that is lost is a number directly under the key `__proto__`. */
  lemma LosslessFlattening(t: Json, path: Path, x: real)
    requires Good(t) && path != []
    ensures At(t, path) == Some(Number(x)) ==>
              if path == [Field("__proto__")] then Render(path) !in Flat(t)
              else Render(path) in Flat(t) && Flat(t)[Render(path)] == x
  {
    if At(t, path) == Some(Number(x)) {
      var named := Named(t, "");
      NamedConsistent(t);
      InsertAllMeaning(named);
      LeafIsNamed(t, [], path, x);
      assert [] + path == path;
      var k :| 0 <= k < |named| && named[k] == (Render(path), x);
      ProtoPath();
      if Render(path) == "__proto__" {
        RenderInjective(path, [Field("__proto__")]);
      }
    }
  }

  lemma ProtoPath()
    ensures GoodPath([Field("__proto__")]) && Render([Field("__proto__")]) == "__proto__"
  {
    RenderSnoc([], Field("__proto__"));
    assert [] + [Field("__proto__")] == [Field("__proto__")];
  }

  /** And nothing else is named. */
  lemma NothingInvented(t: Json, name: string) returns (path: Path)
    requires Good(t) && name in Flat(t)
    ensures GoodPath(path) && Render(path) == name && At(t, path) == Some(Number(Flat(t)[name]))
  {
    var named := Named(t, "");
    NamedConsistent(t);
    InsertAllMeaning(named);
    var k :| 0 <= k < |named| && named[k].0 == name;
    path := NamedIsLeaf(t, [], k);
    assert [] + path == path;
  }

  /** The one number of this object is lost. */
  lemma ProtoIsLost()
    ensures Flat(Obj([Entry("__proto__", Number(1.0))])) == map[]
  {
    var fields := [Entry("__proto__", Number(1.0))];
    assert NamedFields(fields, "", 1) == NamedFields(fields, "", 0) + Named(Number(1.0), "__proto__");
    var named := [("__proto__", 1.0)];
    assert Named(Obj(fields), "") == named && named[..0] == [];
    assert InsertAll(map[], named) == Insert(InsertAll(map[], []), "__proto__", 1.0);
  }
}
