/** The enumeration of configuration paths (utils/print-introspected-doxygen.cc).

    A registered type has outgoing edges of three kinds: its attributes that point
    to an object or hold a container of objects, its registered subclasses, and the
    types it is aggregated with. `StaticInformation.DoGather` walks this cyclic
    multigraph depth first and records one (type, path) pair per visit. */
module TypeGraph {
  import opened Options

  // ---------------------------------------------------------------- data model

  /** Types are named by their position in the registry. */
  type TypeId = nat

  datatype Checker = Pointer(pointee: TypeId) | Container(item: TypeId) | Plain

  datatype Attribute = Attribute(name: string, checker: Checker)

  datatype TypeInfo = TypeInfo(name: string, attributes: seq<Attribute>)

  /** `children` holds the pairs (c, p) for which `c.IsChildOf(p)`. */
  datatype Graph = Graph(
    types: seq<TypeInfo>,
    children: set<(TypeId, TypeId)>,
    objectType: TypeId,
    aggregates: seq<(TypeId, TypeId)>)
  {
    /** Every type that is mentioned is registered. */
    ghost predicate WellFormed() {
      && (forall t, i | 0 <= t < |types| && 0 <= i < |types[t].attributes| ::
            match types[t].attributes[i].checker
            case Pointer(p) => p < |types|
            case Container(c) => c < |types|
            case Plain => true)
      && (forall i | 0 <= i < |aggregates| :: aggregates[i].0 < |types| && aggregates[i].1 < |types|)
    }
  }

  datatype Edge = Edge(name: string, target: TypeId)

  /** The number of places `DoGather` looks at for an edge out of `t`: the attributes,
      then the registered types, then the aggregations. */
  function Slots(g: Graph, t: TypeId): nat
    requires t < |g.types|
  {
    |g.types[t].attributes| + |g.types| + |g.aggregates|
  }

  function AttributeEdge(g: Graph, a: Attribute): Option<Edge> {
    match a.checker
    case Pointer(p) => if p == g.objectType then None else Some(Edge(a.name, p))
    case Container(c) => Some(Edge(a.name + "/[i]", c))
    case Plain => None
  }

  function AggregateEdge(g: Graph, item: (TypeId, TypeId), t: TypeId): Option<Edge> {
    if item.1 == t && item.0 < |g.types| then Some(Edge("$" + g.types[item.0].name, item.0))
    else if item.0 == t && item.1 < |g.types| then Some(Edge("$" + g.types[item.1].name, item.1))
    else None
  }

  /** The edge that slot `k` of type `t` contributes, if any. */
  function Step(g: Graph, t: TypeId, k: nat): Option<Edge> {
    if t >= |g.types| || k >= Slots(g, t) then None else
    var n := |g.types[t].attributes|;
    if k < n then AttributeEdge(g, g.types[t].attributes[k])
    else if k < n + |g.types| then
      if (k - n, t) in g.children then Some(Edge("$" + g.types[k - n].name, k - n)) else None
    else
      AggregateEdge(g, g.aggregates[k - n - |g.types|], t)
  }

  lemma StepTarget(g: Graph, t: TypeId, k: nat)
    requires g.WellFormed()
    ensures Step(g, t, k).Some? ==> t < |g.types| && k < Slots(g, t) && Step(g, t, k).value.target < |g.types|
  {
    if t < |g.types| && k < |g.types[t].attributes| {
      match g.types[t].attributes[k].checker
      case Pointer(p) =>
      case Container(c) =>
      case Plain =>
    }
  }

  // ---------------------------------------------------------------- reference: edges

  /** An attribute leads to the type that it points to, unless that is Object, and to the
      items that it holds. */
  ghost predicate AttributeLeads(g: Graph, a: Attribute, e: Edge) {
    || (a.checker.Pointer? && a.checker.pointee != g.objectType && e == Edge(a.name, a.checker.pointee))
    || (a.checker.Container? && e == Edge(a.name + "/[i]", a.checker.item))
  }

  /** A type is written with its name after a dollar sign when it is reached as a subclass
      or through an aggregation. */
  ghost predicate NamesTarget(g: Graph, e: Edge) {
    e.target < |g.types| && e.name == "$" + g.types[e.target].name
  }

  ghost predicate AggregateLeads(g: Graph, pair: (TypeId, TypeId), t: TypeId, e: Edge) {
    NamesTarget(g, e) && (pair == (t, e.target) || pair == (e.target, t))
  }

  /** The edges out of a type: its attributes lead there, or it is a subclass, or the two
      types are aggregated. */
  ghost predicate IsEdge(g: Graph, t: TypeId, e: Edge) {
    && t < |g.types|
    && (|| (exists a :: a in g.types[t].attributes && AttributeLeads(g, a, e))
        || (NamesTarget(g, e) && (e.target, t) in g.children)
        || exists pair :: pair in g.aggregates && AggregateLeads(g, pair, t, e))
  }

  /** What the slots of a type stand for: first its attributes, then the registered types
      as its subclasses, then the aggregations, each in their order. */
  lemma SlotsAre(g: Graph, t: TypeId, k: nat, e: Edge)
    requires t < |g.types|
    ensures var n := |g.types[t].attributes|;
            Step(g, t, k) == Some(e) <==>
            if k < n then AttributeLeads(g, g.types[t].attributes[k], e)
            else if k < n + |g.types| then k == n + e.target && NamesTarget(g, e) && (e.target, t) in g.children
            else k < n + |g.types| + |g.aggregates| && AggregateLeads(g, g.aggregates[k - n - |g.types|], t, e)
  {
  }

  ghost predicate HasEdge(g: Graph, t: TypeId, e: Edge) {
    exists k: nat :: Step(g, t, k) == Some(e)
  }

  /** The slots of a type hold its edges and nothing else. */
  lemma StepsAreEdges(g: Graph, t: TypeId, e: Edge)
    ensures HasEdge(g, t, e) <==> IsEdge(g, t, e)
  {
    if t < |g.types| {
      var n := |g.types[t].attributes|;
      if k: nat :| Step(g, t, k) == Some(e) {
        SlotsAre(g, t, k, e);
        assert k < n ==> g.types[t].attributes[k] in g.types[t].attributes;
        assert k >= n + |g.types| ==> g.aggregates[k - n - |g.types|] in g.aggregates;
      }
      if a :| a in g.types[t].attributes && AttributeLeads(g, a, e) {
        var k :| 0 <= k < n && g.types[t].attributes[k] == a;
        SlotsAre(g, t, k, e);
      }
      if NamesTarget(g, e) && (e.target, t) in g.children {
        SlotsAre(g, t, n + e.target, e);
      }
      if pair :| pair in g.aggregates && AggregateLeads(g, pair, t, e) {
        var i :| 0 <= i < |g.aggregates| && g.aggregates[i] == pair;
        SlotsAre(g, t, n + |g.types| + i, e);
      }
    }
  }

  // ---------------------------------------------------------------- reference: simple walks

  /** A walk names the slot taken at each type, so that parallel edges stay apart. */
  type Walk = seq<nat>

  ghost predicate IsWalk(g: Graph, t: TypeId, w: Walk)
    decreases |w|
  {
    w == [] || (Step(g, t, w[0]).Some? && IsWalk(g, Step(g, t, w[0]).value.target, w[1..]))
  }

  /** The types a walk passes, from its start to its end. */
  ghost function Visited(g: Graph, t: TypeId, w: Walk): (v: seq<TypeId>)
    ensures |v| > 0 && v[0] == t
    decreases |w|
  {
    if w == [] || Step(g, t, w[0]).None? then [t]
    else [t] + Visited(g, Step(g, t, w[0]).value.target, w[1..])
  }

  ghost function Labels(g: Graph, t: TypeId, w: Walk): seq<string>
    decreases |w|
  {
    if w == [] || Step(g, t, w[0]).None? then []
    else [Step(g, t, w[0]).value.name] + Labels(g, Step(g, t, w[0]).value.target, w[1..])
  }

  ghost function End(g: Graph, t: TypeId, w: Walk): TypeId {
    Visited(g, t, w)[|Visited(g, t, w)| - 1]
  }

  ghost predicate NoRepeat<T>(s: seq<T>) {
    forall i, j | 0 <= i < j < |s| :: s[i] != s[j]
  }

  ghost predicate Disjoint(s: seq<TypeId>, seen: seq<TypeId>) {
    forall t | t in s :: t !in seen
  }

  /** A walk from `t` that repeats no type. */
  ghost predicate IsSimpleWalk(g: Graph, t: TypeId, w: Walk) {
    IsWalk(g, t, w) && NoRepeat(Visited(g, t, w))
  }

  /** A path is written as its labels, each after a slash. */
  ghost function Render(path: seq<string>): string {
    if path == [] then "" else Render(path[..|path| - 1]) + "/" + path[|path| - 1]
  }

  /** What is recorded for walk `w` from `t` when `path` leads to `t`. */
  ghost function Entry(g: Graph, path: seq<string>, t: TypeId, w: Walk): (TypeId, string) {
    (End(g, t, w), Render(path + Labels(g, t, w)))
  }

  ghost function Entries(g: Graph, path: seq<string>, t: TypeId, ws: seq<Walk>): (r: seq<(TypeId, string)>)
  {
    seq(|ws|, i requires 0 <= i < |ws| => Entry(g, path, t, ws[i]))
  }

  // ---------------------------------------------------------------- the depth-first order

  ghost function Unseen(g: Graph, seen: seq<TypeId>): set<TypeId> {
    set t: TypeId | t < |g.types| && t !in seen
  }

  ghost function Prepend(k: nat, ws: seq<Walk>): (r: seq<Walk>)
    ensures |r| == |ws| && forall i | 0 <= i < |ws| :: r[i] == [k] + ws[i]
  {
    seq(|ws|, i requires 0 <= i < |ws| => [k] + ws[i])
  }

  /** The walks of a search that starts at `t` and stays off the types in `seen`,
      in the order in which the search meets them. */
  ghost function Walks(g: Graph, t: TypeId, seen: seq<TypeId>): seq<Walk>
    requires g.WellFormed() && t < |g.types|
    decreases Unseen(g, seen), Slots(g, t) + 1
  {
    if t in seen then [] else [[]] + WalksOver(g, t, Slots(g, t), seen)
  }

  /** Those of them that take one of the first `n` slots of `t`. */
  ghost function WalksOver(g: Graph, t: TypeId, n: nat, seen: seq<TypeId>): seq<Walk>
    requires g.WellFormed() && t < |g.types| && t !in seen
    requires n <= Slots(g, t)
    decreases Unseen(g, seen), n
  {
    if n == 0 then [] else
    WalksOver(g, t, n - 1, seen) + WalksAt(g, t, n - 1, seen)
  }

  ghost function WalksAt(g: Graph, t: TypeId, k: nat, seen: seq<TypeId>): seq<Walk>
    requires g.WellFormed() && t < |g.types| && t !in seen && k < Slots(g, t)
    decreases Unseen(g, seen), k
  {
    if Step(g, t, k).None? then [] else
    StepTarget(g, t, k);
    FewerUnseen(g, t, seen);
    Prepend(k, Walks(g, Step(g, t, k).value.target, seen + [t]))
  }

  lemma FewerUnseen(g: Graph, t: TypeId, seen: seq<TypeId>)
    requires t < |g.types| && t !in seen
    ensures Unseen(g, seen + [t]) < Unseen(g, seen)
  {
    assert t in Unseen(g, seen) && t !in Unseen(g, seen + [t]);
  }

  lemma InWalksAt(g: Graph, t: TypeId, k: nat, seen: seq<TypeId>, w: Walk)
    requires g.WellFormed() && t < |g.types| && t !in seen && k < Slots(g, t)
    ensures w in WalksAt(g, t, k, seen) <==>
            && w != [] && w[0] == k && Step(g, t, k).Some?
            && Step(g, t, k).value.target < |g.types|
            && w[1..] in Walks(g, Step(g, t, k).value.target, seen + [t])
  {
    StepTarget(g, t, k);
    if Step(g, t, k).Some? {
      var ws := Walks(g, Step(g, t, k).value.target, seen + [t]);
      if w != [] && w[0] == k && w[1..] in ws {
        var i :| 0 <= i < |ws| && ws[i] == w[1..];
        assert Prepend(k, ws)[i] == [k] + w[1..] == w;
      }
      if w in Prepend(k, ws) {
        var i :| 0 <= i < |ws| && Prepend(k, ws)[i] == w;
        assert w[1..] == ws[i];
      }
    }
  }

  lemma {:induction false} InWalksOver(g: Graph, t: TypeId, n: nat, seen: seq<TypeId>, w: Walk)
    requires g.WellFormed() && t < |g.types| && t !in seen
    requires n <= Slots(g, t)
    ensures w in WalksOver(g, t, n, seen) <==>
            && w != [] && w[0] < n && Step(g, t, w[0]).Some?
            && Step(g, t, w[0]).value.target < |g.types|
            && w[1..] in Walks(g, Step(g, t, w[0]).value.target, seen + [t])
  {
    if n > 0 {
      InWalksOver(g, t, n - 1, seen, w);
      InWalksAt(g, t, n - 1, seen, w);
    }
  }

  /** Soundness and completeness of the search below any stack of processed types. */
  lemma {:induction false} WalksAreSimple(g: Graph, t: TypeId, seen: seq<TypeId>, w: Walk)
    requires g.WellFormed() && t < |g.types|
    ensures w in Walks(g, t, seen) <==> IsSimpleWalk(g, t, w) && Disjoint(Visited(g, t, w), seen)
    decreases |w|
  {
    if t in seen {
      assert Visited(g, t, w)[0] == t;
    } else if w == [] {
      assert Visited(g, t, w) == [t];
      assert Walks(g, t, seen)[0] == [];
    } else {
      InWalksOver(g, t, Slots(g, t), seen, w);
      assert w in Walks(g, t, seen) <==> w in WalksOver(g, t, Slots(g, t), seen);
      StepTarget(g, t, w[0]);
      if Step(g, t, w[0]).Some? {
        var u := Step(g, t, w[0]).value.target;
        WalksAreSimple(g, u, seen + [t], w[1..]);
        ConsVisited(t, Visited(g, u, w[1..]), seen);
      }
    }
  }

  lemma ConsVisited(t: TypeId, v: seq<TypeId>, seen: seq<TypeId>)
    requires t !in seen
    ensures NoRepeat([t] + v) && Disjoint([t] + v, seen) <==> NoRepeat(v) && Disjoint(v, seen + [t])
  {
    if NoRepeat([t] + v) && Disjoint([t] + v, seen) {
      forall u | u in v
        ensures u !in seen + [t]
      {
        var i :| 0 <= i < |v| && v[i] == u;
        assert ([t] + v)[0] == t && ([t] + v)[i + 1] == u;
      }
      forall i, j | 0 <= i < j < |v|
        ensures v[i] != v[j]
      {
        assert ([t] + v)[i + 1] == v[i] && ([t] + v)[j + 1] == v[j];
      }
    }
    if NoRepeat(v) && Disjoint(v, seen + [t]) {
      forall i, j | 0 <= i < j < |[t] + v|
        ensures ([t] + v)[i] != ([t] + v)[j]
      {
        assert ([t] + v)[j] == v[j - 1] && v[j - 1] in v;
      }
    }
  }

  /** Exact multiplicity: the search meets no walk twice. */
  lemma {:induction false} WalksDistinct(g: Graph, t: TypeId, seen: seq<TypeId>)
    requires g.WellFormed() && t < |g.types|
    ensures NoRepeat(Walks(g, t, seen))
    decreases Unseen(g, seen), Slots(g, t) + 1
  {
    if t !in seen {
      WalksOverDistinct(g, t, Slots(g, t), seen);
      forall w | w in WalksOver(g, t, Slots(g, t), seen)
        ensures w != []
      {
        InWalksOver(g, t, Slots(g, t), seen, w);
      }
      NoRepeatConcat([[]], WalksOver(g, t, Slots(g, t), seen));
    }
  }

  lemma NoRepeatConcat<T>(a: seq<T>, b: seq<T>)
    requires NoRepeat(a) && NoRepeat(b) && forall x | x in a :: x !in b
    ensures NoRepeat(a + b)
  {
    forall i, j | 0 <= i < j < |a + b|
      ensures (a + b)[i] != (a + b)[j]
    {
      if i < |a| <= j {
        assert (a + b)[i] in a && (a + b)[j] in b;
      }
    }
  }

  lemma {:induction false} WalksOverDistinct(g: Graph, t: TypeId, n: nat, seen: seq<TypeId>)
    requires g.WellFormed() && t < |g.types| && t !in seen
    requires n <= Slots(g, t)
    ensures NoRepeat(WalksOver(g, t, n, seen))
    decreases Unseen(g, seen), n
  {
    if n > 0 {
      var a, b := WalksOver(g, t, n - 1, seen), WalksAt(g, t, n - 1, seen);
      WalksOverDistinct(g, t, n - 1, seen);
      StepTarget(g, t, n - 1);
      if Step(g, t, n - 1).Some? {
        FewerUnseen(g, t, seen);
        WalksDistinct(g, Step(g, t, n - 1).value.target, seen + [t]);
        var ws := Walks(g, Step(g, t, n - 1).value.target, seen + [t]);
        forall i, j | 0 <= i < j < |b|
          ensures b[i] != b[j]
        {
          assert b[i][1..] == ws[i] && b[j][1..] == ws[j];
        }
      }
      forall w | w in a
        ensures w !in b
      {
        InWalksOver(g, t, n - 1, seen, w);
        InWalksAt(g, t, n - 1, seen, w);
      }
      NoRepeatConcat(a, b);
    }
  }

  /** A search from the top meets exactly the walks that repeat no type, each once. */
  lemma GatherEnumeratesSimpleWalks(g: Graph, root: TypeId)
    requires g.WellFormed() && root < |g.types|
    ensures NoRepeat(Walks(g, root, []))
    ensures forall w :: w in Walks(g, root, []) <==> IsSimpleWalk(g, root, w)
  {
    WalksDistinct(g, root, []);
    forall w
      ensures w in Walks(g, root, []) <==> IsSimpleWalk(g, root, w)
    {
      WalksAreSimple(g, root, [], w);
    }
  }

  /** `v` ends where `w` goes on, or takes the lower slot where they part. */
  ghost predicate Earlier(v: Walk, w: Walk) {
    exists k: nat :: k <= |v| && k < |w| && v[..k] == w[..k] && (k == |v| || v[k] < w[k])
  }

  ghost predicate InOrder(ws: seq<Walk>) {
    forall i, j | 0 <= i < j < |ws| :: Earlier(ws[i], ws[j])
  }

  lemma PrependInOrder(k: nat, ws: seq<Walk>)
    requires InOrder(ws)
    ensures InOrder(Prepend(k, ws))
  {
    forall i, j | 0 <= i < j < |ws|
      ensures Earlier([k] + ws[i], [k] + ws[j])
    {
      var v, w := ws[i], ws[j];
      var n: nat :| n <= |v| && n < |w| && v[..n] == w[..n] && (n == |v| || v[n] < w[n]);
      assert ([k] + v)[..n + 1] == [k] + v[..n] == [k] + w[..n] == ([k] + w)[..n + 1];
    }
  }

  lemma ConcatInOrder(a: seq<Walk>, b: seq<Walk>)
    requires InOrder(a) && InOrder(b)
    requires forall v, w | v in a && w in b :: v == [] != w || (v != [] && w != [] && v[0] < w[0])
    ensures InOrder(a + b)
  {
    forall i, j | 0 <= i < |a| && 0 <= j < |b|
      ensures Earlier(a[i], b[j])
    {
      assert a[i] in a && b[j] in b;
      assert a[i][..0] == b[j][..0];
    }
  }

  /** The search meets the walks in the order of their slots, each before those that go
      on from it. */
  lemma {:induction false} WalksInOrder(g: Graph, t: TypeId, seen: seq<TypeId>)
    requires g.WellFormed() && t < |g.types|
    ensures InOrder(Walks(g, t, seen))
    decreases Unseen(g, seen), Slots(g, t) + 1
  {
    if t !in seen {
      WalksOverInOrder(g, t, Slots(g, t), seen);
      forall w | w in WalksOver(g, t, Slots(g, t), seen)
        ensures w != []
      {
        InWalksOver(g, t, Slots(g, t), seen, w);
      }
      ConcatInOrder([[]], WalksOver(g, t, Slots(g, t), seen));
    }
  }

  lemma {:induction false} WalksOverInOrder(g: Graph, t: TypeId, n: nat, seen: seq<TypeId>)
    requires g.WellFormed() && t < |g.types| && t !in seen
    requires n <= Slots(g, t)
    ensures InOrder(WalksOver(g, t, n, seen))
    decreases Unseen(g, seen), n
  {
    if n > 0 {
      hide InOrder;
      WalksOverInOrder(g, t, n - 1, seen);
      WalksAtInOrder(g, t, n - 1, seen);
      forall v, w | v in WalksOver(g, t, n - 1, seen) && w in WalksAt(g, t, n - 1, seen)
        ensures v != [] && w != [] && v[0] < w[0]
      {
        InWalksOver(g, t, n - 1, seen, v);
        InWalksAt(g, t, n - 1, seen, w);
      }
      ConcatInOrder(WalksOver(g, t, n - 1, seen), WalksAt(g, t, n - 1, seen));
    } else {
      assert WalksOver(g, t, n, seen) == [];
    }
  }

  lemma {:induction false} WalksAtInOrder(g: Graph, t: TypeId, k: nat, seen: seq<TypeId>)
    requires g.WellFormed() && t < |g.types| && t !in seen && k < Slots(g, t)
    ensures InOrder(WalksAt(g, t, k, seen))
    decreases Unseen(g, seen), k
  {
    if Step(g, t, k).Some? {
      StepTarget(g, t, k);
      FewerUnseen(g, t, seen);
      WalksInOrder(g, Step(g, t, k).value.target, seen + [t]);
      PrependInOrder(k, Walks(g, Step(g, t, k).value.target, seen + [t]));
    }
  }

  /** Going one edge down the graph moves its label from the walk to the path. */
  lemma EntriesBelow(g: Graph, path: seq<string>, t: TypeId, k: nat, ws: seq<Walk>)
    requires Step(g, t, k).Some?
    ensures Entries(g, path, t, Prepend(k, ws)) ==
            Entries(g, path + [Step(g, t, k).value.name], Step(g, t, k).value.target, ws)
  {
    var e := Step(g, t, k).value;
    forall i | 0 <= i < |ws|
      ensures Entry(g, path, t, [k] + ws[i]) == Entry(g, path + [e.name], e.target, ws[i])
    {
      assert ([k] + ws[i])[1..] == ws[i];
      assert path + ([e.name] + Labels(g, e.target, ws[i])) == (path + [e.name]) + Labels(g, e.target, ws[i]);
    }
  }

  /** What is recorded at `t` itself and through its first `n` slots. */
  ghost function Found(g: Graph, path: seq<string>, t: TypeId, n: nat, seen: seq<TypeId>): seq<(TypeId, string)>
    requires g.WellFormed() && t < |g.types| && t !in seen
    requires n <= Slots(g, t)
  {
    Entries(g, path, t, [[]] + WalksOver(g, t, n, seen))
  }

  lemma FoundNext(g: Graph, path: seq<string>, t: TypeId, n: nat, seen: seq<TypeId>)
    requires g.WellFormed() && t < |g.types| && t !in seen
    requires n < Slots(g, t)
    ensures Found(g, path, t, n + 1, seen) ==
            Found(g, path, t, n, seen) + Entries(g, path, t, WalksAt(g, t, n, seen))
    ensures Step(g, t, n).None? ==> Found(g, path, t, n + 1, seen) == Found(g, path, t, n, seen)
  {
    var a, b := [[]] + WalksOver(g, t, n, seen), WalksAt(g, t, n, seen);
    assert [[]] + WalksOver(g, t, n + 1, seen) == a + b;
    assert Entries(g, path, t, a + b) == Entries(g, path, t, a) + Entries(g, path, t, b);
  }

  /** What a search one edge further down adds is what slot `n` adds here. */
  lemma FoundBelow(g: Graph, path: seq<string>, t: TypeId, n: nat, seen: seq<TypeId>, before: seq<(TypeId, string)>)
    requires g.WellFormed() && t < |g.types| && t !in seen
    requires n < Slots(g, t) && Step(g, t, n).Some? && Step(g, t, n).value.target < |g.types|
    ensures var e := Step(g, t, n).value;
            before + Found(g, path, t, n, seen) +
            Entries(g, path + [e.name], e.target, Walks(g, e.target, seen + [t]))
            == before + Found(g, path, t, n + 1, seen)
  {
    FoundNext(g, path, t, n, seen);
    EntriesBelow(g, path, t, n, Walks(g, Step(g, t, n).value.target, seen + [t]));
  }

  // ---------------------------------------------------------------- what Get returns

  /** The recorded paths of `t`, in recording order. */
  ghost function PathsOf(out: seq<(TypeId, string)>, t: TypeId): seq<string> {
    if out == [] then []
    else PathsOf(out[..|out| - 1], t) +
         if out[|out| - 1].0 == t then [out[|out| - 1].1] else []
  }

  ghost function Matching(g: Graph, root: TypeId, ws: seq<Walk>, e: (TypeId, string)): set<Walk> {
    set w | w in ws && Entry(g, [], root, w) == e
  }

  lemma MatchingSnoc(g: Graph, root: TypeId, ws: seq<Walk>, last: Walk, e: (TypeId, string))
    requires last !in ws
    ensures |Matching(g, root, ws + [last], e)| ==
            |Matching(g, root, ws, e)| + if Entry(g, [], root, last) == e then 1 else 0
  {
    var ms := Matching(g, root, ws, e);
    assert Matching(g, root, ws + [last], e) == ms + if Entry(g, [], root, last) == e then {last} else {};
  }

  lemma PathsOfSnoc(out: seq<(TypeId, string)>, e: (TypeId, string), t: TypeId, path: string)
    ensures multiset(PathsOf(out + [e], t))[path] ==
            multiset(PathsOf(out, t))[path] + if e == (t, path) then 1 else 0
  {
    assert (out + [e])[..|out|] == out;
  }

  lemma EntriesSnoc(g: Graph, root: TypeId, front: seq<Walk>, last: Walk)
    ensures Entries(g, [], root, front + [last]) == Entries(g, [], root, front) + [Entry(g, [], root, last)]
  {
  }

  lemma {:induction false} PathCount(g: Graph, root: TypeId, ws: seq<Walk>, t: TypeId, path: string)
    requires NoRepeat(ws)
    ensures multiset(PathsOf(Entries(g, [], root, ws), t))[path] == |Matching(g, root, ws, (t, path))|
  {
    if ws != [] {
      var front, last := ws[..|ws| - 1], ws[|ws| - 1];
      assert ws == front + [last] && last !in front;
      PathCount(g, root, front, t, path);
      MatchingSnoc(g, root, front, last, (t, path));
      PathsOfSnoc(Entries(g, [], root, front), Entry(g, [], root, last), t, path);
      EntriesSnoc(g, root, front, last);
    }
  }

  /** The simple walks from the root to `t` that are written `path`. */
  ghost predicate LeadsTo(g: Graph, root: TypeId, w: Walk, t: TypeId, path: string) {
    IsSimpleWalk(g, root, w) && End(g, root, w) == t && Render(Labels(g, root, w)) == path
  }

  lemma MatchingLeadsTo(g: Graph, root: TypeId, t: TypeId, path: string, w: Walk)
    requires g.WellFormed() && root < |g.types|
    ensures w in Matching(g, root, Walks(g, root, []), (t, path)) <==> LeadsTo(g, root, w, t, path)
  {
    GatherEnumeratesSimpleWalks(g, root);
    assert [] + Labels(g, root, w) == Labels(g, root, w);
  }

  // ---------------------------------------------------------------- several searches, one list

  ghost predicate AreRoots(g: Graph, roots: seq<TypeId>) {
    g.WellFormed() && forall i | 0 <= i < |roots| :: roots[i] < |g.types|
  }

  /** What searches from the roots record, one after the other. */
  ghost function Recorded(g: Graph, roots: seq<TypeId>): seq<(TypeId, string)>
    requires AreRoots(g, roots)
  {
    if roots == [] then [] else
    var n := |roots| - 1;
    Recorded(g, roots[..n]) + Entries(g, [], roots[n], Walks(g, roots[n], []))
  }

  lemma RecordedSnoc(g: Graph, roots: seq<TypeId>, root: TypeId)
    requires AreRoots(g, roots) && root < |g.types|
    ensures AreRoots(g, roots + [root])
    ensures Recorded(g, roots + [root]) == Recorded(g, roots) + Entries(g, [], root, Walks(g, root, []))
  {
    assert (roots + [root])[..|roots|] == roots;
  }

  lemma PathsOfOne(e: (TypeId, string), t: TypeId)
    ensures PathsOf([e], t) == if e.0 == t then [e.1] else []
  {
    assert [e][..0] == [];
  }

  /** The paths come in the order in which they were recorded. */
  lemma {:induction false} PathsOfConcat(a: seq<(TypeId, string)>, b: seq<(TypeId, string)>, t: TypeId)
    ensures PathsOf(a + b, t) == PathsOf(a, t) + PathsOf(b, t)
  {
    if b == [] {
      assert a + b == a;
    } else {
      PathsOfConcat(a, b[..|b| - 1], t);
      assert (a + b)[..|a + b| - 1] == a + b[..|b| - 1];
    }
  }

  /** Walk `p.1` from root number `p.0` leads to `t` and is written `path`. */
  ghost predicate LeadsFrom(g: Graph, roots: seq<TypeId>, p: (nat, Walk), t: TypeId, path: string) {
    p.0 < |roots| && LeadsTo(g, roots[p.0], p.1, t, path)
  }

  lemma {:induction false} SameCount(n: nat, ws: set<Walk>) returns (ps: set<(nat, Walk)>)
    ensures |ps| == |ws| && forall p :: p in ps <==> p.0 == n && p.1 in ws
  {
    if ws == {} {
      ps := {};
    } else {
      var w :| w in ws;
      var rest := SameCount(n, ws - {w});
      ps := rest + {(n, w)};
    }
  }

  lemma {:induction false} CountedWalks(g: Graph, roots: seq<TypeId>, t: TypeId, path: string)
    returns (ps: set<(nat, Walk)>)
    requires AreRoots(g, roots)
    ensures forall p :: p in ps <==> LeadsFrom(g, roots, p, t, path)
    ensures multiset(PathsOf(Recorded(g, roots), t))[path] == |ps|
  {
    hide LeadsTo;
    if roots == [] {
      ps := {};
    } else {
      var n := |roots| - 1;
      var front, root := roots[..n], roots[n];
      var before := CountedWalks(g, front, t, path);
      var here := CountedFromRoot(g, root, n, t, path);
      PathsOfConcat(Recorded(g, front), Entries(g, [], root, Walks(g, root, [])), t);
      ps := before + here;
      forall p
        ensures p in ps <==> LeadsFrom(g, roots, p, t, path)
        ensures p in before ==> p !in here
      {
        assert p in before <==> LeadsFrom(g, front, p, t, path);
      }
      assert before !! here;
    }
  }

  lemma CountedFromRoot(g: Graph, root: TypeId, n: nat, t: TypeId, path: string) returns (ps: set<(nat, Walk)>)
    requires g.WellFormed() && root < |g.types|
    ensures forall p :: p in ps <==> p.0 == n && LeadsTo(g, root, p.1, t, path)
    ensures multiset(PathsOf(Entries(g, [], root, Walks(g, root, [])), t))[path] == |ps|
  {
    var ws := Matching(g, root, Walks(g, root, []), (t, path));
    ps := SameCount(n, ws);
    GatherEnumeratesSimpleWalks(g, root);
    PathCount(g, root, Walks(g, root, []), t, path);
    forall p: (nat, Walk)
      ensures p.1 in ws <==> LeadsTo(g, root, p.1, t, path)
    {
      MatchingLeadsTo(g, root, t, path, p.1);
    }
  }

  /** The list for `t` holds each path as often as there are simple walks from the roots
      to `t` that are written that way, and nothing else. */
  lemma GetCountsSimpleWalks(g: Graph, roots: seq<TypeId>, t: TypeId, path: string)
    requires AreRoots(g, roots)
    ensures exists ps: set<(nat, Walk)> ::
              && (forall p :: p in ps <==> LeadsFrom(g, roots, p, t, path))
              && multiset(PathsOf(Recorded(g, roots), t))[path] == |ps|
  {
    var ps := CountedWalks(g, roots, t, path);
  }

  // ---------------------------------------------------------------- repeated entries

  /** What the walk leads to and how it is written. */
  ghost function Listed(g: Graph, root: TypeId, w: Walk): (TypeId, string) {
    (End(g, root, w), Render(Labels(g, root, w)))
  }

  lemma EntryFromRoot(g: Graph, root: TypeId, w: Walk)
    ensures Entry(g, [], root, w) == Listed(g, root, w)
  {
    assert [] + Labels(g, root, w) == Labels(g, root, w);
  }

  /** The entries of one search are what its simple walks list. */
  lemma EntryIff(g: Graph, root: TypeId, e: (TypeId, string))
    requires g.WellFormed() && root < |g.types|
    ensures e in Entries(g, [], root, Walks(g, root, [])) <==>
            exists w :: IsSimpleWalk(g, root, w) && Listed(g, root, w) == e
  {
    var ws := Walks(g, root, []);
    var es := Entries(g, [], root, ws);
    GatherEnumeratesSimpleWalks(g, root);
    if e in es {
      var a :| 0 <= a < |es| && es[a] == e;
      assert ws[a] in ws;
      EntryFromRoot(g, root, ws[a]);
    }
    if w :| IsSimpleWalk(g, root, w) && Listed(g, root, w) == e {
      assert w in ws;
      var a :| 0 <= a < |ws| && ws[a] == w;
      EntryFromRoot(g, root, w);
      assert es[a] == e;
    }
  }

  /** Any two simple walks from the root that end at the same type are written differently. */
  ghost predicate WalksToldApart(g: Graph, root: TypeId) {
    forall v, w | IsSimpleWalk(g, root, v) && IsSimpleWalk(g, root, w) && Listed(g, root, v) == Listed(g, root, w) ::
      v == w
  }

  lemma OneSearchNoRepeatIff(g: Graph, root: TypeId)
    requires g.WellFormed() && root < |g.types|
    ensures NoRepeat(Entries(g, [], root, Walks(g, root, []))) <==> WalksToldApart(g, root)
  {
    var ws := Walks(g, root, []);
    var es := Entries(g, [], root, ws);
    GatherEnumeratesSimpleWalks(g, root);
    if NoRepeat(es) {
      forall v, w | IsSimpleWalk(g, root, v) && IsSimpleWalk(g, root, w) && Listed(g, root, v) == Listed(g, root, w)
        ensures v == w
      {
        assert v in ws && w in ws;
        var a :| 0 <= a < |ws| && ws[a] == v;
        var b :| 0 <= b < |ws| && ws[b] == w;
        EntryFromRoot(g, root, v);
        EntryFromRoot(g, root, w);
        assert es[a] == es[b];
      }
    }
    if WalksToldApart(g, root) {
      forall i, j | 0 <= i < j < |es|
        ensures es[i] != es[j]
      {
        assert ws[i] in ws && ws[j] in ws;
        EntryFromRoot(g, root, ws[i]);
        EntryFromRoot(g, root, ws[j]);
      }
    }
  }

  /** A path in the graph: types without repetition, joined by edges of the given names. */
  ghost predicate IsPath(g: Graph, vs: seq<TypeId>, names: seq<string>) {
    && |vs| == |names| + 1 && NoRepeat(vs)
    && forall i | 0 <= i < |names| :: IsEdge(g, vs[i], Edge(names[i], vs[i + 1]))
  }

  /** A path from the root leads to the type of the entry and is written like it. */
  ghost predicate Reaches(g: Graph, root: TypeId, e: (TypeId, string)) {
    exists vs, names :: IsPath(g, vs, names) && vs[0] == root && vs[|names|] == e.0 && Render(names) == e.1
  }

  /** The text of a path puts a slash before every name. */
  lemma {:induction false} RenderMeans(name: string, names: seq<string>)
    ensures Render([]) == "" && Render([name] + names) == "/" + name + Render(names)
  {
    if names == [] {
      assert [name] + names == [name] && [name][..0] == [];
    } else {
      var n := |names| - 1;
      RenderMeans(name, names[..n]);
      assert ([name] + names)[..n + 1] == [name] + names[..n];
    }
  }

  lemma {:induction false} WalkIsPath(g: Graph, t: TypeId, w: Walk)
    requires IsWalk(g, t, w)
    ensures |Visited(g, t, w)| == |w| + 1 && |Labels(g, t, w)| == |w|
    ensures forall i | 0 <= i < |w| ::
              IsEdge(g, Visited(g, t, w)[i], Edge(Labels(g, t, w)[i], Visited(g, t, w)[i + 1]))
    decreases |w|
  {
    if w != [] {
      var e := Step(g, t, w[0]).value;
      WalkIsPath(g, e.target, w[1..]);
      StepsAreEdges(g, t, e);
      assert HasEdge(g, t, e);
      assert Visited(g, t, w) == [t] + Visited(g, e.target, w[1..]);
      assert Labels(g, t, w) == [e.name] + Labels(g, e.target, w[1..]);
    }
  }

  lemma {:induction false} PathIsWalk(g: Graph, vs: seq<TypeId>, names: seq<string>) returns (w: Walk)
    requires IsPath(g, vs, names)
    ensures IsWalk(g, vs[0], w) && Visited(g, vs[0], w) == vs && Labels(g, vs[0], w) == names
  {
    if names == [] {
      w := [];
    } else {
      var e := Edge(names[0], vs[1]);
      StepsAreEdges(g, vs[0], e);
      var k: nat :| Step(g, vs[0], k) == Some(e);
      var rest := PathIsWalk(g, vs[1..], names[1..]);
      w := [k] + rest;
      assert w[1..] == rest;
    }
  }

  /** The entries of one search are those that a path reaches. */
  lemma EntriesAreReached(g: Graph, root: TypeId, e: (TypeId, string))
    requires g.WellFormed() && root < |g.types|
    ensures e in Entries(g, [], root, Walks(g, root, [])) <==> Reaches(g, root, e)
  {
    EntryIff(g, root, e);
    if w :| IsSimpleWalk(g, root, w) && Listed(g, root, w) == e {
      WalkIsPath(g, root, w);
      assert IsPath(g, Visited(g, root, w), Labels(g, root, w));
    }
    if vs, names :| IsPath(g, vs, names) && vs[0] == root && vs[|names|] == e.0 && Render(names) == e.1 {
      var w := PathIsWalk(g, vs, names);
      assert IsSimpleWalk(g, root, w) && Listed(g, root, w) == e;
    }
  }

  lemma {:induction false} RecordedIsReached(g: Graph, roots: seq<TypeId>, e: (TypeId, string))
    requires AreRoots(g, roots)
    ensures e in Recorded(g, roots) <==> exists r :: r in roots && Reaches(g, r, e)
  {
    if roots != [] {
      var n := |roots| - 1;
      RecordedIsReached(g, roots[..n], e);
      EntriesAreReached(g, roots[n], e);
      assert roots == roots[..n] + [roots[n]];
    }
  }

  /** The entry is listed by a simple walk from root number `i`. */
  ghost predicate ListedFrom(g: Graph, roots: seq<TypeId>, i: nat, e: (TypeId, string)) {
    i < |roots| && exists w :: IsSimpleWalk(g, roots[i], w) && Listed(g, roots[i], w) == e
  }

  lemma {:induction false} RecordedIff(g: Graph, roots: seq<TypeId>, e: (TypeId, string))
    requires AreRoots(g, roots)
    ensures e in Recorded(g, roots) <==> exists i: nat :: ListedFrom(g, roots, i, e)
  {
    if roots != [] {
      var n := |roots| - 1;
      RecordedIff(g, roots[..n], e);
      EntryIff(g, roots[n], e);
      if i: nat :| ListedFrom(g, roots[..n], i, e) {
        assert ListedFrom(g, roots, i, e);
      }
      if i: nat :| ListedFrom(g, roots, i, e) {
        if i < n {
          assert ListedFrom(g, roots[..n], i, e);
        }
      }
      if e in Entries(g, [], roots[n], Walks(g, roots[n], [])) {
        assert ListedFrom(g, roots, n, e);
      }
    }
  }

  /** Every root tells its walks apart, and what is listed from one is not from another. */
  ghost predicate RootsToldApart(g: Graph, roots: seq<TypeId>) {
    && (forall i | 0 <= i < |roots| :: WalksToldApart(g, roots[i]))
    && forall i: nat, j: nat, e | i < j && ListedFrom(g, roots, i, e) :: !ListedFrom(g, roots, j, e)
  }

  lemma {:induction false} RecordedApart(g: Graph, roots: seq<TypeId>)
    requires AreRoots(g, roots)
    ensures NoRepeat(Recorded(g, roots)) <==> RootsToldApart(g, roots)
  {
    if roots != [] {
      var n := |roots| - 1;
      var front := roots[..n];
      var a, b := Recorded(g, front), Entries(g, [], roots[n], Walks(g, roots[n], []));
      RecordedApart(g, front);
      OneSearchNoRepeatIff(g, roots[n]);
      NoRepeatSplit(a, b);
      hide NoRepeat, RootsToldApart, WalksToldApart;
      ListedParts(g, roots, a, b);
      LastRootApart(g, roots, a, b);
    }
  }

  /** What the last root adds is listed from it, and the rest from the others. */
  lemma ListedParts(g: Graph, roots: seq<TypeId>, a: seq<(TypeId, string)>, b: seq<(TypeId, string)>)
    requires AreRoots(g, roots) && roots != []
    requires var n := |roots| - 1;
             a == Recorded(g, roots[..n]) && b == Entries(g, [], roots[n], Walks(g, roots[n], []))
    ensures var n := |roots| - 1;
            forall e :: (e in a <==> exists i: nat :: i < n && ListedFrom(g, roots, i, e))
                        && (e in b <==> ListedFrom(g, roots, n, e))
  {
    var n := |roots| - 1;
    var front := roots[..n];
    forall i: nat, e | i < n
      ensures ListedFrom(g, roots, i, e) <==> ListedFrom(g, front, i, e)
    {
    }
    forall e
      ensures e in a <==> exists i: nat :: i < n && ListedFrom(g, roots, i, e)
      ensures e in b <==> ListedFrom(g, roots, n, e)
    {
      RecordedIff(g, front, e);
      EntryIff(g, roots[n], e);
      hide IsSimpleWalk, Listed;
      if i: nat :| ListedFrom(g, front, i, e) {
        assert ListedFrom(g, roots, i, e);
      }
    }
  }

  lemma NoRepeatSplit<T>(a: seq<T>, b: seq<T>)
    ensures NoRepeat(a + b) <==> NoRepeat(a) && NoRepeat(b) && forall x | x in a :: x !in b
  {
    if NoRepeat(a + b) {
      forall i, j | 0 <= i < |a| && 0 <= j < |b|
        ensures a[i] != b[j]
      {
        assert (a + b)[i] == a[i] && (a + b)[|a| + j] == b[j];
      }
      forall i, j | 0 <= i < j < |a|
        ensures a[i] != a[j]
      {
        assert (a + b)[i] == a[i] && (a + b)[j] == a[j];
      }
      forall i, j | 0 <= i < j < |b|
        ensures b[i] != b[j]
      {
        assert (a + b)[|a| + i] == b[i] && (a + b)[|a| + j] == b[j];
      }
    } else if NoRepeat(a) && NoRepeat(b) && forall x | x in a :: x !in b {
      NoRepeatConcat(a, b);
    }
  }

  lemma LastRootApart(g: Graph, roots: seq<TypeId>, a: seq<(TypeId, string)>, b: seq<(TypeId, string)>)
    requires roots != []
    requires var n := |roots| - 1;
             forall e :: (e in a <==> exists i: nat :: i < n && ListedFrom(g, roots, i, e))
                         && (e in b <==> ListedFrom(g, roots, n, e))
    ensures var n := |roots| - 1;
            RootsToldApart(g, roots) <==>
            RootsToldApart(g, roots[..n]) && WalksToldApart(g, roots[n]) && forall e | e in a :: e !in b
  {
    var n := |roots| - 1;
    var front := roots[..n];
    forall i: nat, e | i < n
      ensures ListedFrom(g, roots, i, e) <==> ListedFrom(g, front, i, e)
    {
    }
    hide WalksToldApart;
    if RootsToldApart(g, front) && WalksToldApart(g, roots[n]) && forall e | e in a :: e !in b {
      forall i: nat, j: nat, e | i < j && ListedFrom(g, roots, i, e)
        ensures !ListedFrom(g, roots, j, e)
      {
        if j < n {
          assert ListedFrom(g, front, i, e);
        } else if j == n {
          assert e in a;
        }
      }
    }
    if RootsToldApart(g, roots) {
      forall i | 0 <= i < n
        ensures WalksToldApart(g, front[i])
      {
        assert front[i] == roots[i];
      }
    }
  }

  /** The list, which is never made unique, is free of repetitions if and only if no two
      simple walks to the same type are written alike, be they from one root or from two. */
  lemma NoRepeatIff(g: Graph, roots: seq<TypeId>)
    requires AreRoots(g, roots)
    ensures NoRepeat(Recorded(g, roots)) <==>
            forall i, j, v, w | && 0 <= i < |roots| && 0 <= j < |roots|
                                && IsSimpleWalk(g, roots[i], v) && IsSimpleWalk(g, roots[j], w)
                                && Listed(g, roots[i], v) == Listed(g, roots[j], w) :: i == j && v == w
  {
    RecordedApart(g, roots);
    hide IsSimpleWalk, Listed;
    if RootsToldApart(g, roots) {
      forall i, j, v, w | && 0 <= i < |roots| && 0 <= j < |roots|
                          && IsSimpleWalk(g, roots[i], v) && IsSimpleWalk(g, roots[j], w)
                          && Listed(g, roots[i], v) == Listed(g, roots[j], w)
        ensures i == j && v == w
      {
        var e := Listed(g, roots[i], v);
        assert ListedFrom(g, roots, i, e) && ListedFrom(g, roots, j, e);
        if i == j {
          assert WalksToldApart(g, roots[i]);
        }
      }
    }
  }

  /** One walk of each of two different kinds makes a repetition. */
  lemma SameListedRepeats(g: Graph, roots: seq<TypeId>, i: nat, v: Walk, j: nat, w: Walk)
    requires AreRoots(g, roots) && i < |roots| && j < |roots|
    requires IsSimpleWalk(g, roots[i], v) && IsSimpleWalk(g, roots[j], w)
    requires Listed(g, roots[i], v) == Listed(g, roots[j], w) && (i != j || v != w)
    ensures !NoRepeat(Recorded(g, roots))
  {
    NoRepeatIff(g, roots);
  }

  /** A root that is searched twice is recorded twice. */
  lemma RepeatedRootRepeats(g: Graph, roots: seq<TypeId>, i: nat, j: nat)
    requires AreRoots(g, roots) && i < j < |roots| && roots[i] == roots[j]
    ensures !NoRepeat(Recorded(g, roots))
  {
    SameListedRepeats(g, roots, i, [], j, []);
  }

  /** Following one more edge. */
  lemma {:induction false} OneEdgeFurther(g: Graph, t: TypeId, u: Walk, k: nat)
    requires IsWalk(g, t, u) && Step(g, End(g, t, u), k).Some?
    ensures var e := Step(g, End(g, t, u), k).value;
            && IsWalk(g, t, u + [k])
            && Visited(g, t, u + [k]) == Visited(g, t, u) + [e.target]
            && Labels(g, t, u + [k]) == Labels(g, t, u) + [e.name]
    decreases |u|
  {
    if u == [] {
      assert u + [k] == [k] && [k][1..] == [];
    } else {
      assert (u + [k])[1..] == u[1..] + [k];
      OneEdgeFurther(g, Step(g, t, u[0]).value.target, u[1..], k);
    }
  }

  /** Two parallel edges always show, wherever the search gets to them on the way to a
      type that it has not passed. */
  lemma ParallelEdgesRepeatEntries(g: Graph, roots: seq<TypeId>, i: nat, u: Walk, j: nat, k: nat)
    requires AreRoots(g, roots) && i < |roots| && IsSimpleWalk(g, roots[i], u)
    requires var t := End(g, roots[i], u);
             j != k && Step(g, t, j).Some? && Step(g, t, j) == Step(g, t, k)
             && Step(g, t, j).value.target !in Visited(g, roots[i], u)
    ensures !NoRepeat(Recorded(g, roots))
  {
    OneEdgeFurther(g, roots[i], u, j);
    OneEdgeFurther(g, roots[i], u, k);
    assert (u + [j])[|u|] != (u + [k])[|u|];
    SameListedRepeats(g, roots, i, u + [j], i, u + [k]);
  }

  /** Part of the shipped configuration: the list of nodes holds nodes, and nodes are
      recorded as aggregated with the ICMP protocol twice. */
  const NODES_WITH_ICMP := Graph([
    TypeInfo("ns3::NodeListPriv", [Attribute("NodeList", Container(1))]),
    TypeInfo("ns3::Node", []),
    TypeInfo("ns3::Icmpv4L4Protocol", [])], {}, 3, [(1, 2), (1, 2)])

  lemma RepeatedAggregation()
    ensures AreRoots(NODES_WITH_ICMP, [0]) && !NoRepeat(Recorded(NODES_WITH_ICMP, [0]))
  {
    var g := NODES_WITH_ICMP;
    assert Step(g, 0, 0) == Some(Edge("NodeList" + "/[i]", 1));
    assert [0][1..] == [];
    assert Visited(g, 0, [0]) == [0, 1];
    assert Step(g, 1, 3) == AggregateEdge(g, (1, 2), 1) == Step(g, 1, 4);
    ParallelEdgesRepeatEntries(g, [0], 0, [0], 3, 4);
  }

  // ---------------------------------------------------------------- graphs without repetitions

  /** A label that is one part of a path, or such a part followed by the index part. */
  ghost predicate PlainPart(s: string) {
    '/' !in s && s != "[i]"
  }

  ghost predicate PlainLabel(s: string) {
    PlainPart(s) || exists a :: PlainPart(a) && s == a + "/[i]"
  }

  /** Names as they are usual: no slashes in them, and no attribute that is called like an
      index. */
  ghost predicate PlainNames(g: Graph) {
    forall t | 0 <= t < |g.types| ::
      && '/' !in g.types[t].name
      && forall i | 0 <= i < |g.types[t].attributes| :: PlainPart(g.types[t].attributes[i].name)
  }

  /** No type has two edges of the same name. */
  ghost predicate DistinctNames(g: Graph) {
    forall t, j: nat, k: nat |
      Step(g, t, j).Some? && Step(g, t, k).Some? && Step(g, t, j).value.name == Step(g, t, k).value.name ::
      j == k
  }

  lemma PlainStep(g: Graph, t: TypeId, k: nat)
    requires PlainNames(g) && Step(g, t, k).Some?
    ensures PlainLabel(Step(g, t, k).value.name)
  {
    var n := |g.types[t].attributes|;
    if k < n {
      assert PlainPart(g.types[t].attributes[k].name);
    } else {
      var u := Step(g, t, k).value.target;
      assert Step(g, t, k).value.name == "$" + g.types[u].name;
      assert ("$" + g.types[u].name)[0] == '$' && "[i]"[0] == '[';
    }
  }

  lemma SlashInside(a: string, x: string, b: string, y: string)
    requires a + "/" + x == b + "/" + y && |a| < |b|
    ensures '/' in x
  {
    var s := a + "/" + x;
    assert s == b + "/" + y && s[|b|] == '/';
    assert s[|b|] == x[|b| - |a| - 1];
  }

  /** Two texts that agree, agree on what follows the last slash and on what precedes it. */
  lemma LastPart(a: string, x: string, b: string, y: string)
    requires '/' !in x && '/' !in y
    requires a + "/" + x == b + "/" + y
    ensures a == b && x == y
  {
    if |a| < |b| {
      SlashInside(a, x, b, y);
    } else if |b| < |a| {
      SlashInside(b, y, a, x);
    } else {
      var s := a + "/" + x;
      assert s[..|a|] == a && s[..|b|] == b;
      assert s[|a| + 1..] == x && s[|b| + 1..] == y;
    }
  }

  lemma LastLabel(a: string, x: string, b: string, y: string)
    requires PlainLabel(x) && PlainLabel(y) && a + "/" + x == b + "/" + y
    ensures a == b && x == y
  {
    var c := if PlainPart(x) then x else var p :| PlainPart(p) && x == p + "/[i]"; p;
    var d := if PlainPart(y) then y else var p :| PlainPart(p) && y == p + "/[i]"; p;
    assert '/' !in "[i]";
    if PlainPart(x) && PlainPart(y) {
      LastPart(a, x, b, y);
    } else if PlainPart(x) {
      assert b + "/" + y == (b + "/" + d) + "/" + "[i]";
      LastPart(a, x, b + "/" + d, "[i]");
    } else if PlainPart(y) {
      assert a + "/" + x == (a + "/" + c) + "/" + "[i]";
      LastPart(a + "/" + c, "[i]", b, y);
    } else {
      assert a + "/" + x == (a + "/" + c) + "/" + "[i]" && b + "/" + y == (b + "/" + d) + "/" + "[i]";
      LastPart(a + "/" + c, "[i]", b + "/" + d, "[i]");
      LastPart(a, c, b, d);
    }
  }

  ghost predicate PlainPath(p: seq<string>) {
    forall i | 0 <= i < |p| :: PlainLabel(p[i])
  }

  /** The text of a path of plain labels can be read back. */
  lemma {:induction false} RenderInjective(p: seq<string>, q: seq<string>)
    requires PlainPath(p) && PlainPath(q) && Render(p) == Render(q)
    ensures p == q
  {
    if p != [] && q != [] {
      LastLabel(Render(p[..|p| - 1]), p[|p| - 1], Render(q[..|q| - 1]), q[|q| - 1]);
      RenderInjective(p[..|p| - 1], q[..|q| - 1]);
      assert p == p[..|p| - 1] + [p[|p| - 1]] && q == q[..|q| - 1] + [q[|q| - 1]];
    }
  }

  lemma {:induction false} LabelsPlain(g: Graph, t: TypeId, w: Walk)
    requires PlainNames(g)
    ensures PlainPath(Labels(g, t, w))
    decreases |w|
  {
    if w != [] && Step(g, t, w[0]).Some? {
      PlainStep(g, t, w[0]);
      LabelsPlain(g, Step(g, t, w[0]).value.target, w[1..]);
    }
  }

  lemma {:induction false} LabelsInjective(g: Graph, t: TypeId, v: Walk, w: Walk)
    requires DistinctNames(g) && IsWalk(g, t, v) && IsWalk(g, t, w) && Labels(g, t, v) == Labels(g, t, w)
    ensures v == w
    decreases |v|
  {
    if v != [] && w != [] {
      var e, f := Step(g, t, v[0]).value, Step(g, t, w[0]).value;
      assert e.name == Labels(g, t, v)[0] == Labels(g, t, w)[0] == f.name;
      assert v[0] == w[0];
      assert Labels(g, e.target, v[1..]) == Labels(g, t, v)[1..] == Labels(g, e.target, w[1..]);
      LabelsInjective(g, e.target, v[1..], w[1..]);
      assert v == [v[0]] + v[1..] && w == [w[0]] + w[1..];
    }
  }

  /** The roots are different types, and no edge out of one is named like one out of another. */
  ghost predicate DistinctRoots(g: Graph, roots: seq<TypeId>) {
    && NoRepeat(roots)
    && forall i, j, k: nat, l: nat |
         && 0 <= i < |roots| && 0 <= j < |roots| && i != j
         && Step(g, roots[i], k).Some? && Step(g, roots[j], l).Some? ::
         Step(g, roots[i], k).value.name != Step(g, roots[j], l).value.name
  }

  lemma FirstLabel(g: Graph, t: TypeId, w: Walk)
    requires IsWalk(g, t, w)
    ensures w == [] <==> Labels(g, t, w) == []
    ensures w != [] ==> Labels(g, t, w)[0] == Step(g, t, w[0]).value.name
    ensures w == [] ==> End(g, t, w) == t
  {
  }

  lemma SameLabelsSameWalk(g: Graph, roots: seq<TypeId>, i: nat, v: Walk, j: nat, w: Walk)
    requires AreRoots(g, roots) && i < |roots| && j < |roots| && DistinctNames(g) && DistinctRoots(g, roots)
    requires IsWalk(g, roots[i], v) && IsWalk(g, roots[j], w) && End(g, roots[i], v) == End(g, roots[j], w)
    requires Labels(g, roots[i], v) == Labels(g, roots[j], w)
    ensures i == j && v == w
  {
    if i == j {
      LabelsInjective(g, roots[i], v, w);
    } else {
      FirstLabel(g, roots[i], v);
      FirstLabel(g, roots[j], w);
      assert false;
    }
  }

  /** With plain names, and no two edges of the same name out of one type or out of the
      roots, nothing is listed twice. */
  lemma DistinctNamesSuffice(g: Graph, roots: seq<TypeId>)
    requires AreRoots(g, roots) && PlainNames(g) && DistinctNames(g) && DistinctRoots(g, roots)
    ensures NoRepeat(Recorded(g, roots))
  {
    forall i, j, v, w | && 0 <= i < |roots| && 0 <= j < |roots|
                        && IsSimpleWalk(g, roots[i], v) && IsSimpleWalk(g, roots[j], w)
                        && Listed(g, roots[i], v) == Listed(g, roots[j], w)
      ensures i == j && v == w
    {
      LabelsPlain(g, roots[i], v);
      LabelsPlain(g, roots[j], w);
      RenderInjective(Labels(g, roots[i], v), Labels(g, roots[j], w));
      SameLabelsSameWalk(g, roots, i, v, j, w);
    }
    NoRepeatIff(g, roots);
  }

  /** Two types that point to a third one by the same name. */
  const SHARED_NAME := Graph([
    TypeInfo("A", [Attribute("x", Pointer(2))]),
    TypeInfo("B", [Attribute("x", Pointer(2))]),
    TypeInfo("C", [])], {}, 3, [])

  lemma SharedNames()
    ensures SHARED_NAME.WellFormed() && PlainNames(SHARED_NAME) && DistinctNames(SHARED_NAME)
    ensures Step(SHARED_NAME, 0, 0) == Step(SHARED_NAME, 1, 0) == Some(Edge("x", 2))
  {
    var g := SHARED_NAME;
    assert forall t, k: nat | Step(g, t, k).Some? :: k == 0;
    assert '/' !in "A" && '/' !in "B" && '/' !in "C" && PlainPart("x");
  }

  lemma OneStepFromRoot(g: Graph, t: TypeId, k: nat)
    requires Step(g, t, k).Some? && Step(g, t, k).value.target != t
    ensures IsSimpleWalk(g, t, [k])
    ensures Listed(g, t, [k]) == (Step(g, t, k).value.target, Render([Step(g, t, k).value.name]))
  {
    OneEdgeFurther(g, t, [], k);
    assert [] + [k] == [k];
  }

  /** Searches that are each free of repetitions can repeat each other's entries. */
  lemma SharedNameRepeats()
    ensures var g := SHARED_NAME;
            && AreRoots(g, [0]) && AreRoots(g, [1]) && AreRoots(g, [0, 1])
            && NoRepeat(Recorded(g, [0])) && NoRepeat(Recorded(g, [1])) && !NoRepeat(Recorded(g, [0, 1]))
  {
    hide PlainNames, DistinctNames, Step, NoRepeat, Recorded, IsSimpleWalk, Listed;
    var g := SHARED_NAME;
    SharedNames();
    OneRootDistinct(g, 0);
    OneRootDistinct(g, 1);
    DistinctNamesSuffice(g, [0]);
    DistinctNamesSuffice(g, [1]);
    OneStepFromRoot(g, 0, 0);
    OneStepFromRoot(g, 1, 0);
    SameListedRepeats(g, [0, 1], 0, [0], 1, [0]);
  }

  lemma OneRootDistinct(g: Graph, root: TypeId)
    ensures DistinctRoots(g, [root])
  {
  }

  // ---------------------------------------------------------------- StaticInformation

  /** A stack of types joined by edges whose labels are the current path, ending at `tid`. */
  ghost predicate Joined(g: Graph, stack: seq<TypeId>, path: seq<string>, tid: TypeId) {
    && |stack| == |path|
    && forall i | 0 <= i < |stack| ::
         HasEdge(g, stack[i], Edge(path[i], (stack + [tid])[i + 1]))
  }

  lemma JoinedPush(g: Graph, stack: seq<TypeId>, path: seq<string>, tid: TypeId, e: Edge)
    requires Joined(g, stack, path, tid) && HasEdge(g, tid, e)
    ensures Joined(g, stack + [tid], path + [e.name], e.target)
  {
    var s, p := stack + [tid], path + [e.name];
    forall i | 0 <= i < |s|
      ensures HasEdge(g, s[i], Edge(p[i], (s + [e.target])[i + 1]))
    {
      if i < |stack| {
        assert HasEdge(g, stack[i], Edge(path[i], (stack + [tid])[i + 1]));
      }
    }
  }

  class StaticInformation {
    const graph: Graph
    var output: seq<(TypeId, string)>
    var currentPath: seq<string>
    var alreadyProcessed: seq<TypeId>

    constructor (graph: Graph)
      ensures this.graph == graph && output == [] && currentPath == [] && alreadyProcessed == []
    {
      this.graph := graph;
      output, currentPath, alreadyProcessed := [], [], [];
    }

    method HasAlreadyBeenProcessed(tid: TypeId) returns (found: bool)
      ensures found <==> tid in alreadyProcessed
    {
      for i := 0 to |alreadyProcessed|
        invariant tid !in alreadyProcessed[..i]
      {
        if alreadyProcessed[i] == tid {
          return true;
        }
      }
      return false;
    }

    method GetCurrentPath() returns (s: string)
      ensures s == Render(currentPath)
    {
      s := "";
      for i := 0 to |currentPath|
        invariant s == Render(currentPath[..i])
      {
        s := s + "/" + currentPath[i];
        assert currentPath[..i + 1][..i] == currentPath[..i];
      }
      assert currentPath[..|currentPath|] == currentPath;
    }

    method RecordOutput(tid: TypeId)
      modifies this`output
      ensures output == old(output) + [(tid, Render(currentPath))]
    {
      var path := GetCurrentPath();
      output := output + [(tid, path)];
    }

    /** Follow the edge in slot `k` of `tid`: push, recurse, pop. */
    method Descend(tid: TypeId, ghost k: nat, name: string, target: TypeId, ghost before: seq<(TypeId, string)>)
      requires Ready(tid)
      requires Step(graph, tid, k) == Some(Edge(name, target)) && k < Slots(graph, tid)
      requires output == before + Found(graph, currentPath, tid, k, alreadyProcessed)
      modifies this
      ensures currentPath == old(currentPath) && alreadyProcessed == old(alreadyProcessed)
      ensures output == before + Found(graph, currentPath, tid, k + 1, alreadyProcessed)
      decreases Unseen(graph, alreadyProcessed), 0
    {
      FewerUnseen(graph, tid, alreadyProcessed);
      StepTarget(graph, tid, k);
      assert HasEdge(graph, tid, Edge(name, target));
      JoinedPush(graph, alreadyProcessed, currentPath, tid, Edge(name, target));
      FoundBelow(graph, currentPath, tid, k, alreadyProcessed, before);
      currentPath := currentPath + [name];
      alreadyProcessed := alreadyProcessed + [tid];
      DoGather(target);
      alreadyProcessed := alreadyProcessed[..|alreadyProcessed| - 1];
      currentPath := currentPath[..|currentPath| - 1];
    }

    /** `tid` is about to be expanded: it is not on the stack of processed types, which
        is free of repetitions and joined by the edges named in the current path. */
    ghost predicate Ready(tid: TypeId)
      reads this
    {
      && graph.WellFormed() && tid < |graph.types| && tid !in alreadyProcessed
      && NoRepeat(alreadyProcessed) && Joined(graph, alreadyProcessed, currentPath, tid)
    }

    method GatherAttributes(tid: TypeId, ghost before: seq<(TypeId, string)>)
      requires Ready(tid)
      requires output == before + Found(graph, currentPath, tid, 0, alreadyProcessed)
      modifies this
      ensures currentPath == old(currentPath) && alreadyProcessed == old(alreadyProcessed)
      ensures output == before + Found(graph, currentPath, tid, |graph.types[tid].attributes|, alreadyProcessed)
      decreases Unseen(graph, alreadyProcessed), 1
    {
      for i := 0 to |graph.types[tid].attributes|
        invariant currentPath == old(currentPath) && alreadyProcessed == old(alreadyProcessed)
        invariant output == before + Found(graph, currentPath, tid, i, alreadyProcessed)
      {
        var info := graph.types[tid].attributes[i];
        if info.checker.Pointer? {
          if graph.objectType != info.checker.pointee {
            Descend(tid, i, info.name, info.checker.pointee, before);
            continue;
          }
        } else if info.checker.Container? {
          Descend(tid, i, info.name + "/[i]", info.checker.item, before);
          continue;
        }
        FoundNext(graph, currentPath, tid, i, alreadyProcessed);
      }
    }

    method GatherSubclasses(tid: TypeId, ghost start: nat, ghost before: seq<(TypeId, string)>)
      requires Ready(tid) && start == |graph.types[tid].attributes|
      requires output == before + Found(graph, currentPath, tid, start, alreadyProcessed)
      modifies this
      ensures currentPath == old(currentPath) && alreadyProcessed == old(alreadyProcessed)
      ensures output == before + Found(graph, currentPath, tid, start + |graph.types|, alreadyProcessed)
      decreases Unseen(graph, alreadyProcessed), 1
    {
      for j := 0 to |graph.types|
        invariant currentPath == old(currentPath) && alreadyProcessed == old(alreadyProcessed)
        invariant output == before + Found(graph, currentPath, tid, start + j, alreadyProcessed)
      {
        if (j, tid) in graph.children {
          var childName := "$" + graph.types[j].name;
          Descend(tid, start + j, childName, j, before);
        } else {
          FoundNext(graph, currentPath, tid, start + j, alreadyProcessed);
        }
      }
    }

    method GatherAggregates(tid: TypeId, ghost start: nat, ghost before: seq<(TypeId, string)>)
      requires Ready(tid) && start == |graph.types[tid].attributes| + |graph.types|
      requires output == before + Found(graph, currentPath, tid, start, alreadyProcessed)
      modifies this
      ensures currentPath == old(currentPath) && alreadyProcessed == old(alreadyProcessed)
      ensures output == before + Found(graph, currentPath, tid, Slots(graph, tid), alreadyProcessed)
      decreases Unseen(graph, alreadyProcessed), 1
    {
      for i := 0 to |graph.aggregates|
        invariant currentPath == old(currentPath) && alreadyProcessed == old(alreadyProcessed)
        invariant output == before + Found(graph, currentPath, tid, start + i, alreadyProcessed)
      {
        var item := graph.aggregates[i];
        assert Step(graph, tid, start + i) == AggregateEdge(graph, item, tid);
        if item.0 == tid || item.1 == tid {
          var other := 0;
          if item.0 == tid {
            other := item.1;
          }
          if item.1 == tid {
            other := item.0;
          }
          var name := "$" + graph.types[other].name;
          Descend(tid, start + i, name, other, before);
        } else {
          FoundNext(graph, currentPath, tid, start + i, alreadyProcessed);
        }
      }
    }

    /** The depth-first search. Both stacks come back unchanged, and the output grows by
        the entries of the simple walks from `tid` that stay off the stack. */
    method DoGather(tid: TypeId)
      requires graph.WellFormed() && tid < |graph.types|
      requires NoRepeat(alreadyProcessed) && Joined(graph, alreadyProcessed, currentPath, tid)
      modifies this
      ensures currentPath == old(currentPath) && alreadyProcessed == old(alreadyProcessed)
      ensures output == old(output) + Entries(graph, currentPath, tid, Walks(graph, tid, alreadyProcessed))
      decreases Unseen(graph, alreadyProcessed), 2
    {
      var processed := HasAlreadyBeenProcessed(tid);
      if processed {
        return;
      }
      RecordOutput(tid);
      assert currentPath + Labels(graph, tid, []) == currentPath;
      GatherAttributes(tid, old(output));
      GatherSubclasses(tid, |graph.types[tid].attributes|, old(output));
      GatherAggregates(tid, |graph.types[tid].attributes| + |graph.types|, old(output));
    }

    /** `Uniquefy` takes its container by value, so it leaves `output` as it is. */
    method Gather(tid: TypeId)
      requires graph.WellFormed() && tid < |graph.types|
      requires currentPath == [] && alreadyProcessed == []
      modifies this
      ensures currentPath == [] && alreadyProcessed == []
      ensures output == old(output) + Entries(graph, [], tid, Walks(graph, tid, []))
      ensures forall e :: e in output <==> e in old(output) || Reaches(graph, tid, e)
    {
      DoGather(tid);
      forall e
        ensures e in Entries(graph, [], tid, Walks(graph, tid, [])) <==> Reaches(graph, tid, e)
      {
        EntriesAreReached(graph, tid, e);
      }
    }

    method Get(tid: TypeId) returns (paths: seq<string>)
      ensures paths == PathsOf(output, tid)
    {
      paths := [];
      for i := 0 to |output|
        invariant paths == PathsOf(output[..i], tid)
      {
        if output[i].0 == tid {
          paths := paths + [output[i].1];
        }
        assert output[..i + 1][..i] == output[..i];
      }
      assert output[..|output|] == output;
    }
  }

  /** Searches from all root objects into one list, in their order. */
  method GetTypicalAggregations(graph: Graph, roots: seq<TypeId>) returns (info: StaticInformation)
    requires AreRoots(graph, roots)
    ensures fresh(info) && info.graph == graph && info.output == Recorded(graph, roots)
    ensures forall e :: e in info.output <==> exists r :: r in roots && Reaches(graph, r, e)
  {
    info := new StaticInformation(graph);
    for i := 0 to |roots|
      invariant fresh(info) && info.graph == graph
      invariant info.currentPath == [] && info.alreadyProcessed == []
      invariant AreRoots(graph, roots[..i]) && info.output == Recorded(graph, roots[..i])
    {
      RecordedSnoc(graph, roots[..i], roots[i]);
      assert roots[..i + 1] == roots[..i] + [roots[i]];
      info.Gather(roots[i]);
    }
    assert roots[..|roots|] == roots;
    forall e
      ensures e in info.output <==> exists r :: r in roots && Reaches(graph, r, e)
    {
      RecordedIsReached(graph, roots, e);
    }
  }
}
