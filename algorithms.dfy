/** The graph algorithms of the geometric layer: composing graphs that
    share a crs, the guard of the projection of a node table onto a graph,
    and the weight of an edge extended, at both ends, to the nearest nodes
    of a projected graph. The networkx searches those weights rely on
    (ego graphs and shortest path lengths) are oracles. */
module Algorithms {
  import opened Values
  import opened Graphs
  import opened GeoGraphs

  // ---------------------------------------------------------------------
  // compose / compose_all
  // ---------------------------------------------------------------------

  /** `s` followed by the elements of `t` it does not hold yet: the key
      order of a dict updated with the keys of `t`. */
  function Merged<T(==,!new)>(s: seq<T>, t: seq<T>): (r: seq<T>)
    ensures forall y :: y in r <==> y in s || y in t
    ensures Distinct(s) ==> Distinct(r)
    ensures |r| >= |s| && r[..|s|] == s
    decreases |t|
  {
    if t == [] then s
    else
      var s1 := Appended(s, t[0]);
      assert s1[..|s|] == s;
      var r := Merged(s1, t[1..]);
      assert r[..|s|] == r[..|s1|][..|s|];
      assert forall y :: y in t <==> y == t[0] || y in t[1..];
      r
  }

  /** `a` updated key by key with `b`: the dictionaries of a key present in
      both are merged, the values of `b` winning. */
  function Updated<K>(a: map<K, Attrs>, b: map<K, Attrs>): (r: map<K, Attrs>)
    ensures r.Keys == a.Keys + b.Keys
    ensures forall k, x :: k in b && x in b[k] ==> x in r[k] && r[k][x] == b[k][x]
    ensures forall k, x :: k in a && x in a[k] && !(k in b && x in b[k]) ==>
      x in r[k] && r[k][x] == a[k][x]
    ensures forall k, x :: k in r && x in r[k] ==> (k in a && x in a[k]) || (k in b && x in b[k])
  {
    map k | k in a.Keys + b.Keys ::
      (if k in a then a[k] else map[]) + (if k in b then b[k] else map[])
  }

  /** `compose(geo_g, geo_h)`: the crs must agree (Python `!=`); the result
      holds the nodes and edges of both, keeps geo_g's crs, and lists each
      node's neighbours in geo_g before the new ones of geo_h. */
  function Compose(g: Graph, h: Graph): (r: Result<Graph>)
    ensures r.Err? <==> !PyEq(g.crs, h.crs)
    ensures r.Err? ==> r.error == CrsMismatch
    ensures r.Ok? ==> && r.value.crs == g.crs
                      && r.value.nodes == Updated(g.nodes, h.nodes)
                      && r.value.edges == Updated(g.edges, h.edges)
  {
    if !PyEq(g.crs, h.crs) then Err(CrsMismatch) else Ok(Union(g, h))
  }

  /** The graph `nx.compose` builds, with geo_g's crs. */
  function Union(g: Graph, h: Graph): Graph {
    Graph(
      Merged(g.order, h.order),
      Updated(g.nodes, h.nodes),
      map n | n in g.adj.Keys + h.adj.Keys :: Merged(Neighbours(g, n), Neighbours(h, n)),
      Updated(g.edges, h.edges),
      g.crs)
  }

  /** In a consistent graph, `m` is a neighbour of `n` exactly when the
      edge between them exists (a missing node has neither). */
  lemma NeighboursIffEdge(g: Graph, n: NodeId, m: NodeId)
    requires Valid(g)
    ensures m in Neighbours(g, n) <==> Pair(n, m) in g.edges
  {
    if n !in g.nodes {
      assert n in Pair(n, m);
    }
  }

  /** In the composition, `m` is a neighbour of `n` exactly when one of the
      two graphs has the edge between them. */
  lemma UnionNeighbours(g: Graph, h: Graph, n: NodeId, m: NodeId)
    requires m in Neighbours(g, n) <==> Pair(n, m) in g.edges
    requires m in Neighbours(h, n) <==> Pair(n, m) in h.edges
    requires n in Union(g, h).adj
    ensures m in Union(g, h).adj[n] <==> Pair(n, m) in Union(g, h).edges
  {
    var r := Union(g, h);
    assert r.adj[n] == Merged(Neighbours(g, n), Neighbours(h, n));
    assert r.edges.Keys == g.edges.Keys + h.edges.Keys;
  }

  lemma UnionDistinct(g: Graph, h: Graph, n: NodeId)
    requires Valid(g) && Valid(h)
    requires n in Union(g, h).adj
    ensures Distinct(Union(g, h).adj[n])
  {
    var r := Union(g, h);
    assert r.adj[n] == Merged(Neighbours(g, n), Neighbours(h, n));
    assert Distinct(Neighbours(g, n));
  }

  lemma UnionAdjDistinct(g: Graph, h: Graph)
    requires Valid(g) && Valid(h)
    ensures forall n :: n in Union(g, h).adj ==> Distinct(Union(g, h).adj[n])
  {
    forall n | n in Union(g, h).adj
      ensures Distinct(Union(g, h).adj[n])
    {
      UnionDistinct(g, h, n);
    }
  }

  lemma UnionAdjEdges(g: Graph, h: Graph)
    requires Valid(g) && Valid(h)
    ensures forall n, m :: n in Union(g, h).adj ==> (m in Union(g, h).adj[n] <==> Pair(n, m) in Union(g, h).edges)
  {
    forall n, m | n in Union(g, h).adj
      ensures m in Union(g, h).adj[n] <==> Pair(n, m) in Union(g, h).edges
    {
      NeighboursIffEdge(g, n, m);
      NeighboursIffEdge(h, n, m);
      UnionNeighbours(g, h, n, m);
    }
  }

  lemma UnionOrder(g: Graph, h: Graph)
    requires Distinct(g.order) && (forall n :: n in g.order <==> n in g.nodes)
    requires forall n :: n in h.order <==> n in h.nodes
    ensures Distinct(Union(g, h).order)
    ensures forall n :: n in Union(g, h).order <==> n in Union(g, h).nodes
  {
  }

  lemma UnionEdgeEnds(g: Graph, h: Graph)
    requires forall k :: k in g.edges ==> k <= g.nodes.Keys
    requires forall k :: k in h.edges ==> k <= h.nodes.Keys
    ensures forall k :: k in Union(g, h).edges ==> k <= Union(g, h).nodes.Keys
  {
    var r := Union(g, h);
    forall k | k in r.edges
      ensures k <= r.nodes.Keys
    {
      assert k in g.edges || k in h.edges;
    }
  }

  /** The composition of two consistent graphs is consistent. */
  lemma ComposeValid(g: Graph, h: Graph)
    requires Valid(g) && Valid(h) && Compose(g, h).Ok?
    ensures Valid(Compose(g, h).value)
  {
    UnionAdjDistinct(g, h);
    UnionAdjEdges(g, h);
    UnionOrder(g, h);
    UnionEdgeEnds(g, h);
    assert Union(g, h).adj.Keys == Union(g, h).nodes.Keys;
  }

  /** The left fold of `compose` over `rest`, starting from `acc`. */
  function ComposeFold(acc: Graph, rest: seq<Graph>): Result<Graph>
    decreases |rest|
  {
    if rest == [] then Ok(acc)
    else
      var c := Compose(acc, rest[0]);
      if c.Err? then Err(c.error) else ComposeFold(c.value, rest[1..])
  }

  /** `compose_all(geo_list)`: None for an empty list, else the left fold of
      `compose` from the first graph. */
  function Composed(gs: seq<Graph>): (r: Result<Option<Graph>>)
    ensures gs == [] ==> r == Ok(None)
    ensures |gs| == 1 ==> r == Ok(Some(gs[0]))
  {
    if gs == [] then Ok(None)
    else
      var f := ComposeFold(gs[0], gs[1..]);
      if f.Err? then Err(f.error) else Ok(Some(f.value))
  }

  /** The fold fails exactly when some graph's crs differs from the first
      one's, and otherwise keeps that crs. */
  lemma {:induction false} ComposeFoldCrs(acc: Graph, rest: seq<Graph>)
    ensures var f := ComposeFold(acc, rest);
      && (f.Ok? <==> forall i :: 0 <= i < |rest| ==> PyEq(acc.crs, rest[i].crs))
      && (f.Ok? ==> f.value.crs == acc.crs)
      && (f.Err? ==> f.error == CrsMismatch)
    decreases |rest|
  {
    if rest != [] {
      var c := Compose(acc, rest[0]);
      if c.Ok? {
        ComposeFoldCrs(c.value, rest[1..]);
        assert forall i :: 1 <= i < |rest| ==> rest[i] == rest[1..][i - 1];
        assert forall i :: 0 <= i < |rest| - 1 ==> rest[1..][i] == rest[i + 1];
      }
    }
  }

  lemma ComposedCrs(gs: seq<Graph>)
    requires gs != []
    ensures var r := Composed(gs);
      && (r.Ok? <==> forall i :: 1 <= i < |gs| ==> PyEq(gs[0].crs, gs[i].crs))
      && (r.Ok? ==> r.value.Some? && r.value.value.crs == gs[0].crs)
      && (r.Err? ==> r.error == CrsMismatch)
  {
    ComposeFoldCrs(gs[0], gs[1..]);
    assert forall i :: 1 <= i < |gs| ==> gs[i] == gs[1..][i - 1];
  }

  /** The fold over `rest + [h]` is the fold over `rest` composed with `h`. */
  lemma {:induction false} ComposeFoldSnoc(acc: Graph, rest: seq<Graph>, h: Graph)
    ensures var f := ComposeFold(acc, rest);
      ComposeFold(acc, rest + [h]) == if f.Err? then f else Compose(f.value, h)
    decreases |rest|
  {
    if rest == [] {
      var c := Compose(acc, h);
      assert ([] + [h])[1..] == [];
    } else {
      var c := Compose(acc, rest[0]);
      assert (rest + [h])[0] == rest[0];
      assert (rest + [h])[1..] == rest[1..] + [h];
      if c.Ok? {
        ComposeFoldSnoc(c.value, rest[1..], h);
      }
    }
  }

  /** `compose_all` is a left fold: appending a graph composes it last. */
  lemma ComposedSnoc(gs: seq<Graph>, h: Graph)
    requires gs != []
    ensures var r := Composed(gs);
      Composed(gs + [h]) ==
        if r.Err? then Err(r.error)
        else var c := Compose(r.value.value, h); if c.Err? then Err(c.error) else Ok(Some(c.value))
  {
    assert (gs + [h])[0] == gs[0] && (gs + [h])[1..] == gs[1..] + [h];
    ComposeFoldSnoc(gs[0], gs[1..], h);
  }

  /** Composing consistent graphs yields a consistent graph. */
  lemma {:induction false} ComposeFoldValid(acc: Graph, rest: seq<Graph>)
    requires Valid(acc) && forall i :: 0 <= i < |rest| ==> Valid(rest[i])
    ensures ComposeFold(acc, rest).Ok? ==> Valid(ComposeFold(acc, rest).value)
    decreases |rest|
  {
    if rest != [] {
      var c := Compose(acc, rest[0]);
      if c.Ok? {
        ComposeValid(acc, rest[0]);
        assert forall i :: 0 <= i < |rest| - 1 ==> rest[1..][i] == rest[i + 1];
        ComposeFoldValid(c.value, rest[1..]);
      }
    }
  }

  /** `compose_all(geo_list)` as the source runs it: a loop that replaces
      the running graph by its composition with the next one. */
  method ComposeAll(geoList: seq<Graph>) returns (r: Result<Option<Graph>>)
    ensures r == Composed(geoList)
    ensures (forall i :: 0 <= i < |geoList| ==> Valid(geoList[i])) && r.Ok? && r.value.Some? ==>
      Valid(r.value.value)
  {
    if geoList == [] {
      return Ok(None);
    }
    ghost var goal := ComposeFold(geoList[0], geoList[1..]);
    var newGeo := geoList[0];
    var i := 1;
    while i < |geoList|
      invariant 1 <= i <= |geoList|
      invariant ComposeFold(newGeo, geoList[i..]) == goal
      invariant (forall j :: 0 <= j < |geoList| ==> Valid(geoList[j])) ==> Valid(newGeo)
    {
      assert geoList[i..][0] == geoList[i] && geoList[i..][1..] == geoList[i + 1..];
      var c := Compose(newGeo, geoList[i]);
      if c.Err? {
        return Err(c.error);
      }
      if forall j :: 0 <= j < |geoList| ==> Valid(geoList[j]) {
        ComposeValid(newGeo, geoList[i]);
      }
      newGeo := c.value;
      i := i + 1;
    }
    return Ok(Some(newGeo));
  }

  // ---------------------------------------------------------------------
  // project_graph: the disjointness guard
  // ---------------------------------------------------------------------

  /** Whether `x` equals (Python `==`) an element of `s`. */
  function Occurs(x: Value, s: seq<Value>): (r: bool)
    ensures r <==> exists j :: 0 <= j < |s| && PyEq(x, s[j])
    decreases |s|
  {
    if s == [] then false
    else
      assert forall j :: 1 <= j < |s| ==> s[j] == s[1..][j - 1];
      PyEq(x, s[0]) || Occurs(x, s[1..])
  }

  /** A value of `t` that also occurs in `s`, the first in `t`'s order. */
  function Shared(t: seq<Value>, s: seq<Value>): (r: Option<Value>)
    ensures r.Some? ==> r.value in t && Occurs(r.value, s)
    ensures r.None? <==> forall i, j :: 0 <= i < |t| && 0 <= j < |s| ==> !PyEq(t[i], s[j])
    decreases |t|
  {
    if t == [] then None
    else if Occurs(t[0], s) then Some(t[0])
    else
      assert forall i :: 1 <= i < |t| ==> t[i] == t[1..][i - 1];
      Shared(t[1..], s)
  }

  /** The guard of `project_graph`: the node_id columns of the target
      table and of the nodes to project must share no value. */
  function CheckDisjointIds(targetIds: seq<Value>, srcIds: seq<Value>): (r: Result<()>)
    ensures r.Err? <==>
      (exists i, j :: 0 <= i < |targetIds| && 0 <= j < |srcIds| && PyEq(targetIds[i], srcIds[j]))
    ensures r.Err? ==> r.error == IdsOverlap
  {
    if Shared(targetIds, srcIds).Some? then Err(IdsOverlap) else Ok(())
  }

  // ---------------------------------------------------------------------
  // weight_node_to_graph
  // ---------------------------------------------------------------------

  /** The networkx searches on the graph and on `gr_rev`: `ego(node, radius)`
      is the node list of the ego graph of radius `radius` (distance
      WEIGHT) around `node`, `egoRev` the same on `gr_rev` (None when
      `gr_rev` is falsy), and `pathLength(source, target)` the weighted
      shortest path length. Each may raise. */
  datatype NetOps = NetOps(
    ego: (NodeId, Value) -> Result<seq<NodeId>>,
    egoRev: Option<(NodeId, Value) -> Result<seq<NodeId>>>,
    pathLength: (NodeId, NodeId) -> Result<real>)

  /** What an operation returns together with the graph it leaves. */
  datatype Outcome<T> = Outcome(result: Result<T>, graph: Graph)

  /** A node that is not marked inactive: the `active` attribute is absent
      or truthy (no `active` name means every node is active). */
  predicate Active(g: Graph, nd: NodeId, active: Option<string>) {
    nd in g.nodes &&
    (active.None? || active.value !in g.nodes[nd] || Truthy(g.nodes[nd][active.value]))
  }

  /** The comprehension over an ego graph's nodes: those in `ext` other
      than `node` and active on `g`; reading the attributes of a node
      missing from `g` raises. */
  function Near(g: Graph, node: NodeId, ego: seq<NodeId>, ext: seq<NodeId>,
                active: Option<string>): (r: Result<seq<NodeId>>)
    ensures r.Ok? ==> forall x :: x in r.value <==> x in ego && x in ext && x != node && Active(g, x, active)
    ensures r.Err? <==> exists x :: x in ego && x in ext && x != node && x !in g.nodes
    ensures r.Err? ==> r.error == KeyError
    decreases |ego|
  {
    if ego == [] then Ok([])
    else
      var nd := ego[0];
      assert forall x :: x in ego <==> x == nd || x in ego[1..];
      var rest := Near(g, node, ego[1..], ext, active);
      if nd in ext && nd != node then
        if nd !in g.nodes then Err(KeyError)
        else if rest.Err? then rest
        else if Active(g, nd, active) then Ok([nd] + rest.value)
        else rest
      else rest
  }

  /** Whether an ego graph around `node` (on the graph or on `gr_rev`)
      holds `x`. */
  predicate Reached(ops: NetOps, node: NodeId, radius: Value, x: NodeId) {
    (ops.ego(node, radius).Ok? && x in ops.ego(node, radius).value) ||
    (ops.egoRev.Some? && ops.egoRev.value(node, radius).Ok? &&
     x in ops.egoRev.value(node, radius).value)
  }

  /** `near_gr`: with a truthy radius, the active nodes of `ext_gr` other
      than `node` that the ego graphs reach; without one, all of `ext_gr`. */
  function Candidates(g: Graph, node: NodeId, ext: seq<NodeId>, radius: Value,
                      active: Option<string>, ops: NetOps): (r: Result<seq<NodeId>>)
    ensures !Truthy(radius) ==> r == Ok(ext)
    ensures Truthy(radius) && r.Ok? ==>
      forall x :: x in r.value <==> Reached(ops, node, radius, x) && x in ext && x != node && Active(g, x, active)
  {
    if !Truthy(radius) then Ok(ext)
    else
      var ego := ops.ego(node, radius);
      if ego.Err? then Err(ego.error)
      else
        var near := Near(g, node, ego.value, ext, active);
        if near.Err? || ops.egoRev.None? then near
        else
          var egoRev := ops.egoRev.value(node, radius);
          if egoRev.Err? then Err(egoRev.error)
          else
            var nearRev := Near(g, node, egoRev.value, ext, active);
            if nearRev.Err? then nearRev else Ok(near.value + nearRev.value)
  }

  /** The shortest path length between `nd` and `node`: towards `node`
      when it is the edge's source, away from it otherwise. */
  function Leg(node: NodeId, nd: NodeId, isSource: bool, ops: NetOps): Result<real> {
    if isSource then ops.pathLength(nd, node) else ops.pathLength(node, nd)
  }

  /** `dist_st`: the path lengths of the candidates, in their order. */
  function Lengths(near: seq<NodeId>, node: NodeId, isSource: bool, ops: NetOps): (r: Result<seq<real>>)
    ensures r.Ok? ==> |r.value| == |near|
    ensures r.Ok? ==> forall i :: 0 <= i < |near| ==> Leg(node, near[i], isSource, ops) == Ok(r.value[i])
    ensures r.Err? <==> exists i :: 0 <= i < |near| && Leg(node, near[i], isSource, ops).Err?
    decreases |near|
  {
    if near == [] then Ok([])
    else
      var l := Leg(node, near[0], isSource, ops);
      assert forall i :: 1 <= i < |near| ==> near[i] == near[1..][i - 1];
      if l.Err? then Err(l.error)
      else
        var rest := Lengths(near[1..], node, isSource, ops);
        if rest.Err? then rest else Ok([l.value] + rest.value)
  }

  /** `min(xs)`. */
  function MinOf(xs: seq<real>): (m: real)
    requires xs != []
    ensures m in xs && forall x :: x in xs ==> m <= x
    decreases |xs|
  {
    if |xs| == 1 then xs[0]
    else
      var m := MinOf(xs[1..]);
      assert forall x :: x in xs ==> x == xs[0] || x in xs[1..];
      if xs[0] <= m then xs[0] else m
  }

  /** The value `weight_node_to_graph` returns: None without candidates,
      else the least path length. */
  function Distance(g: Graph, node: NodeId, ext: seq<NodeId>, isSource: bool, radius: Value,
                    active: Option<string>, ops: NetOps): Result<Option<real>>
  {
    var near := Candidates(g, node, ext, radius, active, ops);
    if near.Err? then Err(near.error)
    else
      var ls := Lengths(near.value, node, isSource, ops);
      if ls.Err? then Err(ls.error)
      else if ls.value == [] then Ok(None)
      else Ok(Some(MinOf(ls.value)))
  }

  /** The distance is the least path length over the candidates, None
      exactly when there is none, and an error exactly when finding the
      candidates or one of their paths fails. */
  lemma DistanceIsMinimum(g: Graph, node: NodeId, ext: seq<NodeId>, isSource: bool, radius: Value,
                          active: Option<string>, ops: NetOps)
    ensures var c := Candidates(g, node, ext, radius, active, ops);
      var r := Distance(g, node, ext, isSource, radius, active, ops);
      && (c.Err? ==> r == Err(c.error))
      && (c.Ok? ==>
           && (r.Err? <==> exists nd :: nd in c.value && Leg(node, nd, isSource, ops).Err?)
           && (r == Ok(None) <==> c.value == [])
           && (r.Ok? && r.value.Some? ==>
                 && (exists nd :: nd in c.value && Leg(node, nd, isSource, ops) == Ok(r.value.value))
                 && forall nd :: nd in c.value ==>
                      Leg(node, nd, isSource, ops).Ok? && r.value.value <= Leg(node, nd, isSource, ops).value))
  {
    var c := Candidates(g, node, ext, radius, active, ops);
    if c.Ok? {
      var near := c.value;
      var ls := Lengths(near, node, isSource, ops);
      assert (exists nd :: nd in near && Leg(node, nd, isSource, ops).Err?) <==>
             (exists i :: 0 <= i < |near| && Leg(node, near[i], isSource, ops).Err?) by {
        forall nd | nd in near && Leg(node, nd, isSource, ops).Err?
          ensures exists i :: 0 <= i < |near| && Leg(node, near[i], isSource, ops).Err?
        {
          var i :| 0 <= i < |near| && near[i] == nd;
        }
      }
      if ls.Ok? && ls.value != [] {
        var m := MinOf(ls.value);
        var k :| 0 <= k < |ls.value| && ls.value[k] == m;
        assert near[k] in near && Leg(node, near[k], isSource, ops) == Ok(m);
        forall nd | nd in near
          ensures Leg(node, nd, isSource, ops).Ok? && m <= Leg(node, nd, isSource, ops).value
        {
          var i :| 0 <= i < |near| && near[i] == nd;
          assert ls.value[i] in ls.value;
        }
      }
    }
  }

  /** `if dist and attribute: graph.nodes[node][attribute] = dist`. */
  function Cache(g: Graph, node: NodeId, attribute: Option<string>, d: Result<Option<real>>): Outcome<Option<real>>
  {
    if d.Ok? && d.value.Some? && d.value.value != 0.0 && Given(attribute) then
      if node !in g.nodes then Outcome(Err(KeyError), g)
      else Outcome(d, g.(nodes := g.nodes[node := g.nodes[node][attribute.value := VFloat(d.value.value)]]))
    else Outcome(d, g)
  }

  /** `weight_node_to_graph(graph, node, ext_gr, is_source, radius,
      attribute, active, gr_rev)`: the distance, written to the node's
      `attribute` when both are truthy. */
  function NodeToGraph(g: Graph, node: NodeId, ext: seq<NodeId>, isSource: bool, radius: Value,
                       attribute: Option<string>, active: Option<string>, ops: NetOps): Outcome<Option<real>>
  {
    Cache(g, node, attribute, Distance(g, node, ext, isSource, radius, active, ops))
  }

  /** Only a truthy distance is cached, only under a given attribute name,
      only on `node`; the graph is otherwise left as it was. */
  lemma NodeToGraphCaches(g: Graph, node: NodeId, ext: seq<NodeId>, isSource: bool, radius: Value,
                          attribute: Option<string>, active: Option<string>, ops: NetOps)
    ensures var d := Distance(g, node, ext, isSource, radius, active, ops);
      var o := NodeToGraph(g, node, ext, isSource, radius, attribute, active, ops);
      && (o.result.Ok? ==> o.result == d)
      && (o.graph != g ==>
            && d.Ok? && d.value.Some? && d.value.value != 0.0 && Given(attribute) && node in g.nodes
            && o.graph.order == g.order && o.graph.adj == g.adj && o.graph.edges == g.edges
            && o.graph.crs == g.crs && o.graph.nodes.Keys == g.nodes.Keys
            && o.graph.nodes[node][attribute.value] == VFloat(d.value.value)
            && (forall n :: n in g.nodes && n != node ==> o.graph.nodes[n] == g.nodes[n])
            && (forall a :: a in g.nodes[node] && a != attribute.value ==>
                  a in o.graph.nodes[node] && o.graph.nodes[node][a] == g.nodes[node][a]))
  {
  }

  /** The result written as an attribute value (`None` or a float). */
  function DistValue(d: Option<real>): (v: Value)
    ensures Truthy(v) <==> d.Some? && d.value != 0.0
  {
    if d.Some? then VFloat(d.value) else VNone
  }

  /** `weight_node_to_graph` on a graph object: the candidates and the
      minimum are computed on the current state, then cached. */
  method WeightNodeToGraph(graph: GeoGraph, node: NodeId, ext: seq<NodeId>, isSource: bool, radius: Value,
                           attribute: Option<string>, active: Option<string>, ops: NetOps)
    returns (r: Result<Option<real>>)
    modifies graph
    ensures Outcome(r, graph.View()) == NodeToGraph(old(graph.View()), node, ext, isSource, radius, attribute, active, ops)
  {
    r := Distance(graph.View(), node, ext, isSource, radius, active, ops);
    var present := node in graph.nodes;
    CacheDistance(graph, node, attribute, r);
    if r.Ok? && r.value.Some? && r.value.value != 0.0 && Given(attribute) && !present {
      r := Err(KeyError);
    }
  }

  /** The cache write of `weight_node_to_graph`. */
  method CacheDistance(graph: GeoGraph, node: NodeId, attribute: Option<string>, d: Result<Option<real>>)
    modifies graph
    ensures graph.View() == Cache(old(graph.View()), node, attribute, d).graph
  {
    if d.Ok? && d.value.Some? && d.value.value != 0.0 && Given(attribute) && node in graph.nodes {
      graph.nodes := graph.nodes[node := graph.nodes[node][attribute.value := VFloat(d.value.value)]];
    }
  }

  // ---------------------------------------------------------------------
  // weight_extend
  // ---------------------------------------------------------------------

  /** One end of the extended edge: its node, whether it is the source, and
      the name its distance is cached under. */
  datatype End = End(node: NodeId, isSource: bool, attribute: Option<string>)

  /** The ends of `edge` with their cache names n_attribute+'_s' and
      n_attribute+'_e' (none without a name). */
  function Ends(edge: (NodeId, NodeId), nAttribute: Option<string>): (r: seq<End>)
    ensures |r| == 2 && r[0].node == edge.0 && r[1].node == edge.1
    ensures r[0].isSource && !r[1].isSource
    ensures nAttribute.Some? ==> r[0].attribute == Some(nAttribute.value + "_s") &&
                                 r[1].attribute == Some(nAttribute.value + "_e")
    ensures nAttribute.None? ==> r[0].attribute.None? && r[1].attribute.None?
  {
    if nAttribute.None? then [End(edge.0, true, None), End(edge.1, false, None)]
    else [End(edge.0, true, Some(nAttribute.value + "_s")), End(edge.1, false, Some(nAttribute.value + "_e"))]
  }

  /** Python `a + b`: numbers add (bool and int as int, a float makes a
      float, NaN absorbs), two strings or two lists concatenate; any other
      pair raises TypeError (None here). */
  function PyAdd(a: Value, b: Value): (r: Option<Value>)
    ensures IsNumber(a) && IsNumber(b) ==> r.Some? && Num(r.value) == Some(Num(a).value + Num(b).value)
    ensures a.VStr? && b.VStr? ==> r.Some? && r.value.VStr? && |r.value.s| == |a.s| + |b.s| && r.value.s[..|a.s|] == a.s && r.value.s[|a.s|..] == b.s
    ensures a.VList? && b.VList? ==> r.Some? && r.value.VList? && |r.value.items| == |a.items| + |b.items| && r.value.items[..|a.items|] == a.items && r.value.items[|a.items|..] == b.items
    ensures r.Some? <==> ((IsNumber(a) || a.VNaN?) && (IsNumber(b) || b.VNaN?)) || (a.VStr? && b.VStr?) || (a.VList? && b.VList?)
  {
    if (a.VBool? || a.VInt?) && (b.VBool? || b.VInt?) then
      Some(VInt((if a.VBool? then (if a.b then 1 else 0) else a.i) + (if b.VBool? then (if b.b then 1 else 0) else b.i)))
    else if IsNumber(a) && IsNumber(b) then Some(VFloat(Num(a).value + Num(b).value))
    else if (IsNumber(a) || a.VNaN?) && (IsNumber(b) || b.VNaN?) then Some(VNaN)
    else if a.VStr? && b.VStr? then Some(VStr(a.s + b.s))
    else if a.VList? && b.VList? then Some(VList(a.items + b.items))
    else None
  }

  /** One end's contribution: a truthy cached value when there is one,
      otherwise `weight_node_to_graph` (which may cache). */
  function Contribution(g: Graph, e: End, ext: seq<NodeId>, radius: Value,
                        active: Option<string>, ops: NetOps): Outcome<Value>
  {
    if e.node !in g.nodes then Outcome(Err(KeyError), g)
    else if e.attribute.Some? && e.attribute.value in g.nodes[e.node] && Truthy(g.nodes[e.node][e.attribute.value]) then
      Outcome(Ok(g.nodes[e.node][e.attribute.value]), g)
    else
      var o := NodeToGraph(g, e.node, ext, e.isSource, radius, e.attribute, active, ops);
      Outcome(if o.result.Err? then Err(o.result.error) else Ok(DistValue(o.result.value)), o.graph)
  }

  /** A present, truthy cached value is used as it is and leaves the graph
      alone; otherwise the contribution is the computed distance. */
  lemma ContributionIsCachedOrDistance(g: Graph, e: End, ext: seq<NodeId>, radius: Value,
                                       active: Option<string>, ops: NetOps)
    requires e.node in g.nodes
    ensures var c := Contribution(g, e, ext, radius, active, ops);
      if e.attribute.Some? && e.attribute.value in g.nodes[e.node] && Truthy(g.nodes[e.node][e.attribute.value])
      then c == Outcome(Ok(g.nodes[e.node][e.attribute.value]), g)
      else
        var d := Distance(g, e.node, ext, e.isSource, radius, active, ops);
        (c.result.Ok? ==> d.Ok? && c.result.value == DistValue(d.value)) &&
        (d.Ok? ==> c.result == Ok(DistValue(d.value)))
  {
  }

  /** The edge weight plus the contributions of `ends`, all or nothing: a
      falsy contribution gives None. */
  function Extended(g: Graph, ends: seq<End>, acc: Value, ext: seq<NodeId>, radius: Value,
                    active: Option<string>, ops: NetOps): Outcome<Option<Value>>
    decreases |ends|
  {
    if ends == [] then Outcome(Ok(Some(acc)), g)
    else
      var c := Contribution(g, ends[0], ext, radius, active, ops);
      if c.result.Err? then Outcome(Err(c.result.error), c.graph)
      else if !Truthy(c.result.value) then Outcome(Ok(None), c.graph)
      else
        var s := PyAdd(acc, c.result.value);
        if s.None? then Outcome(Err(TypeError), c.graph)
        else Extended(c.graph, ends[1..], s.value, ext, radius, active, ops)
  }

  /** `weight_extend(graph, edge, ext_gr, radius, n_attribute, n_active,
      gr_rev)`, with no caching when n_attribute is None: the edge weight,
      the radius defaulting to it, and the two ends in turn. */
  function Extension(g: Graph, edge: (NodeId, NodeId), ext: seq<NodeId>, radius: Value,
                     nAttribute: Option<string>, active: Option<string>, ops: NetOps): Outcome<Option<Value>>
  {
    var key := Pair(edge.0, edge.1);
    if key !in g.edges || WEIGHT !in g.edges[key] then Outcome(Err(KeyError), g)
    else
      var w := g.edges[key][WEIGHT];
      Extended(g, Ends(edge, nAttribute), w, ext, if Truthy(radius) then radius else w, active, ops)
  }

  /** `weight_extend` as written: the cache names are built before anything
      else, so a None n_attribute (the default) raises TypeError. */
  function ExtensionAsWritten(g: Graph, edge: (NodeId, NodeId), ext: seq<NodeId>, radius: Value,
                              nAttribute: Option<string>, active: Option<string>, ops: NetOps): (o: Outcome<Option<Value>>)
    ensures nAttribute.Some? ==> o == Extension(g, edge, ext, radius, nAttribute, active, ops)
  {
    var key := Pair(edge.0, edge.1);
    if key !in g.edges || WEIGHT !in g.edges[key] then Outcome(Err(KeyError), g)
    else if nAttribute.None? then Outcome(Err(TypeError), g)
    else Extension(g, edge, ext, radius, nAttribute, active, ops)
  }

  /** With the default n_attribute, the code as written raises on every
      edge that has a weight, before looking at either end. */
  lemma DefaultAttributeRaises(g: Graph, edge: (NodeId, NodeId), ext: seq<NodeId>, radius: Value,
                               active: Option<string>, ops: NetOps)
    requires Pair(edge.0, edge.1) in g.edges && WEIGHT in g.edges[Pair(edge.0, edge.1)]
    ensures ExtensionAsWritten(g, edge, ext, radius, None, active, ops) == Outcome(Err(TypeError), g)
  {
  }

  /** Without cache names nothing is cached: the graph is left as it was. */
  lemma {:induction false} ExtendedWithoutNames(g: Graph, ends: seq<End>, acc: Value, ext: seq<NodeId>,
                                                radius: Value, active: Option<string>, ops: NetOps)
    requires forall i :: 0 <= i < |ends| ==> ends[i].attribute.None?
    ensures Extended(g, ends, acc, ext, radius, active, ops).graph == g
    decreases |ends|
  {
    if ends != [] {
      var c := Contribution(g, ends[0], ext, radius, active, ops);
      assert c.graph == g;
      var s := if c.result.Ok? then PyAdd(acc, c.result.value) else None;
      if c.result.Ok? && Truthy(c.result.value) && s.Some? {
        assert forall i :: 0 <= i < |ends| - 1 ==> ends[1..][i] == ends[i + 1];
        ExtendedWithoutNames(g, ends[1..], s.value, ext, radius, active, ops);
      }
    }
  }

  /** What the default n_attribute evidently means: the weight is computed
      and nothing is stored on the graph. */
  lemma ExtensionWithoutNameCachesNothing(g: Graph, edge: (NodeId, NodeId), ext: seq<NodeId>, radius: Value,
                                          active: Option<string>, ops: NetOps)
    ensures Extension(g, edge, ext, radius, None, active, ops).graph == g
  {
    var key := Pair(edge.0, edge.1);
    if key in g.edges && WEIGHT in g.edges[key] {
      var w := g.edges[key][WEIGHT];
      ExtendedWithoutNames(g, Ends(edge, None), w, ext, if Truthy(radius) then radius else w, active, ops);
    }
  }

  /** A falsy radius is replaced by the edge weight. */
  lemma FalsyRadiusIsWeight(g: Graph, edge: (NodeId, NodeId), ext: seq<NodeId>, radius: Value,
                            nAttribute: Option<string>, active: Option<string>, ops: NetOps)
    requires Pair(edge.0, edge.1) in g.edges && WEIGHT in g.edges[Pair(edge.0, edge.1)]
    requires !Truthy(radius)
    ensures Extension(g, edge, ext, radius, nAttribute, active, ops) ==
            Extension(g, edge, ext, g.edges[Pair(edge.0, edge.1)][WEIGHT], nAttribute, active, ops)
  {
  }

  /** The result is None exactly when one end contributes a falsy value,
      and otherwise the edge weight plus both contributions, the second
      computed on the graph the first one left. */
  lemma ExtensionAllOrNothing(g: Graph, edge: (NodeId, NodeId), ext: seq<NodeId>, radius: Value,
                              nAttribute: Option<string>, active: Option<string>, ops: NetOps)
    requires Pair(edge.0, edge.1) in g.edges && WEIGHT in g.edges[Pair(edge.0, edge.1)]
    ensures var w := g.edges[Pair(edge.0, edge.1)][WEIGHT];
      var rad := if Truthy(radius) then radius else w;
      var ends := Ends(edge, nAttribute);
      var c1 := Contribution(g, ends[0], ext, rad, active, ops);
      var c2 := Contribution(c1.graph, ends[1], ext, rad, active, ops);
      var o := Extension(g, edge, ext, radius, nAttribute, active, ops);
      var ok1 := c1.result.Ok? && Truthy(c1.result.value) && PyAdd(w, c1.result.value).Some?;
      var s1 := if ok1 then PyAdd(w, c1.result.value).value else w;
      var ok2 := ok1 && c2.result.Ok? && Truthy(c2.result.value) && PyAdd(s1, c2.result.value).Some?;
      && (o.result == Ok(None) <==>
            c1.result.Ok? && (!Truthy(c1.result.value) || (ok1 && c2.result.Ok? && !Truthy(c2.result.value))))
      && (o.result.Ok? && o.result.value.Some? <==> ok2)
      && (ok2 ==> o == Outcome(Ok(Some(PyAdd(s1, c2.result.value).value)), c2.graph))
  {
    var w := g.edges[Pair(edge.0, edge.1)][WEIGHT];
    var rad := if Truthy(radius) then radius else w;
    var ends := Ends(edge, nAttribute);
    var c1 := Contribution(g, ends[0], ext, rad, active, ops);
    var o := Extended(g, ends, w, ext, rad, active, ops);
    assert o == Extension(g, edge, ext, radius, nAttribute, active, ops);
    if c1.result.Ok? && Truthy(c1.result.value) && PyAdd(w, c1.result.value).Some? {
      var s1 := PyAdd(w, c1.result.value).value;
      assert ends[1..][0] == ends[1] && ends[1..][1..] == [];
      var c2 := Contribution(c1.graph, ends[1], ext, rad, active, ops);
      assert o == Extended(c1.graph, ends[1..], s1, ext, rad, active, ops);
      if c2.result.Ok? && Truthy(c2.result.value) && PyAdd(s1, c2.result.value).Some? {
        assert o == Extended(c2.graph, [], PyAdd(s1, c2.result.value).value, ext, rad, active, ops);
      }
    }
  }

  /** When both ends hold truthy numeric cached values, the result is the
      edge weight plus both, nothing is searched and the graph is kept. */
  lemma CachedEndsReused(g: Graph, edge: (NodeId, NodeId), ext: seq<NodeId>, radius: Value,
                         n: string, active: Option<string>, ops: NetOps)
    requires Pair(edge.0, edge.1) in g.edges && WEIGHT in g.edges[Pair(edge.0, edge.1)]
      && IsNumber(g.edges[Pair(edge.0, edge.1)][WEIGHT])
    requires edge.0 in g.nodes && n + "_s" in g.nodes[edge.0]
      && Truthy(g.nodes[edge.0][n + "_s"]) && IsNumber(g.nodes[edge.0][n + "_s"])
    requires edge.1 in g.nodes && n + "_e" in g.nodes[edge.1]
      && Truthy(g.nodes[edge.1][n + "_e"]) && IsNumber(g.nodes[edge.1][n + "_e"])
    ensures var o := Extension(g, edge, ext, radius, Some(n), active, ops);
      && o.graph == g
      && o.result.Ok? && o.result.value.Some?
      && Num(o.result.value.value) == Some(Num(g.edges[Pair(edge.0, edge.1)][WEIGHT]).value
           + Num(g.nodes[edge.0][n + "_s"]).value + Num(g.nodes[edge.1][n + "_e"]).value)
  {
    var w := g.edges[Pair(edge.0, edge.1)][WEIGHT];
    var rad := if Truthy(radius) then radius else w;
    var ends := Ends(edge, Some(n));
    var v1, v2 := g.nodes[edge.0][n + "_s"], g.nodes[edge.1][n + "_e"];
    ContributionIsCachedOrDistance(g, ends[0], ext, rad, active, ops);
    ContributionIsCachedOrDistance(g, ends[1], ext, rad, active, ops);
    var s1 := PyAdd(w, v1).value;
    assert Num(s1) == Some(Num(w).value + Num(v1).value);
    ExtensionAllOrNothing(g, edge, ext, radius, Some(n), active, ops);
  }

  /** Two graphs with the same nodes, neighbours, edges and crs: at most
      node attribute values differ. */
  predicate SameShape(g: Graph, h: Graph) {
    h.order == g.order && h.adj == g.adj && h.edges == g.edges && h.crs == g.crs &&
    h.nodes.Keys == g.nodes.Keys
  }

  lemma CacheKeepsShape(g: Graph, node: NodeId, attribute: Option<string>, d: Result<Option<real>>)
    ensures SameShape(g, Cache(g, node, attribute, d).graph)
  {
  }

  lemma ContributionKeepsShape(g: Graph, e: End, ext: seq<NodeId>, radius: Value,
                               active: Option<string>, ops: NetOps)
    ensures SameShape(g, Contribution(g, e, ext, radius, active, ops).graph)
  {
    var d := Distance(g, e.node, ext, e.isSource, radius, active, ops);
    CacheKeepsShape(g, e.node, e.attribute, d);
  }

  /** Extending an edge writes node attributes and nothing else. */
  lemma {:induction false} ExtendedKeepsShape(g: Graph, ends: seq<End>, acc: Value, ext: seq<NodeId>,
                                              radius: Value, active: Option<string>, ops: NetOps)
    ensures SameShape(g, Extended(g, ends, acc, ext, radius, active, ops).graph)
    decreases |ends|
  {
    if ends != [] {
      var c := Contribution(g, ends[0], ext, radius, active, ops);
      ContributionKeepsShape(g, ends[0], ext, radius, active, ops);
      if c.result.Ok? && Truthy(c.result.value) && PyAdd(acc, c.result.value).Some? {
        ExtendedKeepsShape(c.graph, ends[1..], PyAdd(acc, c.result.value).value, ext, radius, active, ops);
      }
    }
  }

  /** `weight_extend` keeps a consistent graph consistent, with the same
      nodes, neighbours and edges. */
  lemma ExtensionKeepsGraph(g: Graph, edge: (NodeId, NodeId), ext: seq<NodeId>, radius: Value,
                            nAttribute: Option<string>, active: Option<string>, ops: NetOps)
    requires Valid(g)
    ensures var h := Extension(g, edge, ext, radius, nAttribute, active, ops).graph;
      SameShape(g, h) && Valid(h)
  {
    var key := Pair(edge.0, edge.1);
    if key in g.edges && WEIGHT in g.edges[key] {
      var w := g.edges[key][WEIGHT];
      ExtendedKeepsShape(g, Ends(edge, nAttribute), w, ext, if Truthy(radius) then radius else w, active, ops);
    }
    SameKeysValid(g, Extension(g, edge, ext, radius, nAttribute, active, ops).graph);
  }

  /** An end's contribution. */
  method Contribute(graph: GeoGraph, e: End, ext: seq<NodeId>, radius: Value,
                    active: Option<string>, ops: NetOps) returns (r: Result<Value>)
    modifies graph
    ensures Outcome(r, graph.View()) == Contribution(old(graph.View()), e, ext, radius, active, ops)
  {
    if e.node !in graph.nodes {
      return Err(KeyError);
    }
    if e.attribute.Some? && e.attribute.value in graph.nodes[e.node] && Truthy(graph.nodes[e.node][e.attribute.value]) {
      return Ok(graph.nodes[e.node][e.attribute.value]);
    }
    var d := WeightNodeToGraph(graph, e.node, ext, e.isSource, radius, e.attribute, active, ops);
    r := if d.Err? then Err(d.error) else Ok(DistValue(d.value));
  }

  /** `weight_extend` on a graph object: the loop over the two ends adds
      each contribution to the running weight and stops at the first falsy
      one. */
  method WeightExtend(graph: GeoGraph, edge: (NodeId, NodeId), ext: seq<NodeId>, radius: Value,
                      nAttribute: Option<string>, active: Option<string>, ops: NetOps)
    returns (r: Result<Option<Value>>)
    modifies graph
    ensures Outcome(r, graph.View()) == Extension(old(graph.View()), edge, ext, radius, nAttribute, active, ops)
  {
    var key := Pair(edge.0, edge.1);
    if key !in graph.edges || WEIGHT !in graph.edges[key] {
      return Err(KeyError);
    }
    var distExt := graph.edges[key][WEIGHT];
    var rad := if Truthy(radius) then radius else distExt;
    var ends := Ends(edge, nAttribute);
    ghost var goal := Extension(graph.View(), edge, ext, radius, nAttribute, active, ops);
    var i := 0;
    while i < |ends|
      invariant 0 <= i <= |ends|
      invariant Extended(graph.View(), ends[i..], distExt, ext, rad, active, ops) == goal
    {
      assert ends[i..][0] == ends[i] && ends[i..][1..] == ends[i + 1..];
      var c := Contribute(graph, ends[i], ext, rad, active, ops);
      if c.Err? {
        return Err(c.error);
      }
      if !Truthy(c.value) {
        return Ok(None);
      }
      var s := PyAdd(distExt, c.value);
      if s.None? {
        return Err(TypeError);
      }
      distExt := s.value;
      i := i + 1;
    }
    return Ok(Some(distExt));
  }
}
