/** The topology edits of `GeoGraph` (geo_nx/geograph.py) as functions from
    the graph before to the graph after: cutting an edge at a new node,
    erasing linear nodes, and attaching an external node to the node of a
    graph that a lookup found. The `GeoGraph` class applies them in place. */
module Edits {
  import opened Values
  import opened Graphs

  /** The graph after an edit and the distance the edit returns. */
  datatype Edit = Edit(ret: Option<real>, graph: Graph)

  // ---------------------------------------------------------------------
  // insert_node

  /** The two ends of the cut edge, in the direction of the line: the first
      end is `idEdge.0` exactly when its node's first vertex is the first
      vertex of the first part. */
  function Ends(g: Graph, idEdge: (NodeId, NodeId), firstPart: Value): (r: Result<(NodeId, NodeId)>)
    requires idEdge.0 in g.nodes
    ensures r.Ok? <==> GEOM in g.nodes[idEdge.0] && HasCoords(g.nodes[idEdge.0][GEOM]) && HasCoords(firstPart)
    ensures r.Ok? ==> {r.value.0, r.value.1} == {idEdge.0, idEdge.1}
    ensures r.Ok? ==> (r.value == idEdge <==> g.nodes[idEdge.0][GEOM].g.coords[0] == firstPart.g.coords[0] || idEdge.0 == idEdge.1)
  {
    var (a, b) := idEdge;
    if GEOM !in g.nodes[a] then Err(KeyError)
    else
      match FirstCoordOf(g.nodes[a][GEOM])
      case Err(e) => Err(e)
      case Ok(edg0) =>
        match FirstCoordOf(firstPart)
        case Err(e) => Err(e)
        case Ok(c1) =>
          var first := if edg0 == c1 then a else b;
          var last := if first == a then b else a;
          Ok((first, last))
  }

  /** An edge's attributes with the geometry of one part and its length as
      weight. */
  function PartAttrs(att: Attrs, part: Value, ops: GeomOps): (r: Attrs)
    ensures r.Keys == att.Keys + {GEOM, WEIGHT}
    ensures r[GEOM] == part && r[WEIGHT] == VFloat(ops.length(part))
    ensures forall k :: k in att && k != GEOM && k != WEIGHT ==> r[k] == att[k]
  {
    att[GEOM := part][WEIGHT := VFloat(ops.length(part))]
  }

  /** `insert_node(geom, id_node, id_edge, att_node, adjust)`. The second new
      edge copies the cut edge's dictionary as it stands after the first new
      edge was added, since `att_edge` is that dictionary itself. */
  function InsertNode(g: Graph, geom: Value, idNode: NodeId, idEdge: (NodeId, NodeId),
                      attNode: Attrs, adjust: bool, ops: GeomOps): (r: Result<Edit>)
    ensures r.Ok? ==> r.value.graph.crs == g.crs
    // a missing edge or an edge without geometry raises
    ensures Pair(idEdge.0, idEdge.1) !in g.edges ==> r == Err(KeyError)
    ensures Pair(idEdge.0, idEdge.1) in g.edges && GEOM !in g.edges[Pair(idEdge.0, idEdge.1)] ==> r == Err(KeyError)
    // no cut: nothing changes and None is returned
    ensures Pair(idEdge.0, idEdge.1) in g.edges && GEOM in g.edges[Pair(idEdge.0, idEdge.1)] ==>
      (ops.cut(g.edges[Pair(idEdge.0, idEdge.1)][GEOM], geom, adjust).None? <==> r == Ok(Edit(None, g)))
    // a cut returns its distance
    ensures r.Ok? && r.value.ret.Some? ==>
      r.value.ret.value == ops.cut(g.edges[Pair(idEdge.0, idEdge.1)][GEOM], geom, adjust).value.dist
    // networkx refuses `None` as a new node: a cut then raises ValueError
    ensures r.Ok? && r.value.ret.Some? ==> idNode != VNone || VNone in g.nodes
    ensures r.Err? && r.error == ValueError <==>
      Pair(idEdge.0, idEdge.1) in g.edges && GEOM in g.edges[Pair(idEdge.0, idEdge.1)]
      && ops.cut(g.edges[Pair(idEdge.0, idEdge.1)][GEOM], geom, adjust).Some?
      && idEdge.0 in g.nodes
      && Ends(g, idEdge, ops.cut(g.edges[Pair(idEdge.0, idEdge.1)][GEOM], geom, adjust).value.first).Ok?
      && idNode == VNone && VNone !in g.nodes
  {
    var (a, b) := idEdge;
    if Pair(a, b) !in g.edges then Err(KeyError)
    else
      var attEdge := g.edges[Pair(a, b)];
      if GEOM !in attEdge then Err(KeyError)
      else
        match ops.cut(attEdge[GEOM], geom, adjust)
        case None => Ok(Edit(None, g))
        case Some(parts) =>
          if a !in g.nodes then Err(KeyError)
          else match Ends(g, idEdge, parts.first)
          case Err(e) => Err(e)
          case Ok(ends) =>
            if idNode == VNone && VNone !in g.nodes then Err(ValueError)
            else Ok(Edit(Some(parts.dist), Split(g, idEdge, ends, idNode, attNode, parts, ops)))
  }

  /** The graph edits of a successful cut of the edge `idEdge`, whose ends
      run `ends` along the line: the new node, the two new edges, then the
      removal of the cut edge. */
  function Split(g: Graph, idEdge: (NodeId, NodeId), ends: (NodeId, NodeId), idNode: NodeId,
                 attNode: Attrs, parts: CutParts, ops: GeomOps): (r: Graph)
    requires Pair(idEdge.0, idEdge.1) in g.edges
    ensures r.crs == g.crs
  {
    var (a, b) := idEdge;
    var g1 := AddNode(g, idNode, attNode[GEOM := parts.point]);
    var p1 := PartAttrs(g.edges[Pair(a, b)], parts.first, ops);
    AddEdgeEffect(g1, ends.0, idNode, p1);
    var g2 := AddEdge(g1, ends.0, idNode, p1);
    var p2 := PartAttrs(g2.edges[Pair(a, b)], parts.second, ops);
    AddEdgeEffect(g2, idNode, ends.1, p2);
    var g3 := AddEdge(g2, idNode, ends.1, p2);
    RemoveEdge(g3, a, b)
  }

  /** Cutting an edge keeps the graph consistent. */
  lemma InsertNodeValid(g: Graph, geom: Value, idNode: NodeId, idEdge: (NodeId, NodeId),
                        attNode: Attrs, adjust: bool, ops: GeomOps, e: Edit)
    requires Valid(g)
    requires InsertNode(g, geom, idNode, idEdge, attNode, adjust, ops) == Ok(e)
    ensures Valid(e.graph)
  {
    var (a, b) := idEdge;
    if e.ret.Some? {
      var attEdge := g.edges[Pair(a, b)];
      var parts := ops.cut(attEdge[GEOM], geom, adjust).value;
      var ends := Ends(g, idEdge, parts.first).value;
      assert e.graph == Split(g, idEdge, ends, idNode, attNode, parts, ops);
      SplitValid(g, idEdge, ends, idNode, attNode, parts, ops);
    }
  }

  lemma SplitValid(g: Graph, idEdge: (NodeId, NodeId), ends: (NodeId, NodeId), idNode: NodeId,
                   attNode: Attrs, parts: CutParts, ops: GeomOps)
    requires Valid(g) && Pair(idEdge.0, idEdge.1) in g.edges
    ensures Valid(Split(g, idEdge, ends, idNode, attNode, parts, ops))
  {
    var (a, b) := idEdge;
    var g1 := AddNode(g, idNode, attNode[GEOM := parts.point]);
    AddNodeValid(g, idNode, attNode[GEOM := parts.point]);
    var p1 := PartAttrs(g.edges[Pair(a, b)], parts.first, ops);
    var g2 := AddEdge(g1, ends.0, idNode, p1);
    AddEdgeValid(g1, ends.0, idNode, p1);
    AddEdgeEffect(g1, ends.0, idNode, p1);
    var p2 := PartAttrs(g2.edges[Pair(a, b)], parts.second, ops);
    var g3 := AddEdge(g2, idNode, ends.1, p2);
    AddEdgeValid(g2, idNode, ends.1, p2);
    AddEdgeEffect(g2, idNode, ends.1, p2);
    RemoveEdgeValid(g3, a, b);
  }

  /** On a proper edge and a new node id other than `None`, a cut replaces the edge by exactly
      two edges, from the first end to the new node and from the new node to
      the last end, each with the cut edge's attributes and its part's
      geometry and length; the new node gets `attNode` and the cut point. */
  lemma InsertNodeSplits(g: Graph, geom: Value, idNode: NodeId, a: NodeId, b: NodeId,
                         attNode: Attrs, adjust: bool, ops: GeomOps, parts: CutParts)
    requires Valid(g) && Pair(a, b) in g.edges && a in g.nodes
    requires a != b && idNode !in g.nodes && idNode != VNone
    requires GEOM in g.edges[Pair(a, b)]
    requires ops.cut(g.edges[Pair(a, b)][GEOM], geom, adjust) == Some(parts)
    requires GEOM in g.nodes[a] && HasCoords(g.nodes[a][GEOM]) && HasCoords(parts.first)
    ensures var r := InsertNode(g, geom, idNode, (a, b), attNode, adjust, ops);
      var att := g.edges[Pair(a, b)];
      var first := if g.nodes[a][GEOM].g.coords[0] == parts.first.g.coords[0] then a else b;
      var last := if first == a then b else a;
      && r.Ok? && r.value.ret == Some(parts.dist)
      && r.value.graph.nodes == g.nodes[idNode := attNode[GEOM := parts.point]]
      && r.value.graph.edges ==
           (g.edges - {Pair(a, b)})[Pair(first, idNode) := PartAttrs(att, parts.first, ops)]
                                   [Pair(idNode, last) := PartAttrs(att, parts.second, ops)]
  {
    var att := g.edges[Pair(a, b)];
    var first := if g.nodes[a][GEOM].g.coords[0] == parts.first.g.coords[0] then a else b;
    var last := if first == a then b else a;
    assert Ends(g, (a, b), parts.first) == Ok((first, last));
    assert InsertNode(g, geom, idNode, (a, b), attNode, adjust, ops)
        == Ok(Edit(Some(parts.dist), Split(g, (a, b), (first, last), idNode, attNode, parts, ops)));
    assert a in Pair(a, b) && b in Pair(a, b);
    SplitEdges(g, a, b, first, last, idNode, attNode, parts, ops);
  }

  lemma SplitEdges(g: Graph, a: NodeId, b: NodeId, first: NodeId, last: NodeId, idNode: NodeId,
                   attNode: Attrs, parts: CutParts, ops: GeomOps)
    requires Pair(a, b) in g.edges && a in g.nodes && b in g.nodes
    requires (first, last) == (a, b) || (first, last) == (b, a)
    requires a != b && idNode !in g.nodes
    requires forall k :: k in g.edges ==> idNode !in k
    ensures var h := Split(g, (a, b), (first, last), idNode, attNode, parts, ops);
      var att := g.edges[Pair(a, b)];
      && h.nodes == g.nodes[idNode := attNode[GEOM := parts.point]]
      && h.edges ==
           (g.edges - {Pair(a, b)})[Pair(first, idNode) := PartAttrs(att, parts.first, ops)]
                                   [Pair(idNode, last) := PartAttrs(att, parts.second, ops)]
  {
    var att := g.edges[Pair(a, b)];
    var p1, p2 := PartAttrs(att, parts.first, ops), PartAttrs(att, parts.second, ops);
    var P, P1, P2 := Pair(a, b), Pair(first, idNode), Pair(idNode, last);
    assert P1 !in g.edges && P2 !in g.edges && P1 != P && P2 != P && P2 != P1 by {
      assert idNode in P1 && idNode in P2 && last in P2 && last !in P1;
    }
    var g1 := AddNode(g, idNode, attNode[GEOM := parts.point]);
    assert g1.edges == g.edges && first in g1.nodes && last in g1.nodes && idNode in g1.nodes;
    var g2 := AddEdge(g1, first, idNode, p1);
    AddFreshEdge(g1, first, idNode, p1);
    assert g2.nodes == g1.nodes;
    assert g2.edges[P] == att;
    var g3 := AddEdge(g2, idNode, last, p2);
    AddFreshEdge(g2, idNode, last, p2);
    assert g3.nodes == g1.nodes;
    RemoveAfterUpdates(g.edges, P, P1, p1, P2, p2);
  }

  /** `add_edge` for an edge that does not exist yet puts exactly `attrs` on
      it and leaves the other edges alone. */
  lemma AddFreshEdge(g: Graph, x: NodeId, y: NodeId, attrs: Attrs)
    requires Pair(x, y) !in g.edges
    ensures AddEdge(g, x, y, attrs).edges == g.edges[Pair(x, y) := attrs]
  {
    AddEdgeEffect(g, x, y, attrs);
    assert map[] + attrs == attrs;
  }

  /** Removing a key commutes with updating two other keys. */
  lemma RemoveAfterUpdates<K, V>(m: map<K, V>, k: K, k1: K, x1: V, k2: K, x2: V)
    requires k != k1 && k != k2
    ensures m[k1 := x1][k2 := x2] - {k} == (m - {k})[k1 := x1][k2 := x2]
  {
  }

  // ---------------------------------------------------------------------
  // erase_linear_nodes

  /** Whether one of the `keep` attributes differs between two edges, read in
      order and stopping at the first difference; a missing one raises. */
  function KeepDiffers(keep: seq<string>, e1: Attrs, e2: Attrs): (r: Result<bool>)
    ensures r == Ok(false) <==>
      forall i :: 0 <= i < |keep| ==> keep[i] in e1 && keep[i] in e2 && PyEq(e1[keep[i]], e2[keep[i]])
    ensures r == Ok(true) ==>
      exists i :: 0 <= i < |keep| && keep[i] in e1 && keep[i] in e2 && !PyEq(e1[keep[i]], e2[keep[i]])
    ensures r.Err? ==> r.error == KeyError
  {
    if keep == [] then Ok(false)
    else if keep[0] !in e1 || keep[0] !in e2 then Err(KeyError)
    else if !PyEq(e1[keep[0]], e2[keep[0]]) then Ok(true)
    else
      var r := KeepDiffers(keep[1..], e1, e2);
      assert forall i :: 1 <= i < |keep| ==> keep[i] == keep[1..][i - 1];
      r
  }

  /** The attributes of the edge that replaces a linear node: those of the
      first edge overridden by the second's, with the merged geometry and its
      length. */
  function MergedAttrs(e1: Attrs, e2: Attrs, adjust: bool, ops: GeomOps): (r: Attrs)
    requires GEOM in e1 && GEOM in e2
    ensures r.Keys == e1.Keys + e2.Keys + {WEIGHT}
    ensures r[GEOM] == ops.merge(e1[GEOM], e2[GEOM], adjust)
    ensures r[WEIGHT] == VFloat(ops.length(r[GEOM]))
    ensures forall k :: k in e2 && k != GEOM && k != WEIGHT ==> r[k] == e2[k]
    ensures forall k :: k in e1 && k !in e2 && k != GEOM && k != WEIGHT ==> r[k] == e1[k]
  {
    var geo := ops.merge(e1[GEOM], e2[GEOM], adjust);
    (e1 + e2)[GEOM := geo][WEIGHT := VFloat(ops.length(geo))]
  }

  /** Whether `node` is linear: exactly two neighbours, not adjacent to each
      other (`adj_nodes in self.edges` reads the list as an edge). */
  predicate Linear(g: Graph, node: NodeId)
    requires node in g.adj
  {
    |g.adj[node]| == 2 && Pair(g.adj[node][0], g.adj[node][1]) !in g.edges
  }

  /** The edges of `g` that do not touch `node`. */
  function EdgesAvoiding(g: Graph, node: NodeId): map<EdgeKey, Attrs> {
    map k | k in g.edges && node !in k :: g.edges[k]
  }

  /** The edit that erases a linear node: one edge between its neighbours,
      then the node goes with its two edges. */
  function Bypass(g: Graph, node: NodeId, n1: NodeId, n2: NodeId, attr: Attrs): Graph {
    RemoveNode(AddEdge(g, n1, n2, attr), node)
  }

  /** The two neighbours of a linear node are other nodes of the graph,
      distinct from each other. */
  lemma LinearNeighbours(g: Graph, node: NodeId)
    requires Valid(g) && node in g.adj && Linear(g, node)
    ensures var n1, n2 := g.adj[node][0], g.adj[node][1];
      && Pair(node, n1) in g.edges && Pair(node, n2) in g.edges
      && n1 in g.nodes && n2 in g.nodes
      && n1 != node && n2 != node && n1 != n2
  {
    var n1, n2 := g.adj[node][0], g.adj[node][1];
    assert n1 in g.adj[node] && n2 in g.adj[node];
    assert Pair(node, n1) <= g.nodes.Keys && Pair(node, n2) <= g.nodes.Keys;
    assert n1 == node ==> Pair(n1, n2) == Pair(node, n2);
    assert n2 == node ==> Pair(n1, n2) == Pair(node, n1);
  }

  /** One pass of the loop of `erase_linear_nodes` on `node`. */
  function EraseStep(g: Graph, node: NodeId, adjust: bool, keep: seq<string>, ops: GeomOps): (r: Result<Graph>)
    ensures r.Ok? ==> r.value.crs == g.crs
    ensures node !in g.adj ==> r == Err(KeyError)
    // a node that is not linear is skipped
    ensures node in g.adj && !Linear(g, node) ==> r == Ok(g)
    // a merge `geo_merge` refuses (`None`) has no length
    ensures node in g.adj && Linear(g, node) && r.Ok? && r.value != g ==>
      var k1, k2 := Pair(node, g.adj[node][0]), Pair(node, g.adj[node][1]);
      && k1 in g.edges && k2 in g.edges
      && GEOM in g.edges[k1] && GEOM in g.edges[k2]
      && ops.merge(g.edges[k1][GEOM], g.edges[k2][GEOM], adjust) != VNone
  {
    if node !in g.adj then Err(KeyError)
    else if !Linear(g, node) then Ok(g)
    else
      var n1, n2 := g.adj[node][0], g.adj[node][1];
      if Pair(node, n1) !in g.edges || Pair(node, n2) !in g.edges then Err(KeyError)
      else
        var e1, e2 := g.edges[Pair(node, n1)], g.edges[Pair(node, n2)];
        match KeepDiffers(keep, e1, e2)
        case Err(e) => Err(e)
        case Ok(true) => Ok(g)
        case Ok(false) =>
          if GEOM !in e1 || GEOM !in e2 then Err(KeyError)
          else if ops.merge(e1[GEOM], e2[GEOM], adjust) == VNone then Err(AttributeError)
          else Ok(Bypass(g, node, n1, n2, MergedAttrs(e1, e2, adjust, ops)))
  }

  /** Erasing a linear node keeps the graph consistent; the node goes with
      its two edges, the new edge joins the neighbours, and the node order
      only loses the node. */
  lemma BypassEffect(g: Graph, node: NodeId, attr: Attrs)
    requires Valid(g) && node in g.adj && Linear(g, node)
    ensures var n1, n2 := g.adj[node][0], g.adj[node][1];
      var r := Bypass(g, node, n1, n2, attr);
      && Valid(r)
      && r.nodes == g.nodes - {node}
      && r.order == Without(g.order, node)
      && r.edges == EdgesAvoiding(g, node)[Pair(n1, n2) := attr]
  {
    var n1, n2 := g.adj[node][0], g.adj[node][1];
    LinearNeighbours(g, node);
    var h := AddEdge(g, n1, n2, attr);
    AddEdgeValid(g, n1, n2, attr);
    AddEdgeEffect(g, n1, n2, attr);
    assert h.nodes == g.nodes;
    RemoveNodeValid(h, node);
    BypassEdges(g, node, n1, n2, attr);
  }

  /** The edges left by a bypass: those avoiding the node, and the new one. */
  lemma BypassEdges(g: Graph, node: NodeId, n1: NodeId, n2: NodeId, attr: Attrs)
    requires Pair(n1, n2) !in g.edges && n1 != node && n2 != node
    ensures Bypass(g, node, n1, n2, attr).edges == EdgesAvoiding(g, node)[Pair(n1, n2) := attr]
  {
    var h := AddEdge(g, n1, n2, attr);
    AddFreshEdge(g, n1, n2, attr);
    assert RemoveNode(h, node).edges == map k | k in h.edges && node !in k :: h.edges[k];
    AvoidAfterUpdate(g.edges, node, Pair(n1, n2), attr);
  }

  /** Dropping the keys that hold `node` commutes with setting a key that
      does not. */
  lemma AvoidAfterUpdate(m: map<EdgeKey, Attrs>, node: NodeId, key: EdgeKey, v: Attrs)
    requires node !in key
    ensures (map k | k in m[key := v] && node !in k :: m[key := v][k])
         == (map k | k in m && node !in k :: m[k])[key := v]
  {
  }

  /** A pass keeps the graph consistent, and either leaves it as it was or
      erases exactly `node`, a linear node, from the nodes and their order. */
  lemma EraseStepValid(g: Graph, node: NodeId, adjust: bool, keep: seq<string>, ops: GeomOps, h: Graph)
    requires Valid(g) && EraseStep(g, node, adjust, keep, ops) == Ok(h)
    ensures Valid(h)
    ensures h == g || (node in g.adj && Linear(g, node) && h.nodes == g.nodes - {node}
                       && h.order == Without(g.order, node))
  {
    if h != g {
      var n1, n2 := g.adj[node][0], g.adj[node][1];
      var e1, e2 := g.edges[Pair(node, n1)], g.edges[Pair(node, n2)];
      assert h == Bypass(g, node, n1, n2, MergedAttrs(e1, e2, adjust, ops));
      BypassEffect(g, node, MergedAttrs(e1, e2, adjust, ops));
    }
  }

  /** A linear node whose `keep` attributes agree on its two edges, and whose
      edge geometries merge, is replaced by one edge between its neighbours
      carrying the merged attributes; nothing else changes. */
  lemma EraseStepMerges(g: Graph, node: NodeId, adjust: bool, keep: seq<string>, ops: GeomOps)
    requires Valid(g) && node in g.adj && Linear(g, node)
    requires var e1, e2 := g.edges[Pair(node, g.adj[node][0])], g.edges[Pair(node, g.adj[node][1])];
      && GEOM in e1 && GEOM in e2 && KeepDiffers(keep, e1, e2) == Ok(false)
      && ops.merge(e1[GEOM], e2[GEOM], adjust) != VNone
    ensures var n1, n2 := g.adj[node][0], g.adj[node][1];
      var e1, e2 := g.edges[Pair(node, n1)], g.edges[Pair(node, n2)];
      var r := EraseStep(g, node, adjust, keep, ops);
      && r.Ok?
      && r.value.nodes == g.nodes - {node}
      && r.value.order == Without(g.order, node)
      && r.value.edges == EdgesAvoiding(g, node)[Pair(n1, n2) := MergedAttrs(e1, e2, adjust, ops)]
  {
    var n1, n2 := g.adj[node][0], g.adj[node][1];
    var e1, e2 := g.edges[Pair(node, n1)], g.edges[Pair(node, n2)];
    LinearNeighbours(g, node);
    BypassEffect(g, node, MergedAttrs(e1, e2, adjust, ops));
  }

  /** A linear node with a `keep` attribute that differs on its two edges,
      all earlier ones being present, is left as it is. */
  lemma EraseStepKeeps(g: Graph, node: NodeId, adjust: bool, keep: seq<string>, ops: GeomOps, i: nat)
    requires Valid(g) && node in g.adj && Linear(g, node)
    requires var e1, e2 := g.edges[Pair(node, g.adj[node][0])], g.edges[Pair(node, g.adj[node][1])];
      && i < |keep| && keep[i] in e1 && keep[i] in e2 && !PyEq(e1[keep[i]], e2[keep[i]])
      && forall j :: 0 <= j < i ==> keep[j] in e1 && keep[j] in e2
    ensures EraseStep(g, node, adjust, keep, ops) == Ok(g)
  {
    LinearNeighbours(g, node);
    var e1, e2 := g.edges[Pair(node, g.adj[node][0])], g.edges[Pair(node, g.adj[node][1])];
    KeepDiffersFinds(keep, e1, e2, i);
  }

  /** When every `keep` attribute up to a differing one is present, the
      check finds a difference. */
  lemma {:induction false} KeepDiffersFinds(keep: seq<string>, e1: Attrs, e2: Attrs, i: nat)
    requires i < |keep| && keep[i] in e1 && keep[i] in e2 && !PyEq(e1[keep[i]], e2[keep[i]])
    requires forall j :: 0 <= j < i ==> keep[j] in e1 && keep[j] in e2
    ensures KeepDiffers(keep, e1, e2) == Ok(true)
    decreases i
  {
    if i > 0 && PyEq(e1[keep[0]], e2[keep[0]]) {
      KeepDiffersFinds(keep[1..], e1, e2, i - 1);
    }
  }

  /** The outcome of a loop that may stop on an exception: the graph reached
      and the exception, if one was raised. */
  datatype Stop = Stop(graph: Graph, error: Option<Error>)

  /** The loop of `erase_linear_nodes` over a list of nodes fixed before it
      starts; an exception leaves the graph as the earlier passes made it. */
  function EraseAll(g: Graph, nodes: seq<NodeId>, adjust: bool, keep: seq<string>, ops: GeomOps): (r: Stop)
    ensures r.graph.crs == g.crs
    // an exception is raised only by a listed node
    ensures r.error.Some? ==> nodes != []
    decreases |nodes|
  {
    if nodes == [] then Stop(g, None)
    else
      match EraseStep(g, nodes[0], adjust, keep, ops)
      case Err(e) => Stop(g, Some(e))
      case Ok(h) => EraseAll(h, nodes[1..], adjust, keep, ops)
  }

  /** The loop goes on from the graph a pass reached, or stops where the
      pass raised. */
  lemma EraseAllNext(g: Graph, h: Graph, error: Option<Error>, nodes: seq<NodeId>, i: nat,
                     adjust: bool, keep: seq<string>, ops: GeomOps, goal: Stop)
    requires i < |nodes| && EraseAll(g, nodes[i..], adjust, keep, ops) == goal
    requires var s := EraseStep(g, nodes[i], adjust, keep, ops);
      if s.Err? then error == Some(s.error) && h == g else error == None && h == s.value
    ensures error.None? ==> EraseAll(h, nodes[i + 1..], adjust, keep, ops) == goal
    ensures error.Some? ==> goal == Stop(h, error)
  {
    assert nodes[i..][0] == nodes[i] && nodes[i..][1..] == nodes[i + 1..];
  }

  /** Erasing keeps the graph consistent and only removes nodes: every
      surviving node keeps its attributes, and only listed nodes can go. */
  lemma {:induction false} EraseAllRemovesOnly(g: Graph, nodes: seq<NodeId>, adjust: bool, keep: seq<string>, ops: GeomOps)
    requires Valid(g)
    ensures var h := EraseAll(g, nodes, adjust, keep, ops).graph;
      && Valid(h)
      && h.nodes.Keys <= g.nodes.Keys
      && (forall n :: n in h.nodes ==> h.nodes[n] == g.nodes[n])
      && (forall n :: n in g.nodes && n !in h.nodes ==> n in nodes)
    decreases |nodes|
  {
    if nodes != [] {
      var s := EraseStep(g, nodes[0], adjust, keep, ops);
      if s.Ok? {
        var h := s.value;
        EraseStepValid(g, nodes[0], adjust, keep, ops, h);
        EraseAllRemovesOnly(h, nodes[1..], adjust, keep, ops);
        var r := EraseAll(h, nodes[1..], adjust, keep, ops);
        assert EraseAll(g, nodes, adjust, keep, ops) == r;
        forall n | n in g.nodes && n !in r.graph.nodes
          ensures n in nodes
        {
          if n != nodes[0] {
            assert n in nodes[1..];
          }
        }
      }
    }
  }

  /** A proper subset has fewer elements. */
  lemma {:induction false} SmallerSubset<T>(a: set<T>, b: set<T>)
    requires a <= b && a != b
    ensures |a| < |b|
  {
    var x :| x in b && x !in a;
    assert a <= b - {x};
    assert |b - {x}| == |b| - 1;
    SubsetCard(a, b - {x});
  }

  lemma {:induction false} SubsetCard<T>(a: set<T>, b: set<T>)
    requires a <= b
    ensures |a| <= |b|
    decreases |b|
  {
    if a != {} {
      var x :| x in a;
      SubsetCard(a - {x}, b - {x});
    }
  }

  /** The nodes `erase_linear_nodes` visits: all nodes in order when
      `id_node` is falsy, the list itself for a list, else that one id. */
  function EraseTargets(g: Graph, idNode: Value): seq<NodeId> {
    if !Truthy(idNode) then g.order
    else if idNode.VList? then idNode.items
    else [idNode]
  }

  /** The value `erase_linear_nodes` returns: whether the number of nodes
      changed, which is whether some node was erased. */
  function EraseLinearNodes(g: Graph, idNode: Value, adjust: bool, keep: seq<string>, ops: GeomOps): (r: Result<bool>)
    requires Valid(g)
    ensures var s := EraseAll(g, EraseTargets(g, idNode), adjust, keep, ops);
      && (r.Err? <==> s.error.Some?)
      && (r.Ok? ==> (r.value <==> exists n :: n in g.nodes && n !in s.graph.nodes))
  {
    var s := EraseAll(g, EraseTargets(g, idNode), adjust, keep, ops);
    EraseAllRemovesOnly(g, EraseTargets(g, idNode), adjust, keep, ops);
    if s.error.Some? then Err(s.error.value)
    else
      SizeTellsKeys(s.graph.nodes, g.nodes);
      Ok(|s.graph.nodes| != |g.nodes|)
  }

  /** Of two maps, one with fewer keys than the other, the sizes differ
      exactly when the key sets do. */
  lemma SizeTellsKeys<K, V>(a: map<K, V>, b: map<K, V>)
    requires a.Keys <= b.Keys
    ensures |a| != |b| <==> exists k :: k in b && k !in a
  {
    assert |a| == |a.Keys| && |b| == |b.Keys|;
    if a.Keys != b.Keys {
      SmallerSubset(a.Keys, b.Keys);
    }
  }

  // ---------------------------------------------------------------------
  // project_node and merge_node

  /** A graph that gained or updated something and the distance found. */
  datatype Attached = Attached(dist: real, graph: Graph)

  /** What `project_node` and `merge_node` return: the distance, or None. */
  function Returned(p: Result<Option<Attached>>): Result<Option<real>> {
    match p
    case Err(e) => Err(e)
    case Ok(None) => Ok(None)
    case Ok(Some(a)) => Ok(Some(a.dist))
  }

  /** The node to attach to: `target_node` when truthy, else what the nearest
      lookup `graph.find_nearest_node(geo_st, radius)` returned. */
  function Anchor(target: NodeId, found: NodeId): NodeId {
    if Truthy(target) then target else found
  }

  /** `src.project_node(add_node, dst, radius, att_edge, update_node,
      target_node)`, with the lookup's answer `found`. In update mode the
      anchor of `dst` receives the node's attributes but keeps its geometry;
      otherwise `src` gains an edge from the anchor to the node. */
  function ProjectNode(src: Graph, dst: Graph, addNode: NodeId, target: NodeId, found: NodeId,
                       attEdge: Attrs, update: bool, ops: GeomOps): (r: Result<Option<Attached>>)
    // the node to project must exist with a geometry
    ensures addNode !in src.nodes || GEOM !in src.nodes[addNode] ==> r == Err(KeyError)
    // no anchor (a falsy id counts as none): None, nothing changes
    ensures r == Ok(None) <==>
      addNode in src.nodes && GEOM in src.nodes[addNode] && !Truthy(Anchor(target, found))
    // an anchor missing from `dst`, or without geometry, raises
    ensures r.Ok? && r.value.Some? ==>
      var a := Anchor(target, found);
      && a in dst.nodes && GEOM in dst.nodes[a]
      && r.value.value.dist == ops.distance(ops.centroid(src.nodes[addNode][GEOM]), dst.nodes[a][GEOM])
      && r.value.value.graph.crs == (if update then dst.crs else src.crs)
  {
    if addNode !in src.nodes || GEOM !in src.nodes[addNode] then Err(KeyError)
    else
      var geoSt := ops.centroid(src.nodes[addNode][GEOM]);
      var a := Anchor(target, found);
      if !Truthy(a) then Ok(None)
      else if a !in dst.nodes || GEOM !in dst.nodes[a] then Err(KeyError)
      else
        var dis := ops.distance(geoSt, dst.nodes[a][GEOM]);
        if update then
          Ok(Some(Attached(dis, AddNode(dst, a, src.nodes[addNode][GEOM := dst.nodes[a][GEOM]]))))
        else
          AddEdgeEffect(src, a, addNode, ProjectedEdge(attEdge, dst.nodes[a][GEOM], geoSt, dis, ops));
          Ok(Some(Attached(dis, AddEdge(src, a, addNode, ProjectedEdge(attEdge, dst.nodes[a][GEOM], geoSt, dis, ops)))))
  }

  /** The attributes of the edge `project_node` adds: `att_edge` with the
      segment from the anchor to the centroid as geometry and the distance as
      weight. */
  function ProjectedEdge(attEdge: Attrs, anchorGeom: Value, geoSt: Value, dis: real, ops: GeomOps): (r: Attrs)
    ensures r.Keys == attEdge.Keys + {GEOM, WEIGHT}
    ensures r[GEOM] == ops.segment(anchorGeom, geoSt) && r[WEIGHT] == VFloat(dis)
    ensures forall k :: k in attEdge && k != GEOM && k != WEIGHT ==> r[k] == attEdge[k]
  {
    NamesDiffer();
    attEdge[GEOM := ops.segment(anchorGeom, geoSt)][WEIGHT := VFloat(dis)]
  }

  /** Projecting keeps both graphs consistent. */
  lemma ProjectNodeValid(src: Graph, dst: Graph, addNode: NodeId, target: NodeId, found: NodeId,
                         attEdge: Attrs, update: bool, ops: GeomOps, p: Attached)
    requires Valid(src) && Valid(dst)
    requires ProjectNode(src, dst, addNode, target, found, attEdge, update, ops) == Ok(Some(p))
    ensures Valid(p.graph)
  {
    var a := Anchor(target, found);
    var geoSt := ops.centroid(src.nodes[addNode][GEOM]);
    var dis := ops.distance(geoSt, dst.nodes[a][GEOM]);
    if update {
      AddNodeValid(dst, a, src.nodes[addNode][GEOM := dst.nodes[a][GEOM]]);
    } else {
      AddEdgeValid(src, a, addNode, ProjectedEdge(attEdge, dst.nodes[a][GEOM], geoSt, dis, ops));
    }
  }

  /** In update mode the anchor takes every attribute of the projected node
      except its geometry, which it keeps; no other node and no edge of `dst`
      changes. */
  lemma ProjectNodeUpdates(src: Graph, dst: Graph, addNode: NodeId, target: NodeId, found: NodeId,
                           attEdge: Attrs, ops: GeomOps, p: Attached)
    requires ProjectNode(src, dst, addNode, target, found, attEdge, true, ops) == Ok(Some(p))
    ensures var a := Anchor(target, found);
      var att := src.nodes[addNode];
      var h := p.graph;
      && h.edges == dst.edges && h.nodes.Keys == dst.nodes.Keys && h.order == dst.order
      && (forall n :: n in dst.nodes && n != a ==> h.nodes[n] == dst.nodes[n])
      && h.nodes[a][GEOM] == dst.nodes[a][GEOM]
      && (forall k :: k in att && k != GEOM ==> h.nodes[a][k] == att[k])
      && (forall k :: k in dst.nodes[a] && k !in att ==> h.nodes[a][k] == dst.nodes[a][k])
  {
    var a := Anchor(target, found);
    var geoSt := ops.centroid(src.nodes[addNode][GEOM]);
    var dis := ops.distance(geoSt, dst.nodes[a][GEOM]);
    var att := src.nodes[addNode][GEOM := dst.nodes[a][GEOM]];
    assert p == Attached(dis, AddNode(dst, a, att));
  }

  /** Otherwise `src` gains the edge anchor--node, carrying `attEdge` with
      the segment from the anchor to the node's centroid as geometry and the
      distance as weight; the anchor is added if `src` lacked it, and every
      other edge and node keeps its attributes. */
  lemma ProjectNodeAttaches(src: Graph, dst: Graph, addNode: NodeId, target: NodeId, found: NodeId,
                            attEdge: Attrs, ops: GeomOps, p: Attached)
    requires ProjectNode(src, dst, addNode, target, found, attEdge, false, ops) == Ok(Some(p))
    ensures var a := Anchor(target, found);
      var e := p.graph.edges[Pair(a, addNode)];
      && p.graph.nodes.Keys == src.nodes.Keys + {a}
      && (forall n :: n in src.nodes ==> p.graph.nodes[n] == src.nodes[n])
      && p.graph.edges.Keys == src.edges.Keys + {Pair(a, addNode)}
      && (forall x :: x in src.edges && x != Pair(a, addNode) ==> p.graph.edges[x] == src.edges[x])
      && e[GEOM] == ops.segment(dst.nodes[a][GEOM], ops.centroid(src.nodes[addNode][GEOM]))
      && e[WEIGHT] == VFloat(p.dist)
      && (forall k :: k in attEdge && k != GEOM && k != WEIGHT ==> e[k] == attEdge[k])
  {
    var a := Anchor(target, found);
    var geoSt := ops.centroid(src.nodes[addNode][GEOM]);
    var dis := ops.distance(geoSt, dst.nodes[a][GEOM]);
    var attrs := ProjectedEdge(attEdge, dst.nodes[a][GEOM], geoSt, dis, ops);
    assert p == Attached(dis, AddEdge(src, a, addNode, attrs));
    AddEdgeEffect(src, a, addNode, attrs);
  }

  /** `src.merge_node(add_node, dst, radius)`, with the lookup's answer
      `found`: the anchor of `dst` receives every attribute of the node,
      geometry included. */
  function MergeNode(src: Graph, dst: Graph, addNode: NodeId, found: NodeId, ops: GeomOps): (r: Result<Option<Attached>>)
    ensures addNode !in src.nodes || GEOM !in src.nodes[addNode] ==> r == Err(KeyError)
    ensures r == Ok(None) <==> addNode in src.nodes && GEOM in src.nodes[addNode] && !Truthy(found)
    ensures r.Ok? && r.value.Some? ==>
      && found in dst.nodes && GEOM in dst.nodes[found]
      && r.value.value.dist == ops.distance(ops.centroid(src.nodes[addNode][GEOM]), dst.nodes[found][GEOM])
      && r.value.value.graph.crs == dst.crs
  {
    if addNode !in src.nodes || GEOM !in src.nodes[addNode] then Err(KeyError)
    else
      var geoSt := ops.centroid(src.nodes[addNode][GEOM]);
      if !Truthy(found) then Ok(None)
      else if found !in dst.nodes || GEOM !in dst.nodes[found] then Err(KeyError)
      else
        var dis := ops.distance(geoSt, dst.nodes[found][GEOM]);
        Ok(Some(Attached(dis, AddNode(dst, found, src.nodes[addNode]))))
  }

  /** Merging copies every attribute of the node, geometry included, onto the
      anchor; `dst` stays consistent and nothing else of it changes. */
  lemma MergeNodeCopies(src: Graph, dst: Graph, addNode: NodeId, found: NodeId, ops: GeomOps, p: Attached)
    requires Valid(dst)
    requires MergeNode(src, dst, addNode, found, ops) == Ok(Some(p))
    ensures var att := src.nodes[addNode];
      var h := p.graph;
      && Valid(h)
      && h.edges == dst.edges && h.nodes.Keys == dst.nodes.Keys && h.order == dst.order
      && (forall n :: n in dst.nodes && n != found ==> h.nodes[n] == dst.nodes[n])
      && (forall k :: k in att ==> h.nodes[found][k] == att[k])
      && (forall k :: k in dst.nodes[found] && k !in att ==> h.nodes[found][k] == dst.nodes[found][k])
  {
    var geoSt := ops.centroid(src.nodes[addNode][GEOM]);
    var dis := ops.distance(geoSt, dst.nodes[found][GEOM]);
    assert p == Attached(dis, AddNode(dst, found, src.nodes[addNode]));
    AddNodeValid(dst, found, src.nodes[addNode]);
  }

  /** With no target given, merging and projecting in update mode reach the
      same anchor and the same distance, and differ only in the anchor's
      geometry: merging takes the node's, projecting keeps the anchor's. */
  lemma MergeIsProjectWithGeometry(src: Graph, dst: Graph, addNode: NodeId, found: NodeId,
                                   attEdge: Attrs, ops: GeomOps, m: Attached)
    requires MergeNode(src, dst, addNode, found, ops) == Ok(Some(m))
    ensures var p := ProjectNode(src, dst, addNode, VNone, found, attEdge, true, ops);
      && p.Ok? && p.value.Some? && p.value.value.dist == m.dist
      && p.value.value.graph == m.graph.(nodes := m.graph.nodes[found := m.graph.nodes[found][GEOM := dst.nodes[found][GEOM]]])
  {
    var att := src.nodes[addNode];
    var d := dst.nodes[found];
    var geoSt := ops.centroid(att[GEOM]);
    var dis := ops.distance(geoSt, d[GEOM]);
    var hm := AddNode(dst, found, att);
    var hp := AddNode(dst, found, att[GEOM := d[GEOM]]);
    assert m == Attached(dis, hm);
    assert Anchor(VNone, found) == found;
    assert ProjectNode(src, dst, addNode, VNone, found, attEdge, true, ops) == Ok(Some(Attached(dis, hp)));
    assert d + att[GEOM := d[GEOM]] == (d + att)[GEOM := d[GEOM]];
    assert hp.nodes == hm.nodes[found := hm.nodes[found][GEOM := d[GEOM]]];
  }
}
