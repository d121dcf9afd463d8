/** `GeoGraph` (geo_nx/geograph.py): a networkx graph whose nodes and edges
    carry geometries, edited in place. Each method is proved to leave the
    object in the state, and to return the value, that the matching function
    of `Edits` computes from the state before the call. */
module GeoGraphs {
  import opened Values
  import opened Graphs
  import Edits

  class GeoGraph {
    var order: seq<NodeId>
    var nodes: map<NodeId, Attrs>
    var adj: map<NodeId, seq<NodeId>>
    var edges: map<EdgeKey, Attrs>
    var crs: Value

    /** The state of the object as a value. */
    function View(): Graph
      reads this
    {
      Graph(order, nodes, adj, edges, crs)
    }

    ghost predicate Valid()
      reads this
    {
      Graphs.Valid(View())
    }

    /** A graph holding `g` (the crs defaults to None upstream). */
    constructor (g: Graph)
      requires Graphs.Valid(g)
      ensures Valid() && View() == g
    {
      order, nodes, adj, edges, crs := g.order, g.nodes, g.adj, g.edges, g.crs;
    }

    method Assign(g: Graph)
      modifies this
      ensures View() == g
    {
      order, nodes, adj, edges, crs := g.order, g.nodes, g.adj, g.edges, g.crs;
    }

    /** `add_node(n, **attrs)`. */
    method AddNode(n: NodeId, attrs: Attrs)
      modifies this
      requires Valid()
      ensures Valid() && View() == Graphs.AddNode(old(View()), n, attrs)
    {
      AddNodeValid(View(), n, attrs);
      Assign(Graphs.AddNode(View(), n, attrs));
    }

    /** `add_edge(u, v, **attrs)`. */
    method AddEdge(u: NodeId, v: NodeId, attrs: Attrs)
      modifies this
      requires Valid()
      ensures Valid() && View() == Graphs.AddEdge(old(View()), u, v, attrs)
    {
      AddEdgeValid(View(), u, v, attrs);
      Assign(Graphs.AddEdge(View(), u, v, attrs));
    }

    /** `remove_edge(u, v)` on an existing edge. */
    method RemoveEdge(u: NodeId, v: NodeId)
      modifies this
      requires Valid() && Pair(u, v) in edges
      ensures Valid() && View() == Graphs.RemoveEdge(old(View()), u, v)
    {
      RemoveEdgeValid(View(), u, v);
      Assign(Graphs.RemoveEdge(View(), u, v));
    }

    /** `remove_node(n)`. */
    method RemoveNode(n: NodeId)
      modifies this
      requires Valid()
      ensures Valid() && View() == Graphs.RemoveNode(old(View()), n)
    {
      RemoveNodeValid(View(), n);
      Assign(Graphs.RemoveNode(View(), n));
    }

    /** `insert_node(geom, id_node, id_edge, att_node, adjust)`: the cut
        edge is replaced by two edges through the new node; the result is
        the cut's distance, None when the cut yields nothing, or the
        exception raised. The graph is unchanged unless a cut happens. */
    method InsertNode(geom: Value, idNode: NodeId, idEdge: (NodeId, NodeId), attNode: Attrs,
                      adjust: bool, ops: GeomOps) returns (r: Result<Option<real>>)
      modifies this
      requires Valid()
      ensures Valid()
      ensures var s := Edits.InsertNode(old(View()), geom, idNode, idEdge, attNode, adjust, ops);
        if s.Err? then r == Err(s.error) && View() == old(View())
        else r == Ok(s.value.ret) && View() == s.value.graph
    {
      ghost var g := View();
      var (a, b) := idEdge;
      if Pair(a, b) !in edges {
        return Err(KeyError);
      }
      var attEdge := edges[Pair(a, b)];
      if GEOM !in attEdge {
        return Err(KeyError);
      }
      var newGeo := ops.cut(attEdge[GEOM], geom, adjust);
      if newGeo.None? {
        return Ok(None);
      }
      var parts := newGeo.value;
      if a !in nodes {
        return Err(KeyError);
      }
      var ends := Edits.Ends(View(), idEdge, parts.first);
      if ends.Err? {
        return Err(ends.error);
      }
      if idNode == VNone && VNone !in nodes {
        return Err(ValueError);
      }
      SplitEdge(idEdge, ends.value, idNode, attNode, parts, ops);
      assert Edits.InsertNode(g, geom, idNode, idEdge, attNode, adjust, ops)
          == Ok(Edits.Edit(Some(parts.dist), Edits.Split(g, idEdge, ends.value, idNode, attNode, parts, ops)));
      return Ok(Some(parts.dist));
    }

    /** The edits of a successful cut: the new node, the edge from the
        first end to it, the edge from it to the last end, then the removal
        of the cut edge. */
    method SplitEdge(idEdge: (NodeId, NodeId), ends: (NodeId, NodeId), idNode: NodeId, attNode: Attrs,
                     parts: CutParts, ops: GeomOps)
      modifies this
      requires Valid() && Pair(idEdge.0, idEdge.1) in edges
      ensures Valid() && View() == Edits.Split(old(View()), idEdge, ends, idNode, attNode, parts, ops)
    {
      var (a, b) := idEdge;
      var (first, last) := ends;
      var attEdge := edges[Pair(a, b)];
      AddNode(idNode, attNode[GEOM := parts.point]);
      ghost var g1 := View();
      AddEdge(first, idNode, Edits.PartAttrs(attEdge, parts.first, ops));
      AddEdgeEffect(g1, first, idNode, Edits.PartAttrs(attEdge, parts.first, ops));
      // `att_edge` is the cut edge's own dictionary, as it now stands
      var liveEdge := edges[Pair(a, b)];
      ghost var g2 := View();
      AddEdge(idNode, last, Edits.PartAttrs(liveEdge, parts.second, ops));
      AddEdgeEffect(g2, idNode, last, Edits.PartAttrs(liveEdge, parts.second, ops));
      RemoveEdge(a, b);
    }

    /** `erase_linear_nodes(id_node, adjust, keep_attr)` with `keep_attr`
        already turned into a list: the nodes to visit are fixed before the
        loop; each linear node whose `keep` attributes agree on its two edges
        is replaced by one edge between its neighbours. The result says
        whether the number of nodes changed; an exception stops the loop and
        leaves the earlier erasures in place. */
    method EraseLinearNodes(idNode: Value, adjust: bool, keep: seq<string>, ops: GeomOps) returns (r: Result<bool>)
      modifies this
      requires Valid()
      ensures Valid()
      ensures View() == Edits.EraseAll(old(View()), Edits.EraseTargets(old(View()), idNode), adjust, keep, ops).graph
      ensures r == Edits.EraseLinearNodes(old(View()), idNode, adjust, keep, ops)
    {
      var lenNodes := |nodes|;
      var targets := Edits.EraseTargets(View(), idNode);
      var error := EraseEach(targets, adjust, keep, ops);
      if error.Some? {
        return Err(error.value);
      }
      return Ok(|nodes| != lenNodes);
    }

    /** The `for node in nodes` loop of `erase_linear_nodes`: the passes in
        order, stopping at the first exception, which is returned. */
    method EraseEach(targets: seq<NodeId>, adjust: bool, keep: seq<string>, ops: GeomOps) returns (error: Option<Error>)
      modifies this
      requires Valid()
      ensures Valid()
      ensures Edits.EraseAll(old(View()), targets, adjust, keep, ops) == Edits.Stop(View(), error)
    {
      ghost var goal := Edits.EraseAll(View(), targets, adjust, keep, ops);
      assert targets[0..] == targets;
      var i := 0;
      error := None;
      while i < |targets| && error.None?
        invariant 0 <= i <= |targets|
        invariant Valid()
        invariant error.None? ==> Edits.EraseAll(View(), targets[i..], adjust, keep, ops) == goal
        invariant error.Some? ==> goal == Edits.Stop(View(), error)
        decreases |targets| - i, if error.None? then 1 else 0
      {
        ghost var before := View();
        error := EraseNode(targets[i], adjust, keep, ops);
        Edits.EraseAllNext(before, View(), error, targets, i, adjust, keep, ops, goal);
        if error.None? {
          i := i + 1;
        }
      }
      assert error.None? ==> targets[i..] == [];
    }

    /** `project_node(add_node, graph, radius, att_edge, update_node,
        target_node)`, with the lookup's answer `found`: in update mode the
        anchor of `graph` takes the node's attributes but keeps its geometry;
        otherwise this graph gains an edge from the anchor to the node. The
        two graphs may be the same object. */
    method ProjectNode(addNode: NodeId, graph: GeoGraph, target: NodeId, found: NodeId, attEdge: Attrs,
                       update: bool, ops: GeomOps) returns (r: Result<Option<real>>)
      modifies this, graph
      requires Valid() && graph.Valid()
      ensures Valid() && graph.Valid()
      ensures var p := Edits.ProjectNode(old(View()), old(graph.View()), addNode, target, found, attEdge, update, ops);
        && r == Edits.Returned(p)
        && (p.Ok? && p.value.Some? && update ==>
              graph.View() == p.value.value.graph && (graph != this ==> View() == old(View())))
        && (p.Ok? && p.value.Some? && !update ==>
              View() == p.value.value.graph && (graph != this ==> graph.View() == old(graph.View())))
        && (p.Err? || p.value.None? ==> View() == old(View()) && graph.View() == old(graph.View()))
    {
      if addNode !in nodes || GEOM !in nodes[addNode] {
        return Err(KeyError);
      }
      var geoSt := ops.centroid(nodes[addNode][GEOM]);
      var idNode := Edits.Anchor(target, found);
      if !Truthy(idNode) {
        return Ok(None);
      }
      if idNode !in graph.nodes || GEOM !in graph.nodes[idNode] {
        return Err(KeyError);
      }
      ghost var src, dst := View(), graph.View();
      var anchorGeom := graph.nodes[idNode][GEOM];
      var dis := ops.distance(geoSt, anchorGeom);
      if update {
        var att := nodes[addNode][GEOM := anchorGeom];
        graph.AddNode(idNode, att);
        assert graph != this ==> View() == src;
        assert Edits.ProjectNode(src, dst, addNode, target, found, attEdge, update, ops)
            == Ok(Some(Edits.Attached(dis, Graphs.AddNode(dst, idNode, att))));
      } else {
        var att := Edits.ProjectedEdge(attEdge, anchorGeom, geoSt, dis, ops);
        AddEdge(idNode, addNode, att);
        assert graph != this ==> graph.View() == dst;
        assert Edits.ProjectNode(src, dst, addNode, target, found, attEdge, update, ops)
            == Ok(Some(Edits.Attached(dis, Graphs.AddEdge(src, idNode, addNode, att))));
      }
      return Ok(Some(dis));
    }

    /** `merge_node(add_node, graph, radius)`, with the lookup's answer
        `found`: the anchor of `graph` takes every attribute of the node,
        geometry included. */
    method MergeNode(addNode: NodeId, graph: GeoGraph, found: NodeId, ops: GeomOps) returns (r: Result<Option<real>>)
      modifies graph
      requires Valid() && graph.Valid()
      ensures graph.Valid()
      ensures var p := Edits.MergeNode(old(View()), old(graph.View()), addNode, found, ops);
        && r == Edits.Returned(p)
        && graph.View() == if p.Ok? && p.value.Some? then p.value.value.graph else old(graph.View())
    {
      if addNode !in nodes || GEOM !in nodes[addNode] {
        return Err(KeyError);
      }
      var geoSt := ops.centroid(nodes[addNode][GEOM]);
      if !Truthy(found) {
        return Ok(None);
      }
      if found !in graph.nodes || GEOM !in graph.nodes[found] {
        return Err(KeyError);
      }
      var dis := ops.distance(geoSt, graph.nodes[found][GEOM]);
      graph.AddNode(found, nodes[addNode]);
      return Ok(Some(dis));
    }

    /** One pass of the loop of `erase_linear_nodes`, on `node`; a skipped
        node (`continue`) leaves the graph as it is. */
    method EraseNode(node: NodeId, adjust: bool, keep: seq<string>, ops: GeomOps) returns (error: Option<Error>)
      modifies this
      requires Valid()
      ensures Valid()
      ensures var s := Edits.EraseStep(old(View()), node, adjust, keep, ops);
        if s.Err? then error == Some(s.error) && View() == old(View())
        else error == None && View() == s.value
    {
      ghost var before := View();
      if node !in adj {
        return Some(KeyError);
      }
      var adjNodes := adj[node];
      if |adjNodes| != 2 || Pair(adjNodes[0], adjNodes[1]) in edges {
        return None;
      }
      Edits.LinearNeighbours(View(), node);
      var node1, node2 := adjNodes[0], adjNodes[1];
      var edge1, edge2 := edges[Pair(node, node1)], edges[Pair(node, node2)];
      var keepNode := KeepNode(keep, edge1, edge2);
      if keepNode.Err? {
        return Some(keepNode.error);
      }
      if keepNode.value {
        return None;
      }
      if GEOM !in edge1 || GEOM !in edge2 {
        return Some(KeyError);
      }
      if ops.merge(edge1[GEOM], edge2[GEOM], adjust) == VNone {
        return Some(AttributeError);
      }
      var attr := Edits.MergedAttrs(edge1, edge2, adjust, ops);
      AddEdge(node1, node2, attr);
      RemoveNode(node);
      assert View() == Edits.Bypass(before, node, node1, node2, attr);
      return None;
    }
  }

  /** The `keep_node` loop of `erase_linear_nodes`: whether some `keep`
      attribute differs between the two edges, stopping at the first that
      does; a missing attribute raises. */
  method KeepNode(keep: seq<string>, edge1: Attrs, edge2: Attrs) returns (r: Result<bool>)
    ensures r == Edits.KeepDiffers(keep, edge1, edge2)
  {
    var keepNode := false;
    var j := 0;
    while j < |keep|
      invariant 0 <= j <= |keep|
      invariant Edits.KeepDiffers(keep, edge1, edge2) == Edits.KeepDiffers(keep[j..], edge1, edge2)
    {
      assert keep[j..][0] == keep[j] && keep[j..][1..] == keep[j + 1..];
      if keep[j] !in edge1 || keep[j] !in edge2 {
        return Err(KeyError);
      }
      if !PyEq(edge1[keep[j]], edge2[keep[j]]) {
        keepNode := true;
        break;
      }
      j := j + 1;
    }
    return Ok(keepNode);
  }
}
