/** The state of an undirected networkx graph as the geometry code sees it:
    nodes in insertion order with their attribute dictionaries, each node's
    neighbours in the order the edges were added, and one attribute
    dictionary per edge shared by both directions. The four primitives below
    follow networkx's `add_node`, `add_edge`, `remove_edge` and
    `remove_node`. */
module Graphs {
  import opened Values

  type NodeId = Value

  /** An undirected edge is the set of its end nodes (one node for a loop). */
  type EdgeKey = set<NodeId>

  function Pair(u: NodeId, v: NodeId): EdgeKey {
    {u, v}
  }

  predicate Distinct<T(==)>(s: seq<T>) {
    forall i, j :: 0 <= i < j < |s| ==> s[i] != s[j]
  }

  /** Assigning a key of a Python dict: a new key goes last, an existing
      key keeps its place. */
  function Appended<T(==,!new)>(s: seq<T>, x: T): (r: seq<T>)
    ensures forall y :: y in r <==> y in s || y == x
    ensures Distinct(s) ==> Distinct(r)
  {
    if x in s then s else s + [x]
  }

  /** Deleting a key of a Python dict: the others keep their order. */
  function Without<T(==,!new)>(s: seq<T>, x: T): (r: seq<T>)
    ensures forall y :: y in r <==> y in s && y != x
    ensures Distinct(s) ==> Distinct(r)
    ensures |r| <= |s|
  {
    if s == [] then []
    else if s[0] == x then Without(s[1..], x)
    else
      var t := Without(s[1..], x);
      assert Distinct(s) ==> s[0] !in s[1..] by {
        if Distinct(s) {
          forall j | 0 <= j < |s| - 1
            ensures s[1..][j] != s[0]
          {
            assert s[1..][j] == s[j + 1];
          }
        }
      }
      [s[0]] + t
  }

  datatype Graph = Graph(
    order: seq<NodeId>,
    nodes: map<NodeId, Attrs>,
    adj: map<NodeId, seq<NodeId>>,
    edges: map<EdgeKey, Attrs>,
    crs: Value)

  /** The consistency networkx keeps between its node, adjacency and edge
      dictionaries. */
  ghost predicate Valid(g: Graph) {
    && Distinct(g.order)
    && (forall n :: n in g.order <==> n in g.nodes)
    && g.adj.Keys == g.nodes.Keys
    && (forall n :: n in g.adj ==> Distinct(g.adj[n]))
    && (forall n, m :: n in g.adj ==> (m in g.adj[n] <==> Pair(n, m) in g.edges))
    && (forall k :: k in g.edges ==> k <= g.nodes.Keys)
  }

  function Empty(crs: Value): (r: Graph)
    ensures Valid(r) && r.nodes == map[] && r.edges == map[]
  {
    Graph([], map[], map[], map[], crs)
  }

  /** The neighbours of `n` in the order their edges were added. */
  function Neighbours(g: Graph, n: NodeId): seq<NodeId> {
    if n in g.adj then g.adj[n] else []
  }

  /** `add_node(n, **attrs)`: a new node is appended without neighbours, an
      existing one has its dictionary updated with `attrs`. */
  function AddNode(g: Graph, n: NodeId, attrs: Attrs): Graph {
    if n in g.nodes then g.(nodes := g.nodes[n := g.nodes[n] + attrs])
    else g.(order := g.order + [n], nodes := g.nodes[n := attrs], adj := g.adj[n := []])
  }

  lemma AddNodeValid(g: Graph, n: NodeId, attrs: Attrs)
    requires Valid(g)
    ensures var r := AddNode(g, n, attrs);
      && Valid(r)
      && r.nodes == g.nodes[n := if n in g.nodes then g.nodes[n] + attrs else attrs]
      && r.order == Appended(g.order, n)
      && r.edges == g.edges && r.crs == g.crs
  {
    var r := AddNode(g, n, attrs);
    if n !in g.nodes {
      assert forall k :: k in g.edges ==> n !in k;
      assert r.adj.Keys == r.nodes.Keys;
      assert forall m :: m in r.adj ==> Distinct(r.adj[m]);
      assert forall m, x :: m in r.adj ==> (x in r.adj[m] <==> Pair(m, x) in r.edges) by {
        forall m, x | m in r.adj
          ensures x in r.adj[m] <==> Pair(m, x) in r.edges
        {
          if m == n {
            assert m in Pair(m, x);
          }
        }
      }
    }
  }

  /** The node dictionaries after `add_edge` met `n`: a missing node gets
      an empty dictionary. */
  function Touched(nodes: map<NodeId, Attrs>, n: NodeId): (r: map<NodeId, Attrs>)
    ensures r.Keys == nodes.Keys + {n}
    ensures forall m :: m in nodes ==> r[m] == nodes[m]
    ensures n !in nodes ==> r[n] == map[]
  {
    if n in nodes then nodes else nodes[n := map[]]
  }

  /** A node that `add_edge` creates because it was missing: it gets an
      empty dictionary and no neighbours yet. */
  function Touch(g: Graph, n: NodeId): Graph {
    if n in g.nodes then g else AddNode(g, n, map[])
  }

  /** The part of `add_edge` that joins two existing nodes: each becomes the
      other's last neighbour if it was not one already. */
  function Link(g: Graph, u: NodeId, v: NodeId, attrs: Attrs): Graph {
    var data := if Pair(u, v) in g.edges then g.edges[Pair(u, v)] else map[];
    var adj1 := g.adj[u := Appended(Neighbours(g, u), v)];
    var adj2 := adj1[v := Appended(if v in adj1 then adj1[v] else [], u)];
    g.(adj := adj2, edges := g.edges[Pair(u, v) := data + attrs])
  }

  lemma LinkValid(g: Graph, u: NodeId, v: NodeId, attrs: Attrs)
    requires Valid(g) && u in g.nodes && v in g.nodes
    ensures Valid(Link(g, u, v, attrs))
  {
    var r := Link(g, u, v, attrs);
    assert forall n, m :: n in r.adj ==> (m in r.adj[n] <==> Pair(n, m) in r.edges) by {
      forall n, m | n in r.adj
        ensures m in r.adj[n] <==> Pair(n, m) in r.edges
      {
        if n == u || n == v {
          assert Pair(u, v) == Pair(v, u);
        } else {
          assert Pair(n, m) == Pair(u, v) ==> n == u || n == v;
        }
      }
    }
  }

  /** `add_edge(u, v, **attrs)`: missing end nodes are created with an empty
      dictionary; the edge's dictionary (empty if the edge is new) is updated
      with `attrs`; each end becomes the other's last neighbour if it was not
      one already. */
  function AddEdge(g: Graph, u: NodeId, v: NodeId, attrs: Attrs): Graph {
    Link(Touch(Touch(g, u), v), u, v, attrs)
  }

  /** `add_edge` adds the missing end nodes with empty dictionaries, leaves
      every old node as it was, and gives the edge its old dictionary (empty
      for a new edge) updated with `attrs`. */
  lemma AddEdgeEffect(g: Graph, u: NodeId, v: NodeId, attrs: Attrs)
    ensures var r := AddEdge(g, u, v, attrs);
      && r.nodes == Touched(Touched(g.nodes, u), v)
      && r.edges == g.edges[Pair(u, v) := (if Pair(u, v) in g.edges then g.edges[Pair(u, v)] else map[]) + attrs]
      && r.crs == g.crs
      && (forall n :: n in g.adj && n != u && n != v ==> r.adj[n] == g.adj[n])
  {
  }

  /** `add_edge` keeps the graph consistent, and a new end node goes last in
      the node order. */
  lemma AddEdgeValid(g: Graph, u: NodeId, v: NodeId, attrs: Attrs)
    requires Valid(g)
    ensures var r := AddEdge(g, u, v, attrs);
      Valid(r) && r.order == Appended(Appended(g.order, u), v)
  {
    var g1 := Touch(g, u);
    if u !in g.nodes { AddNodeValid(g, u, map[]); }
    var g2 := Touch(g1, v);
    if v !in g1.nodes { AddNodeValid(g1, v, map[]); }
    LinkValid(g2, u, v, attrs);
  }

  /** `remove_edge(u, v)`, for an edge that exists. */
  function RemoveEdge(g: Graph, u: NodeId, v: NodeId): Graph {
    var adj1 := g.adj[u := Without(Neighbours(g, u), v)];
    var adj2 := if u == v then adj1 else adj1[v := Without(if v in adj1 then adj1[v] else [], u)];
    g.(adj := adj2, edges := g.edges - {Pair(u, v)})
  }

  /** Removing an existing edge keeps the graph consistent. */
  lemma RemoveEdgeValid(g: Graph, u: NodeId, v: NodeId)
    requires Valid(g) && Pair(u, v) in g.edges
    ensures Valid(RemoveEdge(g, u, v))
  {
    var r := RemoveEdge(g, u, v);
    assert u in Pair(u, v) && v in Pair(u, v);
    assert r.adj.Keys == g.adj.Keys;
    assert forall n :: n in r.adj ==> Distinct(r.adj[n]);
    RemoveEdgeAdjacency(g, u, v);
  }

  /** After `remove_edge`, the neighbour lists still list exactly the edges. */
  lemma RemoveEdgeAdjacency(g: Graph, u: NodeId, v: NodeId)
    requires u in g.adj && v in g.adj
    requires forall n, m :: n in g.adj ==> (m in g.adj[n] <==> Pair(n, m) in g.edges)
    ensures var r := RemoveEdge(g, u, v);
      forall n, m :: n in r.adj ==> (m in r.adj[n] <==> Pair(n, m) in r.edges)
  {
    var r := RemoveEdge(g, u, v);
    forall n, m | n in r.adj
      ensures m in r.adj[n] <==> Pair(n, m) in r.edges
    {
      assert Pair(u, v) == Pair(v, u);
      if n != u && n != v {
        assert Pair(n, m) != Pair(u, v);
      }
    }
  }

  /** `remove_node(n)`: the node, its place in every neighbour list and every
      edge touching it disappear. */
  function RemoveNode(g: Graph, n: NodeId): Graph {
    var adj' := map m | m in g.adj && m != n :: Without(g.adj[m], n);
    var edges' := map k | k in g.edges && n !in k :: g.edges[k];
    Graph(Without(g.order, n), g.nodes - {n}, adj', edges', g.crs)
  }

  /** Removing a node keeps the graph consistent. */
  lemma RemoveNodeValid(g: Graph, n: NodeId)
    requires Valid(g)
    ensures Valid(RemoveNode(g, n))
  {
    var r := RemoveNode(g, n);
    assert r.adj.Keys == r.nodes.Keys;
    assert forall m :: m in r.adj ==> Distinct(r.adj[m]);
    assert forall m, x :: m in r.adj ==> (x in r.adj[m] <==> Pair(m, x) in r.edges) by {
      forall m, x | m in r.adj
        ensures x in r.adj[m] <==> Pair(m, x) in r.edges
      {
        assert n in Pair(m, x) <==> x == n;
      }
    }
  }

  /** Changing attribute dictionaries without adding or removing nodes or
      edges keeps the graph consistent. */
  lemma SameKeysValid(g: Graph, h: Graph)
    requires Valid(g)
    requires h.order == g.order && h.adj == g.adj
    requires h.nodes.Keys == g.nodes.Keys && h.edges.Keys == g.edges.Keys
    ensures Valid(h)
  {
  }
}
