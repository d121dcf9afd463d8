/** The attribute clean-up methods of the `GeoGr` mixin (geo_nx/geogr.py),
    applied to a `GeoGraph`. They delete keys from the attribute dictionary
    of every node and every edge in place. */
module GeoGr {
  import opened Values
  import opened Graphs
  import opened GeoGraphs

  /** A dictionary without its falsy values (None, False, 0, "", ...). */
  function Cleaned(a: Attrs): (r: Attrs)
    ensures r.Keys <= a.Keys
    ensures forall k :: k in r ==> Truthy(r[k]) && r[k] == a[k]
    ensures forall k :: k in a && Truthy(a[k]) ==> k in r
  {
    map k | k in a && Truthy(a[k]) :: a[k]
  }

  /** Every dictionary of a node or edge map, cleaned. */
  function CleanedAll<K>(m: map<K, Attrs>): (r: map<K, Attrs>)
    ensures r.Keys == m.Keys
    ensures forall k :: k in r ==> r[k] == Cleaned(m[k])
  {
    map k | k in m :: Cleaned(m[k])
  }

  /** Every dictionary of a node or edge map, without the key `name`. */
  function StrippedAll<K>(m: map<K, Attrs>, name: string): (r: map<K, Attrs>)
    ensures r.Keys == m.Keys
    ensures forall k :: k in r ==> name !in r[k] && r[k].Keys == m[k].Keys - {name}
    ensures forall k, a :: k in r && a in r[k] ==> r[k][a] == m[k][a]
  {
    map k | k in m :: m[k] - {name}
  }

  /** The inner loop of `clean_attributes`: over a snapshot of the keys,
      delete each key whose value is falsy. */
  method DropFalsy(a: Attrs) returns (r: Attrs)
    ensures r == Cleaned(a)
  {
    var keys := a.Keys;
    r := a;
    while keys != {}
      invariant keys <= a.Keys
      invariant r == map k | k in a && (k in keys || Truthy(a[k])) :: a[k]
      decreases |keys|
    {
      var k :| k in keys;
      if !Truthy(r[k]) {
        r := r - {k};
      }
      keys := keys - {k};
    }
  }

  /** `clean_attributes(nodes, edges)`: afterwards no selected dictionary
      holds a falsy value; truthy values stay, no node or edge goes, and an
      unselected kind of dictionary is untouched. */
  method CleanAttributes(g: GeoGraph, nodes: bool, edges: bool)
    modifies g
    requires g.Valid()
    ensures g.Valid()
    ensures g.order == old(g.order) && g.adj == old(g.adj) && g.crs == old(g.crs)
    ensures g.nodes == if nodes then CleanedAll(old(g.nodes)) else old(g.nodes)
    ensures g.edges == if edges then CleanedAll(old(g.edges)) else old(g.edges)
  {
    ghost var g0 := g.View();
    if nodes {
      CleanNodes(g);
    }
    if edges {
      CleanEdges(g);
    }
    SameKeysValid(g0, g.View());
  }

  /** `for node in self`: every node's dictionary cleaned (the visiting
      order does not matter to the result). */
  method CleanNodes(g: GeoGraph)
    modifies g
    ensures g.View() == old(g.View()).(nodes := CleanedAll(old(g.nodes)))
  {
    ghost var g0 := g.View();
    var m := g.nodes;
    var todo := m.Keys;
    while todo != {}
      invariant todo <= g0.nodes.Keys
      invariant g.order == g0.order && g.adj == g0.adj && g.edges == g0.edges && g.crs == g0.crs
      invariant g.nodes == m && m.Keys == g0.nodes.Keys
      invariant forall n :: n in m ==> m[n] == if n in todo then g0.nodes[n] else Cleaned(g0.nodes[n])
      decreases |todo|
    {
      var node :| node in todo;
      var attrs := DropFalsy(m[node]);
      m := m[node := attrs];
      g.nodes := m;
      todo := todo - {node};
    }
  }

  /** `for edge in self.edges`: every edge's dictionary cleaned. */
  method CleanEdges(g: GeoGraph)
    modifies g
    ensures g.View() == old(g.View()).(edges := CleanedAll(old(g.edges)))
  {
    ghost var g0 := g.View();
    var m := g.edges;
    var todo := m.Keys;
    while todo != {}
      invariant todo <= g0.edges.Keys
      invariant g.order == g0.order && g.adj == g0.adj && g.nodes == g0.nodes && g.crs == g0.crs
      invariant g.edges == m && m.Keys == g0.edges.Keys
      invariant forall e :: e in m ==> m[e] == if e in todo then g0.edges[e] else Cleaned(g0.edges[e])
      decreases |todo|
    {
      var edge :| edge in todo;
      var attrs := DropFalsy(m[edge]);
      m := m[edge := attrs];
      g.edges := m;
      todo := todo - {edge};
    }
  }

  /** `remove_attribute(attr_name, nodes, edges)`: afterwards no selected
      dictionary holds `attr_name`; every other key keeps its value, and
      dictionaries without the key are left alone. */
  method RemoveAttribute(g: GeoGraph, name: string, nodes: bool, edges: bool)
    modifies g
    requires g.Valid()
    ensures g.Valid()
    ensures g.order == old(g.order) && g.adj == old(g.adj) && g.crs == old(g.crs)
    ensures g.nodes == if nodes then StrippedAll(old(g.nodes), name) else old(g.nodes)
    ensures g.edges == if edges then StrippedAll(old(g.edges), name) else old(g.edges)
  {
    ghost var g0 := g.View();
    if nodes {
      RemoveFromNodes(g, name);
    }
    if edges {
      RemoveFromEdges(g, name);
    }
    SameKeysValid(g0, g.View());
  }

  /** The node loop of `remove_attribute`. */
  method RemoveFromNodes(g: GeoGraph, name: string)
    modifies g
    ensures g.View() == old(g.View()).(nodes := StrippedAll(old(g.nodes), name))
  {
    ghost var g0 := g.View();
    var m := g.nodes;
    var todo := m.Keys;
    while todo != {}
      invariant todo <= g0.nodes.Keys
      invariant g.order == g0.order && g.adj == g0.adj && g.edges == g0.edges && g.crs == g0.crs
      invariant g.nodes == m && m.Keys == g0.nodes.Keys
      invariant forall n :: n in m ==> m[n] == if n in todo then g0.nodes[n] else g0.nodes[n] - {name}
      decreases |todo|
    {
      var node :| node in todo;
      if name in m[node] {
        m := m[node := m[node] - {name}];
        g.nodes := m;
      }
      todo := todo - {node};
    }
  }

  /** The edge loop of `remove_attribute`. */
  method RemoveFromEdges(g: GeoGraph, name: string)
    modifies g
    ensures g.View() == old(g.View()).(edges := StrippedAll(old(g.edges), name))
  {
    ghost var g0 := g.View();
    var m := g.edges;
    var todo := m.Keys;
    while todo != {}
      invariant todo <= g0.edges.Keys
      invariant g.order == g0.order && g.adj == g0.adj && g.nodes == g0.nodes && g.crs == g0.crs
      invariant g.edges == m && m.Keys == g0.edges.Keys
      invariant forall e :: e in m ==> m[e] == if e in todo then g0.edges[e] else g0.edges[e] - {name}
      decreases |todo|
    {
      var edge :| edge in todo;
      if name in m[edge] {
        m := m[edge := m[edge] - {name}];
        g.edges := m;
      }
      todo := todo - {edge};
    }
  }

  /** Removing an attribute twice is removing it once. */
  lemma StrippedAllTwice<K>(m: map<K, Attrs>, name: string)
    ensures StrippedAll(StrippedAll(m, name), name) == StrippedAll(m, name)
  {
    var once := StrippedAll(m, name);
    forall k | k in once
      ensures once[k] - {name} == once[k]
    {
    }
  }

  /** Cleaning twice is cleaning once. */
  lemma CleanedAllTwice<K>(m: map<K, Attrs>)
    ensures CleanedAll(CleanedAll(m)) == CleanedAll(m)
  {
    var once := CleanedAll(m);
    forall k | k in once
      ensures Cleaned(once[k]) == once[k]
    {
    }
  }
}
