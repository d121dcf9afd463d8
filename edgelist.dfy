/** `from_geopandas_edgelist` of geo_nx: the edge columns it selects, the
    default weight, the graph networkx builds from the edge table, and its
    composition with the graph of the node table. */
module EdgeList {
  import opened Values
  import opened Graphs
  import Algorithms
  import opened Convert

  /** A GeoDataFrame whose rows all have exactly its columns. */
  type Frame = t: Table | WellFormed(t) witness Table({}, [], VNone)

  /** The edge columns: for True every column but the two end columns (as
      networkx takes them), otherwise the listed ones with the geometry and
      the weight (a tuple like a list). */
  function EdgeColumns(columns: set<string>, source: string, target: string, a: Names): (r: set<string>)
    ensures a.AllNames? ==> forall x :: x in r <==> x in columns && x != source && x != target
    ensures !a.AllNames? ==> forall x :: x in r <==> x == GEOM || x == WEIGHT || x in Listed(a)
  {
    if a.AllNames? then columns - {source, target} else Listed(a) + {GEOM, WEIGHT}
  }

  /** The selection as written: `edge_attr + [GEOM, WEIGHT]` raises
      TypeError when edge_attr is a tuple. */
  function EdgeColumnsAsWritten(columns: set<string>, source: string, target: string, a: Names): (r: Result<set<string>>)
    ensures !(a.NameList? && a.isTuple) ==> r == Ok(EdgeColumns(columns, source, target, a))
  {
    if a.NameList? && a.isTuple then Err(TypeError) else Ok(EdgeColumns(columns, source, target, a))
  }

  /** A tuple of edge columns makes the code as written raise, where the
      same names as a list select them with the geometry and the weight. */
  lemma TupleEdgeColumnsRaise(columns: set<string>, source: string, target: string, names: seq<string>)
    ensures EdgeColumnsAsWritten(columns, source, target, NameList(names, true)) == Err(TypeError)
    ensures EdgeColumnsAsWritten(columns, source, target, NameList(names, false)) ==
            Ok(EdgeColumns(columns, source, target, NameList(names, true)))
  {
  }

  /** A tuple selects the listed names, the geometry and the weight. */
  lemma TupleEdgeColumns(columns: set<string>, source: string, target: string, names: seq<string>)
    ensures forall x :: x in EdgeColumns(columns, source, target, NameList(names, true)) <==>
      x == GEOM || x == WEIGHT || x in names
  {
  }

  /** `e_gdf[WEIGHT] = e_gdf[GEOM].length` when the table has no weight
      column; a table without a geometry column raises KeyError there. */
  function WithWeight(t: Frame, length: Value -> real): (r: Result<Frame>)
    ensures r.Err? <==> WEIGHT !in t.columns && GEOM !in t.columns
    ensures r.Err? ==> r.error == KeyError
    ensures WEIGHT in t.columns ==> r == Ok(t)
    ensures r.Ok? ==>
      && r.value.columns == t.columns + {WEIGHT} && r.value.crs == t.crs
      && |r.value.rows| == |t.rows|
      && forall i :: 0 <= i < |t.rows| ==>
           && r.value.rows[i][WEIGHT] == (if WEIGHT in t.columns then t.rows[i][WEIGHT] else VFloat(length(t.rows[i][GEOM])))
           && forall k :: k in t.columns && k != WEIGHT ==> r.value.rows[i][k] == t.rows[i][k]
  {
    if WEIGHT in t.columns then Ok(t)
    else if GEOM !in t.columns then Err(KeyError)
    else
      var rows := seq(|t.rows|, i requires 0 <= i < |t.rows| => t.rows[i][WEIGHT := VFloat(length(t.rows[i][GEOM]))]);
      Ok(Table(t.columns + {WEIGHT}, rows, t.crs))
  }

  /** One (source, target, attributes) triple per row. */
  function EdgeItems(t: Frame, source: string, target: string, sel: set<string>): (r: seq<(NodeId, NodeId, Attrs)>)
    requires source in t.columns && target in t.columns
    ensures |r| == |t.rows|
    ensures forall i :: 0 <= i < |t.rows| ==>
      r[i] == (t.rows[i][source], t.rows[i][target], Restrict(t.rows[i], sel))
  {
    seq(|t.rows|, i requires 0 <= i < |t.rows| => (t.rows[i][source], t.rows[i][target], Restrict(t.rows[i], sel)))
  }

  /** `add_edge` for each triple in turn: a repeated pair merges its
      dictionaries, the later values winning. */
  function AddEdgesFrom(g: Graph, items: seq<(NodeId, NodeId, Attrs)>): Graph
    decreases |items|
  {
    if items == [] then g
    else
      var last := items[|items| - 1];
      AddEdge(AddEdgesFrom(g, items[..|items| - 1]), last.0, last.1, last.2)
  }

  /** The end pairs of a list of triples. */
  function EdgePairs(items: seq<(NodeId, NodeId, Attrs)>): (r: seq<EdgeKey>)
    ensures |r| == |items| && forall i :: 0 <= i < |items| ==> r[i] == Pair(items[i].0, items[i].1)
  {
    seq(|items|, i requires 0 <= i < |items| => Pair(items[i].0, items[i].1))
  }

  /** Whether a triple from index `from` on gives edge `e` the key `k`. */
  predicate SetOnEdgeLater(items: seq<(NodeId, NodeId, Attrs)>, from: int, e: EdgeKey, k: string) {
    exists j :: 0 <= j < |items| && from <= j && Pair(items[j].0, items[j].1) == e && k in items[j].2
  }

  /** Adding edges keeps the graph consistent and its crs. */
  lemma {:induction false} AddEdgesFromValid(g: Graph, items: seq<(NodeId, NodeId, Attrs)>)
    requires Valid(g)
    ensures var r := AddEdgesFrom(g, items); Valid(r) && r.crs == g.crs
    decreases |items|
  {
    if items != [] {
      var last := items[|items| - 1];
      AddEdgesFromValid(g, items[..|items| - 1]);
      AddEdgeValid(AddEdgesFrom(g, items[..|items| - 1]), last.0, last.1, last.2);
      AddEdgeEffect(AddEdgesFrom(g, items[..|items| - 1]), last.0, last.1, last.2);
    }
  }

  /** The edge dictionaries after the triples: each triple's pair gets its
      old dictionary (empty for a new pair) updated with the triple's. */
  function EdgeMapFrom(m: map<EdgeKey, Attrs>, items: seq<(NodeId, NodeId, Attrs)>): map<EdgeKey, Attrs>
    decreases |items|
  {
    if items == [] then m
    else
      var last := items[|items| - 1];
      var prev := EdgeMapFrom(m, items[..|items| - 1]);
      var e := Pair(last.0, last.1);
      prev[e := (if e in prev then prev[e] else map[]) + last.2]
  }

  /** The edges of the graph after the triples are those dictionaries. */
  lemma {:induction false} AddEdgesFromEdgeMap(g: Graph, items: seq<(NodeId, NodeId, Attrs)>)
    ensures AddEdgesFrom(g, items).edges == EdgeMapFrom(g.edges, items)
    decreases |items|
  {
    if items != [] {
      var init := items[..|items| - 1];
      var last := items[|items| - 1];
      AddEdgesFromEdgeMap(g, init);
      AddEdgeEffect(AddEdgesFrom(g, init), last.0, last.1, last.2);
    }
  }

  /** The edges are the old ones and one per end pair of the triples. */
  lemma {:induction false} EdgeMapKeys(m: map<EdgeKey, Attrs>, items: seq<(NodeId, NodeId, Attrs)>)
    ensures forall e :: e in EdgeMapFrom(m, items) <==> e in m || e in EdgePairs(items)
    decreases |items|
  {
    if items != [] {
      var init := items[..|items| - 1];
      var last := items[|items| - 1];
      EdgeMapKeys(m, init);
      assert EdgePairs(items) == EdgePairs(init) + [Pair(last.0, last.1)];
    }
  }

  /** A key of an edge keeps the value of the last triple that sets it. */
  lemma {:induction false} EdgeMapLastWins(m: map<EdgeKey, Attrs>, items: seq<(NodeId, NodeId, Attrs)>, i: int, k: string)
    requires 0 <= i < |items| && k in items[i].2
    requires !SetOnEdgeLater(items, i + 1, Pair(items[i].0, items[i].1), k)
    ensures var r := EdgeMapFrom(m, items); var e := Pair(items[i].0, items[i].1);
      e in r && k in r[e] && r[e][k] == items[i].2[k]
    decreases |items|
  {
    var init := items[..|items| - 1];
    var last := items[|items| - 1];
    var e := Pair(items[i].0, items[i].1);
    if i < |init| {
      assert init[i] == items[i];
      assert !SetOnEdgeLater(init, i + 1, e, k) by {
        forall j | 0 <= j < |init| && i + 1 <= j
          ensures !(Pair(init[j].0, init[j].1) == e && k in init[j].2)
        {
          assert items[j] == init[j];
        }
      }
      EdgeMapLastWins(m, init, i, k);
      if Pair(last.0, last.1) == e {
        assert k !in last.2;
      }
    }
  }

  /** `nx.from_pandas_edgelist(df, source, target, edge_attr)`: no edge
      column to read raises NetworkXError, as does a missing one; a missing
      end column raises KeyError; a `None` end cell raises ValueError, as
      networkx refuses `None` as a node; otherwise one `add_edge` per row. */
  function EdgeGraph(t: Frame, source: string, target: string, sel: set<string>): (r: Result<Graph>)
    ensures r.Err? <==> sel == {} || !(sel <= t.columns) || source !in t.columns || target !in t.columns
                        || NoneIn(t, source) || NoneIn(t, target)
    ensures r.Err? ==> r.error == (if sel == {} || !(sel <= t.columns) then NetworkXError
                                   else if source !in t.columns || target !in t.columns then KeyError
                                   else ValueError)
  {
    if sel == {} || !(sel <= t.columns) then Err(NetworkXError)
    else if source !in t.columns || target !in t.columns then Err(KeyError)
    else if NoneIn(t, source) || NoneIn(t, target) then Err(ValueError)
    else Ok(AddEdgesFrom(Empty(VNone), EdgeItems(t, source, target, sel)))
  }

  /** The node dictionaries after the triples: each end that was missing
      gets an empty dictionary. */
  function NodeMapFrom(m: map<NodeId, Attrs>, items: seq<(NodeId, NodeId, Attrs)>): map<NodeId, Attrs>
    decreases |items|
  {
    if items == [] then m
    else
      var last := items[|items| - 1];
      Touched(Touched(NodeMapFrom(m, items[..|items| - 1]), last.0), last.1)
  }

  /** The nodes of the graph after the triples are those dictionaries. */
  lemma {:induction false} AddEdgesFromNodeMap(g: Graph, items: seq<(NodeId, NodeId, Attrs)>)
    ensures AddEdgesFrom(g, items).nodes == NodeMapFrom(g.nodes, items)
    decreases |items|
  {
    if items != [] {
      var init := items[..|items| - 1];
      var last := items[|items| - 1];
      AddEdgesFromNodeMap(g, init);
      AddEdgeEffect(AddEdgesFrom(g, init), last.0, last.1, last.2);
    }
  }

  /** The ends of the triples. */
  function EndIds(items: seq<(NodeId, NodeId, Attrs)>): (r: seq<NodeId>)
    ensures |r| == 2 * |items|
    ensures forall i :: 0 <= i < |items| ==> r[2 * i] == items[i].0 && r[2 * i + 1] == items[i].1
    decreases |items|
  {
    if items == [] then []
    else
      var init := items[..|items| - 1];
      var last := items[|items| - 1];
      var r := EndIds(init) + [last.0, last.1];
      assert forall i :: 0 <= i < |init| ==> init[i] == items[i];
      r
  }

  /** The nodes are the old ones and the ends of the triples, and a node
      the triples add has an empty dictionary. */
  lemma {:induction false} NodeMapKeys(m: map<NodeId, Attrs>, items: seq<(NodeId, NodeId, Attrs)>)
    ensures forall x :: x in NodeMapFrom(m, items) <==> x in m || x in EndIds(items)
    decreases |items|
  {
    if items != [] {
      var init := items[..|items| - 1];
      var last := items[|items| - 1];
      NodeMapKeys(m, init);
      assert EndIds(items) == EndIds(init) + [last.0, last.1];
    }
  }

  /** A node the triples add has an empty dictionary; the others keep
      theirs. */
  lemma {:induction false} NodeMapValues(m: map<NodeId, Attrs>, items: seq<(NodeId, NodeId, Attrs)>)
    ensures forall x :: x in NodeMapFrom(m, items) ==> NodeMapFrom(m, items)[x] == if x in m then m[x] else map[]
    decreases |items|
  {
    if items != [] {
      NodeMapValues(m, items[..|items| - 1]);
      NodeMapKeys(m, items[..|items| - 1]);
    }
  }

  /** The nodes of the graph of an edge table are the cells of its end
      columns, each with an empty dictionary. */
  lemma EdgeGraphNodes(t: Frame, source: string, target: string, sel: set<string>, g: Graph)
    requires EdgeGraph(t, source, target, sel) == Ok(g)
    ensures source in t.columns && target in t.columns
    ensures forall x :: x in g.nodes <==>
      exists i :: 0 <= i < |t.rows| && (t.rows[i][source] == x || t.rows[i][target] == x)
  {
    var items := EdgeGraphNodeMap(t, source, target, sel, g);
    NodeMapCells(t, source, target, sel);
  }

  /** The ids the triples of an edge table add to no nodes are the cells
      of its end columns. */
  lemma NodeMapCells(t: Frame, source: string, target: string, sel: set<string>)
    requires source in t.columns && target in t.columns
    ensures forall x :: x in NodeMapFrom(map[], EdgeItems(t, source, target, sel)) <==>
      exists i :: 0 <= i < |t.rows| && (t.rows[i][source] == x || t.rows[i][target] == x)
  {
    NodeMapKeys(map[], EdgeItems(t, source, target, sel));
    EndCells(t, source, target, sel);
  }

  /** Every node of the graph of an edge table has an empty dictionary. */
  lemma EdgeGraphBare(t: Frame, source: string, target: string, sel: set<string>, g: Graph)
    requires EdgeGraph(t, source, target, sel) == Ok(g)
    ensures forall x :: x in g.nodes ==> g.nodes[x] == map[]
  {
    var items := EdgeGraphNodeMap(t, source, target, sel, g);
    NodeMapValues(map[], items);
  }

  /** The node dictionaries of the graph of an edge table, as a map fold. */
  lemma EdgeGraphNodeMap(t: Frame, source: string, target: string, sel: set<string>, g: Graph)
      returns (items: seq<(NodeId, NodeId, Attrs)>)
    requires EdgeGraph(t, source, target, sel) == Ok(g)
    ensures source in t.columns && target in t.columns
    ensures items == EdgeItems(t, source, target, sel)
    ensures g.nodes == NodeMapFrom(map[], items)
  {
    EdgeGraphIs(t, source, target, sel, g);
    items := EdgeItems(t, source, target, sel);
    AddEdgesFromNodeMap(Empty(VNone), items);
  }

  /** An end of the triples belongs to some triple. */
  lemma {:induction false} EndIdsFrom(items: seq<(NodeId, NodeId, Attrs)>, x: NodeId)
    requires x in EndIds(items)
    ensures exists i :: 0 <= i < |items| && (items[i].0 == x || items[i].1 == x)
    decreases |items|
  {
    if items != [] {
      var init := items[..|items| - 1];
      var last := items[|items| - 1];
      assert EndIds(items) == EndIds(init) + [last.0, last.1];
      if x in EndIds(init) {
        EndIdsFrom(init, x);
        var i :| 0 <= i < |init| && (init[i].0 == x || init[i].1 == x);
        assert items[i] == init[i];
      } else {
        assert last.0 == x || last.1 == x;
      }
    }
  }

  /** Both ends of every triple are ends of the triples. */
  lemma EndIdsHas(items: seq<(NodeId, NodeId, Attrs)>, i: int)
    requires 0 <= i < |items|
    ensures items[i].0 in EndIds(items) && items[i].1 in EndIds(items)
  {
    var r := EndIds(items);
    assert r[2 * i] == items[i].0 && r[2 * i + 1] == items[i].1;
  }

  /** The ends of the triples of an edge table are the cells of its end
      columns. */
  lemma EndCells(t: Frame, source: string, target: string, sel: set<string>)
    requires source in t.columns && target in t.columns
    ensures forall x :: x in EndIds(EdgeItems(t, source, target, sel)) <==>
      exists i :: 0 <= i < |t.rows| && (t.rows[i][source] == x || t.rows[i][target] == x)
  {
    var items := EdgeItems(t, source, target, sel);
    forall x
      ensures x in EndIds(items) <==> exists i :: 0 <= i < |t.rows| && (t.rows[i][source] == x || t.rows[i][target] == x)
    {
      if x in EndIds(items) {
        EndIdsFrom(items, x);
      }
      if exists i :: 0 <= i < |t.rows| && (t.rows[i][source] == x || t.rows[i][target] == x) {
        var i :| 0 <= i < |t.rows| && (t.rows[i][source] == x || t.rows[i][target] == x);
        EndIdsHas(items, i);
      }
    }
  }

  /** The edge that row `i` of an edge table gives. */
  function RowPair(t: Frame, source: string, target: string, i: int): EdgeKey
    requires source in t.columns && target in t.columns && 0 <= i < |t.rows|
  {
    Pair(t.rows[i][source], t.rows[i][target])
  }

  /** No later row gives the same edge as row `i`. */
  predicate LastOfPair(t: Frame, source: string, target: string, i: int)
    requires source in t.columns && target in t.columns && 0 <= i < |t.rows|
  {
    forall j :: i < j < |t.rows| ==> RowPair(t, source, target, j) != RowPair(t, source, target, i)
  }

  /** The graph networkx builds from an edge table. */
  lemma EdgeGraphIs(t: Frame, source: string, target: string, sel: set<string>, g: Graph)
    requires EdgeGraph(t, source, target, sel) == Ok(g)
    ensures source in t.columns && target in t.columns && sel <= t.columns
    ensures g == AddEdgesFrom(Empty(VNone), EdgeItems(t, source, target, sel))
  {
  }

  /** The graph of an edge table is consistent and has no crs yet. */
  lemma EdgeGraphValid(t: Frame, source: string, target: string, sel: set<string>, g: Graph)
    requires EdgeGraph(t, source, target, sel) == Ok(g)
    ensures Valid(g) && g.crs == VNone
  {
    EdgeGraphIs(t, source, target, sel, g);
    AddEdgesFromValid(Empty(VNone), EdgeItems(t, source, target, sel));
  }

  /** The edges of the graph of an edge table are the pairs its rows give. */
  lemma EdgeGraphEdges(t: Frame, source: string, target: string, sel: set<string>, g: Graph)
    requires EdgeGraph(t, source, target, sel) == Ok(g)
    ensures source in t.columns && target in t.columns
    ensures forall e :: e in g.edges <==> exists i :: 0 <= i < |t.rows| && e == RowPair(t, source, target, i)
  {
    EdgeGraphIs(t, source, target, sel, g);
    var items := EdgeItems(t, source, target, sel);
    AddEdgesFromEdgeMap(Empty(VNone), items);
    EdgeMapKeys(map[], items);
    RowPairs(t, source, target, sel);
  }

  /** The end pairs of the triples of an edge table are the rows' pairs. */
  lemma RowPairs(t: Frame, source: string, target: string, sel: set<string>)
    requires source in t.columns && target in t.columns
    ensures forall e :: e in EdgePairs(EdgeItems(t, source, target, sel)) <==>
      exists i :: 0 <= i < |t.rows| && e == RowPair(t, source, target, i)
  {
    var items := EdgeItems(t, source, target, sel);
    forall e
      ensures e in EdgePairs(items) <==> exists i :: 0 <= i < |t.rows| && e == RowPair(t, source, target, i)
    {
      if e in EdgePairs(items) {
        var i :| 0 <= i < |items| && EdgePairs(items)[i] == e;
        assert e == RowPair(t, source, target, i);
      }
      if exists i :: 0 <= i < |t.rows| && e == RowPair(t, source, target, i) {
        var i :| 0 <= i < |t.rows| && e == RowPair(t, source, target, i);
        assert EdgePairs(items)[i] == e;
      }
    }
  }

  /** The last row giving an edge sets each selected column on it. */
  lemma EdgeGraphLastWins(t: Frame, source: string, target: string, sel: set<string>, g: Graph, i: int, k: string)
    requires EdgeGraph(t, source, target, sel) == Ok(g)
    requires source in t.columns && target in t.columns && 0 <= i < |t.rows| && k in sel
    requires LastOfPair(t, source, target, i)
    ensures var e := RowPair(t, source, target, i); e in g.edges && k in g.edges[e] && g.edges[e][k] == t.rows[i][k]
  {
    EdgeGraphIs(t, source, target, sel, g);
    var items := EdgeItems(t, source, target, sel);
    AddEdgesFromEdgeMap(Empty(VNone), items);
    assert !SetOnEdgeLater(items, i + 1, Pair(items[i].0, items[i].1), k) by {
      forall j | 0 <= j < |items| && i + 1 <= j
        ensures Pair(items[j].0, items[j].1) != Pair(items[i].0, items[i].1)
      {
        assert RowPair(t, source, target, j) != RowPair(t, source, target, i);
      }
    }
    EdgeMapLastWins(map[], items, i, k);
  }

  /** What `from_geopandas_edgelist` needs from outside: the length of a
      geometry, the two helpers of geo_nx/utils.py that derive missing
      geometries, and the EPSG code of a crs. */
  datatype EdgeOps = EdgeOps(
    length: Value -> real,
    addGeometryEdgesFromNodes: (Frame, string, string, Frame, string) -> Frame,
    nodesFromEdges: (Frame, string, string, bool) -> (Frame, Frame),
    toEpsg: Value -> Value)

  /** The node and edge tables once missing geometries are derived: edge
      geometries from the nodes when only the node table has them, both
      tables from the edges when no node table is given. */
  function Prepared(e: Frame, nodes: Option<Frame>, source: string, target: string, id: string,
                    linestring: bool, ops: EdgeOps): (r: (Frame, Frame))
    ensures nodes.Some? && !(GEOM in nodes.value.columns && GEOM !in e.columns) ==> r == (nodes.value, e)
    ensures nodes.Some? ==> r.0 == nodes.value
  {
    if nodes.Some? && GEOM in nodes.value.columns && GEOM !in e.columns then
      (nodes.value, ops.addGeometryEdgesFromNodes(e, source, target, nodes.value, id))
    else if nodes.None? then
      ops.nodesFromEdges(e, source, target, linestring)
    else (nodes.value, e)
  }

  /** The crs of the result: the edge table's, else the node table's when
      one was given, else None, whose `to_epsg` raises AttributeError. */
  function GraphCrs(e: Frame, n: Frame, nodesGiven: bool, toEpsg: Value -> Value): (r: Result<Value>)
    ensures r.Err? <==> !Truthy(e.crs) && (!nodesGiven || n.crs == VNone)
    ensures r.Err? ==> r.error == AttributeError
    ensures r.Ok? ==> r.value == toEpsg(if Truthy(e.crs) then e.crs else n.crs)
  {
    var crs := if Truthy(e.crs) then e.crs else if nodesGiven then n.crs else VNone;
    if crs == VNone then Err(AttributeError) else Ok(toEpsg(crs))
  }

  /** The steps after the weight: networkx builds the edge graph from the
      end columns `ends`, the crs is set, and the graph of the node table
      `ng` is composed into it. */
  function Assemble(w: Frame, n: Frame, nodesGiven: bool, ends: (string, string), edgeAttr: Names,
                    ng: Result<Graph>, ops: EdgeOps): (r: Result<Graph>)
    ensures r.Ok? ==> && EdgeGraph(w, ends.0, ends.1, EdgeColumns(w.columns, ends.0, ends.1, edgeAttr)).Ok?
                      && GraphCrs(w, n, nodesGiven, ops.toEpsg).Ok? && ng.Ok?
                      && r.value.crs == GraphCrs(w, n, nodesGiven, ops.toEpsg).value
  {
    var eg := EdgeGraph(w, ends.0, ends.1, EdgeColumns(w.columns, ends.0, ends.1, edgeAttr));
    if eg.Err? then Err(eg.error)
    else
      var crs := GraphCrs(w, n, nodesGiven, ops.toEpsg);
      if crs.Err? then Err(crs.error)
      else if ng.Err? then Err(ng.error)
      else Algorithms.Compose(eg.value.(crs := crs.value), ng.value)
  }

  /** `from_geopandas_edgelist`, with the corrections listed under Findings:
      a tuple of edge columns selects like a list, and networkx reads the
      ends from the `source` and `target` columns the caller names. */
  function FromEdgelist(e: Frame, nodes: Option<Frame>, source: string, target: string, edgeAttr: Names,
                        nodeId: Option<string>, nodeAttr: Names, linestring: bool, ops: EdgeOps): Result<Graph>
  {
    var id := if Given(nodeId) then nodeId.value else NODE_ID;
    var (n, e1) := Prepared(e, nodes, source, target, id, linestring, ops);
    var w := WithWeight(e1, ops.length);
    if w.Err? then Err(w.error)
    else Assemble(w.value, n, nodes.Some?, (source, target), edgeAttr, FromNodelist(n, Some(id), nodeAttr), ops)
  }

  /** `from_geopandas_edgelist` as written: `edge_attr + [GEOM, WEIGHT]`
      for a tuple raises, networkx reads the ends from its default columns
      `source` and `target` whatever the caller names, and the nodes are
      read by `from_geopandas_nodelist` as written. */
  function FromEdgelistAsWritten(e: Frame, nodes: Option<Frame>, source: string, target: string, edgeAttr: Names,
                                 nodeId: Option<string>, nodeAttr: Names, linestring: bool, ops: EdgeOps): (r: Result<Graph>)
    ensures edgeAttr.NameList? && edgeAttr.isTuple ==> r == Err(TypeError)
    ensures source == "source" && target == "target" && !(edgeAttr.NameList? && edgeAttr.isTuple) &&
            !(nodeAttr.NameList? && nodeAttr.isTuple) && nodes.Some? &&
            (if Given(nodeId) then nodeId.value else NODE_ID) in nodes.value.columns ==>
      r == FromEdgelist(e, nodes, source, target, edgeAttr, nodeId, nodeAttr, linestring, ops)
  {
    var id := if Given(nodeId) then nodeId.value else NODE_ID;
    if edgeAttr.NameList? && edgeAttr.isTuple then Err(TypeError)
    else
      var (n, e1) := Prepared(e, nodes, source, target, id, linestring, ops);
      var w := WithWeight(e1, ops.length);
      if w.Err? then Err(w.error)
      else Assemble(w.value, n, nodes.Some?, ("source", "target"), edgeAttr, FromNodelistAsWritten(n, Some(id), nodeAttr), ops)
  }

  /** End columns named otherwise than `source` and `target` make the code
      as written raise KeyError when the edge table has its geometry and
      weight and no column `source`. */
  lemma OtherEndColumnsRaise(e: Frame, n: Frame, source: string, target: string, nodeId: Option<string>,
                             nodeAttr: Names, linestring: bool, ops: EdgeOps)
    requires GEOM in e.columns && WEIGHT in e.columns && "source" !in e.columns
    ensures FromEdgelistAsWritten(e, Some(n), source, target, NoNames, nodeId, nodeAttr, linestring, ops) == Err(KeyError)
  {
    var id := if Given(nodeId) then nodeId.value else NODE_ID;
    assert Prepared(e, Some(n), source, target, id, linestring, ops) == (n, e);
  }

  /** The steps of `from_geopandas_edgelist` that succeed when it does, for
      a node table and an edge table with geometries: the weighted table
      `w`, the edge graph `eg`, the crs, and the graph `ng` of the nodes. */
  lemma FromEdgelistSteps(e: Frame, n: Frame, source: string, target: string, edgeAttr: Names,
                          nodeId: Option<string>, nodeAttr: Names, linestring: bool, ops: EdgeOps, g: Graph)
    returns (w: Frame, eg: Graph, crs: Value, ng: Graph)
    requires GEOM in e.columns
    requires FromEdgelist(e, Some(n), source, target, edgeAttr, nodeId, nodeAttr, linestring, ops) == Ok(g)
    ensures WithWeight(e, ops.length) == Ok(w)
    ensures EdgeGraph(w, source, target, EdgeColumns(w.columns, source, target, edgeAttr)) == Ok(eg)
    ensures GraphCrs(w, n, true, ops.toEpsg) == Ok(crs)
    ensures FromNodelist(n, Some(if Given(nodeId) then nodeId.value else NODE_ID), nodeAttr) == Ok(ng)
    ensures Algorithms.Compose(eg.(crs := crs), ng) == Ok(g)
  {
    var id := if Given(nodeId) then nodeId.value else NODE_ID;
    assert Prepared(e, Some(n), source, target, id, linestring, ops) == (n, e);
    w := WithWeight(e, ops.length).value;
    eg := EdgeGraph(w, source, target, EdgeColumns(w.columns, source, target, edgeAttr)).value;
    crs := GraphCrs(w, n, true, ops.toEpsg).value;
    ng := FromNodelist(n, Some(id), nodeAttr).value;
  }

  /** With the correction, the result is consistent. */
  lemma FromEdgelistValid(e: Frame, n: Frame, source: string, target: string, edgeAttr: Names,
                          nodeId: Option<string>, nodeAttr: Names, linestring: bool, ops: EdgeOps, g: Graph)
    requires GEOM in e.columns
    requires FromEdgelist(e, Some(n), source, target, edgeAttr, nodeId, nodeAttr, linestring, ops) == Ok(g)
    ensures Valid(g)
  {
    var w, eg, crs, ng := FromEdgelistSteps(e, n, source, target, edgeAttr, nodeId, nodeAttr, linestring, ops, g);
    EdgeGraphValid(w, source, target, EdgeColumns(w.columns, source, target, edgeAttr), eg);
    FromNodelistValid(n, Some(if Given(nodeId) then nodeId.value else NODE_ID), nodeAttr);
    ComposeWithNodes(eg, ng, crs, g);
  }

  /** The result has the EPSG code of the edge table's crs, or of the node
      table's when the edge table has none. */
  lemma FromEdgelistCrs(e: Frame, n: Frame, source: string, target: string, edgeAttr: Names,
                        nodeId: Option<string>, nodeAttr: Names, linestring: bool, ops: EdgeOps, g: Graph)
    requires GEOM in e.columns
    requires FromEdgelist(e, Some(n), source, target, edgeAttr, nodeId, nodeAttr, linestring, ops) == Ok(g)
    ensures g.crs == ops.toEpsg(if Truthy(e.crs) then e.crs else n.crs)
  {
    var w, eg, crs, ng := FromEdgelistSteps(e, n, source, target, edgeAttr, nodeId, nodeAttr, linestring, ops, g);
  }

  /** With the correction, the edges of the result are the end pairs the
      rows give in the caller's columns (the node table adds no edge). */
  lemma FromEdgelistEdges(e: Frame, n: Frame, source: string, target: string, edgeAttr: Names,
                          nodeId: Option<string>, nodeAttr: Names, linestring: bool, ops: EdgeOps, g: Graph)
    requires GEOM in e.columns && source in e.columns && target in e.columns
    requires FromEdgelist(e, Some(n), source, target, edgeAttr, nodeId, nodeAttr, linestring, ops) == Ok(g)
    ensures forall x :: x in g.edges <==> exists i :: 0 <= i < |e.rows| && x == Pair(e.rows[i][source], e.rows[i][target])
  {
    var w, eg, crs, ng := FromEdgelistSteps(e, n, source, target, edgeAttr, nodeId, nodeAttr, linestring, ops, g);
    EdgeGraphEdges(w, source, target, EdgeColumns(w.columns, source, target, edgeAttr), eg);
    WeightedPairs(e, ops.length, w, source, target);
    FromNodelistValid(n, Some(if Given(nodeId) then nodeId.value else NODE_ID), nodeAttr);
    ComposeEdgeKeys(eg, ng, crs, g);
    SameEdgeSet(e, w, source, target, eg, g);
  }

  /** Without a weight column, the weight of each edge is the length of
      the geometry of the last row giving it. */
  lemma FromEdgelistDefaultWeight(e: Frame, n: Frame, source: string, target: string, edgeAttr: Names,
                                  nodeId: Option<string>, nodeAttr: Names, linestring: bool, ops: EdgeOps, g: Graph, i: int)
    requires GEOM in e.columns && WEIGHT !in e.columns && source in e.columns && target in e.columns
    requires FromEdgelist(e, Some(n), source, target, edgeAttr, nodeId, nodeAttr, linestring, ops) == Ok(g)
    requires 0 <= i < |e.rows| && LastOfPair(e, source, target, i)
    ensures var x := RowPair(e, source, target, i);
      x in g.edges && WEIGHT in g.edges[x] && g.edges[x][WEIGHT] == VFloat(ops.length(e.rows[i][GEOM]))
  {
    var w, eg, crs, ng := FromEdgelistSteps(e, n, source, target, edgeAttr, nodeId, nodeAttr, linestring, ops, g);
    FromNodelistValid(n, Some(if Given(nodeId) then nodeId.value else NODE_ID), nodeAttr);
    ComposedWeight(e, ops.length, w, source, target, edgeAttr, eg, crs, ng, g, i);
  }

  /** The weight column is selected whenever it is not an end column. */
  lemma WeightSelected(columns: set<string>, source: string, target: string, a: Names)
    requires WEIGHT in columns && source != WEIGHT && target != WEIGHT
    ensures WEIGHT in EdgeColumns(columns, source, target, a)
  {
  }

  /** The weights of the edge graph survive composition with the nodes. */
  lemma ComposedWeight(e: Frame, length: Value -> real, w: Frame, source: string, target: string, edgeAttr: Names,
                       eg: Graph, crs: Value, ng: Graph, g: Graph, i: int)
    requires GEOM in e.columns && WEIGHT !in e.columns && source in e.columns && target in e.columns
    requires WithWeight(e, length) == Ok(w)
    requires EdgeGraph(w, source, target, EdgeColumns(w.columns, source, target, edgeAttr)) == Ok(eg)
    requires ng.edges == map[] && Algorithms.Compose(eg.(crs := crs), ng) == Ok(g)
    requires 0 <= i < |e.rows| && LastOfPair(e, source, target, i)
    ensures var x := RowPair(e, source, target, i);
      x in g.edges && WEIGHT in g.edges[x] && g.edges[x][WEIGHT] == VFloat(length(e.rows[i][GEOM]))
  {
    var sel := EdgeColumns(w.columns, source, target, edgeAttr);
    WeightedPairs(e, length, w, source, target);
    WeightSelected(w.columns, source, target, edgeAttr);
    WeightedLastWins(e, length, w, source, target, sel, eg, i);
    ComposeEdgeValue(eg, ng, crs, g, RowPair(e, source, target, i), WEIGHT);
  }

  /** The edge graph of a table given default weights carries, on each
      edge, the length of the geometry of the last row giving it. */
  lemma WeightedLastWins(e: Frame, length: Value -> real, w: Frame, source: string, target: string,
                         sel: set<string>, eg: Graph, i: int)
    requires GEOM in e.columns && WEIGHT !in e.columns && source in e.columns && target in e.columns
    requires WithWeight(e, length) == Ok(w) && EdgeGraph(w, source, target, sel) == Ok(eg) && WEIGHT in sel
    requires 0 <= i < |e.rows| && LastOfPair(e, source, target, i)
    ensures var x := RowPair(e, source, target, i);
      x in eg.edges && WEIGHT in eg.edges[x] && eg.edges[x][WEIGHT] == VFloat(length(e.rows[i][GEOM]))
  {
    WeightedPairs(e, length, w, source, target);
    assert LastOfPair(w, source, target, i) by {
      forall j | i < j < |w.rows|
        ensures RowPair(w, source, target, j) != RowPair(w, source, target, i)
      {
        assert RowPair(e, source, target, j) != RowPair(e, source, target, i);
      }
    }
    EdgeGraphLastWins(w, source, target, sel, eg, i, WEIGHT);
  }

  /** Composing a graph of nodes without edges leaves each edge's
      dictionary as it was. */
  lemma ComposeEdgeValue(eg: Graph, ng: Graph, crs: Value, g: Graph, x: EdgeKey, k: string)
    requires ng.edges == map[] && Algorithms.Compose(eg.(crs := crs), ng) == Ok(g)
    requires x in eg.edges && k in eg.edges[x]
    ensures x in g.edges && k in g.edges[x] && g.edges[x][k] == eg.edges[x][k]
  {
  }

  /** Composing a graph of nodes without edges adds no edge. */
  lemma ComposeEdgeKeys(eg: Graph, ng: Graph, crs: Value, g: Graph)
    requires ng.edges == map[] && Algorithms.Compose(eg.(crs := crs), ng) == Ok(g)
    ensures g.edges.Keys == eg.edges.Keys
  {
  }

  /** Edges given by the rows of the weighted table are those given by the
      rows of the table. */
  lemma SameEdgeSet(e: Frame, w: Frame, source: string, target: string, eg: Graph, g: Graph)
    requires source in e.columns && target in e.columns && source in w.columns && target in w.columns
    requires |w.rows| == |e.rows|
    requires forall i :: 0 <= i < |e.rows| ==> RowPair(w, source, target, i) == Pair(e.rows[i][source], e.rows[i][target])
    requires forall x :: x in eg.edges <==> exists i :: 0 <= i < |w.rows| && x == RowPair(w, source, target, i)
    requires g.edges.Keys == eg.edges.Keys
    ensures forall x :: x in g.edges <==> exists i :: 0 <= i < |e.rows| && x == Pair(e.rows[i][source], e.rows[i][target])
  {
    forall x
      ensures x in g.edges <==> exists i :: 0 <= i < |e.rows| && x == Pair(e.rows[i][source], e.rows[i][target])
    {
      if x in g.edges {
        assert x in eg.edges;
        var i :| 0 <= i < |w.rows| && x == RowPair(w, source, target, i);
        assert x == Pair(e.rows[i][source], e.rows[i][target]);
      }
      if exists i :: 0 <= i < |e.rows| && x == Pair(e.rows[i][source], e.rows[i][target]) {
        var i :| 0 <= i < |e.rows| && x == Pair(e.rows[i][source], e.rows[i][target]);
        assert x == RowPair(w, source, target, i);
        assert x in eg.edges;
      }
    }
  }

  /** The weight column leaves the pairs the rows give in end columns of
      the table as they were. */
  lemma WeightedPairs(e: Frame, length: Value -> real, w: Frame, source: string, target: string)
    requires WithWeight(e, length) == Ok(w) && source in e.columns && target in e.columns
    ensures source in w.columns && target in w.columns && |w.rows| == |e.rows|
    ensures forall i :: 0 <= i < |e.rows| ==> RowPair(w, source, target, i) == Pair(e.rows[i][source], e.rows[i][target])
  {
    if WEIGHT !in e.columns {
      assert source != WEIGHT && target != WEIGHT;
    }
  }

  /** The weight column leaves the cells of the end columns as they were. */
  lemma WeightedCells(e: Frame, length: Value -> real, w: Frame, source: string, target: string)
    requires WithWeight(e, length) == Ok(w) && source in e.columns && target in e.columns
    ensures source in w.columns && target in w.columns && |w.rows| == |e.rows|
    ensures forall i :: 0 <= i < |e.rows| ==>
      w.rows[i][source] == e.rows[i][source] && w.rows[i][target] == e.rows[i][target]
  {
    if WEIGHT !in e.columns {
      assert source != WEIGHT && target != WEIGHT;
    }
  }

  /** Composing a graph of nodes without edges into a graph keeps it
      consistent and adds no edge. */
  lemma ComposeWithNodes(eg: Graph, ng: Graph, crs: Value, g: Graph)
    requires Valid(eg) && Valid(ng) && ng.edges == map[]
    requires Algorithms.Compose(eg.(crs := crs), ng) == Ok(g)
    ensures Valid(g)
  {
    var h := eg.(crs := crs);
    ValidWithCrs(eg, crs);
    ComposedValid(h, ng, g);
  }

  /** A successful composition of consistent graphs is consistent. */
  lemma ComposedValid(h: Graph, ng: Graph, g: Graph)
    requires Valid(h) && Valid(ng)
    requires Algorithms.Compose(h, ng) == Ok(g)
    ensures Valid(g)
  {
    Algorithms.ComposeValid(h, ng);
  }

  /** Setting the crs keeps a graph consistent. */
  lemma ValidWithCrs(g: Graph, crs: Value)
    requires Valid(g)
    ensures Valid(g.(crs := crs))
  {
  }
}
