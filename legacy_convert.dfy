/** The first version of the converters, in the package `geonetworkx`: a
    node table read into a graph, and an edge table whose missing node
    table is derived from the end points of its lines. */
module LegacyConvert {
  import opened Values
  import opened Graphs
  import opened Convert
  import opened EdgeList

  // ---------------------------------------------------------------------
  // from_geopandas_nodelist

  /** The columns the first version selects for the nodes: `True` is looked
      up as a column label and raises KeyError, a tuple cannot be added to
      a list, and otherwise the listed names and the geometry. */
  function LegacyNodeColumns(a: Names): (r: Result<set<string>>)
    ensures r.Err? <==> a.AllNames? || (a.NameList? && a.isTuple)
    ensures r.Err? ==> r.error == (if a.AllNames? then KeyError else TypeError)
    ensures r.Ok? ==> forall x :: x in r.value <==> x == GEOM || x in Listed(a)
  {
    if a.AllNames? then Err(KeyError)
    else if a.NameList? && a.isTuple then Err(TypeError)
    else Ok(Listed(a) + {GEOM})
  }

  /** A record without one of its cells. */
  function Dropped(row: Attrs, k: string): (r: Attrs)
    ensures r.Keys == row.Keys - {k}
    ensures forall x :: x in r ==> r[x] == row[x]
  {
    map x | x in row && x != k :: row[x]
  }

  /** `nx_lis` of the first version: the row number with the selected
      record, or the id cell with the rest of the record; a NaN cell is
      kept. */
  function LegacyNodeItems(t: Table, sel: set<string>, nodeId: Option<string>): (r: seq<(NodeId, Attrs)>)
    requires WellFormed(t) && sel <= t.columns && (Given(nodeId) ==> nodeId.value in sel)
    ensures |r| == |t.rows|
  {
    if !Given(nodeId) then
      seq(|t.rows|, i requires 0 <= i < |t.rows| => (VInt(i), Restrict(t.rows[i], sel)))
    else
      seq(|t.rows|, i requires 0 <= i < |t.rows| =>
        (t.rows[i][nodeId.value], Dropped(Restrict(t.rows[i], sel), nodeId.value)))
  }

  /** The graph `from_geopandas_nodelist` builds, with the table's crs. The
      id column is not added to the selection, so reading it raises
      KeyError unless the names list it (or there is no row to read). */
  function LegacyNodelist(t: Table, nodeId: Option<string>, a: Names): Result<Graph>
    requires WellFormed(t)
  {
    var c := LegacyNodeColumns(a);
    if c.Err? then Err(c.error)
    else if !(c.value <= t.columns) then Err(KeyError)
    else if Given(nodeId) && nodeId.value !in c.value then
      (if t.rows == [] then Ok(Empty(t.crs)) else Err(KeyError))
    else if Given(nodeId) && NoneIn(t, nodeId.value) then Err(ValueError)
    else Ok(AddNodesFrom(Empty(t.crs), LegacyNodeItems(t, c.value, nodeId)))
  }

  /** `from_geopandas_nodelist` as written: the GeoGraph of this package
      takes `crs` as its first parameter, so `GeoGraph(geo_gr, crs=...)`
      gives it two values and raises TypeError once the graph is built. */
  function LegacyNodelistAsWritten(t: Table, nodeId: Option<string>, a: Names): (r: Result<Graph>)
    requires WellFormed(t)
    ensures LegacyNodelist(t, nodeId, a).Err? ==> r == LegacyNodelist(t, nodeId, a)
  {
    var g := LegacyNodelist(t, nodeId, a);
    if g.Err? then g else Err(TypeError)
  }

  /** As written, no node table ever gives a graph. */
  lemma LegacyNodelistRaises(t: Table, nodeId: Option<string>, a: Names)
    requires WellFormed(t)
    ensures LegacyNodelistAsWritten(t, nodeId, a).Err?
    ensures LegacyNodelist(t, nodeId, a).Ok? ==> LegacyNodelistAsWritten(t, nodeId, a) == Err(TypeError)
  {
  }

  /** The errors: True, a tuple, a name that is not a column, an id column
      that is not selected while there are rows, and a `None` id cell, which
      networkx refuses as a node. */
  lemma LegacyNodelistErrors(t: Table, nodeId: Option<string>, a: Names)
    requires WellFormed(t)
    ensures var r := LegacyNodelist(t, nodeId, a);
      r.Err? <==>
        || a.AllNames? || (a.NameList? && a.isTuple)
        || !(Listed(a) + {GEOM} <= t.columns)
        || (Given(nodeId) && nodeId.value != GEOM && nodeId.value !in Listed(a) && t.rows != [])
        || (Given(nodeId) && NoneIn(t, nodeId.value))
  {
    var c := LegacyNodeColumns(a);
    if c.Ok? {
      assert c.value == Listed(a) + {GEOM};
    }
  }

  /** The graph of a node table whose rows are read: the nodes of the
      items, added in turn to an empty graph. */
  lemma LegacyNodelistIs(t: Table, nodeId: Option<string>, a: Names, g: Graph)
    requires WellFormed(t) && LegacyNodelist(t, nodeId, a) == Ok(g)
    requires !Given(nodeId) || nodeId.value in Listed(a)
    ensures LegacyNodeColumns(a) == Ok(Listed(a) + {GEOM}) && Listed(a) + {GEOM} <= t.columns
    ensures g == AddNodesFrom(Empty(t.crs), LegacyNodeItems(t, Listed(a) + {GEOM}, nodeId))
  {
    assert LegacyNodeColumns(a).value == Listed(a) + {GEOM};
  }

  /** A consistent graph without edges, with the table's crs. */
  lemma LegacyNodelistValid(t: Table, nodeId: Option<string>, a: Names, g: Graph)
    requires WellFormed(t) && LegacyNodelist(t, nodeId, a) == Ok(g)
    ensures Valid(g) && g.edges == map[] && g.crs == t.crs
  {
    var c := LegacyNodeColumns(a);
    if !(Given(nodeId) && nodeId.value !in c.value) {
      AddNodesFromValid(Empty(t.crs), LegacyNodeItems(t, c.value, nodeId));
    }
  }

  /** Without an id column, the nodes are the row numbers in row order,
      each with its selected record, NaN cells included. */
  lemma LegacyNodelistNumbersRows(t: Table, nodeId: Option<string>, a: Names, g: Graph)
    requires WellFormed(t) && !Given(nodeId) && LegacyNodelist(t, nodeId, a) == Ok(g)
    ensures g.order == RowNumbers(|t.rows|)
    ensures forall i :: 0 <= i < |t.rows| ==>
      VInt(i) in g.nodes && g.nodes[VInt(i)] == Restrict(t.rows[i], Listed(a) + {GEOM})
  {
    LegacyNodelistIs(t, nodeId, a, g);
    var sel := Listed(a) + {GEOM};
    var items := LegacyNodeItems(t, sel, nodeId);
    assert Ids(items) == RowNumbers(|t.rows|);
    AddNodesFromFresh(Empty(t.crs), items);
    forall i | 0 <= i < |t.rows|
      ensures VInt(i) in g.nodes && g.nodes[VInt(i)] == Restrict(t.rows[i], sel)
    {
      NumberedNode(Empty(t.crs), items, i);
    }
  }

  /** With a selected id column, the nodes are the ids of the rows. */
  lemma LegacyNodelistIds(t: Table, nodeId: Option<string>, a: Names, g: Graph)
    requires WellFormed(t) && Given(nodeId) && nodeId.value in Listed(a) && LegacyNodelist(t, nodeId, a) == Ok(g)
    ensures forall x :: x in g.nodes <==> exists i :: 0 <= i < |t.rows| && t.rows[i][nodeId.value] == x
  {
    LegacyNodelistIs(t, nodeId, a, g);
    var items := LegacyNodeItems(t, Listed(a) + {GEOM}, nodeId);
    AddNodesFromKeys(Empty(t.crs), items);
    IdCells(t, Listed(a) + {GEOM}, nodeId);
  }

  /** The ids of the items are the cells of the id column. */
  lemma IdCells(t: Table, sel: set<string>, nodeId: Option<string>)
    requires WellFormed(t) && sel <= t.columns && Given(nodeId) && nodeId.value in sel
    ensures forall x :: x in Ids(LegacyNodeItems(t, sel, nodeId)) <==>
      exists i :: 0 <= i < |t.rows| && t.rows[i][nodeId.value] == x
  {
    var items := LegacyNodeItems(t, sel, nodeId);
    forall x
      ensures x in Ids(items) <==> exists i :: 0 <= i < |t.rows| && t.rows[i][nodeId.value] == x
    {
      if x in Ids(items) {
        var i :| 0 <= i < |items| && Ids(items)[i] == x;
      }
      if exists i :: 0 <= i < |t.rows| && t.rows[i][nodeId.value] == x {
        var i :| 0 <= i < |t.rows| && t.rows[i][nodeId.value] == x;
        assert Ids(items)[i] == x;
      }
    }
  }

  /** The id column is not among any node's attributes. */
  lemma LegacyNodelistDropsId(t: Table, nodeId: Option<string>, a: Names, g: Graph)
    requires WellFormed(t) && Given(nodeId) && nodeId.value in Listed(a) && LegacyNodelist(t, nodeId, a) == Ok(g)
    ensures forall x :: x in g.nodes ==> nodeId.value !in g.nodes[x]
  {
    LegacyNodelistIs(t, nodeId, a, g);
    var id := nodeId.value;
    var sel := Listed(a) + {GEOM};
    var items := LegacyNodeItems(t, sel, nodeId);
    forall x | x in g.nodes
      ensures id !in g.nodes[x]
    {
      assert !SetLater(items, 0, x, id) by {
        forall j | 0 <= j < |items|
          ensures id !in items[j].1
        {
          assert items[j].1 == Dropped(Restrict(t.rows[j], sel), id);
        }
      }
      if id in g.nodes[x] {
        AddNodesFromOrigin(Empty(t.crs), items, x, id);
      }
    }
  }

  // ---------------------------------------------------------------------
  // end points and their de-duplication

  /** A shapely point. */
  function PointAt(c: Coord): Value {
    VGeom(Geom([c]))
  }

  /** `ls.boundary.geoms[0]` and `ls.boundary.geoms[1]`: the first and last
      vertices of an open line. A closed line and a point have an empty
      boundary (IndexError); a value that is not a geometry has no
      `boundary` (AttributeError). */
  function LineEnds(v: Value): (r: Result<(Value, Value)>)
    ensures r.Ok? <==> v.VGeom? && |v.g.coords| >= 2 && v.g.coords[0] != v.g.coords[|v.g.coords| - 1]
    ensures r.Ok? ==> r.value.0 == PointAt(v.g.coords[0]) && r.value.1 == PointAt(v.g.coords[|v.g.coords| - 1])
  {
    if !v.VGeom? then Err(AttributeError)
    else if |v.g.coords| < 2 || v.g.coords[0] == v.g.coords[|v.g.coords| - 1] then Err(IndexError)
    else Ok((PointAt(v.g.coords[0]), PointAt(v.g.coords[|v.g.coords| - 1])))
  }

  /** The columns `source_geo` and `target_geo`: the start and the end of
      every row's line, or the error of the first row without them. */
  function EndPoints(rows: seq<Attrs>): (r: Result<(seq<Value>, seq<Value>)>)
    requires forall i :: 0 <= i < |rows| ==> GEOM in rows[i]
    ensures r.Ok? ==> (|r.value.0| == |rows| == |r.value.1| &&
      forall i :: 0 <= i < |rows| ==> LineEnds(rows[i][GEOM]) == Ok((r.value.0[i], r.value.1[i])))
    decreases |rows|
  {
    if rows == [] then Ok(([], []))
    else
      var p := LineEnds(rows[0][GEOM]);
      if p.Err? then Err(p.error)
      else
        var q := EndPoints(rows[1..]);
        if q.Err? then Err(q.error)
        else
          assert forall j :: 1 <= j < |rows| ==> rows[1..][j - 1] == rows[j];
          Ok(([p.value.0] + q.value.0, [p.value.1] + q.value.1))
  }

  /** The end points are found exactly when every row's line has them, and
      otherwise the error is that of the first row without them. */
  lemma {:induction false} EndPointsErrors(rows: seq<Attrs>)
    requires forall i :: 0 <= i < |rows| ==> GEOM in rows[i]
    ensures EndPoints(rows).Ok? <==> forall i :: 0 <= i < |rows| ==> LineEnds(rows[i][GEOM]).Ok?
    ensures EndPoints(rows).Err? ==> exists i :: (0 <= i < |rows| && LineEnds(rows[i][GEOM]) == Err(EndPoints(rows).error) &&
      forall j :: 0 <= j < i ==> LineEnds(rows[j][GEOM]).Ok?)
    decreases |rows|
  {
    if rows != [] && LineEnds(rows[0][GEOM]).Ok? {
      var tail := rows[1..];
      EndPointsErrors(tail);
      assert forall j :: 1 <= j < |rows| ==> tail[j - 1] == rows[j];
      if EndPoints(tail).Err? {
        var i :| 0 <= i < |tail| && LineEnds(tail[i][GEOM]) == Err(EndPoints(tail).error) &&
          forall j :: 0 <= j < i ==> LineEnds(tail[j][GEOM]).Ok?;
        assert LineEnds(rows[i + 1][GEOM]) == Err(EndPoints(rows).error);
        assert forall j :: 0 <= j < i + 1 ==> LineEnds(rows[j][GEOM]).Ok? by {
          forall j | 0 <= j < i + 1
            ensures LineEnds(rows[j][GEOM]).Ok?
          {
            if j > 0 {
              assert LineEnds(tail[j - 1][GEOM]).Ok?;
            }
          }
        }
      }
    }
  }

  /** `drop_duplicates()`: the first occurrence of each value, in order. */
  function Dedup<T(==,!new)>(s: seq<T>): (r: seq<T>)
    ensures Distinct(r)
    ensures forall x :: x in r <==> x in s
    decreases |s|
  {
    if s == [] then []
    else
      var init := s[..|s| - 1];
      assert s == init + [s[|s| - 1]];
      Appended(Dedup(init), s[|s| - 1])
  }

  /** The position of the first occurrence of `x` in `s`. */
  function FirstIndex<T(==)>(s: seq<T>, x: T): (r: nat)
    requires x in s
    ensures r < |s| && s[r] == x
    ensures forall j :: 0 <= j < r ==> s[j] != x
  {
    if s[0] == x then 0 else 1 + FirstIndex(s[1..], x)
  }

  /** An element of a prefix has its first occurrence there. */
  lemma FirstIndexPrefix<T>(s: seq<T>, k: nat, x: T)
    requires k <= |s| && x in s[..k]
    ensures FirstIndex(s[..k], x) == FirstIndex(s, x)
  {
    var a := FirstIndex(s[..k], x);
    var b := FirstIndex(s, x);
    assert s[..k][a] == s[a];
    assert b <= a;
    assert s[..k][b] == s[b];
  }

  /** A value first met at the last position is first found there. */
  lemma FirstIndexLast<T>(s: seq<T>)
    requires s != [] && s[|s| - 1] !in s[..|s| - 1]
    ensures FirstIndex(s, s[|s| - 1]) == |s| - 1
  {
    var f := FirstIndex(s, s[|s| - 1]);
  }

  /** One more value: the de-duplication grows by it when it is new. */
  lemma DedupStep<T(!new)>(s: seq<T>)
    requires s != []
    ensures var init := s[..|s| - 1]; var x := s[|s| - 1];
      Dedup(s) == if x in init then Dedup(init) else Dedup(init) + [x]
  {
  }

  /** The values are kept in the order of their first occurrences. */
  lemma {:induction false} DedupOrder<T(!new)>(s: seq<T>)
    ensures var r := Dedup(s);
      forall i, j :: 0 <= i < j < |r| ==> FirstIndex(s, r[i]) < FirstIndex(s, r[j])
    decreases |s|
  {
    if s != [] {
      var n := |s| - 1;
      var init := s[..n];
      var d := Dedup(init);
      var r := Dedup(s);
      DedupOrder(init);
      DedupStep(s);
      forall i, j | 0 <= i < j < |r|
        ensures FirstIndex(s, r[i]) < FirstIndex(s, r[j])
      {
        assert r[i] == d[i] && r[i] in init;
        FirstIndexPrefix(s, n, r[i]);
        if j < |d| {
          assert r[j] == d[j] && r[j] in init;
          FirstIndexPrefix(s, n, r[j]);
        } else {
          assert r[j] == s[n] && s[n] !in init;
          FirstIndexLast(s);
        }
      }
    }
  }

  // ---------------------------------------------------------------------
  // from_geopandas_edgelist

  /** What the first version's `from_geopandas_edgelist` needs from
      outside: the length of a geometry, the EPSG code of a crs, and the
      edge table whose geometry is the shortest line between the
      geometries of its end nodes (the two `pd.merge` and `shortest_line`),
      or the error they raise. */
  datatype LegacyOps = LegacyOps(
    length: Value -> real,
    toEpsg: Value -> Value,
    nodeLines: (Frame, Frame, string, string, string) -> Result<Frame>)

  /** A node row derived from an end column: the id and the point. */
  function EndRecord(nodeId: string, id: Value, p: Value): Attrs {
    map[nodeId := id, GEOM := p]
  }

  /** The records of both end columns, renamed to the id and the geometry,
      the sources before the targets. */
  function EndRecords(e: Frame, source: string, target: string, nodeId: string,
                      starts: seq<Value>, ends: seq<Value>): (r: seq<Attrs>)
    requires source in e.columns && target in e.columns && |starts| == |ends| == |e.rows|
    ensures |r| == 2 * |e.rows|
    ensures forall i :: 0 <= i < |e.rows| ==>
      r[i] == EndRecord(nodeId, e.rows[i][source], starts[i]) &&
      r[|e.rows| + i] == EndRecord(nodeId, e.rows[i][target], ends[i])
  {
    seq(|e.rows|, i requires 0 <= i < |e.rows| => EndRecord(nodeId, e.rows[i][source], starts[i])) +
    seq(|e.rows|, i requires 0 <= i < |e.rows| => EndRecord(nodeId, e.rows[i][target], ends[i]))
  }

  /** The node table of the end columns: the distinct (id, point) records. */
  function EndNodes(e: Frame, source: string, target: string, nodeId: string,
                    starts: seq<Value>, ends: seq<Value>): Frame
    requires source in e.columns && target in e.columns && |starts| == |ends| == |e.rows|
  {
    var s := EndRecords(e, source, target, nodeId, starts, ends);
    var rows := Dedup(s);
    assert forall i :: 0 <= i < |rows| ==> rows[i].Keys == {nodeId, GEOM} by {
      forall i | 0 <= i < |rows|
        ensures rows[i].Keys == {nodeId, GEOM}
      {
        assert rows[i] in s;
      }
    }
    Table({nodeId, GEOM}, rows, VNone)
  }

  /** The node dictionary of the end records. */
  function EndDict(e: Frame, source: string, target: string, nodeId: string,
                   starts: seq<Value>, ends: seq<Value>): map<NodeId, Attrs>
    requires source in e.columns && target in e.columns && |starts| == |ends| == |e.rows|
  {
    var n := EndNodes(e, source, target, nodeId, starts, ends);
    assert forall i :: 0 <= i < |n.rows| ==> n.rows[i].Keys == n.columns;
    NodeDict(n.rows, nodeId)
  }

  /** Every start and every end is among the de-duplicated points. */
  lemma EndsAmongPoints(starts: seq<Value>, ends: seq<Value>)
    ensures forall i :: 0 <= i < |starts| ==> starts[i] in Dedup(starts + ends)
    ensures forall i :: 0 <= i < |ends| ==> ends[i] in Dedup(starts + ends)
  {
    forall i | 0 <= i < |starts|
      ensures starts[i] in starts + ends
    {
      assert (starts + ends)[i] == starts[i];
    }
    forall i | 0 <= i < |ends|
      ensures ends[i] in starts + ends
    {
      assert (starts + ends)[|starts| + i] == ends[i];
    }
  }

  /** The edge table once its end columns hold the numbers of its start and
      end among `points`. */
  function NumberedEnds(e: Frame, source: string, target: string,
                        starts: seq<Value>, ends: seq<Value>, points: seq<Value>): Frame
    requires |starts| == |ends| == |e.rows|
    requires forall i :: 0 <= i < |e.rows| ==> starts[i] in points && ends[i] in points
  {
    Table(e.columns + {source, target},
      seq(|e.rows|, i requires 0 <= i < |e.rows| =>
        e.rows[i][source := VInt(FirstIndex(points, starts[i]))][target := VInt(FirstIndex(points, ends[i]))]),
      e.crs)
  }

  /** The node table of the numbered points: geometry and number. */
  function NumberedNodes(points: seq<Value>, nodeId: string, crs: Value): Frame {
    Table({GEOM, nodeId}, seq(|points|, k requires 0 <= k < |points| => map[GEOM := points[k], nodeId := VInt(k)]), crs)
  }

  /** The edge and node tables after the branch on where the geometries
      are: edge geometries derived from the nodes when only the node table
      has them; without a node table, nodes derived from the end points of
      the lines, with the ids of the end columns when there is a `source`
      column and numbered by first appearance otherwise. */
  function LegacyPrepared(e: Frame, nodes: Option<Frame>, source: string, target: string, nodeId: string,
                          ops: LegacyOps): Result<(Frame, Frame)>
  {
    if nodes.Some? && GEOM in nodes.value.columns && GEOM !in e.columns then
      if nodes.value.crs == VNone then Err(AttributeError)
      else
        var d := ops.nodeLines(e, nodes.value, source, target, nodeId);
        if d.Err? then Err(d.error)
        else Ok((Table(d.value.columns, d.value.rows, ops.toEpsg(nodes.value.crs)), nodes.value))
    else if nodes.Some? then Ok((e, nodes.value))
    else if e.crs == VNone then Err(AttributeError)
    else if GEOM !in e.columns then Err(KeyError)
    else
      var p := EndPoints(e.rows);
      if p.Err? then Err(p.error)
      else if source in e.columns then
        if target !in e.columns then Err(KeyError)
        else Ok((e, EndNodes(e, source, target, nodeId, p.value.0, p.value.1)))
      else if target in e.columns || target == source then Err(ValueError)
      else
        var points := Dedup(p.value.0 + p.value.1);
        EndsAmongPoints(p.value.0, p.value.1);
        Ok((NumberedEnds(e, source, target, p.value.0, p.value.1, points),
            NumberedNodes(points, nodeId, ops.toEpsg(e.crs))))
  }

  /** `{row[node_id]: rest of row for row in records}`: a later row with the
      same id replaces the whole dictionary. */
  function NodeDict(rows: seq<Attrs>, id: string): map<NodeId, Attrs>
    requires forall i :: 0 <= i < |rows| ==> id in rows[i]
    decreases |rows|
  {
    if rows == [] then map[]
    else
      var last := rows[|rows| - 1];
      NodeDict(rows[..|rows| - 1], id)[last[id] := Dropped(last, id)]
  }

  /** `nx.set_node_attributes(g, d)`: each node of `g` that `d` has is
      updated with its dictionary; the other keys of `d` are skipped. */
  function SetNodeAttributes(g: Graph, d: map<NodeId, Attrs>): (r: Graph)
    ensures r.nodes.Keys == g.nodes.Keys
    ensures r.order == g.order && r.adj == g.adj && r.edges == g.edges && r.crs == g.crs
  {
    g.(nodes := map x | x in g.nodes :: if x in d then g.nodes[x] + d[x] else g.nodes[x])
  }

  /** The steps after the weight: networkx builds the edge graph from the
      end columns `ends`, the node records set the attributes of the nodes
      it has, and the crs is set. */
  function LegacyAssemble(w: Frame, n: Frame, nodesGiven: bool, edgeAttr: Names, nodeId: string,
                          toEpsg: Value -> Value, ends: (string, string)): Result<Graph>
  {
    var eg := EdgeGraph(w, ends.0, ends.1, EdgeColumns(w.columns, ends.0, ends.1, edgeAttr));
    if eg.Err? then Err(eg.error)
    else if n.rows != [] && nodeId !in n.columns then Err(KeyError)
    else
      var crs := GraphCrs(w, n, nodesGiven, toEpsg);
      if crs.Err? then Err(crs.error)
      else Ok(SetNodeAttributes(eg.value, NodeDict(n.rows, nodeId)).(crs := crs.value))
  }

  /** The graph the first version's `from_geopandas_edgelist` builds, from
      the end columns `ends`. */
  function LegacyBuild(e: Frame, nodes: Option<Frame>, source: string, target: string, edgeAttr: Names,
                       nodeId: string, ops: LegacyOps, ends: (string, string)): Result<Graph>
  {
    var p := LegacyPrepared(e, nodes, source, target, nodeId, ops);
    if p.Err? then Err(p.error)
    else
      var w := WithWeight(p.value.0, ops.length);
      if w.Err? then Err(w.error)
      else LegacyAssemble(w.value, p.value.1, nodes.Some?, edgeAttr, nodeId, ops.toEpsg, ends)
  }

  /** The first version's `from_geopandas_edgelist`, with the corrections
      listed under Findings: a tuple of edge columns selects like a list,
      networkx reads the ends from the columns the caller names, and the
      graph built is the one returned. */
  function LegacyEdgelist(e: Frame, nodes: Option<Frame>, source: string, target: string, edgeAttr: Names,
                          nodeId: string, ops: LegacyOps): Result<Graph>
  {
    LegacyBuild(e, nodes, source, target, edgeAttr, nodeId, ops, (source, target))
  }

  /** The first version's `from_geopandas_edgelist` as written: a tuple of
      edge columns raises, networkx reads the ends from its default columns,
      and `GeoGraph(geo_gr)` passes the graph built as the `crs` of a new
      graph without nodes or edges. That crs is the graph object itself,
      which a `Value` cannot hold; the result carries `VNone` in its place. */
  function LegacyEdgelistAsWritten(e: Frame, nodes: Option<Frame>, source: string, target: string, edgeAttr: Names,
                                   nodeId: string, ops: LegacyOps): (r: Result<Graph>)
    ensures r.Ok? ==> r.value.nodes == map[] && r.value.edges == map[]
    ensures edgeAttr.NameList? && edgeAttr.isTuple ==> r == Err(TypeError)
  {
    if edgeAttr.NameList? && edgeAttr.isTuple then Err(TypeError)
    else
      var g := LegacyBuild(e, nodes, source, target, edgeAttr, nodeId, ops, ("source", "target"));
      if g.Err? then Err(g.error) else Ok(Empty(VNone))
  }

  // ---------------------------------------------------------------------
  // properties of from_geopandas_edgelist

  /** The node table has the geometries and the edge table not: the edge
      geometries are derived from the nodes. */
  predicate LinesFromNodes(e: Frame, nodes: Option<Frame>) {
    nodes.Some? && GEOM in nodes.value.columns && GEOM !in e.columns
  }

  /** The steps of the corrected `from_geopandas_edgelist` that succeed when
      it does: the prepared tables `pe` and `n`, the weighted table `w`, the
      edge graph `eg` and the crs. */
  lemma LegacySteps(e: Frame, nodes: Option<Frame>, source: string, target: string, edgeAttr: Names,
                    nodeId: string, ops: LegacyOps, g: Graph)
    returns (pe: Frame, n: Frame, w: Frame, eg: Graph, crs: Value)
    requires LegacyEdgelist(e, nodes, source, target, edgeAttr, nodeId, ops) == Ok(g)
    ensures LegacyPrepared(e, nodes, source, target, nodeId, ops) == Ok((pe, n))
    ensures WithWeight(pe, ops.length) == Ok(w)
    ensures EdgeGraph(w, source, target, EdgeColumns(w.columns, source, target, edgeAttr)) == Ok(eg)
    ensures n.rows == [] || nodeId in n.columns
    ensures GraphCrs(w, n, nodes.Some?, ops.toEpsg) == Ok(crs)
    ensures g == SetNodeAttributes(eg, NodeDict(n.rows, nodeId)).(crs := crs)
  {
    var p := LegacyPrepared(e, nodes, source, target, nodeId, ops).value;
    pe, n := p.0, p.1;
    w := WithWeight(pe, ops.length).value;
    eg := EdgeGraph(w, source, target, EdgeColumns(w.columns, source, target, edgeAttr)).value;
    crs := GraphCrs(w, n, nodes.Some?, ops.toEpsg).value;
  }

  /** Outside the derived-geometry branch the edge table is used as it is
      whenever it has the end columns, and a given node table is used as it
      is. */
  lemma PreparedKeeps(e: Frame, nodes: Option<Frame>, source: string, target: string, nodeId: string,
                      ops: LegacyOps, pe: Frame, n: Frame)
    requires LegacyPrepared(e, nodes, source, target, nodeId, ops) == Ok((pe, n))
    ensures nodes.Some? ==> n == nodes.value
    ensures !LinesFromNodes(e, nodes) ==> pe.crs == e.crs
    ensures !LinesFromNodes(e, nodes) && source in e.columns ==> pe == e
  {
  }

  /** The steps when the edge table is used as it is: the weighted table
      `w` and the edge graph `eg`, whose nodes and edges the result has. */
  lemma OwnSteps(e: Frame, nodes: Option<Frame>, source: string, target: string, edgeAttr: Names,
                 nodeId: string, ops: LegacyOps, g: Graph)
    returns (w: Frame, eg: Graph)
    requires LegacyEdgelist(e, nodes, source, target, edgeAttr, nodeId, ops) == Ok(g)
    requires !LinesFromNodes(e, nodes) && source in e.columns && target in e.columns
    ensures WithWeight(e, ops.length) == Ok(w)
    ensures EdgeGraph(w, source, target, EdgeColumns(w.columns, source, target, edgeAttr)) == Ok(eg)
    ensures g.nodes.Keys == eg.nodes.Keys && g.edges == eg.edges
  {
    var pe, n, crs;
    pe, n, w, eg, crs := LegacySteps(e, nodes, source, target, edgeAttr, nodeId, ops, g);
    PreparedKeeps(e, nodes, source, target, nodeId, ops, pe, n);
  }

  /** The steps with a node table: the edge graph `eg`, whose nodes get the
      node records. */
  lemma GivenSteps(e: Frame, n: Frame, source: string, target: string, edgeAttr: Names,
                   nodeId: string, ops: LegacyOps, g: Graph)
    returns (w: Frame, eg: Graph, crs: Value)
    requires LegacyEdgelist(e, Some(n), source, target, edgeAttr, nodeId, ops) == Ok(g)
    ensures EdgeGraph(w, source, target, EdgeColumns(w.columns, source, target, edgeAttr)) == Ok(eg)
    ensures n.rows == [] || nodeId in n.columns
    ensures g == SetNodeAttributes(eg, NodeDict(n.rows, nodeId)).(crs := crs)
  {
    var pe, n';
    pe, n', w, eg, crs := LegacySteps(e, Some(n), source, target, edgeAttr, nodeId, ops, g);
    PreparedKeeps(e, Some(n), source, target, nodeId, ops, pe, n');
  }

  /** Updating the nodes of a graph whose nodes have empty dictionaries
      gives each the dictionary `d` has for it, or keeps it empty. */
  lemma SetBareNodes(g: Graph, d: map<NodeId, Attrs>)
    requires forall x :: x in g.nodes ==> g.nodes[x] == map[]
    ensures forall x :: x in SetNodeAttributes(g, d).nodes ==>
      SetNodeAttributes(g, d).nodes[x] == if x in d then d[x] else map[]
  {
    var r := SetNodeAttributes(g, d);
    forall x | x in r.nodes
      ensures r.nodes[x] == if x in d then d[x] else map[]
    {
      if x in d {
        assert r.nodes[x] == map[] + d[x];
        assert map[] + d[x] == d[x];
      }
    }
  }

  /** Updating the dictionaries of existing nodes keeps a graph consistent. */
  lemma SetNodeAttributesValid(g: Graph, d: map<NodeId, Attrs>)
    requires Valid(g)
    ensures Valid(SetNodeAttributes(g, d))
  {
  }

  /** The corrected result is consistent. */
  lemma LegacyEdgelistValid(e: Frame, nodes: Option<Frame>, source: string, target: string, edgeAttr: Names,
                            nodeId: string, ops: LegacyOps, g: Graph)
    requires LegacyEdgelist(e, nodes, source, target, edgeAttr, nodeId, ops) == Ok(g)
    ensures Valid(g)
  {
    var pe, n, w, eg, crs := LegacySteps(e, nodes, source, target, edgeAttr, nodeId, ops, g);
    EdgeGraphValid(w, source, target, EdgeColumns(w.columns, source, target, edgeAttr), eg);
    SetNodeAttributesValid(eg, NodeDict(n.rows, nodeId));
    ValidWithCrs(SetNodeAttributes(eg, NodeDict(n.rows, nodeId)), crs);
  }

  /** The result has the EPSG code of the edge table's crs, or of the node
      table's when the edge table has none (then a node table was given). */
  lemma LegacyEdgelistCrs(e: Frame, nodes: Option<Frame>, source: string, target: string, edgeAttr: Names,
                          nodeId: string, ops: LegacyOps, g: Graph)
    requires LegacyEdgelist(e, nodes, source, target, edgeAttr, nodeId, ops) == Ok(g)
    requires !LinesFromNodes(e, nodes)
    ensures Truthy(e.crs) ==> g.crs == ops.toEpsg(e.crs)
    ensures !Truthy(e.crs) ==> nodes.Some? && g.crs == ops.toEpsg(nodes.value.crs)
  {
    var pe, n, w, eg, crs := LegacySteps(e, nodes, source, target, edgeAttr, nodeId, ops, g);
    PreparedKeeps(e, nodes, source, target, nodeId, ops, pe, n);
  }

  /** With the corrections, the edges of the result are the end pairs the
      rows give in the caller's columns. */
  lemma LegacyEdgelistEdges(e: Frame, nodes: Option<Frame>, source: string, target: string, edgeAttr: Names,
                            nodeId: string, ops: LegacyOps, g: Graph)
    requires LegacyEdgelist(e, nodes, source, target, edgeAttr, nodeId, ops) == Ok(g)
    requires !LinesFromNodes(e, nodes) && source in e.columns && target in e.columns
    ensures forall x :: x in g.edges <==> exists i :: 0 <= i < |e.rows| && x == Pair(e.rows[i][source], e.rows[i][target])
  {
    var w, eg := OwnSteps(e, nodes, source, target, edgeAttr, nodeId, ops, g);
    EdgeGraphEdges(w, source, target, EdgeColumns(w.columns, source, target, edgeAttr), eg);
    WeightedPairs(e, ops.length, w, source, target);
    SameEdgeSet(e, w, source, target, eg, g);
  }

  /** With the corrections, the nodes of the result are the cells of the
      caller's end columns (node records of other ids are skipped). */
  lemma LegacyNodeKeys(e: Frame, nodes: Option<Frame>, source: string, target: string, edgeAttr: Names,
                       nodeId: string, ops: LegacyOps, g: Graph)
    requires LegacyEdgelist(e, nodes, source, target, edgeAttr, nodeId, ops) == Ok(g)
    requires !LinesFromNodes(e, nodes) && source in e.columns && target in e.columns
    ensures forall x :: x in g.nodes <==>
      exists i :: 0 <= i < |e.rows| && (e.rows[i][source] == x || e.rows[i][target] == x)
  {
    var w, eg := OwnSteps(e, nodes, source, target, edgeAttr, nodeId, ops, g);
    GraphEndCells(w, source, target, EdgeColumns(w.columns, source, target, edgeAttr), eg);
    WeightedCells(e, ops.length, w, source, target);
    SameNodeSet(e, w, source, target, eg.nodes.Keys, g);
  }

  /** Nodes given by the cells of the weighted table are those given by the
      cells of the table. */
  lemma SameNodeSet(e: Frame, w: Frame, source: string, target: string, keys: set<NodeId>, g: Graph)
    requires source in e.columns && target in e.columns && source in w.columns && target in w.columns
    requires |w.rows| == |e.rows|
    requires forall i :: 0 <= i < |e.rows| ==>
      w.rows[i][source] == e.rows[i][source] && w.rows[i][target] == e.rows[i][target]
    requires EndCellNodes(w, source, target, keys)
    requires g.nodes.Keys == keys
    ensures forall x :: x in g.nodes <==>
      exists i :: 0 <= i < |e.rows| && (e.rows[i][source] == x || e.rows[i][target] == x)
  {
    forall x
      ensures x in g.nodes <==> exists i :: 0 <= i < |e.rows| && (e.rows[i][source] == x || e.rows[i][target] == x)
    {
      if x in g.nodes {
        assert x in keys;
        var i :| 0 <= i < |w.rows| && (w.rows[i][source] == x || w.rows[i][target] == x);
        assert e.rows[i][source] == x || e.rows[i][target] == x;
      }
      if exists i :: 0 <= i < |e.rows| && (e.rows[i][source] == x || e.rows[i][target] == x) {
        var i :| 0 <= i < |e.rows| && (e.rows[i][source] == x || e.rows[i][target] == x);
        assert w.rows[i][source] == x || w.rows[i][target] == x;
        assert x in keys;
      }
    }
  }

  /** The ids of the node dictionary are the id cells of the records. */
  lemma {:induction false} NodeDictKeys(rows: seq<Attrs>, id: string)
    requires forall i :: 0 <= i < |rows| ==> id in rows[i]
    ensures forall x :: x in NodeDict(rows, id) <==> exists i :: 0 <= i < |rows| && rows[i][id] == x
    decreases |rows|
  {
    if rows != [] {
      var init := rows[..|rows| - 1];
      NodeDictKeys(init, id);
      forall x
        ensures x in NodeDict(rows, id) <==> exists i :: 0 <= i < |rows| && rows[i][id] == x
      {
        if exists i :: 0 <= i < |init| && init[i][id] == x {
          var i :| 0 <= i < |init| && init[i][id] == x;
          assert rows[i] == init[i];
        }
        if exists i :: 0 <= i < |rows| && rows[i][id] == x {
          var i :| 0 <= i < |rows| && rows[i][id] == x;
          if i < |init| {
            assert init[i] == rows[i];
          }
        }
      }
    }
  }

  /** A record whose id no later record has gives the dictionary of that
      id: the record without its id cell. */
  lemma {:induction false} NodeDictLastWins(rows: seq<Attrs>, id: string, i: int)
    requires forall j :: 0 <= j < |rows| ==> id in rows[j]
    requires 0 <= i < |rows| && forall j :: i < j < |rows| ==> rows[j][id] != rows[i][id]
    ensures rows[i][id] in NodeDict(rows, id) && NodeDict(rows, id)[rows[i][id]] == Dropped(rows[i], id)
    decreases |rows|
  {
    if i < |rows| - 1 {
      var init := rows[..|rows| - 1];
      assert init[i] == rows[i];
      NodeDictLastWins(init, id, i);
    }
  }

  /** With a node table, each node has the record of its id, without the id
      cell, or an empty dictionary when no record has its id. */
  lemma LegacyNodeAttributes(e: Frame, n: Frame, source: string, target: string, edgeAttr: Names,
                             nodeId: string, ops: LegacyOps, g: Graph)
    requires LegacyEdgelist(e, Some(n), source, target, edgeAttr, nodeId, ops) == Ok(g)
    ensures n.rows == [] || nodeId in n.columns
    ensures forall x :: x in g.nodes ==>
      g.nodes[x] == if x in NodeDict(n.rows, nodeId) then NodeDict(n.rows, nodeId)[x] else map[]
  {
    var w, eg, crs := GivenSteps(e, n, source, target, edgeAttr, nodeId, ops, g);
    EdgeGraphBare(w, source, target, EdgeColumns(w.columns, source, target, edgeAttr), eg);
    SetBareNodes(eg, NodeDict(n.rows, nodeId));
  }

  /** Without a weight column, the weight of each edge is the length of
      the geometry of the last row giving it. */
  lemma LegacyDefaultWeight(e: Frame, nodes: Option<Frame>, source: string, target: string, edgeAttr: Names,
                            nodeId: string, ops: LegacyOps, g: Graph, i: int)
    requires LegacyEdgelist(e, nodes, source, target, edgeAttr, nodeId, ops) == Ok(g)
    requires !LinesFromNodes(e, nodes)
    requires GEOM in e.columns && WEIGHT !in e.columns && source in e.columns && target in e.columns
    requires 0 <= i < |e.rows| && LastOfPair(e, source, target, i)
    ensures var x := RowPair(e, source, target, i);
      x in g.edges && WEIGHT in g.edges[x] && g.edges[x][WEIGHT] == VFloat(ops.length(e.rows[i][GEOM]))
  {
    var w, eg := OwnSteps(e, nodes, source, target, edgeAttr, nodeId, ops, g);
    WeightedPairs(e, ops.length, w, source, target);
    WeightSelected(w.columns, source, target, edgeAttr);
    WeightedLastWins(e, ops.length, w, source, target, EdgeColumns(w.columns, source, target, edgeAttr), eg, i);
  }

  /** The code as written returns a graph without nodes where the corrected
      one has the ends of the rows as nodes. */
  lemma LegacyEdgelistLosesGraph(e: Frame, nodes: Option<Frame>, edgeAttr: Names, nodeId: string,
                                 ops: LegacyOps, g: Graph)
    requires !(edgeAttr.NameList? && edgeAttr.isTuple) && !LinesFromNodes(e, nodes)
    requires "source" in e.columns && "target" in e.columns && e.rows != []
    requires LegacyEdgelist(e, nodes, "source", "target", edgeAttr, nodeId, ops) == Ok(g)
    ensures LegacyEdgelistAsWritten(e, nodes, "source", "target", edgeAttr, nodeId, ops) == Ok(Empty(VNone))
    ensures e.rows[0]["source"] in g.nodes
  {
    LegacyNodeKeys(e, nodes, "source", "target", edgeAttr, nodeId, ops, g);
  }

  /** End columns named otherwise than `source` and `target` make the code
      as written raise KeyError when the edge table has its geometry and
      weight and no column `source`. */
  lemma LegacyOtherEndsRaise(e: Frame, n: Frame, source: string, target: string, nodeId: string, ops: LegacyOps)
    requires GEOM in e.columns && WEIGHT in e.columns && "source" !in e.columns
    ensures LegacyEdgelistAsWritten(e, Some(n), source, target, NoNames, nodeId, ops) == Err(KeyError)
  {
    assert LegacyPrepared(e, Some(n), source, target, nodeId, ops) == Ok((e, n));
  }

  // ---------------------------------------------------------------------
  // nodes derived from the end points of the lines

  /** Without a node table or end columns, the prepared tables are the edge
      table with its ends numbered and the numbered points. */
  lemma PreparedNumbered(e: Frame, source: string, target: string, nodeId: string, ops: LegacyOps,
                         starts: seq<Value>, ends: seq<Value>, pe: Frame, n: Frame)
    requires GEOM in e.columns && source !in e.columns
    requires EndPoints(e.rows) == Ok((starts, ends))
    requires LegacyPrepared(e, None, source, target, nodeId, ops) == Ok((pe, n))
    ensures target !in e.columns && target != source
    ensures forall i :: 0 <= i < |e.rows| ==> starts[i] in Dedup(starts + ends) && ends[i] in Dedup(starts + ends)
    ensures pe == NumberedEnds(e, source, target, starts, ends, Dedup(starts + ends))
    ensures n == NumberedNodes(Dedup(starts + ends), nodeId, ops.toEpsg(e.crs))
  {
    EndsAmongPoints(starts, ends);
  }

  /** The steps without a node table or end columns: the weighted table
      `w` of the numbered edge table and the edge graph `eg`; the nodes get
      the numbered points. */
  lemma NumberedSteps(e: Frame, source: string, target: string, edgeAttr: Names, nodeId: string,
                      ops: LegacyOps, g: Graph, starts: seq<Value>, ends: seq<Value>)
    returns (w: Frame, eg: Graph)
    requires GEOM in e.columns && source !in e.columns
    requires EndPoints(e.rows) == Ok((starts, ends))
    requires LegacyEdgelist(e, None, source, target, edgeAttr, nodeId, ops) == Ok(g)
    ensures target !in e.columns && target != source
    ensures forall i :: 0 <= i < |e.rows| ==> starts[i] in Dedup(starts + ends) && ends[i] in Dedup(starts + ends)
    ensures WithWeight(NumberedEnds(e, source, target, starts, ends, Dedup(starts + ends)), ops.length) == Ok(w)
    ensures EdgeGraph(w, source, target, EdgeColumns(w.columns, source, target, edgeAttr)) == Ok(eg)
    ensures g.edges == eg.edges && g.nodes.Keys == eg.nodes.Keys
    ensures g.nodes == SetNodeAttributes(eg, NodeDict(NumberedNodes(Dedup(starts + ends), nodeId, ops.toEpsg(e.crs)).rows, nodeId)).nodes
  {
    var pe, n, crs;
    pe, n, w, eg, crs := LegacySteps(e, None, source, target, edgeAttr, nodeId, ops, g);
    PreparedNumbered(e, source, target, nodeId, ops, starts, ends, pe, n);
  }

  /** The numbered end cells of the weighted table are the positions of the
      start and end points among the distinct points. */
  lemma NumberedCells(e: Frame, source: string, target: string, starts: seq<Value>, ends: seq<Value>,
                      length: Value -> real, w: Frame)
    requires source != target && |starts| == |ends| == |e.rows|
    requires forall i :: 0 <= i < |e.rows| ==> starts[i] in Dedup(starts + ends) && ends[i] in Dedup(starts + ends)
    requires WithWeight(NumberedEnds(e, source, target, starts, ends, Dedup(starts + ends)), length) == Ok(w)
    ensures source in w.columns && target in w.columns && |w.rows| == |e.rows|
    ensures forall i :: 0 <= i < |e.rows| ==>
      w.rows[i][source] == VInt(FirstIndex(Dedup(starts + ends), starts[i])) &&
      w.rows[i][target] == VInt(FirstIndex(Dedup(starts + ends), ends[i]))
  {
    var pe := NumberedEnds(e, source, target, starts, ends, Dedup(starts + ends));
    WeightedCells(pe, length, w, source, target);
  }

  /** Each distinct point is the start or the end of some row. */
  lemma PointOfRow(starts: seq<Value>, ends: seq<Value>, k: int)
    requires |starts| == |ends| && 0 <= k < |Dedup(starts + ends)|
    ensures exists i :: 0 <= i < |starts| && (starts[i] == Dedup(starts + ends)[k] || ends[i] == Dedup(starts + ends)[k])
  {
    var p := Dedup(starts + ends)[k];
    assert p in starts + ends;
    var j :| 0 <= j < |starts + ends| && (starts + ends)[j] == p;
    if j < |starts| {
      assert starts[j] == p;
    } else {
      assert ends[j - |starts|] == p;
    }
  }

  /** In a sequence without repetition, an element is first found where
      it is. */
  lemma DistinctIndex<T>(s: seq<T>, k: int)
    requires Distinct(s) && 0 <= k < |s|
    ensures FirstIndex(s, s[k]) == k
  {
  }

  /** A table whose end cells hold the positions of the start and end
      points of its rows among `points`, which has no repetition. */
  predicate NumberedCellsOf(w: Frame, source: string, target: string, starts: seq<Value>, ends: seq<Value>,
                            points: seq<Value>)
  {
    && source in w.columns && target in w.columns && |w.rows| == |starts| == |ends| && Distinct(points)
    && forall i :: 0 <= i < |w.rows| ==>
      && starts[i] in points && ends[i] in points
      && w.rows[i][source] == VInt(FirstIndex(points, starts[i]))
      && w.rows[i][target] == VInt(FirstIndex(points, ends[i]))
  }

  /** The edges of the graph of such a table join the numbers of the start
      and end points of each row. */
  lemma NumberedEdgeSet(w: Frame, source: string, target: string, starts: seq<Value>, ends: seq<Value>,
                        points: seq<Value>, eg: Graph, g: Graph)
    requires NumberedCellsOf(w, source, target, starts, ends, points)
    requires forall x :: x in eg.edges <==> exists i :: 0 <= i < |w.rows| && x == RowPair(w, source, target, i)
    requires g.edges == eg.edges
    ensures forall x :: x in g.edges <==> exists i :: (0 <= i < |starts| && starts[i] in points && ends[i] in points &&
      x == Pair(VInt(FirstIndex(points, starts[i])), VInt(FirstIndex(points, ends[i]))))
  {
    forall x
      ensures x in g.edges <==> exists i :: (0 <= i < |starts| && starts[i] in points && ends[i] in points &&
        x == Pair(VInt(FirstIndex(points, starts[i])), VInt(FirstIndex(points, ends[i]))))
    {
      if x in g.edges {
        var i :| 0 <= i < |w.rows| && x == RowPair(w, source, target, i);
        assert x == Pair(VInt(FirstIndex(points, starts[i])), VInt(FirstIndex(points, ends[i])));
      }
      if exists i :: (0 <= i < |starts| && starts[i] in points && ends[i] in points &&
        x == Pair(VInt(FirstIndex(points, starts[i])), VInt(FirstIndex(points, ends[i]))))
      {
        var i :| 0 <= i < |starts| && starts[i] in points && ends[i] in points &&
          x == Pair(VInt(FirstIndex(points, starts[i])), VInt(FirstIndex(points, ends[i])));
        assert x == RowPair(w, source, target, i);
      }
    }
  }

  /** `nodes` are the cells of the end columns of `w`. */
  ghost predicate EndCellNodes(w: Frame, source: string, target: string, nodes: set<NodeId>)
    requires source in w.columns && target in w.columns
  {
    forall x :: x in nodes <==> exists i :: 0 <= i < |w.rows| && (w.rows[i][source] == x || w.rows[i][target] == x)
  }

  /** The nodes of the graph of an edge table are the cells of its end
      columns. */
  lemma GraphEndCells(w: Frame, source: string, target: string, sel: set<string>, eg: Graph)
    requires EdgeGraph(w, source, target, sel) == Ok(eg)
    ensures source in w.columns && target in w.columns && EndCellNodes(w, source, target, eg.nodes.Keys)
  {
    EdgeGraphNodes(w, source, target, sel, eg);
  }

  /** The nodes of the graph of such a table are numbers of points. */
  lemma NumberedNodesNumbered(w: Frame, source: string, target: string, starts: seq<Value>, ends: seq<Value>,
                              points: seq<Value>, nodes: set<NodeId>)
    requires NumberedCellsOf(w, source, target, starts, ends, points)
    requires EndCellNodes(w, source, target, nodes)
    ensures forall x :: x in nodes ==> x.VInt? && 0 <= x.i < |points|
  {
    forall x | x in nodes
      ensures x.VInt? && 0 <= x.i < |points|
    {
      var i :| 0 <= i < |w.rows| && (w.rows[i][source] == x || w.rows[i][target] == x);
    }
  }

  /** A point that some row starts or ends at has its number among the
      nodes. */
  lemma NumberIsNode(w: Frame, source: string, target: string, starts: seq<Value>, ends: seq<Value>,
                     points: seq<Value>, nodes: set<NodeId>, i: int, k: int)
    requires NumberedCellsOf(w, source, target, starts, ends, points)
    requires EndCellNodes(w, source, target, nodes)
    requires 0 <= i < |starts| && 0 <= k < |points| && (starts[i] == points[k] || ends[i] == points[k])
    ensures VInt(k) in nodes
  {
    DistinctIndex(points, k);
    if starts[i] == points[k] {
      assert w.rows[i][source] == VInt(k);
    } else {
      assert w.rows[i][target] == VInt(k);
    }
  }

  /** The number of each distinct point is a node of the graph of such a
      table. */
  lemma NumbersAreNodes(w: Frame, source: string, target: string, starts: seq<Value>, ends: seq<Value>,
                        points: seq<Value>, nodes: set<NodeId>)
    requires points == Dedup(starts + ends)
    requires NumberedCellsOf(w, source, target, starts, ends, points)
    requires EndCellNodes(w, source, target, nodes)
    ensures forall k :: 0 <= k < |points| ==> VInt(k) in nodes
  {
    forall k | 0 <= k < |points|
      ensures VInt(k) in nodes
    {
      PointOfRow(starts, ends, k);
      var i :| 0 <= i < |starts| && (starts[i] == points[k] || ends[i] == points[k]);
      NumberIsNode(w, source, target, starts, ends, points, nodes, i, k);
    }
  }

  /** The nodes of the graph of such a table are the numbers of the
      distinct points. */
  lemma NumberedNodesOf(w: Frame, source: string, target: string, sel: set<string>, starts: seq<Value>,
                        ends: seq<Value>, eg: Graph)
    requires NumberedCellsOf(w, source, target, starts, ends, Dedup(starts + ends))
    requires EdgeGraph(w, source, target, sel) == Ok(eg)
    ensures forall x :: x in eg.nodes ==> x.VInt? && 0 <= x.i < |Dedup(starts + ends)|
    ensures forall k :: 0 <= k < |Dedup(starts + ends)| ==> VInt(k) in eg.nodes
  {
    GraphEndCells(w, source, target, sel, eg);
    NumberedNodesNumbered(w, source, target, starts, ends, Dedup(starts + ends), eg.nodes.Keys);
    NumbersAreNodes(w, source, target, starts, ends, Dedup(starts + ends), eg.nodes.Keys);
  }

  /** The steps without a node table or end columns, down to the numbered
      cells of the weighted table: the edges and the nodes of the result are
      those of the edge graph `eg` of that table, and the nodes get the
      numbered points. */
  lemma NumberedGraph(e: Frame, source: string, target: string, edgeAttr: Names, nodeId: string,
                      ops: LegacyOps, g: Graph, starts: seq<Value>, ends: seq<Value>)
    returns (w: Frame, eg: Graph)
    requires GEOM in e.columns && source !in e.columns
    requires EndPoints(e.rows) == Ok((starts, ends))
    requires LegacyEdgelist(e, None, source, target, edgeAttr, nodeId, ops) == Ok(g)
    ensures |starts| == |e.rows|
    ensures NumberedCellsOf(w, source, target, starts, ends, Dedup(starts + ends))
    ensures EdgeGraph(w, source, target, EdgeColumns(w.columns, source, target, edgeAttr)) == Ok(eg)
    ensures g.edges == eg.edges && g.nodes.Keys == eg.nodes.Keys
    ensures g.nodes == SetNodeAttributes(eg, NodeDict(NumberedNodes(Dedup(starts + ends), nodeId, ops.toEpsg(e.crs)).rows, nodeId)).nodes
  {
    w, eg := NumberedSteps(e, source, target, edgeAttr, nodeId, ops, g, starts, ends);
    NumberedCells(e, source, target, starts, ends, ops.length, w);
  }

  /** Without a node table or end columns, the edges join the numbers of
      the start point and the end point of each row among the distinct end
      points, in their order of first appearance. */
  lemma NumberedEdges(e: Frame, source: string, target: string, edgeAttr: Names, nodeId: string,
                      ops: LegacyOps, g: Graph, starts: seq<Value>, ends: seq<Value>)
    requires GEOM in e.columns && source !in e.columns
    requires EndPoints(e.rows) == Ok((starts, ends))
    requires LegacyEdgelist(e, None, source, target, edgeAttr, nodeId, ops) == Ok(g)
    ensures |starts| == |e.rows|
    ensures forall x :: x in g.edges <==> exists i :: (0 <= i < |starts| &&
      starts[i] in Dedup(starts + ends) && ends[i] in Dedup(starts + ends) &&
      x == Pair(VInt(FirstIndex(Dedup(starts + ends), starts[i])), VInt(FirstIndex(Dedup(starts + ends), ends[i]))))
  {
    var w, eg := NumberedGraph(e, source, target, edgeAttr, nodeId, ops, g, starts, ends);
    EdgeGraphEdges(w, source, target, EdgeColumns(w.columns, source, target, edgeAttr), eg);
    NumberedEdgeSet(w, source, target, starts, ends, Dedup(starts + ends), eg, g);
  }

  /** Without a node table or end columns, the nodes are numbered 0 to the
      number of distinct end points, less one. */
  lemma NumberedNodeKeys(e: Frame, source: string, target: string, edgeAttr: Names, nodeId: string,
                         ops: LegacyOps, g: Graph, starts: seq<Value>, ends: seq<Value>)
    requires GEOM in e.columns && source !in e.columns
    requires EndPoints(e.rows) == Ok((starts, ends))
    requires LegacyEdgelist(e, None, source, target, edgeAttr, nodeId, ops) == Ok(g)
    ensures forall x :: x in g.nodes ==> x.VInt? && 0 <= x.i < |Dedup(starts + ends)|
    ensures forall k :: 0 <= k < |Dedup(starts + ends)| ==> VInt(k) in g.nodes
  {
    var w, eg := NumberedGraph(e, source, target, edgeAttr, nodeId, ops, g, starts, ends);
    NumberedNodesOf(w, source, target, EdgeColumns(w.columns, source, target, edgeAttr), starts, ends, eg);
  }

  /** Node `k` of the numbered points gets the `k`-th point as its
      geometry (an id column named otherwise than the geometry). */
  lemma NumberedDict(points: seq<Value>, nodeId: string, crs: Value, k: int)
    requires nodeId != GEOM && 0 <= k < |points|
    ensures VInt(k) in NodeDict(NumberedNodes(points, nodeId, crs).rows, nodeId)
    ensures NodeDict(NumberedNodes(points, nodeId, crs).rows, nodeId)[VInt(k)] == map[GEOM := points[k]]
  {
    var rows := NumberedNodes(points, nodeId, crs).rows;
    assert rows[k][nodeId] == VInt(k);
    NodeDictLastWins(rows, nodeId, k);
    assert Dropped(rows[k], nodeId) == map[GEOM := points[k]];
  }

  /** The numbered points set on the bare nodes of a graph numbered like
      them give node `k` the `k`-th point as its geometry. */
  lemma NumberedGeometrySet(points: seq<Value>, nodeId: string, crs: Value, eg: Graph, g: Graph)
    requires nodeId != GEOM
    requires forall x :: x in eg.nodes ==> eg.nodes[x] == map[]
    requires g.nodes == SetNodeAttributes(eg, NodeDict(NumberedNodes(points, nodeId, crs).rows, nodeId)).nodes
    requires forall k :: 0 <= k < |points| ==> VInt(k) in g.nodes
    ensures forall k :: 0 <= k < |points| ==> VInt(k) in g.nodes && g.nodes[VInt(k)] == map[GEOM := points[k]]
  {
    var d := NodeDict(NumberedNodes(points, nodeId, crs).rows, nodeId);
    SetBareNodes(eg, d);
    forall k | 0 <= k < |points|
      ensures g.nodes[VInt(k)] == map[GEOM := points[k]]
    {
      NumberedDict(points, nodeId, crs, k);
    }
  }

  /** Without a node table or end columns, node `k` has the `k`-th distinct
      end point as its geometry (an id column named otherwise than the
      geometry). */
  lemma NumberedNodeGeometry(e: Frame, source: string, target: string, edgeAttr: Names, nodeId: string,
                             ops: LegacyOps, g: Graph, starts: seq<Value>, ends: seq<Value>)
    requires GEOM in e.columns && source !in e.columns && nodeId != GEOM
    requires EndPoints(e.rows) == Ok((starts, ends))
    requires LegacyEdgelist(e, None, source, target, edgeAttr, nodeId, ops) == Ok(g)
    ensures forall k :: 0 <= k < |Dedup(starts + ends)| ==>
      VInt(k) in g.nodes && g.nodes[VInt(k)] == map[GEOM := Dedup(starts + ends)[k]]
  {
    var w, eg := NumberedGraph(e, source, target, edgeAttr, nodeId, ops, g, starts, ends);
    EdgeGraphBare(w, source, target, EdgeColumns(w.columns, source, target, edgeAttr), eg);
    NumberedNodeKeys(e, source, target, edgeAttr, nodeId, ops, g, starts, ends);
    NumberedGeometrySet(Dedup(starts + ends), nodeId, ops.toEpsg(e.crs), eg, g);
  }

  /** Each id of the node dictionary has the dictionary of some record with
      that id, without the id cell. */
  lemma {:induction false} NodeDictValue(rows: seq<Attrs>, id: string, x: NodeId)
    requires forall i :: 0 <= i < |rows| ==> id in rows[i]
    requires x in NodeDict(rows, id)
    ensures exists i :: 0 <= i < |rows| && rows[i][id] == x && NodeDict(rows, id)[x] == Dropped(rows[i], id)
    decreases |rows|
  {
    var n := |rows| - 1;
    if rows[n][id] != x {
      var init := rows[..n];
      NodeDictValue(init, id, x);
      var i :| 0 <= i < |init| && init[i][id] == x && NodeDict(init, id)[x] == Dropped(init[i], id);
      assert rows[i] == init[i];
    }
  }

  /** An end record without its id cell is the point alone. */
  lemma EndRecordDropped(nodeId: string, id: Value, p: Value)
    requires nodeId != GEOM
    ensures Dropped(EndRecord(nodeId, id, p), nodeId) == map[GEOM := p]
  {
    assert Dropped(EndRecord(nodeId, id, p), nodeId).Keys == {GEOM};
  }

  /** The node table of the end columns holds the de-duplicated end
      records, each with an id cell. */
  lemma EndNodesIs(e: Frame, source: string, target: string, nodeId: string,
                   starts: seq<Value>, ends: seq<Value>)
    requires source in e.columns && target in e.columns && |starts| == |ends| == |e.rows|
    ensures EndNodes(e, source, target, nodeId, starts, ends).rows == Dedup(EndRecords(e, source, target, nodeId, starts, ends))
    ensures forall r :: r in EndRecords(e, source, target, nodeId, starts, ends) ==> nodeId in r
  {
    var s := EndRecords(e, source, target, nodeId, starts, ends);
    forall r | r in s
      ensures nodeId in r
    {
      var k :| 0 <= k < |s| && s[k] == r;
      if k >= |e.rows| {
        assert s[|e.rows| + (k - |e.rows|)] == r;
      }
    }
  }

  /** The id of a record is an id of the dictionary of the de-duplicated
      records. */
  lemma RecordsDictHas(s: seq<Attrs>, id: string, r: Attrs)
    requires forall q :: q in s ==> id in q
    requires r in s
    ensures id in r && r[id] in NodeDict(Dedup(s), id)
  {
    var rows := Dedup(s);
    assert forall i :: 0 <= i < |rows| ==> id in rows[i] by {
      forall i | 0 <= i < |rows|
        ensures id in rows[i]
      {
        assert rows[i] in s;
      }
    }
    NodeDictKeys(rows, id);
    var j :| 0 <= j < |rows| && rows[j] == r;
  }

  /** Each id of the dictionary of the de-duplicated records has the
      dictionary of one of the records with that id. */
  lemma RecordsDictValue(s: seq<Attrs>, id: string, x: NodeId)
    requires forall q :: q in s ==> id in q
    requires x in NodeDict(Dedup(s), id)
    ensures exists k :: 0 <= k < |s| && id in s[k] && s[k][id] == x && NodeDict(Dedup(s), id)[x] == Dropped(s[k], id)
  {
    var rows := Dedup(s);
    assert forall i :: 0 <= i < |rows| ==> id in rows[i] by {
      forall i | 0 <= i < |rows|
        ensures id in rows[i]
      {
        assert rows[i] in s;
      }
    }
    NodeDictValue(rows, id, x);
    var j :| 0 <= j < |rows| && rows[j][id] == x && NodeDict(rows, id)[x] == Dropped(rows[j], id);
    assert rows[j] in s;
    var k :| 0 <= k < |s| && s[k] == rows[j];
  }

  /** Every cell of the end columns is an id of the node records built from
      them. */
  lemma PairDictHas(e: Frame, source: string, target: string, nodeId: string,
                    starts: seq<Value>, ends: seq<Value>, i: int, x: NodeId)
    requires source in e.columns && target in e.columns && |starts| == |ends| == |e.rows| && nodeId != GEOM
    requires 0 <= i < |e.rows| && (e.rows[i][source] == x || e.rows[i][target] == x)
    ensures x in EndDict(e, source, target, nodeId, starts, ends)
  {
    var s := EndRecords(e, source, target, nodeId, starts, ends);
    EndNodesIs(e, source, target, nodeId, starts, ends);
    if e.rows[i][source] == x {
      assert s[i][nodeId] == x;
      RecordsDictHas(s, nodeId, s[i]);
    } else {
      assert s[|e.rows| + i][nodeId] == x;
      RecordsDictHas(s, nodeId, s[|e.rows| + i]);
    }
  }

  /** The node record of an id built from the end columns holds the start
      point of a row with that source or the end point of a row with that
      target. */
  lemma PairDictValue(e: Frame, source: string, target: string, nodeId: string,
                      starts: seq<Value>, ends: seq<Value>, x: NodeId)
    requires source in e.columns && target in e.columns && |starts| == |ends| == |e.rows| && nodeId != GEOM
    requires x in EndDict(e, source, target, nodeId, starts, ends)
    ensures var d := EndDict(e, source, target, nodeId, starts, ends);
      exists i :: (0 <= i < |e.rows| &&
        ((e.rows[i][source] == x && d[x] == map[GEOM := starts[i]]) ||
         (e.rows[i][target] == x && d[x] == map[GEOM := ends[i]])))
  {
    var s := EndRecords(e, source, target, nodeId, starts, ends);
    EndNodesIs(e, source, target, nodeId, starts, ends);
    var d := NodeDict(Dedup(s), nodeId);
    RecordsDictValue(s, nodeId, x);
    var k :| 0 <= k < |s| && nodeId in s[k] && s[k][nodeId] == x && d[x] == Dropped(s[k], nodeId);
    var i := EndRecordCell(e, source, target, nodeId, starts, ends, k);
  }

  /** Each end record comes from a row: its id is the row's source cell and
      the rest its start point, or its target cell and its end point. */
  lemma EndRecordCell(e: Frame, source: string, target: string, nodeId: string,
                      starts: seq<Value>, ends: seq<Value>, k: int) returns (i: int)
    requires source in e.columns && target in e.columns && |starts| == |ends| == |e.rows| && nodeId != GEOM
    requires 0 <= k < 2 * |e.rows|
    ensures 0 <= i < |e.rows|
    ensures var r := EndRecords(e, source, target, nodeId, starts, ends)[k];
      nodeId in r &&
      ((e.rows[i][source] == r[nodeId] && Dropped(r, nodeId) == map[GEOM := starts[i]]) ||
       (e.rows[i][target] == r[nodeId] && Dropped(r, nodeId) == map[GEOM := ends[i]]))
  {
    if k < |e.rows| {
      i := k;
      EndRecordDropped(nodeId, e.rows[i][source], starts[i]);
    } else {
      i := k - |e.rows|;
      assert k == |e.rows| + i;
      EndRecordDropped(nodeId, e.rows[i][target], ends[i]);
    }
  }

  /** The steps with end columns and no node table: the weighted table `w`
      and the edge graph `eg`, whose nodes get the records of the end cells
      and points. */
  lemma PairSteps(e: Frame, source: string, target: string, edgeAttr: Names, nodeId: string,
                  ops: LegacyOps, g: Graph, starts: seq<Value>, ends: seq<Value>)
    returns (w: Frame, eg: Graph)
    requires GEOM in e.columns && source in e.columns
    requires EndPoints(e.rows) == Ok((starts, ends))
    requires LegacyEdgelist(e, None, source, target, edgeAttr, nodeId, ops) == Ok(g)
    ensures target in e.columns && |starts| == |ends| == |e.rows|
    ensures source in w.columns && target in w.columns && |w.rows| == |e.rows|
    ensures forall i :: 0 <= i < |e.rows| ==>
      w.rows[i][source] == e.rows[i][source] && w.rows[i][target] == e.rows[i][target]
    ensures EdgeGraph(w, source, target, EdgeColumns(w.columns, source, target, edgeAttr)) == Ok(eg)
    ensures g.nodes == SetNodeAttributes(eg, EndDict(e, source, target, nodeId, starts, ends)).nodes
  {
    var pe, n, crs;
    pe, n, w, eg, crs := LegacySteps(e, None, source, target, edgeAttr, nodeId, ops, g);
    PreparedKeeps(e, None, source, target, nodeId, ops, pe, n);
    WeightedCells(e, ops.length, w, source, target);
  }

  /** `d` gives each cell of the end columns a dictionary, and each id it
      has the start point of a row with that source cell or the end point of
      a row with that target cell. */
  predicate EndDictOf(e: Frame, source: string, target: string, starts: seq<Value>, ends: seq<Value>,
                      d: map<NodeId, Attrs>)
    requires source in e.columns && target in e.columns && |starts| == |ends| == |e.rows|
  {
    && (forall i :: 0 <= i < |e.rows| ==> e.rows[i][source] in d && e.rows[i][target] in d)
    && forall x :: x in d ==> exists i :: (0 <= i < |e.rows| &&
      ((e.rows[i][source] == x && d[x] == map[GEOM := starts[i]]) ||
       (e.rows[i][target] == x && d[x] == map[GEOM := ends[i]])))
  }

  /** The node dictionary of the end records (an id column named otherwise
      than the geometry) has every end cell, each with the point of a row
      it starts or ends. */
  lemma EndDictIs(e: Frame, source: string, target: string, nodeId: string, starts: seq<Value>, ends: seq<Value>)
    requires source in e.columns && target in e.columns && |starts| == |ends| == |e.rows| && nodeId != GEOM
    ensures EndDictOf(e, source, target, starts, ends, EndDict(e, source, target, nodeId, starts, ends))
  {
    var d := EndDict(e, source, target, nodeId, starts, ends);
    forall i | 0 <= i < |e.rows|
      ensures e.rows[i][source] in d && e.rows[i][target] in d
    {
      PairDictHas(e, source, target, nodeId, starts, ends, i, e.rows[i][source]);
      PairDictHas(e, source, target, nodeId, starts, ends, i, e.rows[i][target]);
    }
    forall x | x in d
      ensures exists i :: (0 <= i < |e.rows| &&
        ((e.rows[i][source] == x && d[x] == map[GEOM := starts[i]]) ||
         (e.rows[i][target] == x && d[x] == map[GEOM := ends[i]])))
    {
      PairDictValue(e, source, target, nodeId, starts, ends, x);
    }
  }

  /** The graph of the weighted end-column table with the end records set
      on its nodes: each node has the point of a row it starts or ends. */
  lemma PairGraphFacts(e: Frame, w: Frame, source: string, target: string, sel: set<string>,
                       starts: seq<Value>, ends: seq<Value>, eg: Graph, d: map<NodeId, Attrs>, g: Graph)
    requires source in e.columns && target in e.columns && |starts| == |ends| == |e.rows|
    requires source in w.columns && target in w.columns && |w.rows| == |e.rows|
    requires forall i :: 0 <= i < |e.rows| ==>
      w.rows[i][source] == e.rows[i][source] && w.rows[i][target] == e.rows[i][target]
    requires EdgeGraph(w, source, target, sel) == Ok(eg)
    requires EndDictOf(e, source, target, starts, ends, d)
    requires g.nodes == SetNodeAttributes(eg, d).nodes
    ensures forall x :: x in g.nodes ==> exists i :: (0 <= i < |e.rows| &&
      ((e.rows[i][source] == x && g.nodes[x] == map[GEOM := starts[i]]) ||
       (e.rows[i][target] == x && g.nodes[x] == map[GEOM := ends[i]])))
  {
    EdgeGraphBare(w, source, target, sel, eg);
    GraphEndCells(w, source, target, sel, eg);
    PairCellFacts(e, w, source, target, starts, ends, eg, d, g);
  }

  /** The same, from the facts about the edge graph it needs: bare nodes,
      which are the cells of the end columns. */
  lemma PairCellFacts(e: Frame, w: Frame, source: string, target: string,
                      starts: seq<Value>, ends: seq<Value>, eg: Graph, d: map<NodeId, Attrs>, g: Graph)
    requires source in e.columns && target in e.columns && |starts| == |ends| == |e.rows|
    requires source in w.columns && target in w.columns && |w.rows| == |e.rows|
    requires forall i :: 0 <= i < |e.rows| ==>
      w.rows[i][source] == e.rows[i][source] && w.rows[i][target] == e.rows[i][target]
    requires forall x :: x in eg.nodes ==> eg.nodes[x] == map[]
    requires EndCellNodes(w, source, target, eg.nodes.Keys)
    requires EndDictOf(e, source, target, starts, ends, d)
    requires g.nodes == SetNodeAttributes(eg, d).nodes
    ensures forall x :: x in g.nodes ==> exists i :: (0 <= i < |e.rows| &&
      ((e.rows[i][source] == x && g.nodes[x] == map[GEOM := starts[i]]) ||
       (e.rows[i][target] == x && g.nodes[x] == map[GEOM := ends[i]])))
  {
    SameNodeSet(e, w, source, target, eg.nodes.Keys, g);
    SetBareNodes(eg, d);
    PairGeometrySet(e, source, target, starts, ends, d, g);
  }

  /** A dictionary of end points giving the nodes of a graph whose nodes
      are end cells their dictionaries gives each node the point of a row it
      starts or ends. */
  lemma PairGeometrySet(e: Frame, source: string, target: string,
                        starts: seq<Value>, ends: seq<Value>, d: map<NodeId, Attrs>, g: Graph)
    requires source in e.columns && target in e.columns && |starts| == |ends| == |e.rows|
    requires EndDictOf(e, source, target, starts, ends, d)
    requires forall x :: x in g.nodes ==> g.nodes[x] == if x in d then d[x] else map[]
    requires forall x :: x in g.nodes <==>
      exists i :: 0 <= i < |e.rows| && (e.rows[i][source] == x || e.rows[i][target] == x)
    ensures forall x :: x in g.nodes ==> exists i :: (0 <= i < |e.rows| &&
      ((e.rows[i][source] == x && g.nodes[x] == map[GEOM := starts[i]]) ||
       (e.rows[i][target] == x && g.nodes[x] == map[GEOM := ends[i]])))
  {
    forall x | x in g.nodes
      ensures exists i :: (0 <= i < |e.rows| &&
        ((e.rows[i][source] == x && g.nodes[x] == map[GEOM := starts[i]]) ||
         (e.rows[i][target] == x && g.nodes[x] == map[GEOM := ends[i]])))
    {
      var i :| 0 <= i < |e.rows| && (e.rows[i][source] == x || e.rows[i][target] == x);
      assert x in d;
      assert g.nodes[x] == d[x];
    }
  }

  /** With end columns and no node table, each node has as its geometry the
      start point of a row it is the source of or the end point of a row it
      is the target of (an id column named otherwise than the geometry). */
  lemma PairNodeGeometry(e: Frame, source: string, target: string, edgeAttr: Names, nodeId: string,
                         ops: LegacyOps, g: Graph, starts: seq<Value>, ends: seq<Value>)
    requires GEOM in e.columns && source in e.columns && nodeId != GEOM
    requires EndPoints(e.rows) == Ok((starts, ends))
    requires LegacyEdgelist(e, None, source, target, edgeAttr, nodeId, ops) == Ok(g)
    ensures target in e.columns && |starts| == |ends| == |e.rows|
    ensures forall x :: x in g.nodes ==> exists i :: (0 <= i < |e.rows| &&
      ((e.rows[i][source] == x && g.nodes[x] == map[GEOM := starts[i]]) ||
       (e.rows[i][target] == x && g.nodes[x] == map[GEOM := ends[i]])))
  {
    var w, eg := PairSteps(e, source, target, edgeAttr, nodeId, ops, g, starts, ends);
    EndDictIs(e, source, target, nodeId, starts, ends);
    PairGraphFacts(e, w, source, target, EdgeColumns(w.columns, source, target, edgeAttr),
                   starts, ends, eg, EndDict(e, source, target, nodeId, starts, ends), g);
  }

  /** A set holding exactly the numbers `0 .. n - 1` has `n` elements. */
  lemma {:induction false} NumbersCount(keys: set<NodeId>, n: nat)
    requires forall x :: x in keys ==> x.VInt? && 0 <= x.i < n
    requires forall k :: 0 <= k < n ==> VInt(k) in keys
    ensures |keys| == n
  {
    if n > 0 {
      var rest := keys - {VInt(n - 1)};
      NumbersCount(rest, n - 1);
    } else {
      assert keys == {} by {
        if x :| x in keys {
          assert false;
        }
      }
    }
  }

  /** Without a node table or end columns, there are as many nodes as
      distinct end points. */
  lemma NumberedNodeCount(e: Frame, source: string, target: string, edgeAttr: Names, nodeId: string,
                          ops: LegacyOps, g: Graph, starts: seq<Value>, ends: seq<Value>)
    requires GEOM in e.columns && source !in e.columns
    requires EndPoints(e.rows) == Ok((starts, ends))
    requires LegacyEdgelist(e, None, source, target, edgeAttr, nodeId, ops) == Ok(g)
    ensures |g.nodes.Keys| == |(set p | p in starts + ends)|
  {
    NumberedNodeKeys(e, source, target, edgeAttr, nodeId, ops, g, starts, ends);
    NumbersCount(g.nodes.Keys, |Dedup(starts + ends)|);
    DedupCount(starts + ends);
  }

  /** A sequence without repetitions has as many elements as its set. */
  lemma {:induction false} DistinctCount<T>(s: seq<T>)
    requires Distinct(s)
    ensures |(set x | x in s)| == |s|
  {
    if s != [] {
      var tail := s[1..];
      assert Distinct(tail) by {
        forall i, j | 0 <= i < j < |tail|
          ensures tail[i] != tail[j]
        {
          assert tail[i] == s[i + 1] && tail[j] == s[j + 1];
        }
      }
      DistinctCount(tail);
      assert s[0] !in tail;
      assert (set x | x in s) == (set x | x in tail) + {s[0]} by {
        assert s == [s[0]] + tail;
      }
    }
  }

  /** The de-duplication has as many values as the set of values. */
  lemma DedupCount<T(!new)>(s: seq<T>)
    ensures |Dedup(s)| == |(set x | x in s)|
  {
    DistinctCount(Dedup(s));
    assert (set x | x in Dedup(s)) == (set x | x in s);
  }

  /** Four lines around a square (a to b, b to d, a to c, c to d), without
      a node table or end columns, give a graph of four nodes; the code as
      written gives a graph without nodes. */
  lemma SquareFourNodes(e: Frame, edgeAttr: Names, nodeId: string, ops: LegacyOps, g: Graph,
                        a: Value, b: Value, c: Value, d: Value)
    requires a != b && a != c && a != d && b != c && b != d && c != d
    requires GEOM in e.columns && "source" !in e.columns && !(edgeAttr.NameList? && edgeAttr.isTuple)
    requires EndPoints(e.rows) == Ok(([a, b, a, c], [b, d, c, d]))
    requires LegacyEdgelist(e, None, "source", "target", edgeAttr, nodeId, ops) == Ok(g)
    ensures |g.nodes.Keys| == |e.rows| == 4
    ensures LegacyEdgelistAsWritten(e, None, "source", "target", edgeAttr, nodeId, ops) == Ok(Empty(VNone))
  {
    NumberedNodeCount(e, "source", "target", edgeAttr, nodeId, ops, g, [a, b, a, c], [b, d, c, d]);
    SquareCorners(a, b, c, d);
  }

  /** The end points of four lines around a square are its four corners. */
  lemma SquareCorners(a: Value, b: Value, c: Value, d: Value)
    requires a != b && a != c && a != d && b != c && b != d && c != d
    ensures |(set p | p in [a, b, a, c] + [b, d, c, d])| == 4
  {
    assert (set p | p in [a, b, a, c] + [b, d, c, d]) == {a, b, c, d};
  }
}
