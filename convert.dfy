/** Conversion between graphs and GeoDataFrames. A table is seen as its set
    of column names and its rows, each row a record mapping every column to
    its cell; a node table becomes a graph without edges, an edge table a
    graph built edge by edge. */
module Convert {
  import opened Values
  import opened Graphs
  import Algorithms

  /** A GeoDataFrame: its columns, its rows as records, and its crs. */
  datatype Table = Table(columns: set<string>, rows: seq<Attrs>, crs: Value)

  /** Every row has a cell in every column and in no other. */
  predicate WellFormed(t: Table) {
    forall i :: 0 <= i < |t.rows| ==> t.rows[i].Keys == t.columns
  }

  /** Whether some row holds `None` in column `c`: networkx refuses `None`
      as a node, so such a cell read as a node id raises ValueError. */
  predicate NoneIn(t: Table, c: string) {
    exists i :: 0 <= i < |t.rows| && c in t.rows[i] && t.rows[i][c] == VNone
  }

  /** The `node_attr` / `edge_attr` argument: True, a list or tuple of
      column names, one name, or anything else. */
  datatype Names = AllNames | NameList(names: seq<string>, isTuple: bool) | OneName(name: string) | NoNames

  /** The columns a name argument lists besides the geometry. */
  function Listed(a: Names): set<string> {
    match a
    case NameList(names, _) => set x | x in names
    case OneName(name) => {name}
    case _ => {}
  }

  /** The columns `from_geopandas_nodelist` selects: all of them for True,
      otherwise the listed ones and the geometry (a tuple like a list). */
  function NodeColumns(columns: set<string>, a: Names): (r: set<string>)
    ensures a.AllNames? ==> r == columns
    ensures !a.AllNames? ==> forall x :: x in r <==> x == GEOM || x in Listed(a)
  {
    if a.AllNames? then columns else Listed(a) + {GEOM}
  }

  /** The selection as written: `node_attr + [GEOM]` raises TypeError when
      node_attr is a tuple. */
  function NodeColumnsAsWritten(columns: set<string>, a: Names): (r: Result<set<string>>)
    ensures !(a.NameList? && a.isTuple) ==> r == Ok(NodeColumns(columns, a))
  {
    if a.NameList? && a.isTuple then Err(TypeError) else Ok(NodeColumns(columns, a))
  }

  /** A tuple of names makes the code as written raise, where the same
      names as a list are selected with the geometry. */
  lemma TupleColumnsRaise(columns: set<string>, names: seq<string>)
    ensures NodeColumnsAsWritten(columns, NameList(names, true)) == Err(TypeError)
    ensures NodeColumnsAsWritten(columns, NameList(names, false)) ==
            Ok(NodeColumns(columns, NameList(names, true)))
  {
  }

  /** A tuple selects what the same names as a list select. */
  lemma TupleIsList(columns: set<string>, names: seq<string>)
    ensures NodeColumns(columns, NameList(names, true)) == NodeColumns(columns, NameList(names, false))
    ensures forall x :: x in NodeColumns(columns, NameList(names, true)) <==> x == GEOM || x in names
  {
  }

  /** The record of a row restricted to the selected columns. */
  function Restrict(row: Attrs, sel: set<string>): (r: Attrs)
    ensures r.Keys == row.Keys * sel
    ensures forall k :: k in r ==> r[k] == row[k]
  {
    map k | k in row && k in sel :: row[k]
  }

  /** The attributes of a node read from a record: the id column and the
      float NaN cells are left out. */
  function RecordAttrs(row: Attrs, id: string): (r: Attrs)
    ensures forall k :: k in r <==> k in row && k != id && !row[k].VNaN?
    ensures forall k :: k in r ==> r[k] == row[k]
  {
    map k | k in row && k != id && !row[k].VNaN? :: row[k]
  }

  /** `nx_lis`: one (id, attributes) pair per row; the id is the row number,
      or the cell of the id column when that column is given and exists. */
  function NodeItems(t: Table, sel: set<string>, nodeId: Option<string>): (r: seq<(NodeId, Attrs)>)
    requires WellFormed(t)
    ensures |r| == |t.rows|
  {
    if !Given(nodeId) || nodeId.value !in t.columns then
      seq(|t.rows|, i requires 0 <= i < |t.rows| => (VInt(i), Restrict(t.rows[i], sel)))
    else
      seq(|t.rows|, i requires 0 <= i < |t.rows| =>
        (t.rows[i][nodeId.value], RecordAttrs(Restrict(t.rows[i], sel), nodeId.value)))
  }

  /** `nx.empty_graph(nx_lis)`: `add_node` for each pair in turn, so a
      repeated id merges its dictionaries, the later values winning. */
  function AddNodesFrom(g: Graph, items: seq<(NodeId, Attrs)>): Graph
    decreases |items|
  {
    if items == [] then g
    else
      var last := items[|items| - 1];
      AddNode(AddNodesFrom(g, items[..|items| - 1]), last.0, last.1)
  }

  /** The ids of a list of pairs. */
  function Ids(items: seq<(NodeId, Attrs)>): (r: seq<NodeId>)
    ensures |r| == |items| && forall i :: 0 <= i < |items| ==> r[i] == items[i].0
  {
    seq(|items|, i requires 0 <= i < |items| => items[i].0)
  }

  /** Whether a pair from index `from` on gives node `n` the key `k`. */
  predicate SetLater(items: seq<(NodeId, Attrs)>, from: int, n: NodeId, k: string) {
    exists j :: 0 <= j < |items| && from <= j && items[j].0 == n && k in items[j].1
  }

  /** Adding nodes keeps the graph consistent and adds no edge. */
  lemma {:induction false} AddNodesFromValid(g: Graph, items: seq<(NodeId, Attrs)>)
    requires Valid(g)
    ensures var r := AddNodesFrom(g, items);
      Valid(r) && r.edges == g.edges && r.crs == g.crs
    decreases |items|
  {
    if items != [] {
      var init := items[..|items| - 1];
      var last := items[|items| - 1];
      AddNodesFromValid(g, init);
      AddNodeValid(AddNodesFrom(g, init), last.0, last.1);
    }
  }

  /** The nodes are the old ones and the ids of the pairs. */
  lemma {:induction false} AddNodesFromKeys(g: Graph, items: seq<(NodeId, Attrs)>)
    ensures forall x :: x in AddNodesFrom(g, items).nodes <==> x in g.nodes || x in Ids(items)
    decreases |items|
  {
    if items != [] {
      var init := items[..|items| - 1];
      AddNodesFromKeys(g, init);
      assert Ids(items) == Ids(init) + [items[|items| - 1].0];
    }
  }

  /** Pairwise different new ids are appended in order. */
  lemma {:induction false} AddNodesFromFresh(g: Graph, items: seq<(NodeId, Attrs)>)
    requires Valid(g) && Distinct(Ids(items)) && forall i :: 0 <= i < |items| ==> items[i].0 !in g.nodes
    ensures AddNodesFrom(g, items).order == g.order + Ids(items)
    decreases |items|
  {
    if items != [] {
      var init := items[..|items| - 1];
      var last := items[|items| - 1];
      assert Ids(items) == Ids(init) + [last.0];
      AddNodesFromFresh(g, init);
      AddNodesFromKeys(g, init);
      var h := AddNodesFrom(g, init);
      assert last.0 !in h.nodes by {
        assert Ids(items)[|items| - 1] == last.0;
        assert forall i :: 0 <= i < |init| ==> Ids(init)[i] == Ids(items)[i];
      }
    }
  }

  /** A key keeps the value of the last pair that sets it. */
  lemma {:induction false} AddNodesFromLastWins(g: Graph, items: seq<(NodeId, Attrs)>, i: int, k: string)
    requires 0 <= i < |items| && k in items[i].1 && !SetLater(items, i + 1, items[i].0, k)
    ensures var r := AddNodesFrom(g, items);
      items[i].0 in r.nodes && k in r.nodes[items[i].0] && r.nodes[items[i].0][k] == items[i].1[k]
    decreases |items|
  {
    var init := items[..|items| - 1];
    var last := items[|items| - 1];
    if i < |init| {
      assert init[i] == items[i];
      assert !SetLater(init, i + 1, items[i].0, k) by {
        forall j | 0 <= j < |init| && i + 1 <= j
          ensures !(init[j].0 == items[i].0 && k in init[j].1)
        {
          assert items[j] == init[j];
        }
      }
      AddNodesFromLastWins(g, init, i, k);
      if last.0 == items[i].0 {
        assert k !in last.1;
      }
    }
  }

  /** A key the pairs never set keeps its old value. */
  lemma {:induction false} AddNodesFromKeeps(g: Graph, items: seq<(NodeId, Attrs)>, n: NodeId, k: string)
    requires n in g.nodes && k in g.nodes[n] && !SetLater(items, 0, n, k)
    ensures var r := AddNodesFrom(g, items);
      n in r.nodes && k in r.nodes[n] && r.nodes[n][k] == g.nodes[n][k]
    decreases |items|
  {
    if items != [] {
      var init := items[..|items| - 1];
      var last := items[|items| - 1];
      assert !SetLater(init, 0, n, k) by {
        forall j | 0 <= j < |init|
          ensures !(init[j].0 == n && k in init[j].1)
        {
          assert items[j] == init[j];
        }
      }
      AddNodesFromKeeps(g, init, n, k);
      if last.0 == n {
        assert k !in last.1;
      }
    }
  }

  /** Every key comes from the old graph or from a pair. */
  lemma {:induction false} AddNodesFromOrigin(g: Graph, items: seq<(NodeId, Attrs)>, n: NodeId, k: string)
    requires var r := AddNodesFrom(g, items); n in r.nodes && k in r.nodes[n]
    ensures (n in g.nodes && k in g.nodes[n]) || SetLater(items, 0, n, k)
    decreases |items|
  {
    if items != [] {
      var init := items[..|items| - 1];
      var last := items[|items| - 1];
      var h := AddNodesFrom(g, init);
      if n == last.0 && k in last.1 {
        assert items[|items| - 1] == last;
      } else {
        assert n in h.nodes && k in h.nodes[n];
        AddNodesFromOrigin(g, init, n, k);
        if SetLater(init, 0, n, k) {
          var j :| 0 <= j < |init| && init[j].0 == n && k in init[j].1;
          assert items[j] == init[j];
        }
      }
    }
  }

  /** The columns read for the nodes: the selected ones and the id column
      when it exists. */
  function Selection(t: Table, nodeId: Option<string>, a: Names): (r: set<string>)
    ensures forall x :: x in r <==> x in NodeColumns(t.columns, a) || (Given(nodeId) && x == nodeId.value && x in t.columns)
  {
    NodeColumns(t.columns, a) + (if Given(nodeId) && nodeId.value in t.columns then {nodeId.value} else {})
  }

  /** `from_geopandas_nodelist(node_gdf, node_id, node_attr)`, with the two
      corrections listed under Findings: a tuple selects like a list, and an
      id column that does not exist falls back to row numbers. */
  function FromNodelist(t: Table, nodeId: Option<string>, a: Names): (r: Result<Graph>)
    requires WellFormed(t)
    ensures r.Err? <==> !(Selection(t, nodeId, a) <= t.columns) || (IdMode(t, nodeId) && NoneIn(t, nodeId.value))
    ensures r.Err? ==> r.error == (if !(Selection(t, nodeId, a) <= t.columns) then KeyError else ValueError)
  {
    var sel := Selection(t, nodeId, a);
    if !(sel <= t.columns) then Err(KeyError)
    else if IdMode(t, nodeId) && NoneIn(t, nodeId.value) then Err(ValueError)
    else Ok(AddNodesFrom(Empty(t.crs), NodeItems(t, sel, nodeId)))
  }

  /** Whether the node ids are read from the id column rather than being
      row numbers. */
  predicate IdMode(t: Table, nodeId: Option<string>) {
    Given(nodeId) && nodeId.value in t.columns
  }

  /** `from_geopandas_nodelist` as written: the id column is added to the
      selection whenever it is given, so `.loc` raises before the test for
      a missing id column is reached. */
  function FromNodelistAsWritten(t: Table, nodeId: Option<string>, a: Names): (r: Result<Graph>)
    requires WellFormed(t)
    ensures !(a.NameList? && a.isTuple) && (!Given(nodeId) || nodeId.value in t.columns) ==>
      r == FromNodelist(t, nodeId, a)
  {
    var c := NodeColumnsAsWritten(t.columns, a);
    if c.Err? then Err(c.error)
    else
      var sel := c.value + (if Given(nodeId) then {nodeId.value} else {});
      if !(sel <= t.columns) then Err(KeyError)
      else if IdMode(t, nodeId) && NoneIn(t, nodeId.value) then Err(ValueError)
      else Ok(AddNodesFrom(Empty(t.crs), NodeItems(t, sel, nodeId)))
  }

  /** The fallback to row numbers for an id column that does not exist is
      dead code as written. */
  lemma MissingIdColumnRaises(t: Table, nodeId: Option<string>, a: Names)
    requires WellFormed(t) && Given(nodeId) && nodeId.value !in t.columns
    ensures FromNodelistAsWritten(t, nodeId, a).Err?
  {
  }

  /** With the correction, an id column that does not exist means row
      numbers, as with no id column at all. */
  lemma MissingIdColumnNumbersRows(t: Table, nodeId: Option<string>, a: Names)
    requires WellFormed(t) && Given(nodeId) && nodeId.value !in t.columns
    ensures FromNodelist(t, nodeId, a) == FromNodelist(t, None, a)
  {
    var sel := Selection(t, nodeId, a);
    assert sel == Selection(t, None, a);
    assert NodeItems(t, sel, nodeId) == NodeItems(t, sel, None);
  }

  /** A node table always gives a consistent graph without edges, with the
      table's crs. */
  lemma FromNodelistValid(t: Table, nodeId: Option<string>, a: Names)
    requires WellFormed(t)
    ensures var r := FromNodelist(t, nodeId, a);
      r.Ok? ==> Valid(r.value) && r.value.edges == map[] && r.value.crs == t.crs
  {
    var r := FromNodelist(t, nodeId, a);
    if r.Ok? {
      AddNodesFromValid(Empty(t.crs), NodeItems(t, Selection(t, nodeId, a), nodeId));
    }
  }

  /** The row numbers 0..n-1 as node ids. */
  function RowNumbers(n: nat): (r: seq<NodeId>)
    ensures |r| == n && forall i :: 0 <= i < n ==> r[i] == VInt(i)
  {
    seq(n, i requires 0 <= i < n => VInt(i))
  }

  /** Without an id column, the nodes are the row numbers in row order, each
      with the selected cells of its row, and there is no edge. */
  lemma FromNodelistNumbersRows(t: Table, nodeId: Option<string>, a: Names)
    requires WellFormed(t) && (!Given(nodeId) || nodeId.value !in t.columns)
    ensures var r := FromNodelist(t, nodeId, a);
      r.Ok? ==>
        && Valid(r.value) && r.value.edges == map[] && r.value.crs == t.crs
        && r.value.order == RowNumbers(|t.rows|)
        && forall i :: 0 <= i < |t.rows| ==> r.value.nodes[VInt(i)] == Restrict(t.rows[i], NodeColumns(t.columns, a))
  {
    var sel := Selection(t, nodeId, a);
    assert sel == NodeColumns(t.columns, a);
    var items := NodeItems(t, sel, nodeId);
    var r := FromNodelist(t, nodeId, a);
    if r.Ok? {
      AddNodesFromValid(Empty(t.crs), items);
      assert Ids(items) == RowNumbers(|t.rows|);
      AddNodesFromFresh(Empty(t.crs), items);
      forall i | 0 <= i < |t.rows|
        ensures r.value.nodes[VInt(i)] == Restrict(t.rows[i], sel)
      {
        NumberedNode(Empty(t.crs), items, i);
      }
    }
  }

  /** A pair whose id no other pair has gives its node exactly its
      dictionary, on a graph without nodes. */
  lemma NumberedNode(g: Graph, items: seq<(NodeId, Attrs)>, i: int)
    requires g.nodes == map[] && 0 <= i < |items| && Distinct(Ids(items))
    ensures var r := AddNodesFrom(g, items);
      items[i].0 in r.nodes && r.nodes[items[i].0] == items[i].1
  {
    var r := AddNodesFrom(g, items);
    var n := items[i].0;
    AddNodesFromKeys(g, items);
    assert n in r.nodes by { assert Ids(items)[i] == n; }
    forall k | k in items[i].1
      ensures k in r.nodes[n] && r.nodes[n][k] == items[i].1[k]
    {
      assert !SetLater(items, i + 1, n, k) by {
        forall j | 0 <= j < |items| && i + 1 <= j
          ensures items[j].0 != n
        {
          assert Ids(items)[j] != Ids(items)[i];
        }
      }
      AddNodesFromLastWins(g, items, i, k);
    }
    forall k | k in r.nodes[n]
      ensures k in items[i].1
    {
      AddNodesFromOrigin(g, items, n, k);
      var j :| 0 <= j < |items| && items[j].0 == n && k in items[j].1;
      assert Ids(items)[j] == Ids(items)[i];
    }
  }

  /** No later row with the same id as row `i` has a number in column `k`
      (a NaN cell is left out, so it does not overwrite). */
  predicate LastOfId(t: Table, id: string, i: int, k: string)
    requires WellFormed(t) && id in t.columns && 0 <= i < |t.rows| && k in t.columns
  {
    forall j :: i < j < |t.rows| && t.rows[j][id] == t.rows[i][id] ==> t.rows[j][k].VNaN?
  }

  /** With an id column, each distinct id is one node and there is no edge. */
  lemma FromNodelistIdNodes(t: Table, nodeId: Option<string>, a: Names)
    requires WellFormed(t) && Given(nodeId) && nodeId.value in t.columns
    ensures var r := FromNodelist(t, nodeId, a);
      r.Ok? ==>
        && Valid(r.value) && r.value.edges == map[] && r.value.crs == t.crs
        && forall x :: x in r.value.nodes <==> exists i :: 0 <= i < |t.rows| && t.rows[i][nodeId.value] == x
  {
    var sel := Selection(t, nodeId, a);
    var items := NodeItems(t, sel, nodeId);
    if FromNodelist(t, nodeId, a).Ok? {
      AddNodesFromValid(Empty(t.crs), items);
      AddNodesFromKeys(Empty(t.crs), items);
      forall x
        ensures x in Ids(items) <==> exists i :: 0 <= i < |t.rows| && t.rows[i][nodeId.value] == x
      {
        if x in Ids(items) {
          var i :| 0 <= i < |items| && Ids(items)[i] == x;
        }
        if exists i :: 0 <= i < |t.rows| && t.rows[i][nodeId.value] == x {
          var i :| 0 <= i < |t.rows| && t.rows[i][nodeId.value] == x;
          assert Ids(items)[i] == x;
        }
      }
    }
  }

  /** With an id column, no attribute is the id column or a NaN cell, and
      each comes from the last row of that id that has it. */
  lemma FromNodelistIdAttributes(t: Table, nodeId: Option<string>, a: Names)
    requires WellFormed(t) && Given(nodeId) && nodeId.value in t.columns
    ensures var r := FromNodelist(t, nodeId, a);
      var sel := NodeColumns(t.columns, a) + {nodeId.value};
      r.Ok? ==>
        && (forall n, k :: n in r.value.nodes && k in r.value.nodes[n] ==>
              k != nodeId.value && !r.value.nodes[n][k].VNaN?)
        && (forall i, k ::
              (0 <= i < |t.rows| && k in sel && k != nodeId.value && !t.rows[i][k].VNaN? && LastOfId(t, nodeId.value, i, k))
              ==> (t.rows[i][nodeId.value] in r.value.nodes && k in r.value.nodes[t.rows[i][nodeId.value]] &&
                   r.value.nodes[t.rows[i][nodeId.value]][k] == t.rows[i][k]))
  {
    var id := nodeId.value;
    var sel := Selection(t, nodeId, a);
    assert sel == NodeColumns(t.columns, a) + {id};
    var items := NodeItems(t, sel, nodeId);
    var r := FromNodelist(t, nodeId, a);
    if r.Ok? {
      var g := r.value;
      forall n, k | n in g.nodes && k in g.nodes[n]
        ensures k != id && !g.nodes[n][k].VNaN?
      {
        AddNodesFromOrigin(Empty(t.crs), items, n, k);
        var m := LastSetter(items, 0, n, k);
        AddNodesFromLastWins(Empty(t.crs), items, m, k);
      }
      forall i, k | 0 <= i < |t.rows| && k in sel && k != id && !t.rows[i][k].VNaN? && LastOfId(t, id, i, k)
        ensures t.rows[i][id] in g.nodes && k in g.nodes[t.rows[i][id]] && g.nodes[t.rows[i][id]][k] == t.rows[i][k]
      {
        assert k in items[i].1;
        assert !SetLater(items, i + 1, t.rows[i][id], k) by {
          forall j | 0 <= j < |items| && i + 1 <= j && items[j].0 == t.rows[i][id]
            ensures k !in items[j].1
          {
            assert t.rows[j][k].VNaN?;
          }
        }
        AddNodesFromLastWins(Empty(t.crs), items, i, k);
      }
    }
  }

  /** The last pair from `from` on that sets `k` on `n`: no later one does. */
  lemma LastSetter(items: seq<(NodeId, Attrs)>, from: int, n: NodeId, k: string) returns (m: int)
    requires 0 <= from && SetLater(items, from, n, k)
    ensures from <= m < |items| && items[m].0 == n && k in items[m].1
    ensures !SetLater(items, m + 1, n, k)
    decreases |items| - from
  {
    if items[from].0 == n && k in items[from].1 && !SetLater(items, from + 1, n, k) {
      m := from;
    } else {
      m := LastSetter(items, from + 1, n, k);
    }
  }

  /** The attribute names of the nodes: the columns `DataFrame.from_records`
      makes of the node dictionaries. */
  function AttrNames(g: Graph): (r: set<string>)
    ensures forall k :: k in r <==> exists n :: n in g.nodes && k in g.nodes[n]
  {
    set n, k | n in g.nodes && k in g.nodes[n] :: k
  }

  /** The row of node `n`: its attributes, NaN in the other columns, and its
      id in the id column (which replaces an attribute of that name). */
  function NodeRecord(attrs: Attrs, columns: set<string>, id: string, n: NodeId): (r: Attrs)
    ensures r.Keys == columns + {id}
    ensures r[id] == n
    ensures forall k :: k in columns && k != id ==> r[k] == if k in attrs then attrs[k] else VNaN
  {
    (map k | k in columns :: if k in attrs then attrs[k] else VNaN)[id := n]
  }

  /** `to_geopandas_nodelist(graph, node_id, nodelist)`: None for a graph
      without nodes; otherwise one row per node in graph order, or one row
      per id of a non-empty `nodelist` in its order, where an id that is not
      a node raises KeyError in `.loc`. */
  function ToNodelist(g: Graph, id: string, nodelist: seq<NodeId>): (r: Result<Option<Table>>)
    requires Valid(g)
    ensures g.order == [] <==> r == Ok(None)
    ensures r.Err? <==> g.order != [] && nodelist != [] && exists x :: x in nodelist && x !in g.nodes
    ensures r.Err? ==> r.error == KeyError
  {
    if g.order == [] then Ok(None)
    else
      var columns := AttrNames(g) + {id};
      var ids := if nodelist == [] then g.order else nodelist;
      if exists x :: x in ids && x !in g.nodes then Err(KeyError)
      else
        Ok(Some(Table(columns, seq(|ids|, i requires 0 <= i < |ids| => NodeRecord(g.nodes[ids[i]], columns, id, ids[i])), g.crs)))
  }

  /** The rows of `to_geopandas_nodelist`: well formed, in the order of the
      listed ids, each carrying its id and exactly the attributes of that
      node, with NaN where the node has none. */
  lemma ToNodelistRows(g: Graph, id: string, nodelist: seq<NodeId>)
    requires Valid(g)
    ensures var r := ToNodelist(g, id, nodelist);
      var ids := if nodelist == [] then g.order else nodelist;
      r.Ok? && r.value.Some? ==>
        var t := r.value.value;
        && WellFormed(t) && t.crs == g.crs
        && t.columns == AttrNames(g) + {id}
        && |t.rows| == |ids|
        && forall i :: 0 <= i < |ids| ==>
             && ids[i] in g.nodes && t.rows[i][id] == ids[i]
             && forall k :: k in t.columns && k != id ==>
                  t.rows[i][k] == if k in g.nodes[ids[i]] then g.nodes[ids[i]][k] else VNaN
  {
    var r := ToNodelist(g, id, nodelist);
    if r.Ok? && r.value.Some? {
      var ids := if nodelist == [] then g.order else nodelist;
      var columns := AttrNames(g) + {id};
      var t := r.value.value;
      assert forall x :: x in ids ==> x in g.nodes;
      assert t.rows == seq(|ids|, i requires 0 <= i < |ids| => NodeRecord(g.nodes[ids[i]], columns, id, ids[i]));
      forall i | 0 <= i < |ids|
        ensures ids[i] in g.nodes && t.rows[i] == NodeRecord(g.nodes[ids[i]], columns, id, ids[i])
      {
        assert ids[i] in ids;
      }
    }
  }

  /** The first `k` nodes of `g` in order, each with its dictionary. */
  function NodePairs(g: Graph, k: nat): (r: seq<(NodeId, Attrs)>)
    requires k <= |g.order| && forall n :: n in g.order ==> n in g.nodes
    ensures |r| == k && forall i :: 0 <= i < k ==> r[i] == (g.order[i], g.nodes[g.order[i]])
  {
    seq(k, i requires 0 <= i < k => (g.order[i], g.nodes[g.order[i]]))
  }

  /** The adjacency of nodes without edges. */
  function NoNeighbours(ns: seq<NodeId>): (r: map<NodeId, seq<NodeId>>)
    ensures forall x :: x in r <==> x in ns
    ensures forall x :: x in r ==> r[x] == []
  {
    map x | x in ns :: []
  }

  /** The graph of the first `k` nodes of `g`, without edges. */
  function NodesPrefix(g: Graph, k: nat): Graph
    requires k <= |g.order| && forall n :: n in g.order ==> n in g.nodes
  {
    var ns := g.order[..k];
    Graph(ns, map n | n in ns :: g.nodes[n], NoNeighbours(ns), map[], g.crs)
  }

  /** Adding the next node of `g` extends the prefix graph by one node. */
  lemma NodesPrefixStep(g: Graph, k: nat)
    requires (forall n :: n in g.order ==> n in g.nodes) && 0 < k <= |g.order|
    requires g.order[k - 1] !in g.order[..k - 1]
    ensures AddNode(NodesPrefix(g, k - 1), g.order[k - 1], g.nodes[g.order[k - 1]]) == NodesPrefix(g, k)
  {
    var h := NodesPrefix(g, k - 1);
    var n := g.order[k - 1];
    var ns := g.order[..k];
    assert ns == g.order[..k - 1] + [n];
    var r := AddNode(h, n, g.nodes[n]);
    assert r == h.(order := ns, nodes := h.nodes[n := g.nodes[n]], adj := h.adj[n := []]);
    assert r.nodes == map x | x in ns :: g.nodes[x] by {
      assert forall x :: x in ns <==> x in g.order[..k - 1] || x == n;
    }
    assert r.adj == NoNeighbours(ns) by {
      assert forall x :: x in ns <==> x in g.order[..k - 1] || x == n;
    }
  }

  /** Adding the nodes of `g` in order, each with its dictionary, to an
      empty graph builds its first nodes. */
  lemma {:induction false} AddNodesFromPrefix(g: Graph, k: nat)
    requires Distinct(g.order) && (forall n :: n in g.order ==> n in g.nodes) && k <= |g.order|
    ensures AddNodesFrom(Empty(g.crs), NodePairs(g, k)) == NodesPrefix(g, k)
  {
    if k > 0 {
      assert NodePairs(g, k)[..k - 1] == NodePairs(g, k - 1);
      AddNodesFromPrefix(g, k - 1);
      assert g.order[k - 1] !in g.order[..k - 1] by {
        forall j | 0 <= j < k - 1
          ensures g.order[j] != g.order[k - 1]
        {
        }
      }
      NodesPrefixStep(g, k);
    } else {
      assert NodesPrefix(g, 0) == Empty(g.crs);
    }
  }

  /** A sequence with no element is empty. */
  lemma NothingIn<T>(s: seq<T>)
    requires forall m :: m !in s
    ensures s == []
  {
    if s != [] {
      FirstIn(s);
      assert false;
    }
  }

  /** The first element of a non-empty sequence is in it. */
  lemma FirstIn<T>(s: seq<T>)
    requires s != []
    ensures s[0] in s
  {
  }

  /** A consistent graph without edges is the graph of all its nodes. */
  lemma NodesPrefixAll(g: Graph)
    requires Valid(g) && g.edges == map[]
    ensures NodesPrefix(g, |g.order|) == g
  {
    assert g.order[..|g.order|] == g.order;
    forall n | n in g.adj
      ensures g.adj[n] == []
    {
      assert forall m :: m !in g.adj[n] by {
        forall m
          ensures m !in g.adj[n]
        {
          assert Pair(n, m) !in g.edges;
        }
      }
      NothingIn(g.adj[n]);
    }
  }

  /** The pairs read back from the node table of `g` are its nodes in order,
      each with its dictionary. */
  lemma NodelistItems(g: Graph, id: string)
    requires Valid(g) && g.order != [] && id != ""
    requires forall n, k :: n in g.nodes && k in g.nodes[n] ==> k != id && !g.nodes[n][k].VNaN?
    ensures var r := ToNodelist(g, id, []);
      r.Ok? && r.value.Some? && WellFormed(r.value.value) &&
      Selection(r.value.value, Some(id), AllNames) == r.value.value.columns &&
      NodeItems(r.value.value, r.value.value.columns, Some(id)) == NodePairs(g, |g.order|)
  {
    var t := ToNodelist(g, id, []).value.value;
    var columns := AttrNames(g) + {id};
    assert forall x :: x in g.order ==> x in g.nodes;
    assert t.rows == seq(|g.order|, i requires 0 <= i < |g.order| => NodeRecord(g.nodes[g.order[i]], columns, id, g.order[i]));
    var items := NodeItems(t, t.columns, Some(id));
    var want := NodePairs(g, |g.order|);
    forall i | 0 <= i < |g.order|
      ensures t.rows[i].Keys == t.columns && items[i] == want[i]
    {
      var n := g.order[i];
      assert n in g.order;
      RecordReadBack(g.nodes[n], columns, id, n);
    }
  }

  /** Reading a node's row back drops the NaN cells and the id, which
      leaves its dictionary when it has no NaN value and no key `id`. */
  lemma RecordReadBack(attrs: Attrs, columns: set<string>, id: string, n: NodeId)
    requires attrs.Keys <= columns && id !in attrs
    requires forall k :: k in attrs ==> !attrs[k].VNaN?
    ensures RecordAttrs(Restrict(NodeRecord(attrs, columns, id, n), columns + {id}), id) == attrs
  {
    var r := RecordAttrs(Restrict(NodeRecord(attrs, columns, id, n), columns + {id}), id);
    assert forall k :: k in r <==> k in attrs;
  }

  /** Round trip: the node table of a graph without edges, read back with
      its id column and all columns, gives the same graph, provided no
      attribute is the id column or a float NaN, and no node is `None`
      (which networkx never holds). */
  lemma NodelistRoundTrip(g: Graph, id: string)
    requires Valid(g) && g.edges == map[] && g.order != [] && id != ""
    requires VNone !in g.nodes
    requires forall n, k :: n in g.nodes && k in g.nodes[n] ==> k != id && !g.nodes[n][k].VNaN?
    ensures var r := ToNodelist(g, id, []);
      r.Ok? && r.value.Some? && WellFormed(r.value.value) &&
      FromNodelist(r.value.value, Some(id), AllNames) == Ok(g)
  {
    NodelistItems(g, id);
    AddNodesFromPrefix(g, |g.order|);
    NodesPrefixAll(g);
  }
}
