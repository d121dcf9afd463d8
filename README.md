# geonetworkx: a verified model of its graph editor and table conversions

geonetworkx (packages `geo_nx` and the older `geonetworkx`) keeps geospatial
networks as networkx graphs. Nodes and edges carry attribute dictionaries
with a `geometry` (a shapely object) and a `weight`, and the graph carries a
`crs`. This project models, in Dafny, the parts of the package that edit
such graphs and that convert them to and from tables:

- **The networkx graph state** (`Graphs`): the node order, the node
  dictionaries, ordered neighbour lists and the edge dictionaries keyed by
  the unordered pair of ends. It also defines `add_node`, `add_edge`,
  `remove_edge` and `remove_node` with networkx's merging rules, and the
  consistency these keep (`Graphs.Valid`).
- **The `GeoGraph` editor** (`GeoGraphs.GeoGraph`, a class whose fields the
  methods update). It covers `insert_node` (cutting an edge),
  `erase_linear_nodes` (merging the two edges of a degree-2 node),
  `project_node` and `merge_node`. Each method is proved against a value
  function in `Edits`, and the properties are lemmas about those functions.
- **Attribute hygiene** (`GeoGr`): `clean_attributes` and
  `remove_attribute` as loops over the nodes and edges.
- **Operations on graphs** (`Algorithms`):
  - `compose` and `compose_all`, with the crs check;
  - the id guard of `project_graph`;
  - `weight_node_to_graph`: candidates, minimum and cache;
  - `weight_extend`: an all-or-nothing sum with cached end values.
- **Line cutting and id casting** (`Utils`): `geo_cut` as a vertex walk, and
  `cast_id`.
- **Table conversions** (`Convert`, `EdgeList`, `LegacyConvert`):
  - `from_geopandas_nodelist`, `from_geopandas_edgelist` and
    `to_geopandas_nodelist` of `geo_nx`;
  - the first versions of `from_geopandas_nodelist` and
    `from_geopandas_edgelist` in `geonetworkx`. In the latter, the end
    points of the lines become nodes, either under the ids of end columns
    or numbered in order of first appearance.

A table is a set of column names and a sequence of rows, each row a map from
every column to a value. Python values are a tagged datatype (`Values.Value`)
with Python truthiness (`Truthy`) and Python `==` (`PyEq`, under which
`True == 1 == 1.0` and NaN equals nothing).

Geometry is passed in as uninterpreted functions (`GeomOps`, `EdgeOps`,
`LegacyOps`). This covers length, distance, centroid, segment, the
`geo_cut` and `geo_merge` of `geo_nx/utils.py`, and the EPSG lookup. The
nearest-node lookup and the networkx ego-graph and shortest-path queries
are also passed in as given answers.

## Model

| member | source | states |
|---|---|---|
| Values.Num | geo_nx/algorithms.py:178 | a value has a numeric reading exactly when Python treats it as a number (bool, int, float) |
| Values.FirstCoordOf | geo_nx/geograph.py:243 | `.coords[0]` succeeds exactly on a geometry with a vertex and gives its first vertex; a non-geometry raises AttributeError, a geometry without vertices IndexError |
| Graphs.Appended | geo_nx/geograph.py:247 | adding a dict key keeps the old keys in place, adds the new one once and keeps keys distinct |
| Graphs.Without | geo_nx/geograph.py:202 | deleting a key keeps exactly the other keys, still distinct |
| Graphs.Empty | geo_nx/geograph.py:47-61 | a graph with no node and no edge is consistent |
| Graphs.AddNodeValid | geo_nx/geograph.py:247 | `add_node` keeps the graph consistent, merges the attributes into an existing node's dictionary (new values win), appends a new node last and changes no edge |
| Graphs.Touched | geo_nx/geograph.py:248 | `add_edge` gives a missing end an empty dictionary and leaves every existing node's dictionary alone |
| Graphs.LinkValid | geo_nx/geograph.py:248-249 | linking two existing nodes keeps the graph consistent |
| Graphs.AddEdgeEffect | geo_nx/geograph.py:248-249 | `add_edge` creates missing ends, updates the edge's dictionary (empty for a new edge) with the attributes, and leaves other nodes' neighbour lists alone |
| Graphs.AddEdgeValid | geo_nx/geograph.py:248-249 | `add_edge` keeps the graph consistent, with new ends appended to the node order |
| Graphs.RemoveEdgeValid | geo_nx/geograph.py:250 | `remove_edge` of an existing edge keeps the graph consistent |
| Graphs.RemoveEdgeAdjacency | geo_nx/geograph.py:250 | after `remove_edge`, the neighbour lists list exactly the remaining edges |
| Graphs.RemoveNodeValid | geo_nx/geograph.py:202 | `remove_node` keeps the graph consistent |
| Graphs.SameKeysValid | geo_nx/geogr.py:96-107 | changing attribute dictionaries without adding or removing nodes or edges keeps the graph consistent |
| GeoGraphs.GeoGraph.constructor | geo_nx/geograph.py:47-61 | a new GeoGraph holds the given consistent graph |
| GeoGraphs.GeoGraph.Assign | geo_nx/geograph.py:47-61 | the object's state becomes the given graph |
| GeoGraphs.GeoGraph.AddNode | geo_nx/geograph.py:247 | the state after `add_node` is the value-level `add_node` of the old state, still consistent |
| GeoGraphs.GeoGraph.AddEdge | geo_nx/geograph.py:248-249 | the state after `add_edge` is the value-level `add_edge` of the old state, still consistent |
| GeoGraphs.GeoGraph.RemoveEdge | geo_nx/geograph.py:250 | the state after `remove_edge` is the value-level removal, still consistent |
| GeoGraphs.GeoGraph.RemoveNode | geo_nx/geograph.py:202 | the state after `remove_node` is the value-level removal, still consistent |
| GeoGraphs.GeoGraph.InsertNode | geo_nx/geograph.py:205-252 | `insert_node` leaves the graph as `Edits.InsertNode` says: unchanged with None when the cut fails, a KeyError for a missing edge or geometry, a ValueError for a new `None` id, otherwise the split graph and the cut's distance |
| GeoGraphs.GeoGraph.SplitEdge | geo_nx/geograph.py:247-250 | the four edits of a successful cut give exactly `Edits.Split` of the old state, which stays consistent |
| GeoGraphs.GeoGraph.EraseLinearNodes | geo_nx/geograph.py:145-203 | `erase_linear_nodes` visits the node list fixed before the loop, leaves the graph as `Edits.EraseAll` says, and returns whether some node went (or the error raised) |
| GeoGraphs.GeoGraph.EraseEach | geo_nx/geograph.py:184-202 | the loop over a fixed list of nodes applies one pass per node and stops at the first error, keeping the graph consistent |
| GeoGraphs.GeoGraph.EraseNode | geo_nx/geograph.py:185-202 | one pass of the loop skips a non-linear node or one whose kept attributes differ, else replaces the node by one merged edge |
| GeoGraphs.KeepNode | geo_nx/geograph.py:192-195 | the `keep_node` loop answers what `Edits.KeepDiffers` says: stop at the first kept attribute that differs, KeyError for a missing one |
| GeoGraphs.GeoGraph.ProjectNode | geo_nx/geograph.py:128-143 | `project_node` returns None and changes nothing without an anchor; in update mode only the other graph changes, otherwise only this one, as `Edits.ProjectNode` says |
| GeoGraphs.GeoGraph.MergeNode | geo_nx/geograph.py:82-88 | `merge_node` returns None and changes nothing without an anchor, otherwise updates the other graph as `Edits.MergeNode` says |
| Edits.Ends | geo_nx/geograph.py:243-245 | the ends of the cut edge are ordered along the line: the first is `id_edge[0]` exactly when its first vertex is the first vertex of the first part; both are the edge's ends |
| Edits.PartAttrs | geo_nx/geograph.py:248-249 | a new edge has the cut edge's attributes except geometry and weight, which are the part and its length |
| Edits.InsertNode | geo_nx/geograph.py:236-252 | a missing edge or edge geometry raises KeyError; the graph is unchanged with None exactly when the cut yields nothing; a cut with a new `None` id raises ValueError exactly when everything before `add_node` succeeded; a success returns the cut's distance and keeps the crs |
| Edits.InsertNodeValid | geo_nx/geograph.py:247-250 | cutting an edge keeps the graph consistent |
| Edits.SplitValid | geo_nx/geograph.py:247-250 | the edits of a cut keep the graph consistent |
| Edits.InsertNodeSplits | geo_nx/geograph.py:243-252 | on a proper edge and a new id other than `None`, a cut removes the edge and adds exactly (first, id) and (id, last) with the part attributes, the new node gets `att_node` with the split point as geometry, and the distance is returned |
| Edits.SplitEdges | geo_nx/geograph.py:247-250 | the edits give exactly the new node and the two part edges in place of the cut edge |
| Edits.AddFreshEdge | geo_nx/geograph.py:248 | `add_edge` of a new edge puts exactly the given attributes on it and changes no other edge |
| Edits.KeepDiffers | geo_nx/geograph.py:192-195 | false exactly when every kept attribute is on both edges with equal values; true only when one differs; a missing one raises KeyError |
| Edits.MergedAttrs | geo_nx/geograph.py:198-200 | the merged edge has the first edge's attributes overridden by the second's, the merged geometry and its length as weight |
| Edits.LinearNeighbours | geo_nx/geograph.py:186-189 | a linear node's two neighbours are other nodes, distinct, each joined to it by an edge |
| Edits.EraseStep | geo_nx/geograph.py:185-202 | a missing node raises KeyError, a non-linear node is skipped, and a changed graph comes from two edges with geometries that merge |
| Edits.BypassEffect | geo_nx/geograph.py:201-202 | replacing a linear node removes it and its two edges, adds the edge between its neighbours, and keeps the graph consistent |
| Edits.BypassEdges | geo_nx/geograph.py:201-202 | the edges left are those avoiding the node plus the new one |
| Edits.EraseStepValid | geo_nx/geograph.py:185-202 | a pass keeps the graph consistent and either changes nothing or removes exactly that linear node |
| Edits.EraseStepMerges | geo_nx/geograph.py:198-202 | a linear node whose kept attributes agree and whose geometries merge is replaced by one edge with the merged attributes; nothing else changes |
| Edits.EraseStepKeeps | geo_nx/geograph.py:192-197 | a linear node with a differing kept attribute is left untouched |
| Edits.KeepDiffersFinds | geo_nx/geograph.py:192-195 | a differing kept attribute after present ones is found |
| Edits.EraseAll | geo_nx/geograph.py:184-202 | the loop keeps the crs and stops with an error only on a non-empty list |
| Edits.EraseAllNext | geo_nx/geograph.py:184-202 | the loop goes on from the graph a pass reached, or stops where the pass raised |
| Edits.EraseAllRemovesOnly | geo_nx/geograph.py:184-202 | erasing keeps the graph consistent, only removes nodes, only listed ones, and every surviving node keeps its attributes |
| Edits.EraseLinearNodes | geo_nx/geograph.py:173-203 | the result is an error exactly when a pass raised, and otherwise true exactly when some node was removed |
| Edits.SizeTellsKeys | geo_nx/geograph.py:203 | comparing the node count before and after tells whether a node went |
| Edits.ProjectNode | geo_nx/geograph.py:128-143 | a node without geometry raises KeyError; None exactly when the anchor is falsy (0 included); otherwise the distance from the centroid to the anchor, on the graph the mode edits |
| Edits.ProjectedEdge | geo_nx/geograph.py:141-142 | the added edge has `att_edge` with the segment as geometry and the distance as weight |
| Edits.ProjectNodeValid | geo_nx/geograph.py:136-142 | projecting keeps the edited graph consistent |
| Edits.ProjectNodeUpdates | geo_nx/geograph.py:136-139 | in update mode the anchor takes every attribute of the node except geometry, keeps its own geometry, and nothing else changes |
| Edits.ProjectNodeAttaches | geo_nx/geograph.py:140-142 | otherwise the source graph gains exactly the anchor-node edge with `att_edge`, segment and distance, and keeps every other node and edge |
| Edits.MergeNode | geo_nx/geograph.py:82-88 | a node without geometry raises KeyError; None exactly when the anchor is falsy; otherwise the distance to the anchor |
| Edits.MergeNodeCopies | geo_nx/geograph.py:86-87 | merging copies every attribute of the node, geometry included, onto the anchor and changes nothing else |
| Edits.MergeIsProjectWithGeometry | geo_nx/geograph.py:63-143 | merging and projecting in update mode reach the same anchor and distance and differ only in the anchor's geometry |
| GeoGr.Cleaned | geo_nx/geogr.py:99-101 | a cleaned dictionary keeps exactly the truthy values, unchanged |
| GeoGr.CleanedAll | geo_nx/geogr.py:96-107 | every dictionary is cleaned and no key of the map is lost |
| GeoGr.StrippedAll | geo_nx/geogr.py:125-132 | every dictionary loses `attr_name` and keeps its other keys and values |
| GeoGr.DropFalsy | geo_nx/geogr.py:98-101 | deleting falsy values over a snapshot of the keys gives the cleaned dictionary |
| GeoGr.CleanAttributes | geo_nx/geogr.py:82-107 | afterwards the selected dictionaries are cleaned, an unselected kind is untouched, and nodes, neighbours, edges and crs are unchanged |
| GeoGr.CleanNodes | geo_nx/geogr.py:96-101 | the node loop cleans every node dictionary and nothing else |
| GeoGr.CleanEdges | geo_nx/geogr.py:102-107 | the edge loop cleans every edge dictionary and nothing else |
| GeoGr.RemoveAttribute | geo_nx/geogr.py:109-132 | afterwards the selected dictionaries lack `attr_name`, an unselected kind is untouched, and nodes, neighbours, edges and crs are unchanged |
| GeoGr.RemoveFromNodes | geo_nx/geogr.py:125-128 | the node loop strips every node dictionary and nothing else |
| GeoGr.RemoveFromEdges | geo_nx/geogr.py:129-132 | the edge loop strips every edge dictionary and nothing else |
| GeoGr.StrippedAllTwice | geo_nx/geogr.py:125-132 | removing an attribute a second time changes nothing |
| GeoGr.CleanedAllTwice | geo_nx/geogr.py:96-107 | cleaning a second time changes nothing |
| Utils.FirstReaching | geonetworkx/utils.py:33-38 | the index of the first vertex whose abscissa reaches the projected one (the length when none does) |
| Utils.FirstReachingIs | geonetworkx/utils.py:33-38 | that index is the only one with those two properties |
| Utils.GeoCut | geonetworkx/utils.py:13-43 | None for an abscissa outside the open line or no reaching vertex; on a vertex hit the parts share that vertex (the centroid when adjusting) and the distance is 0; between vertices the new point ends the first part and starts the second; without adjust the parts rebuild the vertex list |
| Utils.IntsOnly | geonetworkx/utils.py:49-50 | every kept element is an int of the list and every int of the list is kept |
| Utils.Truncate | geonetworkx/utils.py:52 | `int()` of a float truncates toward zero |
| Utils.CastId | geonetworkx/utils.py:48-54 | a list becomes the list of its int elements; a number becomes an int (an int stays); a string becomes an int exactly when it is an optionally signed run of ASCII digits (single underscores between digits allowed) within Python white space, else it is returned unchanged |
| Utils.IntsOnlyIdempotent | geonetworkx/utils.py:49-50 | filtering the ints twice is filtering once |
| Utils.IntsOnlyAppend | geonetworkx/utils.py:49-50 | the ints kept from a concatenation are those of the first part followed by those of the second, so order and repeats are the list's |
| Utils.IntsOnlySingle | geonetworkx/utils.py:49-50 | a single element is kept exactly when it is an int |
| Utils.CastIdIdempotent | geonetworkx/utils.py:48-54 | casting twice is casting once |
| Utils.NatStringDigits | geonetworkx/utils.py:52 | the decimal writing of a natural number is digits that read back as it |
| Utils.CastIdReadsDecimal | geonetworkx/utils.py:48-54 | an int written in decimal is cast back to the same int |
| Algorithms.Merged | geo_nx/algorithms.py:42 | the keys of a dict updated with another: the old ones in place, then the new ones, distinct |
| Algorithms.Updated | geo_nx/algorithms.py:42 | composed dictionaries hold the keys of both, geo_h's values winning and geo_g's kept otherwise |
| Algorithms.Compose | geo_nx/algorithms.py:39-44 | raises exactly when the crs differ (Python `!=`); otherwise geo_g's crs and both graphs' nodes and edges, geo_h's attributes winning |
| Algorithms.UnionAdjEdges | geo_nx/algorithms.py:42 | in the composition a node's neighbours are exactly the ends of its edges |
| Algorithms.UnionOrder | geo_nx/algorithms.py:42 | the composed node order lists every node once |
| Algorithms.ComposeValid | geo_nx/algorithms.py:42-44 | composing consistent graphs gives a consistent graph |
| Algorithms.Composed | geo_nx/algorithms.py:67-72 | None for an empty list and the single graph for one element |
| Algorithms.ComposeFoldCrs | geo_nx/algorithms.py:69-71 | the fold fails exactly when a graph's crs differs from the first one's, and otherwise keeps that crs |
| Algorithms.ComposedCrs | geo_nx/algorithms.py:67-72 | `compose_all` of a non-empty list succeeds exactly when every crs equals the first |
| Algorithms.ComposeFoldSnoc | geo_nx/algorithms.py:70-71 | folding over one more graph composes it last |
| Algorithms.ComposedSnoc | geo_nx/algorithms.py:67-72 | `compose_all` is a left fold of `compose` |
| Algorithms.ComposeFoldValid | geo_nx/algorithms.py:70-71 | folding consistent graphs gives a consistent graph |
| Algorithms.ComposeAll | geo_nx/algorithms.py:67-72 | the loop returns the left fold, consistent when the inputs are |
| Algorithms.Occurs | geo_nx/algorithms.py:103 | whether a value equals an element of a list |
| Algorithms.Shared | geo_nx/algorithms.py:103 | a common value, None exactly when the lists share none |
| Algorithms.CheckDisjointIds | geo_nx/algorithms.py:103-104 | the guard raises exactly when the two id columns share a value |
| Algorithms.Near | geo_nx/algorithms.py:217-232 | candidates are the ego-set nodes in `ext_gr`, other than the node and not inactive; reading a missing node raises KeyError |
| Algorithms.Candidates | geo_nx/algorithms.py:210-234 | without a radius every `ext_gr` node is a candidate, with one exactly the reached active nodes of `ext_gr` other than the node |
| Algorithms.Lengths | geo_nx/algorithms.py:235-244 | one path length per candidate, in the direction `is_source` picks; an error exactly when one path fails |
| Algorithms.MinOf | geo_nx/algorithms.py:245 | `min` is an element no greater than any other |
| Algorithms.DistanceIsMinimum | geo_nx/algorithms.py:235-245 | None exactly without candidates, else the least candidate path length |
| Algorithms.NodeToGraphCaches | geo_nx/algorithms.py:246-248 | only a truthy distance with an attribute name is written, only on the node and only under that name |
| Algorithms.DistValue | geo_nx/algorithms.py:247 | the cached value is truthy exactly for a non-zero distance |
| Algorithms.CacheKeepsShape | geo_nx/algorithms.py:246-247 | caching changes node attribute values only |
| Algorithms.WeightNodeToGraph | geo_nx/algorithms.py:210-248 | the method returns the distance and leaves the graph as `NodeToGraph` says |
| Algorithms.CacheDistance | geo_nx/algorithms.py:246-247 | the cache write leaves the graph as `Cache` says |
| Algorithms.Ends | geo_nx/algorithms.py:166-168 | edge[0] is the source end cached under `n_attribute+'_s'`, edge[1] the target end under `n_attribute+'_e'` |
| Algorithms.PyAdd | geo_nx/algorithms.py:178 | Python `+`: numbers add their values, two strings or two lists concatenate, any other pair raises |
| Algorithms.ContributionIsCachedOrDistance | geo_nx/algorithms.py:169-175 | a present truthy cached value is used as it is and leaves the graph alone; otherwise the contribution is the computed distance |
| Algorithms.ExtensionAsWritten | geo_nx/algorithms.py:167 | with an attribute name, the code as written agrees with the corrected `weight_extend` |
| Algorithms.DefaultAttributeRaises | geo_nx/algorithms.py:167 | with the default `n_attribute=None`, the code as written raises TypeError on any weighted edge |
| Algorithms.ExtendedWithoutNames | geo_nx/algorithms.py:168-178 | without cache names, nothing is written to the graph |
| Algorithms.ExtensionWithoutNameCachesNothing | geo_nx/algorithms.py:167-175 | corrected: with no attribute name the weight is computed and nothing is stored |
| Algorithms.FalsyRadiusIsWeight | geo_nx/algorithms.py:165 | a falsy radius is replaced by the edge weight |
| Algorithms.ExtensionAllOrNothing | geo_nx/algorithms.py:176-179 | None exactly when an end contributes a falsy value, otherwise the weight plus both contributions, the second on the graph the first left |
| Algorithms.CachedEndsReused | geo_nx/algorithms.py:169-170 | with truthy cached values at both ends the result is their sum with the weight, and the graph is kept |
| Algorithms.ContributionKeepsShape | geo_nx/algorithms.py:169-175 | a contribution changes node attribute values only |
| Algorithms.ExtendedKeepsShape | geo_nx/algorithms.py:168-178 | the loop over the ends changes node attribute values only |
| Algorithms.ExtensionKeepsGraph | geo_nx/algorithms.py:163-179 | `weight_extend` keeps the graph consistent, with the same nodes, neighbours and edges |
| Algorithms.Contribute | geo_nx/algorithms.py:169-175 | the method computes one end's contribution as `Contribution` says |
| Algorithms.WeightExtend | geo_nx/algorithms.py:163-179 | the loop over the two ends returns and caches what `Extension` says |
| Convert.NodeColumns | geo_nx/convert.py:56-64 | all columns for True, otherwise the listed names with the geometry |
| Convert.NodeColumnsAsWritten | geo_nx/convert.py:59-60 | apart from a tuple, the code as written selects the same columns |
| Convert.TupleColumnsRaise | geo_nx/convert.py:60 | a tuple of names raises TypeError as written |
| Convert.TupleIsList | geo_nx/convert.py:59-60 | corrected: a tuple selects what the same names as a list select |
| Convert.Restrict | geo_nx/convert.py:67 | a record restricted to the selected columns keeps exactly their cells |
| Convert.RecordAttrs | geo_nx/convert.py:76-81 | a node's attributes are the record's cells except the id column and float NaN |
| Convert.NodeItems | geo_nx/convert.py:68-84 | one (id, attributes) pair per row |
| Convert.AddNodesFromValid | geo_nx/convert.py:85 | adding nodes keeps the graph consistent and adds no edge |
| Convert.AddNodesFromKeys | geo_nx/convert.py:85 | the nodes are the old ones and the ids of the pairs |
| Convert.AddNodesFromFresh | geo_nx/convert.py:85 | distinct new ids are appended in order |
| Convert.AddNodesFromLastWins | geo_nx/convert.py:85 | a key keeps the value of the last pair that sets it |
| Convert.AddNodesFromKeeps | geo_nx/convert.py:85 | a key the pairs never set keeps its old value |
| Convert.AddNodesFromOrigin | geo_nx/convert.py:85 | every key comes from the old graph or from a pair |
| Convert.Selection | geo_nx/convert.py:65-67 | the columns read are the selected ones and the id column when it exists |
| Convert.FromNodelistAsWritten | geo_nx/convert.py:30-86 | apart from a tuple or an id column that does not exist, the code as written agrees with the corrected function |
| Convert.FromNodelist | geo_nx/convert.py:56-86 | raises exactly when a selected column is missing (KeyError) or, reading ids from the id column, a cell of it is `None` (ValueError, as networkx refuses `None` as a node) |
| Convert.MissingIdColumnRaises | geo_nx/convert.py:65-68 | as written, an id column that does not exist raises before the row-number fallback |
| Convert.MissingIdColumnNumbersRows | geo_nx/convert.py:68-71 | corrected: such an id column means row numbers |
| Convert.FromNodelistValid | geo_nx/convert.py:85-86 | a node table gives a consistent graph without edges, with the table's crs |
| Convert.RowNumbers | geo_nx/convert.py:69-71 | the ids 0..n-1 |
| Convert.FromNodelistNumbersRows | geo_nx/convert.py:68-71 | without an id column, the nodes are the row numbers in row order, each with its row's selected cells |
| Convert.NumberedNode | geo_nx/convert.py:85 | a pair with an id no other pair has gives its node exactly its dictionary |
| Convert.FromNodelistIdNodes | geo_nx/convert.py:72-85 | with an id column, the nodes are exactly the ids of the rows |
| Convert.FromNodelistIdAttributes | geo_nx/convert.py:72-85 | no attribute is the id column or NaN, and each comes from the last row of that id that has it |
| Convert.AttrNames | geo_nx/convert.py:225 | the columns of the node table are the attribute names of the nodes |
| Convert.NodeRecord | geo_nx/convert.py:225-226 | a node's row has its attributes, NaN elsewhere, and its id in the id column |
| Convert.ToNodelist | geo_nx/convert.py:222-229 | None exactly for a graph without nodes; KeyError exactly when `nodelist` names a missing node |
| Convert.ToNodelistRows | geo_nx/convert.py:222-229 | one row per node in graph order (or per listed id), each with its id and exactly its attributes |
| Convert.NodesPrefixStep | geo_nx/convert.py:85 | adding the next node extends the prefix graph by it |
| Convert.AddNodesFromPrefix | geo_nx/convert.py:85 | adding a graph's nodes in order to an empty graph rebuilds them |
| Convert.NodesPrefixAll | geo_nx/convert.py:85 | a consistent graph without edges is the graph of all its nodes |
| Convert.NodelistItems | geo_nx/convert.py:72-84 | the pairs read back from a node table are the graph's nodes in order |
| Convert.RecordReadBack | geo_nx/convert.py:76-81 | reading a node's row back gives its dictionary |
| Convert.NodelistRoundTrip | geo_nx/convert.py:203-229 | a graph without edges (and without a `None` node, which networkx never holds) written as a node table and read back with its id column is the same graph |
| EdgeList.EdgeColumns | geo_nx/convert.py:145-153 | every column but the ends for True, otherwise the listed names with the geometry and the weight |
| EdgeList.EdgeColumnsAsWritten | geo_nx/convert.py:148-149 | apart from a tuple, the code as written selects the same columns |
| EdgeList.TupleEdgeColumnsRaise | geo_nx/convert.py:149 | a tuple of edge columns raises TypeError as written |
| EdgeList.TupleEdgeColumns | geo_nx/convert.py:148-149 | corrected: a tuple selects the names, the geometry and the weight |
| EdgeList.WithWeight | geo_nx/convert.py:164-165 | a table without weight gets the geometry's length as weight; without geometry it raises KeyError; other cells are kept |
| EdgeList.EdgeItems | geo_nx/convert.py:166 | one (source, target, selected cells) triple per row |
| EdgeList.EdgePairs | geo_nx/convert.py:166 | the end pairs of the triples |
| EdgeList.AddEdgesFromValid | geo_nx/convert.py:166 | adding edges keeps the graph consistent |
| EdgeList.AddEdgesFromEdgeMap | geo_nx/convert.py:166 | the edge dictionaries after the triples are the fold of the triples |
| EdgeList.EdgeMapKeys | geo_nx/convert.py:166 | the edges are the old ones and one per end pair |
| EdgeList.EdgeMapLastWins | geo_nx/convert.py:166 | an edge key keeps the value of the last triple that sets it |
| EdgeList.EdgeGraph | geo_nx/convert.py:166 | networkx raises exactly for no or missing edge columns (NetworkXError), a missing end column (KeyError) or a `None` end cell (ValueError) |
| EdgeList.AddEdgesFromNodeMap | geo_nx/convert.py:166 | the node dictionaries after the triples are the fold of the triples |
| EdgeList.EndIds | geo_nx/convert.py:166 | the two ends of each triple in order |
| EdgeList.NodeMapKeys | geo_nx/convert.py:166 | the nodes are the old ones and the ends of the triples |
| EdgeList.NodeMapValues | geo_nx/convert.py:166 | an added end has an empty dictionary, others keep theirs |
| EdgeList.EdgeGraphNodes | geo_nx/convert.py:166 | the nodes of an edge table's graph are the cells of its end columns |
| EdgeList.EdgeGraphBare | geo_nx/convert.py:166 | each of those nodes has an empty dictionary |
| EdgeList.EdgeGraphIs | geo_nx/convert.py:166 | the graph is the triples added in turn to an empty graph |
| EdgeList.EdgeGraphValid | geo_nx/convert.py:166 | the graph is consistent and has no crs yet |
| EdgeList.EdgeGraphEdges | geo_nx/convert.py:166 | the edges are the pairs the rows give |
| EdgeList.EdgeGraphLastWins | geo_nx/convert.py:166 | the last row giving an edge sets each selected column on it |
| EdgeList.Prepared | geo_nx/convert.py:155-162 | a given node table is used as it is, and so is the edge table unless only the nodes have geometries |
| EdgeList.GraphCrs | geo_nx/convert.py:167-168 | the EPSG code of the edge table's crs, else of the node table's; AttributeError exactly when neither is there |
| EdgeList.Assemble | geo_nx/convert.py:166-170 | a result has the crs found and needs the edge graph and the node graph to succeed |
| EdgeList.FromEdgelistAsWritten | geo_nx/convert.py:89-170 | a tuple raises TypeError; with the default end columns and an existing id column the code as written agrees with the corrected function |
| EdgeList.OtherEndColumnsRaise | geo_nx/convert.py:166 | end columns named otherwise make the code as written raise KeyError |
| EdgeList.FromEdgelistSteps | geo_nx/convert.py:164-170 | a result comes from the weighted table, its edge graph, the crs and the node graph, composed |
| EdgeList.FromEdgelistValid | geo_nx/convert.py:166-170 | the result is consistent |
| EdgeList.FromEdgelistCrs | geo_nx/convert.py:167-168 | the result has the EPSG code of the edge table's crs, else of the node table's |
| EdgeList.FromEdgelistEdges | geo_nx/convert.py:166-170 | corrected: the edges are exactly the pairs the rows give in the caller's end columns |
| EdgeList.FromEdgelistDefaultWeight | geo_nx/convert.py:164-165 | without a weight column, each edge's weight is the geometry length of the last row giving it |
| EdgeList.WeightSelected | geo_nx/convert.py:145-153 | the weight column is always selected |
| EdgeList.ComposedWeight | geo_nx/convert.py:170 | the default weights survive composition with the nodes |
| EdgeList.WeightedLastWins | geo_nx/convert.py:164-166 | the weighted edge graph carries each edge's last row's length |
| EdgeList.ComposeEdgeValue | geo_nx/convert.py:170 | composing in the node graph keeps every edge dictionary |
| EdgeList.ComposeEdgeKeys | geo_nx/convert.py:170 | composing in the node graph adds no edge |
| EdgeList.WeightedPairs | geo_nx/convert.py:164-165 | adding the weight keeps the pairs the rows give |
| EdgeList.WeightedCells | geo_nx/convert.py:164-165 | adding the weight keeps the end cells |
| EdgeList.ComposeWithNodes | geo_nx/convert.py:170 | composing in the node graph keeps the graph consistent |
| LegacyConvert.LegacyNodeColumns | geonetworkx/convert.py:11-19 | True raises KeyError and a tuple TypeError; otherwise the listed names with the geometry |
| LegacyConvert.Dropped | geonetworkx/convert.py:24 | a record without its id cell keeps every other cell |
| LegacyConvert.LegacyNodeItems | geonetworkx/convert.py:20-24 | one (id, attributes) pair per row |
| LegacyConvert.LegacyNodelistAsWritten | geonetworkx/convert.py:26 | the code as written raises whenever the corrected function does |
| LegacyConvert.LegacyNodelistRaises | geonetworkx/convert.py:26 | as written no node table gives a graph: `GeoGraph(geo_gr, crs=...)` raises TypeError |
| LegacyConvert.LegacyNodelistErrors | geonetworkx/convert.py:11-25 | raises exactly for True, a tuple, a missing column, an unselected id column with rows to read, or a `None` id cell (which `add_nodes_from` refuses) |
| LegacyConvert.LegacyNodelistIs | geonetworkx/convert.py:20-25 | the graph is the items added in turn to an empty graph |
| LegacyConvert.LegacyNodelistValid | geonetworkx/convert.py:25-26 | a consistent graph without edges, with the table's crs |
| LegacyConvert.LegacyNodelistNumbersRows | geonetworkx/convert.py:21-22 | without an id column the nodes are the row numbers in order, each with its selected record |
| LegacyConvert.LegacyNodelistIds | geonetworkx/convert.py:23-24 | with an id column the nodes are exactly the row ids |
| LegacyConvert.LegacyNodelistDropsId | geonetworkx/convert.py:24 | no node keeps the id column among its attributes |
| LegacyConvert.LineEnds | geonetworkx/convert.py:63-64 | `boundary.geoms[0]` and `[1]` exist exactly for an open line with two vertices, and are its first and last vertices |
| LegacyConvert.EndPoints | geonetworkx/convert.py:63-64 | each row's start and end point |
| LegacyConvert.EndPointsErrors | geonetworkx/convert.py:63-64 | the points are found exactly when every line has them; otherwise the error is the first failing row's |
| LegacyConvert.Dedup | geonetworkx/convert.py:69-71 | `drop_duplicates` keeps each value once, and nothing else |
| LegacyConvert.DedupOrder | geonetworkx/convert.py:71 | the values stay in the order of their first appearance |
| LegacyConvert.SetNodeAttributesValid | geonetworkx/convert.py:84 | `set_node_attributes` keeps the graph consistent |
| LegacyConvert.SetBareNodes | geonetworkx/convert.py:84 | a bare node gets the dictionary of its id, or stays empty |
| LegacyConvert.NodeDictKeys | geonetworkx/convert.py:83 | the ids of the dictionary are the id cells of the records |
| LegacyConvert.NodeDictLastWins | geonetworkx/convert.py:83 | the last record of an id gives its dictionary, without the id cell |
| LegacyConvert.NodeDictValue | geonetworkx/convert.py:83 | each id has the dictionary of a record with that id |
| LegacyConvert.LegacyEdgelistAsWritten | geonetworkx/convert.py:28-90 | the code as written returns only graphs without nodes or edges, and raises for a tuple |
| LegacyConvert.PreparedKeeps | geonetworkx/convert.py:53-76 | outside the derived-geometry branch the given tables are used as they are |
| LegacyConvert.LegacyEdgelistValid | geonetworkx/convert.py:80-87 | the corrected result is consistent |
| LegacyConvert.LegacyEdgelistCrs | geonetworkx/convert.py:86-87 | the EPSG code of the edge table's crs, else of the given node table's |
| LegacyConvert.LegacyEdgelistEdges | geonetworkx/convert.py:80 | corrected: the edges are exactly the pairs the rows give in the caller's end columns |
| LegacyConvert.LegacyNodeKeys | geonetworkx/convert.py:80-84 | corrected: the nodes are exactly the end cells; node records of other ids are skipped |
| LegacyConvert.LegacyNodeAttributes | geonetworkx/convert.py:82-84 | with a node table each node has its id's record without the id cell, later records winning, or an empty dictionary |
| LegacyConvert.LegacyDefaultWeight | geonetworkx/convert.py:78-79 | without a weight column each edge's weight is the geometry length of its last row |
| LegacyConvert.LegacyEdgelistLosesGraph | geonetworkx/convert.py:90 | the code as written returns an empty graph where the corrected one has the rows' ends as nodes |
| LegacyConvert.LegacyOtherEndsRaise | geonetworkx/convert.py:80 | end columns named otherwise make the code as written raise KeyError |
| LegacyConvert.PreparedNumbered | geonetworkx/convert.py:70-76 | without end columns the table gets its ends numbered and the node table is the numbered points |
| LegacyConvert.NumberedEdges | geonetworkx/convert.py:72-74 | each edge joins the numbers of its row's start and end among the distinct points |
| LegacyConvert.NumberedNodeKeys | geonetworkx/convert.py:71-75 | the nodes are exactly the numbers 0..k-1 of the k distinct end points |
| LegacyConvert.NumberedNodeGeometry | geonetworkx/convert.py:72-84 | node k has the k-th distinct end point as its geometry |
| LegacyConvert.NumberedNodeCount | geonetworkx/convert.py:71 | there are as many nodes as distinct end points |
| LegacyConvert.PairNodeGeometry | geonetworkx/convert.py:66-69 | with end columns each node has as geometry the start of a row it is the source of or the end of a row it is the target of |
| LegacyConvert.DedupCount | geonetworkx/convert.py:69 | the de-duplication has as many values as the set of values |
| LegacyConvert.SquareFourNodes | tests/tests_geograph.py:26-29 | four lines around a square give four nodes when corrected, and no node as written |
| LegacyConvert.SquareCorners | tests/tests_geograph.py:26-27 | the end points of the four lines are the four distinct corners |

## Left out

- Geometry arithmetic (shapely's `project`, `interpolate`, `length`, `distance`, `centroid`, `shortest_line`, `LineString`) is floating point. It is passed in as uninterpreted functions. `geo_cut` is given the vertex abscissae, with the projection point, abscissa, length, interpolated point and offset as inputs.
- `geo_merge` and the `geo_cut` that `geo_nx/geograph.py` imports live in `geo_nx/utils.py`, which is not part of this model. They are uninterpreted functions.
- `find_nearest_node` and `find_nearest_edge` (a geopandas `sjoin_nearest`): `project_node` and `merge_node` receive the lookup's answer as an input.
- networkx's `ego_graph` and `shortest_path_length` are given answers (`NetOps`); a missing path is an error.
- The adjacency order `nx.compose` builds is simplified: each node lists its geo_g neighbours, then the new geo_h ones.
- The body of `project_graph` beyond its id guard (geopandas joins and geometry), `weight_node_to_node`, `geom_to_crs` and `to_epsg` (an uninterpreted function): coordinate transforms and floating point.
- `to_geopandas_edgelist` (both versions), `explore`, `plot` and `to_directed`: they render or wrap networkx views.
- `geo_nx/geodigraph.py` (delegating wrappers) and the example scripts: no logic of their own beyond what is modelled.
- The legacy edge-geometry derivation from a node table (`geonetworkx/convert.py:53-60`) is one uninterpreted step (`LegacyOps.nodeLines`).
- LegacyConvert.LegacyEdgelistCrs, LegacyConvert.LegacyEdgelistEdges, LegacyConvert.LegacyNodeKeys and LegacyConvert.LegacyDefaultWeight: they exclude that derived-geometry branch.
- LegacyConvert.PairNodeGeometry, LegacyConvert.NumberedNodeGeometry: they require an id column named otherwise than `geometry`; with that name the node record loses its id.
- pandas details are not modelled: dtype coercion, column order, the index kept by `drop_duplicates`, and tables with columns already named `source_geo`/`target_geo`.
- Utils.ParseInt, Utils.CastId: only ASCII digits are read; Python's `int()` also accepts the other Unicode decimal digits, which are left unchanged here.
- Algorithms.PyAdd: float `+` is exact real addition here; Python rounds each sum to a double and overflows to `inf`, which a finite `VFloat` cannot hold.
- Algorithms.PyAdd: a list weight is added by value; Python's `dist_ext += dist_st` extends the edge's own weight list in place (so that edge's weight changes) and accepts any iterable on the right, where the model raises.
- GeoGraphs.GeoGraph.EraseLinearNodes: `keep` is taken as the list `keep_attr` becomes (`[]` when falsy, `[keep_attr]` for a single name); that normalisation is not modelled.
- Graphs.AddNodeValid, Graphs.AddEdgeEffect, GeoGraphs.GeoGraph.AddNode, GeoGraphs.GeoGraph.AddEdge: the graph primitives are total; the ValueError networkx raises for `None` as a new node is modelled where ids come from the caller or a table (`Edits.InsertNode`, `Convert.FromNodelist`, `LegacyConvert.LegacyNodelist`, `EdgeList.EdgeGraph`), and `Graphs.Valid` does not exclude a `None` node.
- pyproj crs comparison is Python `==` on the modelled values.
- Node ids are compared structurally (`1` and `1.0` are different ids); Python would hash them together.
- `compose_all` of a one-element list returns the element itself, not a copy; object identity is not modelled.
- Set iteration order (`list(set(...))` of column names) is not modelled: selections are sets.
- Concurrency and aliasing beyond the two graphs of `project_node`/`merge_node` are not modelled.

## Findings

| source | as written | input that shows it | evidently intended | confidence | as-written member | corrected member |
|---|---|---|---|---|---|---|
| geo_nx/algorithms.py:167 | `n_attribute + '_s'` runs before anything else | the default `n_attribute=None` on any weighted edge raises TypeError | no attribute name means no caching | not executed | Algorithms.ExtensionAsWritten, Algorithms.DefaultAttributeRaises | Algorithms.Extension, Algorithms.ExtensionWithoutNameCachesNothing |
| geo_nx/convert.py:60 | `node_attr + [GEOM]` | `node_attr=("a",)` raises TypeError (tuple + list) | a tuple selects like a list, as the `case` admits it | not executed | Convert.NodeColumnsAsWritten, Convert.TupleColumnsRaise | Convert.NodeColumns, Convert.TupleIsList |
| geo_nx/convert.py:65-68 | the id column is always added to the `.loc` selection | `node_id="id"` on a table without that column raises KeyError before line 68 | fall back to row numbers, as line 68 says | not executed | Convert.FromNodelistAsWritten, Convert.MissingIdColumnRaises | Convert.FromNodelist, Convert.MissingIdColumnNumbersRows |
| geo_nx/convert.py:149 | `edge_attr + [GEOM, WEIGHT]` | `edge_attr=("a",)` raises TypeError | a tuple selects like a list | not executed | EdgeList.EdgeColumnsAsWritten, EdgeList.TupleEdgeColumnsRaise | EdgeList.EdgeColumns, EdgeList.TupleEdgeColumns |
| geo_nx/convert.py:166 | `nx.from_pandas_edgelist(e_gdf, edge_attr=...)` reads the default end columns | `source="u"` on a table with geometry and weight and no column `source` raises KeyError | read the ends from the caller's `source`/`target` | not executed | EdgeList.FromEdgelistAsWritten, EdgeList.OtherEndColumnsRaise | EdgeList.FromEdgelist, EdgeList.FromEdgelistEdges |
| geonetworkx/convert.py:26 | `gnx.GeoGraph(geo_gr, crs=...)` against a constructor whose first parameter is `crs` | any table the selection accepts raises TypeError | a GeoGraph of those nodes with the table's crs | not executed | LegacyConvert.LegacyNodelistAsWritten, LegacyConvert.LegacyNodelistRaises | LegacyConvert.LegacyNodelist, LegacyConvert.LegacyNodelistNumbersRows |
| geonetworkx/convert.py:90 | `gnx.GeoGraph(geo_gr)` passes the graph as `crs` of a new empty graph | the four-line square of tests/tests_geograph.py:26-29 gives no node, where the test expects four | return the graph built | not executed | LegacyConvert.LegacyEdgelistAsWritten, LegacyConvert.SquareFourNodes | LegacyConvert.LegacyEdgelist, LegacyConvert.NumberedNodeCount |
| geonetworkx/convert.py:80 | `nx.from_pandas_edgelist(e_gdf, edge_attr=...)` reads the default end columns | `source="u"` on a table with geometry and weight and no column `source` raises KeyError | read the ends from the caller's `source`/`target` | not executed | LegacyConvert.LegacyEdgelistAsWritten, LegacyConvert.LegacyOtherEndsRaise | LegacyConvert.LegacyEdgelist, LegacyConvert.LegacyEdgelistEdges |
