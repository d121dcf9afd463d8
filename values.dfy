/** Python values as they appear in node and edge attribute dictionaries,
    geometry as opaque coordinates, and the oracles standing for the
    geometry library. */
module Values {

  datatype Option<+T> = None | Some(value: T)

  /** The exceptions the modelled code can raise. */
  datatype Error =
    | KeyError        // a missing dictionary key, column or node
    | TypeError       // an operation applied to a value of the wrong type
    | IndexError      // a missing element of a sequence
    | AttributeError  // an attribute the value does not have (`None.length`)
    | CrsMismatch     // `GeonxError`: two graphs with different crs
    | IdsOverlap      // `GeonxError`: node ids of two tables not disjoint
    | NoPath          // networkx: no path between two nodes
    | NodeNotFound    // networkx: a node missing from the graph searched
    | NetworkXError   // networkx: edge attribute columns missing or none
    | ValueError      // pandas: a join whose new column already exists;
                      // networkx: `None` added as a new node

  datatype Result<+T> = Ok(value: T) | Err(error: Error)

  /** A coordinate pair of a shapely geometry. */
  datatype Coord = Coord(x: real, y: real)

  /** A shapely geometry, known only by its vertex list (a point has one). */
  datatype Geom = Geom(coords: seq<Coord>)

  /** A Python value held in an attribute dictionary or used as a node id. */
  datatype Value =
    | VNone
    | VBool(b: bool)
    | VInt(i: int)
    | VFloat(f: real)        // a finite float
    | VNaN                   // float('nan'), as pandas fills missing cells
    | VStr(s: string)
    | VGeom(g: Geom)
    | VList(items: seq<Value>)

  type Attrs = map<string, Value>

  const GEOM: string := "geometry"
  const WEIGHT: string := "weight"
  const NODE_ID: string := "node_id"

  /** The attribute names the code reserves are different keys. */
  lemma NamesDiffer()
    ensures GEOM != WEIGHT && GEOM != NODE_ID && WEIGHT != NODE_ID
  {
    assert |GEOM| == 8 && |WEIGHT| == 6 && |NODE_ID| == 7;
  }

  /** Python truthiness (`bool(v)`); a shapely geometry is false when empty. */
  predicate Truthy(v: Value) {
    match v
    case VNone => false
    case VBool(b) => b
    case VInt(i) => i != 0
    case VFloat(f) => f != 0.0
    case VNaN => true
    case VStr(s) => s != ""
    case VGeom(g) => g.coords != []
    case VList(items) => items != []
  }

  /** A string argument that is given and not empty (`if name:`). */
  predicate Given(name: Option<string>) {
    name.Some? && name.value != ""
  }

  /** bool, int and float: the values Python adds and compares as numbers. */
  predicate IsNumber(v: Value) {
    v.VBool? || v.VInt? || v.VFloat?
  }

  function Num(v: Value): (r: Option<real>)
    ensures r.Some? <==> IsNumber(v)
  {
    match v
    case VBool(b) => Some(if b then 1.0 else 0.0)
    case VInt(i) => Some(i as real)
    case VFloat(f) => Some(f)
    case _ => None
  }

  /** Python `a == b`: numbers compare by value across bool/int/float, NaN is
      equal to nothing, lists compare element by element. */
  predicate PyEq(a: Value, b: Value)
    decreases a
  {
    if IsNumber(a) && IsNumber(b) then Num(a) == Num(b)
    else match a
      case VNone => b.VNone?
      case VStr(s) => b.VStr? && b.s == s
      case VGeom(g) => b.VGeom? && b.g == g
      case VList(xs) =>
        b.VList? && |xs| == |b.items| &&
        forall i :: 0 <= i < |xs| ==> PyEq(xs[i], b.items[i])
      case _ => false
  }

  /** A geometry value with at least one vertex. */
  predicate HasCoords(v: Value) {
    v.VGeom? && |v.g.coords| > 0
  }

  /** `geom.coords[0]`: AttributeError for a value that is not a geometry (it
      has no `coords`), IndexError for a geometry with no vertex. */
  function FirstCoordOf(v: Value): (r: Result<Coord>)
    ensures r.Ok? <==> HasCoords(v)
    ensures r.Ok? ==> r.value == v.g.coords[0]
    ensures !v.VGeom? ==> r == Err(AttributeError)
    ensures v.VGeom? && v.g.coords == [] ==> r == Err(IndexError)
  {
    if !v.VGeom? then Err(AttributeError)
    else if v.g.coords == [] then Err(IndexError)
    else Ok(v.g.coords[0])
  }

  /** What `geo_cut(line, geom, adjust)` returns: the two parts of the line,
      the cut point and a distance. */
  datatype CutParts = CutParts(first: Value, second: Value, point: Value, dist: real)

  /** The shapely operations the graph code calls, as uninterpreted oracles:
      `centroid`, `distance`, the two-point `LineString`, `length`, the
      `geo_merge` of two edge geometries (with its `adjust` flag) and the
      `geo_cut` of an edge geometry by a geometry. */
  datatype GeomOps = GeomOps(
    centroid: Value -> Value,
    distance: (Value, Value) -> real,
    segment: (Value, Value) -> Value,
    length: Value -> real,
    merge: (Value, Value, bool) -> Value,
    cut: (Value, Value, bool) -> Option<CutParts>)
}
