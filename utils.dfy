/** Cutting a polyline at the projection of a geometry, and coercing node
    ids read back from a table. The shapely calls are replaced by the numbers
    they return: the abscissa of every vertex along the line, the abscissa
    and coordinate of the query's centroid, and the interpolated point. */
module Utils {
  import opened Values

  /** What shapely reports about the query geometry and the line. */
  datatype Projection = Projection(
    absc: real,      // line.project(centroid)
    length: real,    // line.length
    point: Coord,    // the centroid's coordinate
    interp: Coord,   // line.interpolate(absc)
    offset: real)    // distance from the centroid to the interpolated point

  /** The two parts of the line, the split point and the distance returned. */
  datatype Cut = Cut(first: seq<Coord>, second: seq<Coord>, point: Coord, dist: real)

  /** Index of the first vertex whose abscissa reaches `p`, or |absc| when
      none does. */
  function FirstReaching(absc: seq<real>, p: real): (k: nat)
    ensures k <= |absc|
    ensures forall j :: 0 <= j < k ==> absc[j] < p
    ensures k < |absc| ==> absc[k] >= p
  {
    if absc == [] then 0
    else if absc[0] >= p then 0
    else 1 + FirstReaching(absc[1..], p)
  }

  /** The first reaching index is determined by the two facts above. */
  lemma {:induction false} FirstReachingIs(absc: seq<real>, p: real, k: nat)
    requires k <= |absc|
    requires forall j :: 0 <= j < k ==> absc[j] < p
    requires k < |absc| ==> absc[k] >= p
    ensures FirstReaching(absc, p) == k
  {
    if absc != [] && k > 0 {
      FirstReachingIs(absc[1..], p, k - 1);
    }
  }

  /** `geo_cut(line, geom, adjust)` on a line with vertices `coords` whose
      abscissae along the line are `vertexAbsc`. */
  method GeoCut(coords: seq<Coord>, vertexAbsc: seq<real>, proj: Projection, adjust: bool)
    returns (r: Option<Cut>)
    requires |vertexAbsc| == |coords|
    // no cut unless the projection is strictly inside the line
    ensures proj.absc <= 0.0 || proj.absc >= proj.length ==> r.None?
    ensures 0.0 < proj.absc < proj.length ==>
      (r.None? <==> FirstReaching(vertexAbsc, proj.absc) == |coords|)
    // the cut is made at the first vertex that reaches the projection
    ensures r.Some? ==>
      var ind := FirstReaching(vertexAbsc, proj.absc);
      ind < |coords| &&
      (vertexAbsc[ind] == proj.absc ==>
        var c := coords[ind := if adjust then proj.point else coords[ind]];
        r.value == Cut(c[..ind + 1], c[ind..], c[ind], 0.0)) &&
      (vertexAbsc[ind] != proj.absc ==>
        var nc := if adjust then proj.point else proj.interp;
        r.value == Cut(coords[..ind] + [nc], [nc] + coords[ind..], nc, if adjust then 0.0 else proj.offset))
    // both parts meet at the returned point
    ensures r.Some? ==>
      |r.value.first| > 0 && |r.value.second| > 0 &&
      r.value.first[|r.value.first| - 1] == r.value.point == r.value.second[0]
    // without adjustment the parts put back together give the line, with at
    // most the interpolated vertex added
    ensures r.Some? && !adjust ==>
      var ind := FirstReaching(vertexAbsc, proj.absc);
      r.value.first + r.value.second[1..] ==
        if vertexAbsc[ind] == proj.absc then coords
        else coords[..ind] + [proj.interp] + coords[ind..]
    // on a line whose ends project to 0 and to its length, an interior
    // projection always cuts into two parts of at least two vertices
    ensures (0.0 < proj.absc < proj.length && |coords| > 0 &&
             vertexAbsc[0] <= 0.0 && vertexAbsc[|coords| - 1] >= proj.length) ==>
      r.Some? && |r.value.first| >= 2 && |r.value.second| >= 2
  {
    if proj.absc <= 0.0 || proj.absc >= proj.length {
      return None;
    }
    var c := coords;
    var ind := 0;
    while ind < |c|
      invariant 0 <= ind <= |c| && c == coords
      invariant forall j :: 0 <= j < ind ==> vertexAbsc[j] < proj.absc
    {
      var ptAbsc := vertexAbsc[ind];
      if ptAbsc == proj.absc {
        FirstReachingIs(vertexAbsc, proj.absc, ind);
        c := c[ind := if adjust then proj.point else c[ind]];
        assert c[..ind + 1] + c[ind..][1..] == c;
        return Some(Cut(c[..ind + 1], c[ind..], c[ind], 0.0));
      }
      if ptAbsc > proj.absc {
        FirstReachingIs(vertexAbsc, proj.absc, ind);
        var newC := if adjust then proj.point else proj.interp;
        var dist := if adjust then 0.0 else proj.offset;
        assert ([newC] + c[ind..])[1..] == c[ind..];
        return Some(Cut(c[..ind] + [newC], [newC] + c[ind..], newC, dist));
      }
      ind := ind + 1;
    }
    FirstReachingIs(vertexAbsc, proj.absc, ind);
    return None;
  }

  // ---------------------------------------------------------------------
  // cast_id

  predicate IsInt(v: Value) {
    v.VInt? || v.VBool?   // `isinstance(v, int)` holds of bools too
  }

  /** The elements of a list that are ints, in their order. */
  function IntsOnly(items: seq<Value>): (r: seq<Value>)
    ensures forall i :: 0 <= i < |r| ==> IsInt(r[i]) && r[i] in items
    ensures forall i :: 0 <= i < |items| && IsInt(items[i]) ==> items[i] in r
    ensures |r| <= |items|
  {
    if items == [] then []
    else (if IsInt(items[0]) then [items[0]] else []) + IntsOnly(items[1..])
  }

  /** Python's `str.isspace`, which `int()` strips: the ASCII white space
      \t \n \v \f \r and space, the separators U+001C..U+001F, U+0085,
      U+00A0 and the Unicode space and line separators. */
  predicate IsSpace(c: char) {
    c == ' ' || '\t' <= c <= '\r' || '\U{1c}' <= c <= '\U{1f}' || c == '\U{85}' || c == '\U{a0}'
    || c == '\U{1680}' || '\U{2000}' <= c <= '\U{200a}' || c == '\U{2028}' || c == '\U{2029}'
    || c == '\U{202f}' || c == '\U{205f}' || c == '\U{3000}'
  }

  /** An ASCII decimal digit. */
  predicate IsDigit(c: char) {
    '0' <= c <= '9'
  }

  function StripRight(s: string): (r: string)
    ensures |r| <= |s|
  {
    if s != [] && IsSpace(s[|s| - 1]) then StripRight(s[..|s| - 1]) else s
  }

  function StripLeft(s: string): (r: string)
    ensures |r| <= |s|
  {
    if s != [] && IsSpace(s[0]) then StripLeft(s[1..]) else s
  }

  /** Digits, with single underscores allowed between two digits. */
  predicate DigitString(t: string)
    decreases |t|
  {
    |t| > 0 && IsDigit(t[0]) &&
    (|t| == 1 || DigitString(if t[1] == '_' then t[2..] else t[1..]))
  }

  predicate AllDigits(t: string) {
    forall k :: 0 <= k < |t| ==> IsDigit(t[k])
  }

  /** The value of the digits of `t`, underscores skipped. */
  function DigitsValue(t: string): nat {
    if t == [] then 0
    else if !IsDigit(t[|t| - 1]) then DigitsValue(t[..|t| - 1])
    else 10 * DigitsValue(t[..|t| - 1]) + (t[|t| - 1] as int - '0' as int)
  }

  /** `int(s)` on a string: surrounding white space, an optional sign and
      decimal digits; None where Python raises ValueError. */
  function ParseInt(s: string): Option<int> {
    var t := StripLeft(StripRight(s));
    if |t| > 0 && (t[0] == '+' || t[0] == '-') then
      var magnitude: int := DigitsValue(t[1..]);
      if DigitString(t[1..]) then Some(if t[0] == '-' then -magnitude else magnitude)
      else None
    else if DigitString(t) then Some(DigitsValue(t))
    else None
  }

  /** `int(f)` on a float truncates toward zero. */
  function Truncate(f: real): (i: int)
    ensures f >= 0.0 ==> i as real <= f < i as real + 1.0
    ensures f < 0.0 ==> i as real - 1.0 < f <= i as real
  {
    if f >= 0.0 then f.Floor else -((-f).Floor)
  }

  /** `cast_id(node_id)`: a list keeps its int elements; anything else goes
      through `int()` and is returned unchanged when that raises. */
  function CastId(id: Value): (r: Value)
    ensures r.VInt? || r.VList? || r == id
    ensures id.VList? ==> r == VList(IntsOnly(id.items))
    ensures IsNumber(id) ==> r.VInt? && (id.VInt? ==> r == id)
    ensures id.VStr? ==> (r.VInt? <==> ParseInt(id.s).Some?)
  {
    match id
    case VList(items) => VList(IntsOnly(items))
    case VStr(s) =>
      (match ParseInt(s)
       case Some(i) => VInt(i)
       case None => id)
    case VInt(i) => id
    case VBool(b) => VInt(if b then 1 else 0)
    case VFloat(f) => VInt(Truncate(f))
    case _ => id   // None, NaN, geometry: int() raises
  }

  lemma {:induction false} IntsOnlyIdempotent(items: seq<Value>)
    ensures IntsOnly(IntsOnly(items)) == IntsOnly(items)
  {
    if items != [] {
      var rest := IntsOnly(items[1..]);
      IntsOnlyIdempotent(items[1..]);
      if IsInt(items[0]) {
        var r := [items[0]] + rest;
        assert IntsOnly(items) == r;
        assert r[0] == items[0] && r[1..] == rest;
        assert IntsOnly(r) == [items[0]] + IntsOnly(rest);
      } else {
        assert IntsOnly(items) == [] + rest == rest;
      }
    }
  }

  /** Filtering distributes over concatenation: the kept ints of a list are
      those of its first part followed by those of its rest, so their order
      and multiplicity are the list's. */
  lemma {:induction false} IntsOnlyAppend(a: seq<Value>, b: seq<Value>)
    ensures IntsOnly(a + b) == IntsOnly(a) + IntsOnly(b)
    decreases |a|
  {
    if a == [] {
      assert a + b == b;
    } else {
      assert (a + b)[0] == a[0] && (a + b)[1..] == a[1..] + b;
      IntsOnlyAppend(a[1..], b);
    }
  }

  /** A one-element list keeps its element exactly when it is an int. */
  lemma IntsOnlySingle(v: Value)
    ensures IntsOnly([v]) == (if IsInt(v) then [v] else [])
  {
    assert [v][1..] == [];
  }

  /** Casting twice is casting once: ids read back stay put. */
  lemma CastIdIdempotent(id: Value)
    ensures CastId(CastId(id)) == CastId(id)
  {
    if id.VList? {
      IntsOnlyIdempotent(id.items);
    }
  }

  // Decimal rendering, to state that a printed int reads back as itself.

  function DigitChar(d: nat): (c: char)
    requires d < 10
    ensures IsDigit(c) && c as int - '0' as int == d
  {
    "0123456789"[d]
  }

  function NatString(n: nat): string
    decreases n
  {
    if n < 10 then [DigitChar(n)] else NatString(n / 10) + [DigitChar(n % 10)]
  }

  function Decimal(i: int): string {
    if i < 0 then "-" + NatString(-i) else NatString(i)
  }

  lemma {:induction false} AllDigitsIsDigitString(t: string)
    requires |t| > 0 && AllDigits(t)
    ensures DigitString(t)
    decreases |t|
  {
    if |t| > 1 {
      assert IsDigit(t[1]);
      AllDigitsIsDigitString(t[1..]);
    }
  }

  lemma {:induction false} NatStringDigits(n: nat)
    ensures |NatString(n)| > 0 && AllDigits(NatString(n))
    ensures DigitsValue(NatString(n)) == n
    decreases n
  {
    if n >= 10 {
      NatStringDigits(n / 10);
      var p, d := NatString(n / 10), DigitChar(n % 10);
      var t := p + [d];
      assert t[..|t| - 1] == p && t[|t| - 1] == d;
      assert DigitsValue(t) == 10 * DigitsValue(p) + n % 10;
    }
  }

  /** A node id written in decimal (as a text column holds it) is cast back
      to the same int. */
  lemma CastIdReadsDecimal(i: int)
    ensures CastId(VStr(Decimal(i))) == VInt(i)
  {
    var s := Decimal(i);
    var t := NatString(if i < 0 then -i else i);
    NatStringDigits(if i < 0 then -i else i);
    AllDigitsIsDigitString(t);
    assert IsDigit(t[0]) && IsDigit(t[|t| - 1]);
    assert s[|s| - 1] == t[|t| - 1];
    assert StripRight(s) == s;
    assert StripLeft(s) == s;
    if i < 0 {
      assert s[1..] == t;
    }
  }
}
