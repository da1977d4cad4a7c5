/** The incremental polygon of src/geodesic.c: a mutable object, the value it stands for,
    and the proof that each operation on the object is the operation on the value. */
module Polygons {
  import opened Basics
  import opened RealMath
  import opened Angles
  import opened AreaReduction

  datatype Double = NaN | Num(value: real)

  /** Outcome of the inverse problem that polygons use: length of the edge and area
      under it. */
  datatype Edge = Edge(s12: real, area: real)

  /** Outcome of the direct problem: the end point, with unrolled longitude, and the
      area under the edge. */
  datatype Landing = Landing(lat: real, lon: real, area: real)

  /** An ellipsoid: its area, 4 * pi * c2, and solvers for the two geodesic problems. */
  datatype Geodesic = Geodesic(
    area0: real,
    inverse: (real, real, real, real) -> Edge,
    direct: (real, real, real, real) -> Landing)

  /** The value of a polygon object. */
  datatype State = State(
    polyline: bool, num: nat,
    lat0: Double, lon0: Double, lat: Double, lon: Double,
    perimeter: real, area: real, crossings: int)
  {
    predicate Consistent() {
      num > 0 ==> lat0.Num? && lon0.Num? && lat.Num? && lon.Num?
    }
  }

  /** What compute, testpoint and testedge hand back; `area` is None when the caller's
      variable is left unassigned. */
  datatype Report = Report(num: nat, perimeter: Double, area: Option<Double>)

  function Cleared(polyline: bool): State {
    State(polyline, 0, NaN, NaN, NaN, NaN, 0.0, 0.0, 0)
  }

  function WithPoint(g: Geodesic, st: State, lat: real, lon: real): (r: State)
    requires st.Consistent()
    ensures r.Consistent() && r.num == st.num + 1 && r.polyline == st.polyline
  {
    var moved := st.(num := st.num + 1, lat := Num(lat), lon := Num(lon));
    if st.num == 0 then moved.(lat0 := Num(lat), lon0 := Num(lon))
    else
      var e := g.inverse(st.lat.value, st.lon.value, lat, lon);
      var longer := moved.(perimeter := st.perimeter + e.s12);
      if st.polyline then longer
      else longer.(area := st.area + e.area,
                   crossings := st.crossings + Transit(st.lon.value, lon))
  }

  function WithEdge(g: Geodesic, st: State, azi: real, s: real): (r: State)
    requires st.Consistent()
    ensures r.Consistent() && r.polyline == st.polyline
    ensures r.num == if st.num == 0 then 0 else st.num + 1
  {
    if st.num == 0 then st
    else
      var to := g.direct(st.lat.value, st.lon.value, azi, s);
      var longer := st.(num := st.num + 1, lat := Num(to.lat), lon := Num(to.lon),
                        perimeter := st.perimeter + s);
      if st.polyline then longer
      else longer.(area := st.area + to.area,
                   crossings := st.crossings + TransitDirect(st.lon.value, to.lon))
  }

  /** The polygon as it stands: closed unless it is a polyline. */
  function Computed(g: Geodesic, st: State, reverse: bool, sign: bool): Report
    requires st.Consistent() && g.area0 > 0.0
  {
    if st.num < 2 then Report(st.num, Num(0.0), if st.polyline then None else Some(Num(0.0)))
    else if st.polyline then Report(st.num, Num(st.perimeter), None)
    else
      var e := g.inverse(st.lat.value, st.lon.value, st.lat0.value, st.lon0.value);
      var crossings := st.crossings + Transit(st.lon.value, st.lon0.value);
      Report(st.num, Num(st.perimeter + e.s12),
             Some(Num(AreaReduceB(st.area + e.area, g.area0, crossings, reverse, sign))))
  }

  class Polygon {
    var lat: Double
    var lon: Double
    var lat0: Double
    var lon0: Double
    const A: array<real>
    const P: array<real>
    var polyline: bool
    var crossings: int
    var num: nat

    ghost predicate Valid()
      reads this, A, P
    {
      && A != P && Exact(A) && Exact(P)
      && Value().Consistent()
    }

    ghost function Value(): State
      reads this, A, P
      requires A.Length == 2 && P.Length == 2
    {
      State(polyline, num, lat0, lon0, lat, lon, P[0], A[0], crossings)
    }

    /** geod_polygon_init. */
    constructor (polylinep: bool)
      ensures Valid() && fresh(A) && fresh(P)
      ensures Value() == Cleared(polylinep)
    {
      A, P := new real[2], new real[2];
      polyline := polylinep;
      new;
      Clear();
    }

    method Clear()
      requires A != P && A.Length == P.Length == 2
      modifies this, A, P
      ensures Valid()
      ensures Value() == Cleared(old(polyline))
    {
      lat0, lon0, lat, lon := NaN, NaN, NaN, NaN;
      AccIni(P);
      AccIni(A);
      num, crossings := 0, 0;
    }

    method AddPoint(g: Geodesic, lat: real, lon: real)
      requires Valid()
      modifies this, A, P
      ensures Valid()
      ensures Value() == WithPoint(g, old(Value()), lat, lon)
    {
      if num == 0 {
        lat0, this.lat := Num(lat), Num(lat);
        lon0, this.lon := Num(lon), Num(lon);
      } else {
        var e := g.inverse(this.lat.value, this.lon.value, lat, lon);
        AccAdd(P, e.s12);
        if !polyline {
          AccAdd(A, e.area);
          crossings := crossings + Transit(this.lon.value, lon);
        }
        this.lat, this.lon := Num(lat), Num(lon);
      }
      num := num + 1;
    }

    method AddEdge(g: Geodesic, azi: real, s: real)
      requires Valid()
      modifies this, A, P
      ensures Valid()
      ensures Value() == WithEdge(g, old(Value()), azi, s)
    {
      if num != 0 {
        var to := g.direct(lat.value, lon.value, azi, s);
        AccAdd(P, s);
        if !polyline {
          AccAdd(A, to.area);
          crossings := crossings + TransitDirect(lon.value, to.lon);
        }
        lat, lon := Num(to.lat), Num(to.lon);
        num := num + 1;
      }
    }

    method Compute(g: Geodesic, reverse: bool, sign: bool) returns (r: Report)
      requires Valid() && g.area0 > 0.0
      ensures r == Computed(g, Value(), reverse, sign)
    {
      hide Transit, AreaReduceB;
      if num < 2 {
        return Report(num, Num(0.0), if polyline then None else Some(Num(0.0)));
      }
      if polyline {
        return Report(num, Num(P[0]), None);
      }
      var e := g.inverse(lat.value, lon.value, lat0.value, lon0.value);
      var t := new real[2];
      var perimeter := AccSum(P, e.s12);
      AccCopy(A, t);
      assert t[0] == t[..][0] == A[0] && t[1] == t[..][1] == A[1];
      AccAdd(t, e.area);
      var area := AreaReduceA(t, g.area0, crossings + Transit(lon.value, lon0.value), reverse, sign);
      r := Report(num, Num(perimeter), Some(Num(area)));
    }

    /** The answer that adding the point and computing would give; the polygon stays as
        it is. */
    method TestPoint(g: Geodesic, lat: real, lon: real, reverse: bool, sign: bool)
      returns (r: Report)
      requires Valid() && g.area0 > 0.0
      ensures r == Computed(g, WithPoint(g, Value(), lat, lon), reverse, sign)
    {
      hide Transit, AreaReduceB;
      var num := this.num + 1;
      if num == 1 {
        return Report(num, Num(0.0), if polyline then None else Some(Num(0.0)));
      }
      var perimeter := P[0];
      var tempsum := if polyline then 0.0 else A[0];
      var crossings := this.crossings;
      var i := 0;
      while i < if polyline then 1 else 2
        invariant 0 <= i <= if polyline then 1 else 2
        invariant i >= 1 ==>
                    var st := WithPoint(g, Value(), lat, lon);
                    var back := g.inverse(lat, lon, lat0.value, lon0.value);
                    && perimeter == st.perimeter + (if i == 1 then 0.0 else back.s12)
                    && (!polyline ==>
                          && tempsum == st.area + (if i == 1 then 0.0 else back.area)
                          && crossings == st.crossings + (if i == 1 then 0 else Transit(lon, lon0.value)))
        invariant i == 0 ==> perimeter == P[0] && (!polyline ==> tempsum == A[0]) && crossings == this.crossings
      {
        var e := g.inverse(
          if i == 0 then this.lat.value else lat, if i == 0 then this.lon.value else lon,
          if i != 0 then lat0.value else lat, if i != 0 then lon0.value else lon);
        perimeter := perimeter + e.s12;
        if !polyline {
          tempsum := tempsum + e.area;
          crossings := crossings + Transit(if i == 0 then this.lon.value else lon,
                                           if i != 0 then lon0.value else lon);
        }
        i := i + 1;
      }
      if polyline {
        return Report(num, Num(perimeter), None);
      }
      r := Report(num, Num(perimeter), Some(Num(AreaReduceB(tempsum, g.area0, crossings, reverse, sign))));
    }

    /** The answer that adding the edge and computing would give, provided there is a
        vertex to start from; the polygon stays as it is. */
    method TestEdge(g: Geodesic, azi: real, s: real, reverse: bool, sign: bool)
      returns (r: Report)
      requires Valid() && g.area0 > 0.0
      ensures num > 0 ==> r == Computed(g, WithEdge(g, Value(), azi, s), reverse, sign)
      ensures num == 0 ==> r == Report(0, NaN, if polyline then None else Some(NaN))
    {
      hide Transit, TransitDirect, AreaReduceB;
      var num := this.num + 1;
      if num == 1 {
        return Report(0, NaN, if polyline then None else Some(NaN));
      }
      var perimeter := P[0] + s;
      if polyline {
        return Report(num, Num(perimeter), None);
      }
      var tempsum := A[0];
      var crossings := this.crossings;
      var to := g.direct(lat.value, lon.value, azi, s);
      tempsum := tempsum + to.area;
      crossings := crossings + TransitDirect(lon.value, to.lon);
      var e := g.inverse(to.lat, to.lon, lat0.value, lon0.value);
      perimeter := perimeter + e.s12;
      tempsum := tempsum + e.area;
      crossings := crossings + Transit(to.lon, lon0.value);
      r := Report(num, Num(perimeter), Some(Num(AreaReduceB(tempsum, g.area0, crossings, reverse, sign))));
    }
  }
}
