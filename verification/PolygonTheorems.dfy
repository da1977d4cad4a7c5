/** What the crossings and areas that a polygon accumulates mean over whole runs. */
module PolygonTheorems {
  import opened Basics
  import opened RealMath
  import opened Angles
  import opened AreaReduction
  import opened Polygons

  // ---------- runs ----------

  datatype Op = AddPoint(lat: real, lon: real) | AddEdge(azi: real, s: real)

  function Step(g: Geodesic, st: State, op: Op): (r: State)
    requires st.Consistent()
    ensures r.Consistent() && r.polyline == st.polyline
  {
    match op
    case AddPoint(lat, lon) => WithPoint(g, st, lat, lon)
    case AddEdge(azi, s) => WithEdge(g, st, azi, s)
  }

  /** The polygon reached from an empty one by any interleaving of operations. */
  function Run(g: Geodesic, ops: seq<Op>): (r: State)
    ensures r.Consistent() && !r.polyline
  {
    if ops == [] then Cleared(false)
    else Step(g, Run(g, ops[..|ops| - 1]), ops[|ops| - 1])
  }

  /** The polyline reached by the same operations. */
  function PolylineRun(g: Geodesic, ops: seq<Op>): (r: State)
    ensures r.Consistent() && r.polyline
  {
    if ops == [] then Cleared(true)
    else Step(g, PolylineRun(g, ops[..|ops| - 1]), ops[|ops| - 1])
  }

  /** A polyline goes through the states of the polygon, without the book-keeping for area
      and crossings. */
  lemma {:induction false} PolylineForgetsArea(g: Geodesic, ops: seq<Op>)
    ensures PolylineRun(g, ops) == Run(g, ops).(polyline := true, area := 0.0, crossings := 0)
  {
    hide Transit, TransitDirect;
    if ops != [] {
      PolylineForgetsArea(g, ops[..|ops| - 1]);
    }
  }

  /** Signed longitude swept by one operation. */
  function Sweep(g: Geodesic, st: State, op: Op): real
    requires st.Consistent()
  {
    if st.num == 0 then 0.0
    else
      match op
      case AddPoint(lat, lon) => AngDiff(st.lon.value, lon)
      case AddEdge(azi, s) => g.direct(st.lat.value, st.lon.value, azi, s).lon - st.lon.value
  }

  function TotalSweep(g: Geodesic, ops: seq<Op>): real {
    if ops == [] then 0.0
    else
      var before := ops[..|ops| - 1];
      TotalSweep(g, before) + Sweep(g, Run(g, before), ops[|ops| - 1])
  }

  /** 1 for an edge that reaches a given point by a hidden half turn. */
  function Hidden(st: State, op: Op): nat
    requires st.Consistent()
  {
    if st.num > 0 && op.AddPoint? && HiddenHalfTurn(st.lon.value, op.lon) then 1 else 0
  }

  function HiddenEdges(g: Geodesic, ops: seq<Op>): nat {
    if ops == [] then 0
    else
      var before := ops[..|ops| - 1];
      HiddenEdges(g, before) + Hidden(Run(g, before), ops[|ops| - 1])
  }

  predicate OnlyPoints(ops: seq<Op>) {
    forall i :: 0 <= i < |ops| ==> ops[i].AddPoint?
  }

  // ---------- crossings and sweeps ----------

  /** The sweep so far leads from the first longitude back to the current one after `k`
      whole turns, and the crossings count those turns and the hidden edges, modulo two or
      exactly. */
  ghost predicate Wound(st: State, sweep: real, hidden: nat, k: int, exactly: bool)
    requires st.Consistent()
  {
    if st.num == 0 then sweep == 0.0 && st.crossings == 0 && hidden == 0
    else
      var turns := k + Turn(st.lon.value) - Turn(st.lon0.value);
      && st.lon0.value + sweep == st.lon.value + TD * k as real
      && (st.crossings - (turns + hidden)) % 2 == 0
      && (exactly ==> st.crossings == turns + hidden)
  }

  lemma WoundStep(g: Geodesic, st: State, op: Op, sweep: real, hidden: nat, k0: int, exactly: bool)
    returns (k: int)
    requires st.Consistent() && !st.polyline && Wound(st, sweep, hidden, k0, exactly)
    ensures Wound(Step(g, st, op), sweep + Sweep(g, st, op), hidden + Hidden(st, op), k,
                  exactly && op.AddPoint?)
  {
    hide AngDiff, Transit, TransitDirect, Turn, HiddenHalfTurn;
    k := 0;
    if st.num > 0 {
      var lon, lon' := st.lon.value, Step(g, st, op).lon.value;
      var j, c := 0, TransitDirect(lon, lon');
      if op.AddPoint? {
        j := ShortestSweep(lon, lon');
        c := Transit(lon, lon');
      }
      k := k0 + j;
      ParityStep(st.crossings, k0 + Turn(lon) - Turn(st.lon0.value) + hidden,
                 c, j + Turn(lon') - Turn(lon) + Hidden(st, op),
                 k + Turn(lon') - Turn(st.lon0.value) + hidden + Hidden(st, op));
    }
  }

  /** Along every run, crossings keep count of the turns swept plus the hidden edges; edges
      given by azimuth keep the count modulo two. */
  lemma {:induction false} WindingInvariant(g: Geodesic, ops: seq<Op>) returns (k: int)
    ensures Wound(Run(g, ops), TotalSweep(g, ops), HiddenEdges(g, ops), k, OnlyPoints(ops))
  {
    hide *;
    RunUnfold(g, ops);
    if ops == [] {
      k := 0;
      WoundStart();
    } else {
      var before, op := ops[..|ops| - 1], ops[|ops| - 1];
      var k0 := WindingInvariant(g, before);
      k := WoundStep(g, Run(g, before), op, TotalSweep(g, before), HiddenEdges(g, before), k0,
                     OnlyPoints(before));
    }
  }

  lemma RunUnfold(g: Geodesic, ops: seq<Op>)
    ensures ops == [] ==>
              && Run(g, ops) == Cleared(false) && TotalSweep(g, ops) == 0.0
              && HiddenEdges(g, ops) == 0 && OnlyPoints(ops)
    ensures ops != [] ==>
              var before, op := ops[..|ops| - 1], ops[|ops| - 1];
              && Run(g, ops) == Step(g, Run(g, before), op)
              && TotalSweep(g, ops) == TotalSweep(g, before) + Sweep(g, Run(g, before), op)
              && HiddenEdges(g, ops) == HiddenEdges(g, before) + Hidden(Run(g, before), op)
              && (OnlyPoints(ops) <==> OnlyPoints(before) && op.AddPoint?)
  {
    hide Step, Sweep, Hidden;
    if ops != [] {
      assert ops == ops[..|ops| - 1] + [ops[|ops| - 1]];
    }
  }

  lemma WoundStart()
    ensures Wound(Cleared(false), 0.0, 0, 0, true)
  {
  }

  /** A crossing count and a whole number of turns for the shortest way between two
      longitudes. */
  lemma ShortestSweep(lon: real, lon': real) returns (j: int)
    ensures lon + AngDiff(lon, lon') == lon' + TD * j as real
    ensures Transit(lon, lon')
            == j + Turn(lon') - Turn(lon) + if HiddenHalfTurn(lon, lon') then 1 else 0
  {
    hide AngDiff, Transit, HiddenHalfTurn;
    j := TurnsOf(AngDiff(lon, lon'), lon' - lon);
    TransitCountsTurns(lon, lon');
    TurnShift(lon', j);
    assert lon + AngDiff(lon, lon') == lon' + TD * j as real;
  }

  lemma ParityStep(a: int, b: int, c: int, d: int, e: int)
    requires (a - b) % 2 == 0 && (c - d) % 2 == 0 && e == b + d
    ensures (a + c - e) % 2 == 0
  {
  }

  /** Total sweep of the closed polygon, closing edge included. */
  function ClosedSweep(g: Geodesic, ops: seq<Op>): real
    requires Run(g, ops).num > 0
  {
    var st := Run(g, ops);
    TotalSweep(g, ops) + AngDiff(st.lon.value, st.lon0.value)
  }

  /** Crossings that compute works with. */
  function ClosedCrossings(g: Geodesic, ops: seq<Op>): int
    requires Run(g, ops).num > 0
  {
    var st := Run(g, ops);
    st.crossings + Transit(st.lon.value, st.lon0.value)
  }

  /** Hidden half turns of the closed polygon. */
  function ClosedHidden(g: Geodesic, ops: seq<Op>): nat
    requires Run(g, ops).num > 0
  {
    var st := Run(g, ops);
    HiddenEdges(g, ops) + if HiddenHalfTurn(st.lon.value, st.lon0.value) then 1 else 0
  }

  /** A closed polygon sweeps a whole number of turns. The crossings of one built from points
      are that number plus the number of hidden half turns; with other edges they have the
      parity of that. */
  lemma WindingTheorem(g: Geodesic, ops: seq<Op>)
    requires Run(g, ops).num > 0
    ensures var turns := Turn(ClosedSweep(g, ops));
            && ClosedSweep(g, ops) == TD * turns as real
            && (ClosedCrossings(g, ops) - (turns + ClosedHidden(g, ops))) % 2 == 0
            && (OnlyPoints(ops) ==> ClosedCrossings(g, ops) == turns + ClosedHidden(g, ops))
  {
    hide AngDiff, Transit, HiddenHalfTurn, Run, TotalSweep, HiddenEdges;
    var k := WindingInvariant(g, ops);
    var j := ShortestSweep(Run(g, ops).lon.value, Run(g, ops).lon0.value);
    TurnShift(0.0, k + j);
  }

  /** So the crossings count the turns of a polygon built from points exactly if none of its
      edges is a hidden half turn. */
  lemma WindingExactly(g: Geodesic, ops: seq<Op>)
    requires OnlyPoints(ops) && ops != []
    ensures Run(g, ops).num > 0
    ensures ClosedSweep(g, ops) == TD * ClosedCrossings(g, ops) as real <==> ClosedHidden(g, ops) == 0
  {
    hide AngDiff, Transit, TransitDirect, HiddenHalfTurn, TotalSweep, HiddenEdges, ClosedSweep, ClosedCrossings;
    assert ops[|ops| - 1].AddPoint?;
    WindingTheorem(g, ops);
  }

  /** Every longitude that the run was given lies in [-180, 180]. */
  predicate LongitudesInRange(ops: seq<Op>) {
    forall i :: 0 <= i < |ops| ==> ops[i].AddPoint? && InRange(ops[i].lon)
  }

  lemma {:induction false} RunInRange(g: Geodesic, ops: seq<Op>)
    requires LongitudesInRange(ops)
    ensures HiddenEdges(g, ops) == 0
    ensures var st := Run(g, ops);
            st.num == |ops| && (st.num > 0 ==> InRange(st.lon.value) && InRange(st.lon0.value))
  {
    if ops != [] {
      var before := ops[..|ops| - 1];
      RunInRange(g, before);
      var st := Run(g, before);
      if st.num > 0 {
        NoHiddenHalfTurnInRange(st.lon.value, ops[|ops| - 1].lon);
      }
    }
  }

  /** For points given on [-180, 180] nothing needs to be excluded. */
  lemma WindingInRange(g: Geodesic, ops: seq<Op>)
    requires LongitudesInRange(ops) && ops != []
    ensures Run(g, ops).num > 0
    ensures ClosedSweep(g, ops) == TD * ClosedCrossings(g, ops) as real
  {
    RunInRange(g, ops);
    var st := Run(g, ops);
    NoHiddenHalfTurnInRange(st.lon.value, st.lon0.value);
    WindingExactly(g, ops);
  }

  // ---------- polygons as lists of vertices ----------

  datatype Vertex = Vertex(lat: real, lon: real)

  /** Length, area and crossings, which add up along a path. */
  datatype Tally = Tally(s: real, area: real, crossings: int) {
    function Plus(t: Tally): Tally {
      Tally(s + t.s, area + t.area, crossings + t.crossings)
    }
    function Minus(): Tally {
      Tally(s, -area, -crossings)
    }
  }

  const ZERO := Tally(0.0, 0.0, 0)

  /** What an edge adds. */
  type Weight = (Vertex, Vertex) -> Tally

  function EdgeWeight(g: Geodesic): Weight {
    (u: Vertex, v: Vertex) =>
      var e := g.inverse(u.lat, u.lon, v.lat, v.lon);
      Tally(e.s12, e.area, Transit(u.lon, v.lon))
  }

  function PathTally(w: Weight, vs: seq<Vertex>): Tally {
    if |vs| < 2 then ZERO
    else PathTally(w, vs[..|vs| - 1]).Plus(w(vs[|vs| - 2], vs[|vs| - 1]))
  }

  function CycleTally(w: Weight, vs: seq<Vertex>): Tally
    requires vs != []
  {
    PathTally(w, vs).Plus(w(vs[|vs| - 1], vs[0]))
  }

  function PointOps(vs: seq<Vertex>): (ops: seq<Op>)
    ensures |ops| == |vs|
  {
    seq(|vs|, i requires 0 <= i < |vs| => AddPoint(vs[i].lat, vs[i].lon))
  }

  /** What compute reports for the closed polygon with these vertices. */
  function PolygonReport(g: Geodesic, vs: seq<Vertex>, reverse: bool, sign: bool): Report
    requires g.area0 > 0.0
  {
    Computed(g, Run(g, PointOps(vs)), reverse, sign)
  }

  /** A report made from the tally of a cycle. */
  function TallyReport(area0: real, n: nat, t: Tally, reverse: bool, sign: bool): Report
    requires area0 > 0.0
  {
    Report(n, Num(t.s), Some(Num(AreaReduceB(t.area, area0, t.crossings, reverse, sign))))
  }

  /** The accumulated state is the tally of the path. */
  lemma {:induction false} RunTally(g: Geodesic, vs: seq<Vertex>)
    ensures var st, t := Run(g, PointOps(vs)), PathTally(EdgeWeight(g), vs);
            && st.num == |vs| && st.perimeter == t.s && st.area == t.area
            && st.crossings == t.crossings
            && (vs != [] ==>
                  && st.lat0 == Num(vs[0].lat) && st.lon0 == Num(vs[0].lon)
                  && st.lat == Num(vs[|vs| - 1].lat) && st.lon == Num(vs[|vs| - 1].lon))
  {
    hide Transit;
    if vs != [] {
      var ws := vs[..|vs| - 1];
      RunTally(g, ws);
      assert PointOps(vs)[..|vs| - 1] == PointOps(ws);
    }
  }

  /** What compute reports is the reduced tally of the cycle. */
  lemma ReportTally(g: Geodesic, vs: seq<Vertex>, reverse: bool, sign: bool)
    requires g.area0 > 0.0 && |vs| >= 2
    ensures PolygonReport(g, vs, reverse, sign)
            == TallyReport(g.area0, |vs|, CycleTally(EdgeWeight(g), vs), reverse, sign)
  {
    hide Transit, AreaReduceB;
    RunTally(g, vs);
  }

  /** geod_polygonarea: all vertices in order, then compute, counter-clockwise positive. */
  method PolygonArea(g: Geodesic, lats: array<real>, lons: array<real>, n: nat)
    returns (r: Report)
    requires n <= lats.Length && n <= lons.Length && g.area0 > 0.0
    ensures r == PolygonReport(g, Vertices(lats[..n], lons[..n]), false, true)
  {
    hide Run, Computed, WithPoint;
    ghost var ops := PointOps(Vertices(lats[..n], lons[..n]));
    RunStart(g);
    var p := new Polygon(false);
    var i := 0;
    assert ops[..0] == [];
    while i < n
      invariant 0 <= i <= n
      invariant p.Valid() && fresh(p) && fresh(p.A) && fresh(p.P)
      invariant p.Value() == Run(g, ops[..i])
    {
      RunPoint(g, ops, i);
      p.AddPoint(g, lats[i], lons[i]);
      i := i + 1;
    }
    assert ops[..n] == ops;
    r := p.Compute(g, false, true);
  }

  lemma RunStart(g: Geodesic)
    ensures Run(g, []) == Cleared(false)
  {
  }

  lemma RunPoint(g: Geodesic, ops: seq<Op>, i: nat)
    requires i < |ops| && ops[i].AddPoint?
    ensures Run(g, ops[..i + 1]) == WithPoint(g, Run(g, ops[..i]), ops[i].lat, ops[i].lon)
  {
    hide WithPoint;
    assert ops[..i + 1][..i] == ops[..i];
  }

  function Vertices(lats: seq<real>, lons: seq<real>): (vs: seq<Vertex>)
    requires |lats| == |lons|
    ensures |vs| == |lats|
  {
    seq(|lats|, i requires 0 <= i < |lats| => Vertex(lats[i], lons[i]))
  }

  /** The tally of a path is the sum over any split at a vertex. */
  lemma {:induction false} PathSplit(w: Weight, vs: seq<Vertex>, i: nat)
    requires i < |vs|
    ensures PathTally(w, vs) == PathTally(w, vs[..i + 1]).Plus(PathTally(w, vs[i..]))
  {
    hide PathTally;
    var head, tail := vs[..i + 1], vs[i..];
    PathUnfold(w, tail);
    if i + 1 == |vs| {
      assert head == vs;
    } else {
      var ws := vs[..|vs| - 1];
      PathSplit(w, ws, i);
      assert ws[..i + 1] == head;
      assert tail[..|tail| - 1] == ws[i..];
      PathUnfold(w, vs);
      var last := w(vs[|vs| - 2], vs[|vs| - 1]);
      assert tail[|tail| - 2] == vs[|vs| - 2] && tail[|tail| - 1] == vs[|vs| - 1];
      PlusAssociates(PathTally(w, head), PathTally(w, ws[i..]), last);
    }
  }

  lemma PlusAssociates(t: Tally, u: Tally, v: Tally)
    ensures t.Plus(u).Plus(v) == t.Plus(u.Plus(v))
  {
  }

  lemma PathUnfold(w: Weight, vs: seq<Vertex>)
    ensures |vs| < 2 ==> PathTally(w, vs) == ZERO
    ensures |vs| >= 2 ==>
              PathTally(w, vs) == PathTally(w, vs[..|vs| - 1]).Plus(w(vs[|vs| - 2], vs[|vs| - 1]))
  {
  }

  lemma PathJoin(w: Weight, us: seq<Vertex>, vs: seq<Vertex>)
    requires us != [] && vs != []
    ensures PathTally(w, us + vs)
            == PathTally(w, us).Plus(w(us[|us| - 1], vs[0])).Plus(PathTally(w, vs))
  {
    hide PathTally;
    var ws := us + vs;
    var head := ws[..|us| + 1];
    PathSplit(w, ws, |us|);
    assert ws[|us|..] == vs;
    assert head[..|us|] == us;
    PathUnfold(w, head);
  }

  // ---------- runs of both operations ----------

  /** The positions that a run visits: given points, and landings of the direct problem from
      the position before. An edge without a position to start from leads nowhere. */
  function Trail(g: Geodesic, ops: seq<Op>): (vs: seq<Vertex>)
    ensures |vs| <= |ops|
  {
    if ops == [] then []
    else
      var vs := Trail(g, ops[..|ops| - 1]);
      match ops[|ops| - 1]
      case AddPoint(lat, lon) => vs + [Vertex(lat, lon)]
      case AddEdge(azi, s) =>
        if vs == [] then []
        else
          var to := g.direct(vs[|vs| - 1].lat, vs[|vs| - 1].lon, azi, s);
          vs + [Vertex(to.lat, to.lon)]
  }

  /** What an operation adds from a position: the answer of the inverse problem for a point,
      that of the direct problem and the length asked for for an edge. */
  function Leg(g: Geodesic, from: Vertex, op: Op): Tally {
    match op
    case AddPoint(lat, lon) =>
      var e := g.inverse(from.lat, from.lon, lat, lon);
      Tally(e.s12, e.area, Transit(from.lon, lon))
    case AddEdge(azi, s) =>
      var to := g.direct(from.lat, from.lon, azi, s);
      Tally(s, to.area, TransitDirect(from.lon, to.lon))
  }

  /** The sum over a run, from the second position on. */
  function LegSum(g: Geodesic, ops: seq<Op>): Tally {
    if ops == [] then ZERO
    else
      var before := ops[..|ops| - 1];
      var vs := Trail(g, before);
      if vs == [] then ZERO else LegSum(g, before).Plus(Leg(g, vs[|vs| - 1], ops[|ops| - 1]))
  }

  /** Whatever the operations, the polygon holds the sum of what the two geodesic problems
      answer along the positions visited. */
  lemma {:induction false} RunLegs(g: Geodesic, ops: seq<Op>)
    ensures var st, vs, t := Run(g, ops), Trail(g, ops), LegSum(g, ops);
            && st.num == |vs|
            && st.perimeter == t.s && st.area == t.area && st.crossings == t.crossings
            && (vs != [] ==>
                  && st.lat0 == Num(vs[0].lat) && st.lon0 == Num(vs[0].lon)
                  && st.lat == Num(vs[|vs| - 1].lat) && st.lon == Num(vs[|vs| - 1].lon))
  {
    hide Transit, TransitDirect;
    if ops != [] {
      RunLegs(g, ops[..|ops| - 1]);
    }
  }

  /** So the report of any closed run is that sum plus the closing edge, reduced. */
  lemma ReportLegs(g: Geodesic, ops: seq<Op>, reverse: bool, sign: bool)
    requires g.area0 > 0.0
    ensures var vs, r := Trail(g, ops), Computed(g, Run(g, ops), reverse, sign);
            r == if |vs| < 2 then Report(|vs|, Num(0.0), Some(Num(0.0)))
                 else
                   var last, first := vs[|vs| - 1], vs[0];
                   TallyReport(g.area0, |vs|,
                               LegSum(g, ops).Plus(Leg(g, last, AddPoint(first.lat, first.lon))), reverse, sign)
  {
    hide Transit, TransitDirect, AreaReduceB, Run, LegSum, Trail;
    RunLegs(g, ops);
  }

  /** A polyline reports the sum of its lengths, without a closing edge, and no area. */
  lemma PolylineReport(g: Geodesic, ops: seq<Op>, reverse: bool, sign: bool)
    requires g.area0 > 0.0
    ensures var vs := Trail(g, ops);
            Computed(g, PolylineRun(g, ops), reverse, sign)
            == Report(|vs|, Num(if |vs| < 2 then 0.0 else LegSum(g, ops).s), None)
  {
    hide Transit, TransitDirect, AreaReduceB, Run, PolylineRun, LegSum, Trail;
    RunLegs(g, ops);
    PolylineForgetsArea(g, ops);
  }

  /** An edge whose landing the inverse problem agrees with, and whose unrolled sweep is the
      shortest one and no hidden half turn, reports what its landing given as a point
      reports. */
  lemma EdgeIsPoint(g: Geodesic, st: State, azi: real, s: real, reverse: bool, sign: bool)
    requires st.Consistent() && st.num > 0 && g.area0 > 0.0
    requires var to := g.direct(st.lat.value, st.lon.value, azi, s);
             && g.inverse(st.lat.value, st.lon.value, to.lat, to.lon) == Edge(s, to.area)
             && to.lon - st.lon.value == AngDiff(st.lon.value, to.lon)
             && !HiddenHalfTurn(st.lon.value, to.lon)
    ensures var to := g.direct(st.lat.value, st.lon.value, azi, s);
            Computed(g, WithEdge(g, st, azi, s), reverse, sign)
            == Computed(g, WithPoint(g, st, to.lat, to.lon), reverse, sign)
  {
    hide Transit, TransitDirect, AngDiff, HiddenHalfTurn, AreaReduceB, Turn;
    var to := g.direct(st.lat.value, st.lon.value, azi, s);
    CrossingsAgree(st.lon.value, to.lon);
    if !st.polyline {
      var e := g.inverse(to.lat, to.lon, st.lat0.value, st.lon0.value);
      var closing := Transit(to.lon, st.lon0.value);
      hide WithEdge, WithPoint, Computed;
      ParityReduces(st.area + to.area + e.area,
                    st.crossings + TransitDirect(st.lon.value, to.lon) + closing,
                    st.crossings + Transit(st.lon.value, to.lon) + closing, g.area0, reverse, sign);
      ClosedAfterEdge(g, st, azi, s, reverse, sign);
      ClosedAfterPoint(g, st, to.lat, to.lon, reverse, sign);
    }
  }

  lemma CrossingsAgree(lon1: real, lon2: real)
    requires lon2 - lon1 == AngDiff(lon1, lon2) && !HiddenHalfTurn(lon1, lon2)
    ensures (TransitDirect(lon1, lon2) - Transit(lon1, lon2)) % 2 == 0
  {
    hide Transit, TransitDirect, AngDiff, HiddenHalfTurn, Turn;
    TransitCountsTurns(lon1, lon2);
    assert lon1 + AngDiff(lon1, lon2) == lon2;
  }

  lemma ClosedAfterEdge(g: Geodesic, st: State, azi: real, s: real, reverse: bool, sign: bool)
    requires st.Consistent() && st.num > 0 && g.area0 > 0.0 && !st.polyline
    ensures var to := g.direct(st.lat.value, st.lon.value, azi, s);
            var e := g.inverse(to.lat, to.lon, st.lat0.value, st.lon0.value);
            Computed(g, WithEdge(g, st, azi, s), reverse, sign)
            == TallyReport(g.area0, st.num + 1,
                           Tally(st.perimeter + s + e.s12, st.area + to.area + e.area,
                                 st.crossings + TransitDirect(st.lon.value, to.lon) + Transit(to.lon, st.lon0.value)),
                           reverse, sign)
  {
    hide Transit, TransitDirect, AreaReduceB;
  }

  lemma ClosedAfterPoint(g: Geodesic, st: State, lat: real, lon: real, reverse: bool, sign: bool)
    requires st.Consistent() && st.num > 0 && g.area0 > 0.0 && !st.polyline
    ensures var to := g.inverse(st.lat.value, st.lon.value, lat, lon);
            var e := g.inverse(lat, lon, st.lat0.value, st.lon0.value);
            Computed(g, WithPoint(g, st, lat, lon), reverse, sign)
            == TallyReport(g.area0, st.num + 1,
                           Tally(st.perimeter + to.s12 + e.s12, st.area + to.area + e.area,
                                 st.crossings + Transit(st.lon.value, lon) + Transit(lon, st.lon0.value)),
                           reverse, sign)
  {
    hide Transit, AreaReduceB;
  }

  /** Crossings count modulo two. */
  lemma ParityReduces(area: real, c: int, d: int, area0: real, reverse: bool, sign: bool)
    requires area0 > 0.0 && (c - d) % 2 == 0
    ensures AreaReduceB(area, area0, c, reverse, sign) == AreaReduceB(area, area0, d, reverse, sign)
  {
    var j := (c - d) / 2;
    var x, y := SignedArea(area, area0, c, reverse), SignedArea(area, area0, d, reverse);
    CrossingsApart(c, d, j, area0);
    assert Apart(x, y, if reverse then j else -j, area0);
    hide AreaReduceB, SignedArea;
    ReduceByClass(area, c, reverse, area, d, reverse, area0, sign);
  }

  lemma CrossingsApart(c: int, d: int, j: int, m: real)
    requires c == d + 2 * j
    ensures c as real * (m / 2.0) == d as real * (m / 2.0) + j as real * m
    ensures (-j) as real * m == -(j as real * m)
  {
    assert c as real == d as real + 2.0 * j as real;
  }

  // ---------- cutting, rotating and reversing ----------

  /** Going back along the edge undoes going there. */
  predicate OddEdge(w: Weight, u: Vertex, v: Vertex) {
    w(v, u) == w(u, v).Minus()
  }

  predicate OddPath(w: Weight, vs: seq<Vertex>) {
    forall i :: 0 < i < |vs| ==> OddEdge(w, vs[i - 1], vs[i])
  }

  /** The same for the edges of the closed polygon. */
  predicate OddCycle(w: Weight, vs: seq<Vertex>) {
    OddPath(w, vs) && (vs != [] ==> OddEdge(w, vs[|vs| - 1], vs[0]))
  }

  /** What the edge adds when it is walked both ways. */
  function ThereAndBack(w: Weight, u: Vertex, v: Vertex): Tally {
    w(u, v).Plus(w(v, u))
  }

  /** The two pieces of a polygon cut along the diagonal between vertices i and j. */
  function InnerPiece(vs: seq<Vertex>, i: nat, j: nat): seq<Vertex>
    requires i < j < |vs|
  {
    vs[i..j + 1]
  }

  function OuterPiece(vs: seq<Vertex>, i: nat, j: nat): seq<Vertex>
    requires i < j < |vs|
  {
    vs[j..] + vs[..i + 1]
  }

  lemma CutTally(w: Weight, vs: seq<Vertex>, i: nat, j: nat)
    requires i < j < |vs|
    ensures CycleTally(w, InnerPiece(vs, i, j)).Plus(CycleTally(w, OuterPiece(vs, i, j)))
            == CycleTally(w, vs).Plus(ThereAndBack(w, vs[i], vs[j]))
  {
    hide PathTally;
    var inner, outer := InnerPiece(vs, i, j), OuterPiece(vs, i, j);
    assert inner[0] == vs[i] && inner[|inner| - 1] == vs[j];
    assert outer[0] == vs[j] && outer[|outer| - 1] == vs[i];
    PathSplit(w, vs, j);
    PathSplit(w, vs[..j + 1], i);
    assert vs[..j + 1][..i + 1] == vs[..i + 1] && vs[..j + 1][i..] == inner;
    PathJoin(w, vs[j..], vs[..i + 1]);
  }

  /** A report with an area. */
  predicate HasArea(r: Report) {
    r.perimeter.Num? && r.area.Some? && r.area.value.Num?
  }

  function Perimeter(r: Report): real
    requires HasArea(r)
  {
    r.perimeter.value
  }

  function Area(r: Report): real
    requires HasArea(r)
  {
    r.area.value.value
  }

  /** What cutting does to any polygon: the perimeters of the pieces exceed that of the
      whole by the diagonal there and back, and so do the areas, modulo the ellipsoid. */
  lemma CutDeficit(g: Geodesic, vs: seq<Vertex>, i: nat, j: nat, reverse: bool, sign: bool)
    requires g.area0 > 0.0 && i < j < |vs|
    ensures var r := PolygonReport(g, vs, reverse, sign);
            var p := PolygonReport(g, InnerPiece(vs, i, j), reverse, sign);
            var q := PolygonReport(g, OuterPiece(vs, i, j), reverse, sign);
            var t := ThereAndBack(EdgeWeight(g), vs[i], vs[j]);
            && HasArea(r) && HasArea(p) && HasArea(q)
            && Perimeter(p) + Perimeter(q) == Perimeter(r) + t.s
            && Congruent(Area(p) + Area(q), Area(r) + SignedArea(t.area, g.area0, t.crossings, reverse), g.area0)
  {
    hide PolygonReport, PathTally, CycleTally, AreaReduceB, Transit, ThereAndBack, SignedArea;
    var inner, outer := InnerPiece(vs, i, j), OuterPiece(vs, i, j);
    var w := EdgeWeight(g);
    ReportTally(g, vs, reverse, sign);
    ReportTally(g, inner, reverse, sign);
    ReportTally(g, outer, reverse, sign);
    CutTally(w, vs, i, j);
    ReducedSum(CycleTally(w, inner), CycleTally(w, outer), CycleTally(w, vs),
               ThereAndBack(w, vs[i], vs[j]), g.area0, reverse, sign);
  }

  lemma ReducedSum(t: Tally, u: Tally, w: Tally, d: Tally, area0: real, reverse: bool, sign: bool)
    requires area0 > 0.0 && t.Plus(u) == w.Plus(d)
    ensures Congruent(AreaReduceB(t.area, area0, t.crossings, reverse, sign)
                      + AreaReduceB(u.area, area0, u.crossings, reverse, sign),
                      AreaReduceB(w.area, area0, w.crossings, reverse, sign)
                      + SignedArea(d.area, area0, d.crossings, reverse), area0)
  {
    hide AreaReduceB, SignedArea, Congruent;
    var at := SignedArea(t.area, area0, t.crossings, reverse);
    var au := SignedArea(u.area, area0, u.crossings, reverse);
    var aw := SignedArea(w.area, area0, w.crossings, reverse);
    var ad := SignedArea(d.area, area0, d.crossings, reverse);
    var p := AreaReduceB(t.area, area0, t.crossings, reverse, sign);
    var q := AreaReduceB(u.area, area0, u.crossings, reverse, sign);
    var r := AreaReduceB(w.area, area0, w.crossings, reverse, sign);
    SignedAreaAdds(t, u, area0, reverse);
    SignedAreaAdds(w, d, area0, reverse);
    CongruentAdd(p, at, q, au, area0);
    CongruentRefl(ad, area0);
    CongruentAdd(r, aw, ad, ad, area0);
    CongruentSym(r + ad, aw + ad, area0);
    CongruentTrans(p + q, at + au, r + ad, area0);
  }

  lemma SignedAreaAdds(t: Tally, u: Tally, area0: real, reverse: bool)
    ensures SignedArea(t.area, area0, t.crossings, reverse) + SignedArea(u.area, area0, u.crossings, reverse)
            == SignedArea(t.area + u.area, area0, t.crossings + u.crossings, reverse)
  {
  }

  /** Cutting conserves the area, modulo the ellipsoid, exactly if the diagonal walked both
      ways encloses a whole number of ellipsoids. */
  lemma CutConservesExactly(g: Geodesic, vs: seq<Vertex>, i: nat, j: nat, reverse: bool, sign: bool)
    requires g.area0 > 0.0 && i < j < |vs|
    ensures var r := PolygonReport(g, vs, reverse, sign);
            var p := PolygonReport(g, InnerPiece(vs, i, j), reverse, sign);
            var q := PolygonReport(g, OuterPiece(vs, i, j), reverse, sign);
            var t := ThereAndBack(EdgeWeight(g), vs[i], vs[j]);
            && HasArea(r) && HasArea(p) && HasArea(q)
            && (Congruent(Area(p) + Area(q), Area(r), g.area0)
                <==> Congruent(SignedArea(t.area, g.area0, t.crossings, true), 0.0, g.area0))
  {
    hide PolygonReport, EdgeWeight, ThereAndBack, Congruent;
    CutDeficit(g, vs, i, j, reverse, sign);
    var t := ThereAndBack(EdgeWeight(g), vs[i], vs[j]);
    var r := Area(PolygonReport(g, vs, reverse, sign));
    var pq := Area(PolygonReport(g, InnerPiece(vs, i, j), reverse, sign))
              + Area(PolygonReport(g, OuterPiece(vs, i, j), reverse, sign));
    Absorbed(pq, r, SignedArea(t.area, g.area0, t.crossings, true), reverse, g.area0);
  }

  lemma Absorbed(x: real, r: real, d: real, positive: bool, m: real)
    requires Congruent(x, r + if positive then d else -d, m)
    ensures Congruent(x, r, m) <==> Congruent(d, 0.0, m)
  {
    hide Congruent;
    var e := if positive then d else -d;
    if Congruent(x, r, m) {
      CongruentSym(x, r + e, m);
      CongruentTrans(r + e, x, r, m);
      CongruentRefl(-r, m);
      CongruentAdd(r + e, r, -r, -r, m);
      assert r + e + -r == e && r + -r == 0.0;
    }
    if Congruent(d, 0.0, m) {
      CongruentNeg(d, 0.0, m);
      CongruentRefl(r, m);
      CongruentAdd(r, r, e, 0.0, m);
      CongruentTrans(x, r + e, r, m);
    }
    if Congruent(e, 0.0, m) {
      CongruentNeg(e, 0.0, m);
    }
  }

  /** Cutting is conservative along any diagonal that going back undoes: the areas of the
      pieces add up to that of the whole modulo the ellipsoid, and the perimeters to that of
      the whole plus twice the diagonal. Nothing is asked of the other edges. */
  lemma CutConservesArea(g: Geodesic, vs: seq<Vertex>, i: nat, j: nat, reverse: bool, sign: bool)
    requires g.area0 > 0.0 && i < j < |vs| && OddEdge(EdgeWeight(g), vs[i], vs[j])
    ensures var r := PolygonReport(g, vs, reverse, sign);
            var p := PolygonReport(g, InnerPiece(vs, i, j), reverse, sign);
            var q := PolygonReport(g, OuterPiece(vs, i, j), reverse, sign);
            && HasArea(r) && HasArea(p) && HasArea(q)
            && Congruent(Area(p) + Area(q), Area(r), g.area0)
            && Perimeter(p) + Perimeter(q) == Perimeter(r) + 2.0 * EdgeWeight(g)(vs[i], vs[j]).s
  {
    hide PolygonReport, EdgeWeight;
    CutDeficit(g, vs, i, j, reverse, sign);
    CutConservesExactly(g, vs, i, j, reverse, sign);
    CongruentRefl(0.0, g.area0);
  }

  lemma RotatedTally(w: Weight, vs: seq<Vertex>, i: nat)
    requires 0 < i < |vs|
    ensures CycleTally(w, vs[i..] + vs[..i]) == CycleTally(w, vs)
  {
    PathJoin(w, vs[i..], vs[..i]);
    PathJoin(w, vs[..i], vs[i..]);
    assert vs[..i] + vs[i..] == vs;
  }

  /** The report does not depend on which vertex comes first. */
  lemma RotationInvariant(g: Geodesic, vs: seq<Vertex>, i: nat, reverse: bool, sign: bool)
    requires g.area0 > 0.0 && i < |vs|
    ensures PolygonReport(g, vs[i..] + vs[..i], reverse, sign) == PolygonReport(g, vs, reverse, sign)
  {
    hide PolygonReport, TallyReport;
    var ws := vs[i..] + vs[..i];
    if i == 0 {
      assert ws == vs;
    } else {
      RotatedTally(EdgeWeight(g), vs, i);
      ReportTally(g, vs, reverse, sign);
      ReportTally(g, ws, reverse, sign);
    }
  }

  function Reversed(vs: seq<Vertex>): (r: seq<Vertex>)
    ensures |r| == |vs|
    ensures forall i :: 0 <= i < |vs| ==> r[i] == vs[|vs| - 1 - i]
  {
    if vs == [] then [] else [vs[|vs| - 1]] + Reversed(vs[..|vs| - 1])
  }

  lemma {:induction false} ReversedTally(w: Weight, vs: seq<Vertex>)
    requires OddPath(w, vs)
    ensures PathTally(w, Reversed(vs)).s == PathTally(w, vs).s
    ensures PathTally(w, Reversed(vs)).area == -PathTally(w, vs).area
    ensures PathTally(w, Reversed(vs)).crossings == -PathTally(w, vs).crossings
  {
    if |vs| >= 2 {
      var ws, v := vs[..|vs| - 1], vs[|vs| - 1];
      ReversedTally(w, ws);
      PathJoin(w, [v], Reversed(ws));
      assert OddEdge(w, vs[|vs| - 2], v);
    }
  }

  /** Walking the polygon the other way equals flipping the `reverse` flag, if going back
      undoes each of its own edges. */
  lemma ReversalFlipsFlag(g: Geodesic, vs: seq<Vertex>, reverse: bool, sign: bool)
    requires g.area0 > 0.0 && OddCycle(EdgeWeight(g), vs)
    ensures PolygonReport(g, Reversed(vs), reverse, sign) == PolygonReport(g, vs, !reverse, sign)
  {
    hide AreaReduceB, Transit, EdgeWeight, PathTally;
    if |vs| < 2 {
      assert Reversed(vs) == vs;
    } else {
      hide PolygonReport;
      var w := EdgeWeight(g);
      ReversedTally(w, vs);
      assert OddEdge(w, vs[|vs| - 1], vs[0]);
      ReportTally(g, vs, !reverse, sign);
      ReportTally(g, Reversed(vs), reverse, sign);
      ReversedReport(CycleTally(w, vs), CycleTally(w, Reversed(vs)), g.area0, |vs|, reverse, sign);
    }
  }

  lemma ReversedReport(t: Tally, u: Tally, area0: real, n: nat, reverse: bool, sign: bool)
    requires area0 > 0.0 && u == t.Minus()
    ensures TallyReport(area0, n, u, reverse, sign) == TallyReport(area0, n, t, !reverse, sign)
  {
    hide AreaReduceB;
    var h := area0 / 2.0;
    assert (-t.crossings) as real * h == -(t.crossings as real * h);
    CongruentRefl(SignedArea(u.area, area0, u.crossings, reverse), area0);
    assert SignedArea(u.area, area0, u.crossings, reverse) == SignedArea(t.area, area0, t.crossings, !reverse);
    ReduceByClass(u.area, u.crossings, reverse, t.area, t.crossings, !reverse, area0, sign);
  }
}
