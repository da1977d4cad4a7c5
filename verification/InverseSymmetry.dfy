/** The wrapper of geod_geninverse_int (src/geodesic.c): any two points are moved to a
    canonical position, solved there, and the solution is moved back. */
module InverseSymmetry {
  import opened Basics
  import opened RealMath
  import opened Angles
  import opened AreaReduction
  import opened Polygons
  import opened PolygonTheorems

  /** All outputs of the inverse problem; azimuths are given by sine and cosine. */
  datatype Solution = Solution(
    a12: real, s12: real, m12: real, M12: real, M21: real, S12: real,
    salp1: real, calp1: real, salp2: real, calp2: real)

  /** The solver between the two transformations: meridional, equatorial, short and
      general lines. Its arguments are the canonical latitudes and longitude difference. */
  type Solver = (real, real, real) -> Solution

  /** A canonical position and the signs that lead back from it; 1 means no change. */
  datatype Canonical = Canonical(lat1: real, lat2: real, lon12: real,
                                 lonsign: int, swapp: int, latsign: int)

  predicate IsSign(s: int) {
    s == 1 || s == -1
  }

  predicate IsLatitude(lat: real) {
    -QD <= lat <= QD
  }

  /** `x` multiplied by a sign. */
  function Signed(sign: int, x: real): (r: real)
    ensures IsSign(sign) ==> r == sign as real * x
  {
    if sign < 0 then -x else x
  }

  function AngRound(x: real): (r: real)
    ensures r == x
  {
    var y := Abs(x);
    var w := 1.0 / 16.0 - y;
    CopySign(if w > 0.0 then 1.0 / 16.0 - w else y, x)
  }

  /** LatFix: None is the NaN that a latitude beyond the poles turns into. */
  function LatFix(x: real): Option<real> {
    if Abs(x) > QD then None else Some(x)
  }

  function Canonicalize(lat1: real, lon1: real, lat2: real, lon2: real): (c: Canonical)
    requires IsLatitude(lat1) && IsLatitude(lat2)
    ensures 0.0 <= c.lon12 <= HD
    ensures -QD <= c.lat1 <= 0.0 && c.lat1 <= c.lat2 <= -c.lat1
    ensures IsSign(c.lonsign) && IsSign(c.swapp) && IsSign(c.latsign)
    ensures var (p, q) := if c.swapp == 1 then (lat1, lat2) else (lat2, lat1);
            c.lat1 == Signed(c.latsign, p) && c.lat2 == Signed(c.latsign, q)
    ensures AngDiff(lon1, lon2) == Signed(c.swapp, Signed(c.lonsign, c.lon12))
  {
    hide AngDiff;
    var west := if AngDiffSignBit(lon1, lon2) then -1 else 1;
    var swapp := if Abs(lat1) < Abs(lat2) then -1 else 1;
    var (p, q) := if swapp < 0 then (lat2, lat1) else (lat1, lat2);
    var latsign := if p < 0.0 then 1 else -1;
    Canonical(Signed(latsign, p), Signed(latsign, q), Signed(west, AngDiff(lon1, lon2)),
              if swapp < 0 then -west else west, swapp, latsign)
  }

  /** Undoes the transformation on a solution. */
  function Restored(c: Canonical, s: Solution): Solution {
    var t := if c.swapp < 0
             then s.(salp1 := s.salp2, calp1 := s.calp2, salp2 := s.salp1, calp2 := s.calp1,
                     M12 := s.M21, M21 := s.M12)
             else s;
    t.(S12 := Signed(c.swapp, Signed(c.lonsign, Signed(c.latsign, s.S12))),
       salp1 := Signed(c.swapp, Signed(c.lonsign, t.salp1)),
       calp1 := Signed(c.swapp, Signed(c.latsign, t.calp1)),
       salp2 := Signed(c.swapp, Signed(c.lonsign, t.salp2)),
       calp2 := Signed(c.swapp, Signed(c.latsign, t.calp2)))
  }

  /** The inverse problem; None when a latitude is out of range and every output is NaN. */
  function Inverse(solve: Solver, lat1: real, lon1: real, lat2: real, lon2: real): Option<Solution> {
    if !IsLatitude(lat1) || !IsLatitude(lat2) then None
    else
      var c := Canonicalize(lat1, lon1, lat2, lon2);
      Some(Restored(c, solve(c.lat1, c.lat2, c.lon12)))
  }

  /** The same, step by step on the variables of geod_geninverse_int. */
  method GenInverse(solve: Solver, lat1_: real, lon1: real, lat2_: real, lon2: real)
    returns (r: Option<Solution>)
    ensures r.None? <==> Abs(lat1_) > 90.0 || Abs(lat2_) > 90.0
    ensures r == Inverse(solve, lat1_, lon1, lat2_, lon2)
  {
    var lon12 := AngDiff(lon1, lon2);
    var lonsign := if AngDiffSignBit(lon1, lon2) then -1 else 1;
    hide AngDiff;
    lon12 := Signed(lonsign, lon12);
    if LatFix(lat1_).None? || LatFix(lat2_).None? {
      return None;
    }
    var lat1, lat2 := AngRound(LatFix(lat1_).value), AngRound(LatFix(lat2_).value);
    var swapp := if Abs(lat1) < Abs(lat2) then -1 else 1;
    if swapp < 0 {
      lonsign := -lonsign;
      lat1, lat2 := lat2, lat1;
    }
    var latsign := if lat1 < 0.0 then 1 else -1;
    lat1 := Signed(latsign, lat1);
    lat2 := Signed(latsign, lat2);
    var s := solve(lat1, lat2, lon12);
    var S12 := Signed(swapp, Signed(lonsign, Signed(latsign, s.S12)));
    var salp1, calp1, salp2, calp2, M12, M21 := s.salp1, s.calp1, s.salp2, s.calp2, s.M12, s.M21;
    if swapp < 0 {
      salp1, salp2 := salp2, salp1;
      calp1, calp2 := calp2, calp1;
      M12, M21 := M21, M12;
    }
    salp1 := Signed(swapp, Signed(lonsign, salp1));
    calp1 := Signed(swapp, Signed(latsign, calp1));
    salp2 := Signed(swapp, Signed(lonsign, salp2));
    calp2 := Signed(swapp, Signed(latsign, calp2));
    r := Some(Solution(s.a12, s.s12, s.m12, M12, M21, S12, salp1, calp1, salp2, calp2));
  }

  // ---------- what comes from the solver ----------

  /** Posed in canonical position, the problem goes to the solver as it is and its answer
      comes back as it is. */
  lemma CanonicalKept(solve: Solver, lat1: real, lon1: real, lat2: real, lon2: real)
    requires -90.0 <= lat1 < 0.0 && lat1 <= lat2 <= -lat1
    requires 0.0 < AngDiff(lon1, lon2) || (AngDiff(lon1, lon2) == 0.0 && lon1 <= lon2)
    ensures Inverse(solve, lat1, lon1, lat2, lon2) == Some(solve(lat1, lat2, AngDiff(lon1, lon2)))
  {
    hide AngDiff;
  }

  /** So for every eastward difference of less than a turn that the solver is meant for. */
  lemma CanonicalEastward(solve: Solver, lat1: real, lon1: real, lat2: real, lon12: real)
    requires -90.0 <= lat1 < 0.0 && lat1 <= lat2 <= -lat1 && 0.0 <= lon12 <= 180.0
    ensures Inverse(solve, lat1, lon1, lat2, lon1 + lon12) == Some(solve(lat1, lat2, lon12))
  {
    assert Apart(lon12, lon1 + lon12 - lon1, 0, TD);
    DifferenceUnique(AngDiff(lon1, lon1 + lon12), lon12, lon1, lon1 + lon12);
    hide AngDiff;
    CanonicalKept(solve, lat1, lon1, lat2, lon1 + lon12);
  }

  /** For every valid input distances and reduced length are the solver's own, at the position
      that has the greater absolute latitude first and in the south, and the longitude
      difference without its sign; the geodesic scales are its own too, in that order. */
  lemma SolverKept(solve: Solver, lat1: real, lon1: real, lat2: real, lon2: real)
    requires -90.0 <= lat1 <= 90.0 && -90.0 <= lat2 <= 90.0
    ensures var (p, q) := if Abs(lat1) >= Abs(lat2) then (lat1, lat2) else (lat2, lat1);
            var s := solve(-Abs(p), if p < 0.0 then q else -q, Abs(AngDiff(lon1, lon2)));
            var t := Inverse(solve, lat1, lon1, lat2, lon2);
            && t.Some?
            && t.value.a12 == s.a12 && t.value.s12 == s.s12 && t.value.m12 == s.m12
            && (t.value.M12, t.value.M21)
               == (if Abs(lat1) >= Abs(lat2) then (s.M12, s.M21) else (s.M21, s.M12))
            && Abs(t.value.S12) == Abs(s.S12)
  {
    hide AngDiff;
    var c := Canonicalize(lat1, lon1, lat2, lon2);
    var (p, q) := if Abs(lat1) >= Abs(lat2) then (lat1, lat2) else (lat2, lat1);
    assert c.lat1 == -Abs(p) && c.lat2 == (if p < 0.0 then q else -q);
    assert c.lon12 == Abs(AngDiff(lon1, lon2));
  }

  // ---------- swapping the end points ----------

  /** The solution of the same problem posed from the other end. */
  function Turned(s: Solution): Solution {
    Solution(s.a12, s.s12, s.m12, s.M21, s.M12, -s.S12, -s.salp2, -s.calp2, -s.salp1, -s.calp1)
  }

  ghost predicate SwapTurns(solve: Solver, lat1: real, lon1: real, lat2: real, lon2: real)
    requires IsLatitude(lat1) && IsLatitude(lat2)
  {
    Inverse(solve, lat2, lon2, lat1, lon1).value == Turned(Inverse(solve, lat1, lon1, lat2, lon2).value)
  }

  /** The two ends reach the same canonical position, with opposite longitude sign and
      swap flag whenever both are decided by the inputs. */
  lemma SwappedCanonical(lat1: real, lon1: real, lat2: real, lon2: real)
    requires IsLatitude(lat1) && IsLatitude(lat2)
    requires Abs(lat1) != Abs(lat2)
    ensures var c, d := Canonicalize(lat1, lon1, lat2, lon2), Canonicalize(lat2, lon2, lat1, lon1);
            d == c.(swapp := -c.swapp, lonsign := if lon1 == lon2 then -c.lonsign else c.lonsign)
  {
    AngDiffOdd(lon1, lon2);
    hide AngDiff;
    if lon1 == lon2 {
      DifferenceOfEqual(lon1);
    }
  }

  lemma DifferenceOfEqual(lon: real)
    ensures AngDiff(lon, lon) == 0.0
  {
  }

  /** Whatever the solver returns, posing the problem from the other end turns the
      solution round. */
  lemma SwapSymmetry(solve: Solver, lat1: real, lon1: real, lat2: real, lon2: real)
    requires IsLatitude(lat1) && IsLatitude(lat2)
    requires Abs(lat1) != Abs(lat2) && lon1 != lon2
    ensures SwapTurns(solve, lat1, lon1, lat2, lon2)
  {
    SwappedCanonical(lat1, lon1, lat2, lon2);
    hide Canonicalize;
    var c := Canonicalize(lat1, lon1, lat2, lon2);
    RestoredTurned(c, solve(c.lat1, c.lat2, c.lon12));
  }

  /** The solution of the canonical position is symmetric in the way that the sense of the
      line leaves open: for points of different absolute latitude on one longitude it has no
      area and no eastward components; for equal absolute latitudes its two ends agree, up to
      the signs that the inputs do not decide. */
  predicate SelfTurned(s: Solution, lat1: real, lon1: real, lat2: real, lon2: real) {
    var mirrored := lat1 == -lat2 && lat1 != 0.0;
    if Abs(lat1) != Abs(lat2) then lon1 != lon2 || (s.salp1 == 0.0 && s.salp2 == 0.0 && s.S12 == 0.0)
    else
      && s.M12 == s.M21
      && s.salp1 == (if lon1 != lon2 then s.salp2 else -s.salp2)
      && s.calp1 == (if mirrored then s.calp2 else -s.calp2)
      && ((lon1 != lon2) != mirrored || s.S12 == 0.0)
  }

  /** Swapping the end points turns the solution round exactly if the solver's own answer at
      the canonical position is symmetric in that way. */
  lemma SwapTurnsExactly(solve: Solver, lat1: real, lon1: real, lat2: real, lon2: real)
    requires IsLatitude(lat1) && IsLatitude(lat2)
    ensures var c := Canonicalize(lat1, lon1, lat2, lon2);
            SwapTurns(solve, lat1, lon1, lat2, lon2)
            <==> SelfTurned(solve(c.lat1, c.lat2, c.lon12), lat1, lon1, lat2, lon2)
  {
    var c, d := Canonicalize(lat1, lon1, lat2, lon2), Canonicalize(lat2, lon2, lat1, lon1);
    var mirrored := lat1 == -lat2 && lat1 != 0.0;
    if Abs(lat1) != Abs(lat2) {
      SwappedCanonical(lat1, lon1, lat2, lon2);
    } else {
      EqualCanonical(lat1, lon1, lat2, lon2);
    }
    hide Canonicalize;
    var s := solve(c.lat1, c.lat2, c.lon12);
    if lon1 == lon2 && Abs(lat1) != Abs(lat2) {
      TurnedMeridian(c, s);
    } else if Abs(lat1) == Abs(lat2) {
      TurnedEqual(c, s, lon1 != lon2, mirrored);
    } else {
      RestoredTurned(c, s);
    }
  }

  /** Points of equal absolute latitude are not swapped. */
  lemma EqualCanonical(lat1: real, lon1: real, lat2: real, lon2: real)
    requires IsLatitude(lat1) && IsLatitude(lat2) && Abs(lat1) == Abs(lat2)
    ensures var c, d := Canonicalize(lat1, lon1, lat2, lon2), Canonicalize(lat2, lon2, lat1, lon1);
            var mirrored := lat1 == -lat2 && lat1 != 0.0;
            && c.swapp == 1
            && d == c.(lonsign := if lon1 != lon2 then -c.lonsign else c.lonsign,
                       latsign := if mirrored then -c.latsign else c.latsign)
  {
    AngDiffOdd(lon1, lon2);
    hide AngDiff;
    if lon1 == lon2 {
      DifferenceOfEqual(lon1);
    }
  }

  lemma TurnedMeridian(c: Canonical, s: Solution)
    requires IsSign(c.lonsign) && IsSign(c.swapp) && IsSign(c.latsign)
    ensures Restored(c.(swapp := -c.swapp, lonsign := -c.lonsign), s) == Turned(Restored(c, s))
       <==> s.salp1 == 0.0 && s.salp2 == 0.0 && s.S12 == 0.0
  {
  }

  lemma TurnedEqual(c: Canonical, s: Solution, lonFlip: bool, latFlip: bool)
    requires IsSign(c.lonsign) && c.swapp == 1 && IsSign(c.latsign)
    ensures var d := c.(lonsign := if lonFlip then -c.lonsign else c.lonsign,
                        latsign := if latFlip then -c.latsign else c.latsign);
            Restored(d, s) == Turned(Restored(c, s))
            <==> && s.M12 == s.M21 && s.salp1 == (if lonFlip then s.salp2 else -s.salp2)
                 && s.calp1 == (if latFlip then s.calp2 else -s.calp2) && (lonFlip != latFlip || s.S12 == 0.0)
  {
  }

  lemma RestoredTurned(c: Canonical, s: Solution)
    requires IsSign(c.lonsign) && IsSign(c.swapp) && IsSign(c.latsign)
    ensures Restored(c.(swapp := -c.swapp), s) == Turned(Restored(c, s))
  {
  }

  /** A solver without symmetry of its own. */
  const LOPSIDED: Solver :=
    (lat1: real, lat2: real, lon12: real) => Solution(1.0, 1.0, 1.0, 1.0, 1.0, 1.0, 1.0, 1.0, 2.0, 1.0)

  /** The symmetry is the wrapper's own doing exactly for points of different absolute
      latitude on different longitudes. */
  lemma SwapSymmetryExactly(lat1: real, lon1: real, lat2: real, lon2: real)
    requires IsLatitude(lat1) && IsLatitude(lat2)
    ensures (forall solve: Solver :: SwapTurns(solve, lat1, lon1, lat2, lon2))
       <==> Abs(lat1) != Abs(lat2) && lon1 != lon2
  {
    if Abs(lat1) != Abs(lat2) && lon1 != lon2 {
      forall solve: Solver
        ensures SwapTurns(solve, lat1, lon1, lat2, lon2)
      {
        SwapSymmetry(solve, lat1, lon1, lat2, lon2);
      }
    } else {
      assert !SwapTurns(LOPSIDED, lat1, lon1, lat2, lon2) by {
        LopsidedFails(lat1, lon1, lat2, lon2);
      }
    }
  }

  lemma LopsidedFails(lat1: real, lon1: real, lat2: real, lon2: real)
    requires IsLatitude(lat1) && IsLatitude(lat2)
    requires Abs(lat1) == Abs(lat2) || lon1 == lon2
    ensures !SwapTurns(LOPSIDED, lat1, lon1, lat2, lon2)
  {
  }

  // ---------- reflections ----------

  lemma AngDiffReflected(x: real, y: real)
    ensures AngDiff(-x, -y) == -AngDiff(x, y)
    ensures x != y ==> (AngDiffSignBit(-x, -y) <==> !AngDiffSignBit(x, y))
  {
    var d := AngDiff(x, y);
    CongruentNeg(d, y - x, TD);
    assert -(y - x) == -y - -x;
    DifferenceUnique(-d, AngDiff(-x, -y), -x, -y);
  }

  /** Reflecting both points in the prime meridian negates area and eastward azimuth
      components and keeps everything else. */
  ghost predicate MeridianReflects(solve: Solver, lat1: real, lon1: real, lat2: real, lon2: real)
    requires IsLatitude(lat1) && IsLatitude(lat2)
  {
    var s := Inverse(solve, lat1, lon1, lat2, lon2).value;
    Inverse(solve, lat1, -lon1, lat2, -lon2).value
    == s.(S12 := -s.S12, salp1 := -s.salp1, salp2 := -s.salp2)
  }

  /** Reflecting both points in the equator negates area and northward azimuth components
      and keeps everything else. */
  ghost predicate EquatorReflects(solve: Solver, lat1: real, lon1: real, lat2: real, lon2: real)
    requires IsLatitude(lat1) && IsLatitude(lat2)
  {
    var s := Inverse(solve, lat1, lon1, lat2, lon2).value;
    Inverse(solve, -lat1, lon1, -lat2, lon2).value
    == s.(S12 := -s.S12, calp1 := -s.calp1, calp2 := -s.calp2)
  }

  lemma MeridianReflection(solve: Solver, lat1: real, lon1: real, lat2: real, lon2: real)
    requires IsLatitude(lat1) && IsLatitude(lat2) && lon1 != lon2
    ensures MeridianReflects(solve, lat1, lon1, lat2, lon2)
  {
    AngDiffReflected(lon1, lon2);
    hide AngDiff;
  }

  /** The wrapper guarantees the reflection exactly for points on different longitudes. */
  lemma MeridianReflectionExactly(lat1: real, lon1: real, lat2: real, lon2: real)
    requires IsLatitude(lat1) && IsLatitude(lat2)
    ensures (forall solve: Solver :: MeridianReflects(solve, lat1, lon1, lat2, lon2)) <==> lon1 != lon2
  {
    if lon1 != lon2 {
      forall solve: Solver
        ensures MeridianReflects(solve, lat1, lon1, lat2, lon2)
      {
        MeridianReflection(solve, lat1, lon1, lat2, lon2);
      }
    } else {
      DifferenceOfEqual(lon1);
      DifferenceOfEqual(-lon1);
      hide AngDiff;
      assert Inverse(LOPSIDED, lat1, lon1, lat2, lon2).value.S12 != 0.0;
      assert !MeridianReflects(LOPSIDED, lat1, lon1, lat2, lon2);
    }
  }

  lemma EquatorReflection(solve: Solver, lat1: real, lon1: real, lat2: real, lon2: real)
    requires IsLatitude(lat1) && IsLatitude(lat2) && (lat1 != 0.0 || lat2 != 0.0)
    ensures EquatorReflects(solve, lat1, lon1, lat2, lon2)
  {
    hide AngDiff, AngDiffSignBit;
  }

  /** The wrapper guarantees it exactly for points that are not both on the equator. */
  lemma EquatorReflectionExactly(lat1: real, lon1: real, lat2: real, lon2: real)
    requires IsLatitude(lat1) && IsLatitude(lat2)
    ensures (forall solve: Solver :: EquatorReflects(solve, lat1, lon1, lat2, lon2))
       <==> lat1 != 0.0 || lat2 != 0.0
  {
    if lat1 != 0.0 || lat2 != 0.0 {
      forall solve: Solver
        ensures EquatorReflects(solve, lat1, lon1, lat2, lon2)
      {
        EquatorReflection(solve, lat1, lon1, lat2, lon2);
      }
    } else {
      hide AngDiff, AngDiffSignBit;
      assert Inverse(LOPSIDED, lat1, lon1, lat2, lon2).value.S12 != 0.0;
      assert !EquatorReflects(LOPSIDED, lat1, lon1, lat2, lon2);
    }
  }

  // ---------- edges of polygons ----------

  /** The geodesic that polygons use, given a canonical solver. An edge with an invalid
      latitude, whose numbers are NaN, stands for itself only. */
  function GeodesicOf(solve: Solver, area0: real, direct: (real, real, real, real) -> Landing): (g: Geodesic)
    ensures g.area0 == area0
  {
    Geodesic(area0,
             (lat1: real, lon1: real, lat2: real, lon2: real) =>
               match Inverse(solve, lat1, lon1, lat2, lon2)
               case None => Edge(0.0, 0.0)
               case Some(s) => Edge(s.s12, s.S12),
             direct)
  }

  /** The inputs decide the sense in which the canonical line is walked: of equal longitudes
      and latitudes that mirror each other off the equator, both or neither. */
  predicate SenseDecided(lat1: real, lon1: real, lat2: real, lon2: real) {
    lon1 == lon2 <==> lat1 == -lat2 && lat1 != 0.0
  }

  /** Walking an edge back keeps its length, and negates the area under it exactly if the
      sense is decided or the canonical line has no area. */
  lemma EdgeAreaOdd(solve: Solver, lat1: real, lon1: real, lat2: real, lon2: real)
    requires IsLatitude(lat1) && IsLatitude(lat2)
    ensures var c := Canonicalize(lat1, lon1, lat2, lon2);
            var s := Inverse(solve, lat1, lon1, lat2, lon2).value;
            var t := Inverse(solve, lat2, lon2, lat1, lon1).value;
            && t.s12 == s.s12
            && (t.S12 == -s.S12
                <==> SenseDecided(lat1, lon1, lat2, lon2) || solve(c.lat1, c.lat2, c.lon12).S12 == 0.0)
  {
    var c, d := Canonicalize(lat1, lon1, lat2, lon2), Canonicalize(lat2, lon2, lat1, lon1);
    AngDiffOdd(lon1, lon2);
    if lon1 == lon2 {
      DifferenceOfEqual(lon1);
    }
    hide AngDiff;
    assert c.lon12 == d.lon12 && c.lat1 == d.lat1 && c.lat2 == d.lat2;
    var flipped := c.swapp * c.lonsign * c.latsign == -(d.swapp * d.lonsign * d.latsign);
    assert SenseDecided(lat1, lon1, lat2, lon2) <==> flipped;
  }

  /** The area under the edge is negated when the edge is walked back. */
  ghost predicate NegatesArea(solve: Solver, lat1: real, lon1: real, lat2: real, lon2: real)
    requires IsLatitude(lat1) && IsLatitude(lat2)
  {
    Inverse(solve, lat2, lon2, lat1, lon1).value.S12 == -Inverse(solve, lat1, lon1, lat2, lon2).value.S12
  }

  /** That holds for every solver exactly if the sense is decided. */
  lemma EdgeAreaOddForAll(lat1: real, lon1: real, lat2: real, lon2: real)
    requires IsLatitude(lat1) && IsLatitude(lat2)
    ensures (forall solve: Solver :: NegatesArea(solve, lat1, lon1, lat2, lon2))
       <==> SenseDecided(lat1, lon1, lat2, lon2)
  {
    hide Canonicalize, SenseDecided, Restored;
    forall solve: Solver | SenseDecided(lat1, lon1, lat2, lon2)
      ensures NegatesArea(solve, lat1, lon1, lat2, lon2)
    {
      EdgeAreaOdd(solve, lat1, lon1, lat2, lon2);
    }
    EdgeAreaOdd(LOPSIDED, lat1, lon1, lat2, lon2);
    assert NegatesArea(LOPSIDED, lat1, lon1, lat2, lon2) ==> SenseDecided(lat1, lon1, lat2, lon2);
  }

  /** An edge of a polygon is undone by going back exactly if its area is and neither way is
      a hidden half turn. */
  lemma EdgeOddExactly(solve: Solver, area0: real, direct: (real, real, real, real) -> Landing,
                       u: Vertex, v: Vertex)
    requires IsLatitude(u.lat) && IsLatitude(v.lat)
    ensures var c := Canonicalize(u.lat, u.lon, v.lat, v.lon);
            OddEdge(EdgeWeight(GeodesicOf(solve, area0, direct)), u, v)
            <==> && (SenseDecided(u.lat, u.lon, v.lat, v.lon) || solve(c.lat1, c.lat2, c.lon12).S12 == 0.0)
                 && !HiddenHalfTurn(u.lon, v.lon) && !HiddenHalfTurn(v.lon, u.lon)
  {
    hide Canonicalize, SenseDecided, HiddenHalfTurn, Transit, Restored;
    EdgeAreaOdd(solve, u.lat, u.lon, v.lat, v.lon);
    TransitOdd(u.lon, v.lon);
  }

  /** An edge between valid points that is undone by going back whatever the solver does. */
  predicate UndoneByAll(u: Vertex, v: Vertex) {
    && IsLatitude(u.lat) && IsLatitude(v.lat) && SenseDecided(u.lat, u.lon, v.lat, v.lon)
    && !HiddenHalfTurn(u.lon, v.lon) && !HiddenHalfTurn(v.lon, u.lon)
  }

  /** No solver spoils such an edge, and each other edge is spoilt by some. */
  lemma UndoneByAllExactly(area0: real, direct: (real, real, real, real) -> Landing, u: Vertex, v: Vertex)
    requires IsLatitude(u.lat) && IsLatitude(v.lat)
    ensures (forall solve: Solver :: SolvedEdgeOdd(solve, area0, direct, u, v)) <==> UndoneByAll(u, v)
  {
    hide Canonicalize, SenseDecided, HiddenHalfTurn, EdgeWeight, OddEdge;
    forall solve: Solver | UndoneByAll(u, v)
      ensures SolvedEdgeOdd(solve, area0, direct, u, v)
    {
      EdgeOddExactly(solve, area0, direct, u, v);
    }
    EdgeOddExactly(LOPSIDED, area0, direct, u, v);
    assert SolvedEdgeOdd(LOPSIDED, area0, direct, u, v) ==> UndoneByAll(u, v);
  }

  predicate SolvedEdgeOdd(solve: Solver, area0: real, direct: (real, real, real, real) -> Landing,
                          u: Vertex, v: Vertex)
  {
    OddEdge(EdgeWeight(GeodesicOf(solve, area0, direct)), u, v)
  }

  /** So cutting along such a diagonal conserves area for every solver, and the other edges
      do not matter. */
  lemma CutConservesSolvedArea(solve: Solver, area0: real, direct: (real, real, real, real) -> Landing,
                               vs: seq<Vertex>, i: nat, j: nat, reverse: bool, sign: bool)
    requires area0 > 0.0 && i < j < |vs|
    ensures UndoneByAll(vs[i], vs[j]) ==>
              var g := GeodesicOf(solve, area0, direct);
              var r := PolygonReport(g, vs, reverse, sign);
              var p := PolygonReport(g, InnerPiece(vs, i, j), reverse, sign);
              var q := PolygonReport(g, OuterPiece(vs, i, j), reverse, sign);
              && HasArea(r) && HasArea(p) && HasArea(q)
              && Congruent(Area(p) + Area(q), Area(r), area0)
  {
    hide PolygonReport, HiddenHalfTurn, Canonicalize, EdgeWeight;
    if UndoneByAll(vs[i], vs[j]) {
      EdgeOddExactly(solve, area0, direct, vs[i], vs[j]);
      CutConservesArea(GeodesicOf(solve, area0, direct), vs, i, j, reverse, sign);
    }
  }

  /** All edges of the closed polygon are of that kind. */
  predicate CycleUndone(vs: seq<Vertex>) {
    && (forall i :: 0 < i < |vs| ==> UndoneByAll(vs[i - 1], vs[i]))
    && (vs != [] ==> UndoneByAll(vs[|vs| - 1], vs[0]))
  }

  /** And reversing a polygon of such edges equals flipping the `reverse` flag. */
  lemma ReversalOfSolvedArea(solve: Solver, area0: real, direct: (real, real, real, real) -> Landing,
                             vs: seq<Vertex>, reverse: bool, sign: bool)
    requires area0 > 0.0
    ensures CycleUndone(vs) ==>
              var g := GeodesicOf(solve, area0, direct);
              PolygonReport(g, Reversed(vs), reverse, sign) == PolygonReport(g, vs, !reverse, sign)
  {
    hide PolygonReport, HiddenHalfTurn, Canonicalize, EdgeWeight, OddEdge;
    if CycleUndone(vs) {
      var g := GeodesicOf(solve, area0, direct);
      if vs != [] {
        EdgeOddExactly(solve, area0, direct, vs[|vs| - 1], vs[0]);
      }
      forall i | 0 < i < |vs|
        ensures OddEdge(EdgeWeight(g), vs[i - 1], vs[i])
      {
        EdgeOddExactly(solve, area0, direct, vs[i - 1], vs[i]);
      }
      ReversalFlipsFlag(g, vs, reverse, sign);
    }
  }

  /** Points on different longitudes in [-180, 180] whose latitudes do not mirror each other
      are joined by such an edge. */
  lemma UndoneInRange(u: Vertex, v: Vertex)
    requires IsLatitude(u.lat) && IsLatitude(v.lat) && InRange(u.lon) && InRange(v.lon)
    requires u.lon != v.lon && (u.lat != -v.lat || u.lat == 0.0)
    ensures UndoneByAll(u, v)
  {
    hide HiddenHalfTurn;
    NoHiddenHalfTurnInRange(u.lon, v.lon);
    NoHiddenHalfTurnInRange(v.lon, u.lon);
  }

  // ---------- mirror antipodes ----------

  /** What the area of a meridional line is made of. */
  datatype Ellipsoid = Ellipsoid(pi: real, c2: real, tiny: real, atan2: (real, real) -> real)

  ghost predicate LawfulEllipsoid(e: Ellipsoid) {
    && e.pi > 0.0 && e.c2 > 0.0 && e.tiny > 0.0
    && (forall y, x :: y < 0.0 ==> -e.pi <= e.atan2(y, x) < 0.0)
    && (forall x :: x > 0.0 ==> e.atan2(0.0, x) == 0.0)
  }

  /** The area under a canonical line along one full meridian: it leaves with azimuth cosine
      `clam12`, 1 on the same half of the meridian and -1 across a pole, and arrives
      northwards, both azimuth sines being zero. */
  function MeridianArea(e: Ellipsoid, clam12: real): real {
    var salp1, calp1, salp2, calp2 := 0.0, clam12, 0.0, 1.0;
    var salp12, calp12 := salp2 * calp1 - calp2 * salp1, calp2 * calp1 + salp2 * salp1;
    e.c2 * if salp12 == 0.0 && calp12 < 0.0 then e.atan2(e.tiny * calp1, -1.0) else e.atan2(salp12, calp12)
  }

  /** A solver that treats points on one longitude as the code does. */
  ghost predicate FollowsMeridian(solve: Solver, e: Ellipsoid, lat1: real, lat2: real) {
    var s := solve(lat1, lat2, 0.0);
    s.salp1 == 0.0 && s.salp2 == 0.0 && s.S12 == MeridianArea(e, 1.0)
  }

  /** On one longitude the code's own answer has no area and no eastward components, so
      there too swapping points of different absolute latitude turns the solution round. */
  lemma MeridianTurns(solve: Solver, e: Ellipsoid, lat1: real, lat2: real, lon: real)
    requires LawfulEllipsoid(e) && IsLatitude(lat1) && IsLatitude(lat2) && Abs(lat1) != Abs(lat2)
    requires var c := Canonicalize(lat1, lon, lat2, lon);
             FollowsMeridian(solve, e, c.lat1, c.lat2)
    ensures SwapTurns(solve, lat1, lon, lat2, lon)
  {
    SwapTurnsExactly(solve, lat1, lon, lat2, lon);
    DifferenceOfEqual(lon);
    hide AngDiff;
    assert Canonicalize(lat1, lon, lat2, lon).lon12 == 0.0;
    assert MeridianArea(e, 1.0) == e.c2 * e.atan2(0.0, 1.0) == 0.0;
  }

  /** Between antipodes off the equator both ways lead over the same pole to the same
      canonical line, walked in the same sense: the area is not negated but the same. */
  lemma AntipodesNotUndone(solve: Solver, e: Ellipsoid, lat: real, lon1: real, lon2: real)
    requires LawfulEllipsoid(e) && 0.0 < lat <= QD && (lon2 == lon1 + HD || lon2 == lon1 - HD)
    requires solve(-lat, lat, HD).S12 == MeridianArea(e, -1.0)
    ensures var s := Inverse(solve, -lat, lon1, lat, lon2).value;
            var t := Inverse(solve, lat, lon2, -lat, lon1).value;
            t.S12 == s.S12 && 0.0 < Abs(s.S12) <= e.pi * e.c2
  {
    AntipodalCanonical(lat, lon1, lon2);
    hide Canonicalize;
    var x := e.atan2(e.tiny * -1.0, -1.0);
    assert -e.pi <= x < 0.0;
    ProductPositive(e.c2, -x);
    MulMono(-x, e.pi, e.c2);
    assert solve(-lat, lat, HD).S12 == e.c2 * x;
  }

  /** Longitude and latitude signs are both exchanged, and nothing else is. */
  lemma AntipodalCanonical(lat: real, lon1: real, lon2: real)
    requires 0.0 < lat <= QD && (lon2 == lon1 + HD || lon2 == lon1 - HD)
    ensures var c := Canonicalize(-lat, lon1, lat, lon2);
            && c.lat1 == -lat && c.lat2 == lat && c.lon12 == HD && c.swapp == 1
            && Canonicalize(lat, lon2, -lat, lon1) == c.(lonsign := -c.lonsign, latsign := -c.latsign)
  {
    assert Apart(lon2 - lon1, lon2 - lon1, 0, TD);
    DifferenceUnique(AngDiff(lon1, lon2), lon2 - lon1, lon1, lon2);
    AngDiffOdd(lon1, lon2);
    hide AngDiff;
  }

  /** Cutting along such a diagonal does not conserve area. */
  lemma AntipodalCutFails(solve: Solver, e: Ellipsoid, direct: (real, real, real, real) -> Landing,
                          vs: seq<Vertex>, i: nat, j: nat, reverse: bool, sign: bool)
    requires LawfulEllipsoid(e) && i < j < |vs|
    requires 0.0 < vs[j].lat <= QD && vs[i].lat == -vs[j].lat
    requires InRange(vs[i].lon) && InRange(vs[j].lon) && Abs(vs[j].lon - vs[i].lon) == HD
    requires solve(vs[i].lat, vs[j].lat, HD).S12 == MeridianArea(e, -1.0)
    ensures var area0 := 4.0 * e.pi * e.c2;
            && area0 > 0.0
            && var g := GeodesicOf(solve, area0, direct);
               var r := PolygonReport(g, vs, reverse, sign);
               var p := PolygonReport(g, InnerPiece(vs, i, j), reverse, sign);
               var q := PolygonReport(g, OuterPiece(vs, i, j), reverse, sign);
               && HasArea(r) && HasArea(p) && HasArea(q)
               && !Congruent(Area(p) + Area(q), Area(r), area0)
  {
    hide *;
    var u, v := vs[i], vs[j];
    var area0 := 4.0 * e.pi * e.c2;
    var g := GeodesicOf(solve, area0, direct);
    AntipodalTally(solve, e, direct, u, v);
    CutConservesExactly(g, vs, i, j, reverse, sign);
  }

  /** Walked both ways the diagonal encloses an area, but less than the ellipsoid. */
  lemma AntipodalTally(solve: Solver, e: Ellipsoid, direct: (real, real, real, real) -> Landing,
                       u: Vertex, v: Vertex)
    requires LawfulEllipsoid(e) && 0.0 < v.lat <= QD && u.lat == -v.lat
    requires InRange(u.lon) && InRange(v.lon) && Abs(v.lon - u.lon) == HD
    requires solve(u.lat, v.lat, HD).S12 == MeridianArea(e, -1.0)
    ensures var area0 := 4.0 * e.pi * e.c2;
            var t := ThereAndBack(EdgeWeight(GeodesicOf(solve, area0, direct)), u, v);
            area0 > 0.0 && !Congruent(SignedArea(t.area, area0, t.crossings, true), 0.0, area0)
  {
    var area0 := 4.0 * e.pi * e.c2;
    ProductPositive(e.pi, e.c2);
    AntipodesNotUndone(solve, e, v.lat, u.lon, v.lon);
    NoHiddenHalfTurnInRange(u.lon, v.lon);
    NoHiddenHalfTurnInRange(v.lon, u.lon);
    TransitOdd(u.lon, v.lon);
    hide HiddenHalfTurn, Transit, Inverse, MeridianArea, Congruent;
    var t := ThereAndBack(EdgeWeight(GeodesicOf(solve, area0, direct)), u, v);
    var x := Inverse(solve, u.lat, u.lon, v.lat, v.lon).value.S12;
    assert t.area == 2.0 * x && t.crossings == 0;
    NotWhole(2.0 * x, area0);
  }

  lemma NotWhole(x: real, m: real)
    requires 0.0 < Abs(x) < m
    ensures !Congruent(SignedArea(x, m, 0, true), 0.0, m)
  {
    if Congruent(x, 0.0, m) {
      CongruentClose(x, 0.0, m);
    }
  }

  /** For one: from 30 degrees south on the prime meridian to 30 degrees north on the
      opposite one. */
  lemma AntipodesExample(solve: Solver, e: Ellipsoid)
    requires LawfulEllipsoid(e) && solve(-30.0, 30.0, HD).S12 == MeridianArea(e, -1.0)
    ensures Inverse(solve, 30.0, 180.0, -30.0, 0.0).value.S12
            == Inverse(solve, -30.0, 0.0, 30.0, 180.0).value.S12 == e.c2 * e.atan2(-e.tiny, -1.0) < 0.0
  {
    AntipodesNotUndone(solve, e, 30.0, 0.0, 180.0);
    assert Apart(180.0, 180.0 - 0.0, 0, TD);
    DifferenceUnique(AngDiff(0.0, 180.0), 180.0, 0.0, 180.0);
    hide AngDiff;
    assert e.tiny * -1.0 == -e.tiny;
  }
}
