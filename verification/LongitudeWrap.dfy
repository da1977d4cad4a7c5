/** Longitude reduction to a turn around zero (src/adjlon.cpp). */
module LongitudeWrap {
  import opened RealMath

  const OVERSHOOT := 0.000000000001

  /** adjlon, for a positive `pi`. Longitudes that overshoot a half turn a little are left
      as they are. */
  function AdjLon(pi: real, longitude: real): (r: real)
    requires pi > 0.0
    ensures Congruent(r, longitude, 2.0 * pi)
    ensures -pi - 0.000000000001 < r < pi + 0.000000000001
    ensures Abs(longitude) < pi + 0.000000000001 ==> r == longitude
    ensures Abs(longitude) >= pi + 0.000000000001 ==> -pi <= r < pi
  {
    if Abs(longitude) < pi + OVERSHOOT then
      CongruentRefl(longitude, 2.0 * pi);
      longitude
    else
      var turns := ((longitude + pi) / (2.0 * pi)).Floor;
      FloorBounds(longitude + pi, 2.0 * pi, turns);
      assert Apart(longitude + pi - 2.0 * pi * turns as real - pi, longitude, -turns, 2.0 * pi);
      longitude + pi - 2.0 * pi * turns as real - pi
  }

  lemma FloorBounds(x: real, m: real, n: int)
    requires m > 0.0 && n == (x / m).Floor
    ensures 0.0 <= x - m * n as real < m
  {
    var q := x / m;
    assert q * m == x;
    FloorLower(q, n as real, x, m);
    FloorUpper(q, n as real, x, m);
  }

  lemma FloorLower(q: real, n: real, x: real, m: real)
    requires m > 0.0 && q * m == x && n <= q
    ensures x - m * n >= 0.0
  {
  }

  lemma FloorUpper(q: real, n: real, x: real, m: real)
    requires m > 0.0 && q * m == x && q < n + 1.0
    ensures x - m * n < m
  {
    var gap := n + 1.0 - q;
    assert gap * m == m * n + m - x;
    ProductPositive(gap, m);
  }

  /** Whole turns do not matter much: a longitude is recovered from a congruent one exactly
      if that one is the longitude itself or is far enough out to be reduced, and the
      longitude is in the range of reduced ones. */
  lemma AdjLonRecoversExactly(pi: real, longitude: real, other: real)
    requires pi > 0.0 && Congruent(other, longitude, 2.0 * pi)
    ensures AdjLon(pi, other) == longitude
       <==> if Abs(other) < pi + OVERSHOOT then other == longitude else -pi <= longitude < pi
  {
    CongruentTrans(AdjLon(pi, other), other, longitude, 2.0 * pi);
    if -pi <= longitude < pi && Abs(other) >= pi + OVERSHOOT {
      CongruentClose(AdjLon(pi, other), longitude, 2.0 * pi);
    }
  }

  /** In particular from any congruent one if it is well inside the half turns. */
  lemma AdjLonRecovers(pi: real, longitude: real, other: real)
    requires pi > OVERSHOOT && Congruent(other, longitude, 2.0 * pi)
    requires Abs(longitude) < pi - OVERSHOOT
    ensures AdjLon(pi, other) == longitude
  {
    CongruentTrans(AdjLon(pi, other), other, longitude, 2.0 * pi);
    CongruentClose(AdjLon(pi, other), longitude, 2.0 * pi);
  }
}
