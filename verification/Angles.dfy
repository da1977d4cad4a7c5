/** Longitude arithmetic of the geodesic routines (src/geodesic.c): normalisation,
    differences, and the two ways of counting prime-meridian crossings. */
module Angles {
  import opened RealMath

  const QD := 90.0
  const HD := 180.0
  const TD := 360.0

  // ---------- AngNormalize and AngDiff ----------

  /** Reduces an angle to [-180, 180]; a half turn keeps the sign of the argument. */
  function AngNormalize(x: real): (y: real)
    ensures -HD <= y <= HD
    ensures Congruent(y, x, TD)
    ensures Abs(y) == HD ==> (y < 0.0 <==> x < 0.0)
  {
    var y := Remainder(x, TD);
    if Abs(y) == HD then
      HalfTurnFlip(y, CopySign(HD, x), x);
      CopySign(HD, x)
    else y
  }

  lemma HalfTurnFlip(y: real, z: real, x: real)
    requires Congruent(y, x, TD) && (z == y || z == y + TD || z == y - TD)
    ensures Congruent(z, x, TD)
  {
    var k := TurnsOf(y, x);
    assert Apart(z, x, if z == y then k else if z == y + TD then k + 1 else k - 1, TD);
  }

  /** The value of `AngDiff(x, y, e)`; in exact arithmetic the error term is zero. */
  function AngDiff(x: real, y: real): (d: real)
    ensures IsDifference(d, x, y)
  {
    var d := Remainder(Remainder(-x, TD) + Remainder(y, TD), TD);
    DiffCongruent(x, y);
    if d == 0.0 || Abs(d) == HD then
      HalfTurnFlip(d, CopySign(d, y - x), y - x);
      HalfTurnNonzero(d, x, y);
      CopySign(d, y - x)
    else d
  }

  /** The sign bit of the value `AngDiff` returns, which is set for a westward zero too. */
  predicate AngDiffSignBit(x: real, y: real) {
    var d := AngDiff(x, y);
    d < 0.0 || (d == 0.0 && y - x < 0.0)
  }

  /** `d` is the difference `y - x` reduced to [-180, 180], with a half turn signed
      the way the unreduced difference is. */
  ghost predicate IsDifference(d: real, x: real, y: real) {
    && -HD <= d <= HD
    && Congruent(d, y - x, TD)
    && (d == HD ==> x < y)
    && (d == -HD ==> y < x)
  }

  lemma DiffCongruent(x: real, y: real)
    ensures Congruent(Remainder(Remainder(-x, TD) + Remainder(y, TD), TD), y - x, TD)
  {
    var a, b := Remainder(-x, TD), Remainder(y, TD);
    CongruentAdd(a, -x, b, y, TD);
    CongruentTrans(Remainder(a + b, TD), a + b, -x + y, TD);
  }

  lemma HalfTurnNonzero(d: real, x: real, y: real)
    requires Congruent(d, y - x, TD)
    ensures Abs(d) == HD ==> x != y
  {
  }

  /** The three conditions of `IsDifference` leave one value. */
  lemma DifferenceUnique(d: real, e: real, x: real, y: real)
    requires IsDifference(d, x, y) && IsDifference(e, x, y)
    ensures d == e
  {
    CongruentSym(e, y - x, TD);
    CongruentTrans(d, y - x, e, TD);
    var k := TurnsOf(d, e);
    assert k == 0 || k == 1 || k == -1;
  }

  /** Going back undoes going there. */
  lemma AngDiffOdd(x: real, y: real)
    ensures AngDiff(y, x) == -AngDiff(x, y)
    ensures x != y ==> (AngDiffSignBit(y, x) <==> !AngDiffSignBit(x, y))
  {
    var d := AngDiff(x, y);
    CongruentNeg(d, y - x, TD);
    assert -(y - x) == x - y;
    DifferenceUnique(-d, AngDiff(y, x), y, x);
  }

  // ---------- crossings of the prime meridian ----------

  /** 1 or -1 if the edge crosses the prime meridian eastwards or westwards, else 0. */
  function Transit(lon1: real, lon2: real): (c: int) {
    var lon12 := AngDiff(lon1, lon2);
    var n1, n2 := AngNormalize(lon1), AngNormalize(lon2);
    if lon12 > 0.0 && ((n1 < 0.0 && n2 >= 0.0) || (n1 > 0.0 && n2 == 0.0)) then 1
    else if lon12 < 0.0 && n1 >= 0.0 && n2 < 0.0 then -1
    else 0
  }

  /** Number of whole turns below `lon`. */
  function Turn(lon: real): (n: int)
    ensures n as real * TD <= lon < (n + 1) as real * TD
  {
    (lon / TD).Floor
  }

  /** Crossings of the meridian seen by a point that moves from `lon` by `sweep`. */
  function TurnsCrossed(lon: real, sweep: real): int {
    Turn(lon + sweep) - Turn(lon)
  }

  /** A westward half turn that starts on the prime meridian and whose end point is
      written +180: `Transit` misses the crossing of such an edge. */
  predicate HiddenHalfTurn(lon1: real, lon2: real) {
    AngDiff(lon1, lon2) == -HD && AngNormalize(lon1) == 0.0 && AngNormalize(lon2) == HD
  }

  lemma TurnShift(lon: real, k: int)
    ensures Turn(lon + TD * k as real) == Turn(lon) + k
  {
  }

  /** `Transit` counts the turns crossed by the shortest sweep, except exactly on
      hidden half turns. */
  lemma TransitCountsTurns(lon1: real, lon2: real)
    ensures Transit(lon1, lon2) == TurnsCrossed(lon1, AngDiff(lon1, lon2))
       <==> !HiddenHalfTurn(lon1, lon2)
    ensures HiddenHalfTurn(lon1, lon2) ==>
              Transit(lon1, lon2) == TurnsCrossed(lon1, AngDiff(lon1, lon2)) + 1
  {
    var d := AngDiff(lon1, lon2);
    var n1, n2 := AngNormalize(lon1), AngNormalize(lon2);
    var j1 := TurnsOf(n1, lon1);
    var j2 := TurnsOf(n2, lon2);
    var k := TurnsOf(d, lon2 - lon1);
    TurnShift(lon1, j1);
    TurnShift(lon1 + d, j1);
    assert n1 + d == (lon1 + d) + TD * j1 as real;
    assert TurnsCrossed(lon1, d) == TurnsCrossed(n1, d);
    NormalizedCrossing(n1, n2, d, k + j1 - j2);
  }

  lemma NormalizedCrossing(n1: real, n2: real, d: real, i: int)
    requires InRange(n1) && InRange(n2) && InRange(d)
    requires n1 + d == n2 + TD * i as real
    ensures var c := if d > 0.0 && ((n1 < 0.0 && n2 >= 0.0) || (n1 > 0.0 && n2 == 0.0)) then 1
                     else if d < 0.0 && n1 >= 0.0 && n2 < 0.0 then -1 else 0;
            var hidden := d == -HD && n1 == 0.0 && n2 == HD;
            c == TurnsCrossed(n1, d) + if hidden then 1 else 0
  {
  }

  /** The half turn the formula does not cover: from 360 to 180. */
  lemma HiddenHalfTurnExample()
    ensures HiddenHalfTurn(360.0, 180.0)
    ensures Transit(360.0, 180.0) == 0 && TurnsCrossed(360.0, AngDiff(360.0, 180.0)) == -1
  {
  }

  predicate InRange(lon: real) {
    -HD <= lon <= HD
  }

  /** On [-180, 180] normalisation is the identity. */
  lemma NormalizeInRange(lon: real)
    requires InRange(lon)
    ensures AngNormalize(lon) == lon
  {
  }

  lemma NoHiddenHalfTurnInRange(lon1: real, lon2: real)
    requires InRange(lon1) && InRange(lon2)
    ensures !HiddenHalfTurn(lon1, lon2)
  {
  }

  /** Crossings are signed: the edge walked back crosses the other way, except exactly where
      one of the two directions is a hidden half turn. */
  lemma TransitOdd(lon1: real, lon2: real)
    ensures Transit(lon2, lon1) == -Transit(lon1, lon2)
       <==> !HiddenHalfTurn(lon1, lon2) && !HiddenHalfTurn(lon2, lon1)
  {
    var d := AngDiff(lon1, lon2);
    AngDiffOdd(lon1, lon2);
    TransitCountsTurns(lon1, lon2);
    TransitCountsTurns(lon2, lon1);
    var k := TurnsOf(d, lon2 - lon1);
    hide AngDiff, Transit, Turn;
    assert lon1 + d == lon2 + TD * k as real;
    assert lon2 - d == lon1 + TD * (-k) as real;
    TurnShift(lon2, k);
    TurnShift(lon1, -k);
  }

  /** A number with the parity of `Turn(lon2) - Turn(lon1)`, from longitudes reduced
      modulo two turns. */
  function TransitDirect(lon1: real, lon2: real): (c: int)
    ensures -1 <= c <= 1
    ensures (c - (Turn(lon2) - Turn(lon1))) % 2 == 0
  {
    var r1, r2 := Remainder(lon1, 2.0 * TD), Remainder(lon2, 2.0 * TD);
    HalfParity(lon1, r1);
    HalfParity(lon2, r2);
    ParityOfDifference(Turn(lon1), Turn(lon2), Outside(r1), Outside(r2));
    Outside(r2) - Outside(r1)
  }

  lemma ParityOfDifference(a: int, b: int, p: int, q: int)
    requires (a - p) % 2 == 0 && (b - q) % 2 == 0
    ensures ((q - p) - (b - a)) % 2 == 0
  {
  }

  function Outside(r: real): int {
    if r >= 0.0 && r < TD then 0 else 1
  }

  lemma HalfParity(lon: real, r: real)
    requires -TD <= r <= TD && Congruent(r, lon, 2.0 * TD)
    ensures (Turn(lon) - Outside(r)) % 2 == 0
  {
    var k :| Apart(r, lon, k, 2.0 * TD);
    TurnShift(lon, 2 * k);
    assert r == lon + TD * (2 * k) as real;
    assert Turn(r) == if r < 0.0 then -1 else if r < TD then 0 else 1;
  }
}
