/** pj_generic_inverse_2d (src/generic_inverse.cpp): Newton-Raphson in the plane with
    numerical derivatives, steps of limited length and a budget of 15 iterations. */
module GenericInverse {
  import opened Basics
  import opened RealMath

  /** The forward map, the target, the tolerance and pi. */
  datatype Problem = Problem(fwd: LP -> XY, target: XY, tolerance: real, pi: real)

  /** Entries of the inverse Jacobian. */
  datatype Jacobian = Jacobian(lamX: real, lamY: real, phiX: real, phiY: real)

  datatype Iterate = Iterate(lp: LP, inverse: Jacobian)

  const BUDGET := 15
  const STEP := 0.000001
  const CLOSE := 0.000001
  const REACH := 0.3

  function Clamp(x: real, lo: real, hi: real): (r: real)
    ensures lo <= hi ==> lo <= r <= hi
    ensures lo <= x <= hi ==> r == x
  {
    if x < lo then lo else if x > hi then hi else x
  }

  predicate InDomain(p: Problem, lp: LP) {
    -p.pi <= lp.lam <= p.pi && -p.pi / 2.0 <= lp.phi <= p.pi / 2.0
  }

  function Residual(p: Problem, lp: LP): XY {
    var z := p.fwd(lp);
    XY(z.x - p.target.x, z.y - p.target.y)
  }

  predicate Converged(p: Problem, lp: LP) {
    var d := Residual(p, lp);
    Abs(d.x) < p.tolerance && Abs(d.y) < p.tolerance
  }

  /** The derivative of the forward map along an axis, from a step towards the origin. */
  function Difference(z1: XY, z0: XY, h: real): XY
    requires h != 0.0
  {
    XY((z1.x - z0.x) / h, (z1.y - z0.y) / h)
  }

  function StepFor(x: real): (h: real)
    ensures h == STEP || h == -STEP
  {
    if x > 0.0 then -STEP else STEP
  }

  /** The inverse of the numerical Jacobian; the old one if it is singular. */
  function Estimated(p: Problem, lp: LP, old_: Jacobian): Jacobian {
    var z := p.fwd(lp);
    var hl, hp := StepFor(lp.lam), StepFor(lp.phi);
    var dl := Difference(p.fwd(LP(lp.lam + hl, lp.phi)), z, hl);
    var dp := Difference(p.fwd(LP(lp.lam, lp.phi + hp)), z, hp);
    Inverted(dl, dp, old_)
  }

  /** The inverse of a matrix given by columns, if it has one. */
  function Inverted(dl: XY, dp: XY, old_: Jacobian): Jacobian {
    var det := dl.x * dp.y - dp.x * dl.y;
    if det != 0.0 then Jacobian(dp.y / det, -dp.x / det, -dl.y / det, dl.x / det) else old_
  }

  /** The unlimited Newton correction. */
  function Correction(d: XY, j: Jacobian): LP {
    LP(d.x * j.lamX + d.y * j.lamY, d.x * j.phiX + d.y * j.phiY)
  }

  /** Moves by a correction of limited length, within the domain. */
  function Moved(p: Problem, lp: LP, c: LP): (r: LP)
    ensures p.pi >= 0.0 ==> InDomain(p, r)
  {
    LP(Clamp(lp.lam - Clamp(c.lam, -REACH, REACH), -p.pi, p.pi),
       Clamp(lp.phi - Clamp(c.phi, -REACH, REACH), -p.pi / 2.0, p.pi / 2.0))
  }

  function Next(p: Problem, i: nat, it: Iterate): Iterate {
    var d := Residual(p, it.lp);
    var j := if i == 0 || Abs(d.x) > CLOSE || Abs(d.y) > CLOSE
             then Estimated(p, it.lp, it.inverse) else it.inverse;
    Iterate(Moved(p, it.lp, Correction(d, j)), j)
  }

  /** The point after n steps that did not find convergence. */
  function After(p: Problem, guess: LP, n: nat): Iterate {
    if n == 0 then Iterate(guess, Jacobian(0.0, 0.0, 0.0, 0.0)) else Next(p, n - 1, After(p, guess, n - 1))
  }

  /** The loop. Either it stops at the first point within tolerance, or the error is set
      after 15 steps; every point but the guess lies in the domain. */
  method Solve(p: Problem, guess: LP) returns (lp: LP, errno: bool, iterations: nat)
    requires p.pi > 0.0
    ensures iterations <= BUDGET && lp == After(p, guess, iterations).lp
    ensures forall n :: 0 <= n < iterations ==> !Converged(p, After(p, guess, n).lp)
    ensures !errno ==> iterations < 15 && Converged(p, lp)
    ensures !errno ==> Abs(p.fwd(lp).x - p.target.x) < p.tolerance && Abs(p.fwd(lp).y - p.target.y) < p.tolerance
    ensures errno ==> iterations == 15
    ensures iterations > 0 ==> InDomain(p, lp)
  {
    hide Converged, Estimated, Moved, Correction, After, InDomain;
    AfterStart(p, guess);
    lp := guess;
    var inverse := Jacobian(0.0, 0.0, 0.0, 0.0);
    var i := 0;
    while i < BUDGET
      invariant 0 <= i <= BUDGET
      invariant After(p, guess, i) == Iterate(lp, inverse)
      invariant forall n :: 0 <= n < i ==> !Converged(p, After(p, guess, n).lp)
      invariant i > 0 ==> InDomain(p, lp)
    {
      var z := p.fwd(lp);
      var dX, dY := z.x - p.target.x, z.y - p.target.y;
      var done := ConvergedTest(p, lp, dX, dY);
      if done {
        return lp, false, i;
      }
      ghost var before := Iterate(lp, inverse);
      if i == 0 || Abs(dX) > CLOSE || Abs(dY) > CLOSE {
        inverse := Estimated(p, lp, inverse);
      }
      var c := Correction(XY(dX, dY), inverse);
      lp := Moved(p, lp, c);
      assert Iterate(lp, inverse) == Next(p, i, before);
      AfterStep(p, guess, i);
      MovedInside(p, before.lp, c);
      i := i + 1;
    }
    return lp, true, BUDGET;
  }

  lemma AfterStart(p: Problem, guess: LP)
    ensures After(p, guess, 0) == Iterate(guess, Jacobian(0.0, 0.0, 0.0, 0.0))
  {
  }

  lemma AfterStep(p: Problem, guess: LP, n: nat)
    ensures After(p, guess, n + 1) == Next(p, n, After(p, guess, n))
  {
  }

  lemma MovedInside(p: Problem, lp: LP, c: LP)
    requires p.pi >= 0.0
    ensures InDomain(p, Moved(p, lp, c))
  {
  }

  method ConvergedTest(p: Problem, lp: LP, dX: real, dY: real) returns (done: bool)
    requires XY(dX, dY) == Residual(p, lp)
    ensures done <==> Converged(p, lp)
    ensures done <==> Abs(dX) < p.tolerance && Abs(dY) < p.tolerance
  {
    done := Abs(dX) < p.tolerance && Abs(dY) < p.tolerance;
  }

  // ---------- one step on any map ----------

  /** The slopes at a point along lambda and along phi, by differences over one microradian,
      towards zero from the positive side, as a matrix. */
  function Slopes(p: Problem, lp: LP): Affine {
    var hl := if lp.lam > 0.0 then -0.000001 else 0.000001;
    var hp := if lp.phi > 0.0 then -0.000001 else 0.000001;
    var z, zl, zp := p.fwd(lp), p.fwd(LP(lp.lam + hl, lp.phi)), p.fwd(LP(lp.lam, lp.phi + hp));
    Affine((zl.x - z.x) / hl, (zp.x - z.x) / hp, (zl.y - z.y) / hl, (zp.y - z.y) / hp, 0.0, 0.0)
  }

  /** Moved by at most 0.3 along each axis, and not out of the domain. */
  function Limited(p: Problem, lp: LP, c: LP): LP {
    var l := lp.lam - (if c.lam > 0.3 then 0.3 else if c.lam < -0.3 then -0.3 else c.lam);
    var f := lp.phi - (if c.phi > 0.3 then 0.3 else if c.phi < -0.3 then -0.3 else c.phi);
    LP(if l < -p.pi then -p.pi else if l > p.pi then p.pi else l,
       if f < -p.pi / 2.0 then -p.pi / 2.0 else if f > p.pi / 2.0 then p.pi / 2.0 else f)
  }

  /** The residual is above 1e-6 on some axis, or there is no matrix yet. */
  predicate Renews(p: Problem, i: nat, lp: LP) {
    i == 0 || Abs(p.fwd(lp).x - p.target.x) > 0.000001 || Abs(p.fwd(lp).y - p.target.y) > 0.000001
  }

  /** On any map: where the matrix is renewed and the slopes at that very point are
      independent, the step is the one displacement that they predict the residual for, with
      its length limited. */
  lemma StepSolves(p: Problem, i: nat, it: Iterate, c: LP)
    requires Renews(p, i, it.lp) && Slopes(p, it.lp).Det() != 0.0
    requires Slopes(p, it.lp).Linear(c) == Residual(p, it.lp)
    ensures Next(p, i, it).lp == Limited(p, it.lp, c)
    ensures Next(p, i, it).inverse == Slopes(p, it.lp).Inverse()
  {
    hide *;
    EstimatedExactly(p, it.lp, it.inverse);
    CorrectionExact(Slopes(p, it.lp), c);
    NextMoves(p, i, it);
  }

  /** There is such a displacement, and no other. */
  lemma StepUnique(p: Problem, lp: LP) returns (c: LP)
    requires Slopes(p, lp).Det() != 0.0
    ensures Slopes(p, lp).Linear(c) == Residual(p, lp)
    ensures forall d :: Slopes(p, lp).Linear(d) == Residual(p, lp) ==> d == c
  {
    hide *;
    var m := Slopes(p, lp);
    c := Correction(Residual(p, lp), m.Inverse());
    LinearExact(m, Residual(p, lp));
    forall d | m.Linear(d) == Residual(p, lp)
      ensures d == c
    {
      CorrectionExact(m, d);
    }
  }

  /** Close to the target, or with dependent slopes, the last matrix is used again, on the
      residual of the new point. */
  lemma MatrixKept(p: Problem, i: nat, it: Iterate)
    requires !Renews(p, i, it.lp) || Slopes(p, it.lp).Det() == 0.0
    ensures Next(p, i, it)
            == Iterate(Limited(p, it.lp, Correction(Residual(p, it.lp), it.inverse)), it.inverse)
  {
    hide *;
    EstimatedExactly(p, it.lp, it.inverse);
    NextMoves(p, i, it);
  }

  lemma NextMoves(p: Problem, i: nat, it: Iterate)
    ensures var j := if Renews(p, i, it.lp) then Estimated(p, it.lp, it.inverse) else it.inverse;
            Next(p, i, it) == Iterate(Limited(p, it.lp, Correction(Residual(p, it.lp), j)), j)
  {
    hide Estimated, Correction;
  }

  /** The estimate is the inverse of the matrix of slopes, or the old one. */
  lemma EstimatedExactly(p: Problem, lp: LP, old_: Jacobian)
    ensures Estimated(p, lp, old_)
            == if Slopes(p, lp).Det() != 0.0 then Slopes(p, lp).Inverse() else old_
  {
    hide Slopes, Inverted, Difference;
    var m := Slopes(p, lp);
    SlopesAre(p, lp);
    InvertedIs(m, old_);
  }

  lemma SlopesAre(p: Problem, lp: LP)
    ensures var m, hl, hp := Slopes(p, lp), StepFor(lp.lam), StepFor(lp.phi);
            && Difference(p.fwd(LP(lp.lam + hl, lp.phi)), p.fwd(lp), hl) == XY(m.a, m.c)
            && Difference(p.fwd(LP(lp.lam, lp.phi + hp)), p.fwd(lp), hp) == XY(m.b, m.d)
  {
  }

  lemma InvertedIs(m: Affine, old_: Jacobian)
    ensures Inverted(XY(m.a, m.c), XY(m.b, m.d), old_) == if m.Det() != 0.0 then m.Inverse() else old_
  {
  }

  lemma LinearExact(m: Affine, d: XY)
    requires m.Det() != 0.0
    ensures m.Linear(Correction(d, m.Inverse())) == d
  {
    CramerSolves(m.a, m.b, m.c, m.d, d.x, d.y, m.Det());
  }

  lemma CramerSolves(a: real, b: real, c: real, d: real, x: real, y: real, det: real)
    requires det == a * d - b * c && det != 0.0
    ensures var u, v := x * (d / det) + y * (-b / det), x * (-c / det) + y * (a / det);
            a * u + b * v == x && c * u + d * v == y
  {
    var p, q, r, t := d / det, -b / det, -c / det, a / det;
    assert a * p + b * r == 1.0 && a * q + b * t == 0.0 && c * p + d * r == 0.0 && c * q + d * t == 1.0 by {
      InverseEntries(a, b, c, d, det);
    }
    hide *;
    Regrouped(a, b, x, y, p, q, r, t);
    Regrouped(c, d, x, y, p, q, r, t);
  }

  lemma Regrouped(a: real, b: real, x: real, y: real, p: real, q: real, r: real, t: real)
    ensures a * (x * p + y * q) + b * (x * r + y * t) == x * (a * p + b * r) + y * (a * q + b * t)
  {
  }

  lemma Scaled(a: real, b: real, p: real, q: real, det: real)
    ensures (a * p + b * q) * det == a * (p * det) + b * (q * det)
  {
  }

  lemma Divides(x: real, y: real, det: real)
    requires det != 0.0 && x * det == y * det
    ensures x == y
  {
  }

  lemma InverseEntries(a: real, b: real, c: real, d: real, det: real)
    requires det == a * d - b * c && det != 0.0
    ensures a * (d / det) + b * (-c / det) == 1.0 && a * (-b / det) + b * (a / det) == 0.0
    ensures c * (d / det) + d * (-c / det) == 0.0 && c * (-b / det) + d * (a / det) == 1.0
  {
    var p, q, r, t := d / det, -b / det, -c / det, a / det;
    assert p * det == d && q * det == -b && r * det == -c && t * det == a;
    Scaled(a, b, p, r, det);
    Scaled(a, b, q, t, det);
    Scaled(c, d, p, r, det);
    Scaled(c, d, q, t, det);
    Divides(a * p + b * r, 1.0, det);
    Divides(a * q + b * t, 0.0, det);
    Divides(c * p + d * r, 0.0, det);
    Divides(c * q + d * t, 1.0, det);
  }

  // ---------- affine maps ----------

  /** x = a lam + b phi + x0, y = c lam + d phi + y0. */
  datatype Affine = Affine(a: real, b: real, c: real, d: real, x0: real, y0: real) {
    function Det(): real {
      a * d - b * c
    }

    function At(lp: LP): XY {
      XY(a * lp.lam + b * lp.phi + x0, c * lp.lam + d * lp.phi + y0)
    }

    /** The image of a displacement. */
    function Linear(u: LP): XY {
      XY(a * u.lam + b * u.phi, c * u.lam + d * u.phi)
    }

    function Inverse(): Jacobian
      requires Det() != 0.0
    {
      Jacobian(d / Det(), -b / Det(), -c / Det(), a / Det())
    }
  }

  ghost predicate IsAffine(p: Problem, m: Affine) {
    forall lp :: p.fwd(lp) == m.At(lp)
  }

  lemma DifferenceExact(m: Affine, lp: LP, hl: real, hp: real)
    requires (hl == STEP || hl == -STEP) && (hp == STEP || hp == -STEP)
    ensures Difference(m.At(LP(lp.lam + hl, lp.phi)), m.At(lp), hl) == XY(m.a, m.c)
    ensures Difference(m.At(LP(lp.lam, lp.phi + hp)), m.At(lp), hp) == XY(m.b, m.d)
  {
  }

  /** The numerical Jacobian of an affine map is its matrix, wherever it is taken. */
  lemma EstimateExact(p: Problem, m: Affine, lp: LP, old_: Jacobian)
    requires IsAffine(p, m) && m.Det() != 0.0
    ensures Estimated(p, lp, old_) == m.Inverse()
  {
    hide Inverted, Difference;
    DifferenceExact(m, lp, StepFor(lp.lam), StepFor(lp.phi));
    assert Estimated(p, lp, old_) == Inverted(XY(m.a, m.c), XY(m.b, m.d), old_);
    InvertedMatrix(m, old_);
  }

  lemma InvertedMatrix(m: Affine, old_: Jacobian)
    requires m.Det() != 0.0
    ensures Inverted(XY(m.a, m.c), XY(m.b, m.d), old_) == m.Inverse()
  {
  }

  function Minus(u: LP, v: LP): LP {
    LP(u.lam - v.lam, u.phi - v.phi)
  }

  lemma ResidualLinear(p: Problem, m: Affine, sol: LP, lp: LP)
    requires IsAffine(p, m) && p.fwd(sol) == p.target
    ensures Residual(p, lp) == m.Linear(Minus(lp, sol))
  {
  }

  /** The Newton correction of an affine map is the whole displacement. */
  lemma CorrectionExact(m: Affine, u: LP)
    requires m.Det() != 0.0
    ensures Correction(m.Linear(u), m.Inverse()) == u
  {
    Cramer(m.a, m.b, m.c, m.d, u.lam, u.phi, m.Det());
  }

  lemma Cramer(a: real, b: real, c: real, d: real, u: real, v: real, det: real)
    requires det == a * d - b * c && det != 0.0
    ensures (a * u + b * v) * (d / det) + (c * u + d * v) * (-b / det) == u
    ensures (a * u + b * v) * (-c / det) + (c * u + d * v) * (a / det) == v
  {
  }

  /** What is left of a displacement after n steps of limited length. */
  function Left(u: real, n: nat): real {
    if Abs(u) <= n as real * REACH then 0.0
    else if u > 0.0 then u - n as real * REACH else u + n as real * REACH
  }

  lemma LeftStep(u: real, n: nat)
    ensures Left(u, n + 1) == Left(u, n) - Clamp(Left(u, n), -REACH, REACH)
    ensures Abs(Left(u, n)) <= Abs(u) && (u >= 0.0 ==> Left(u, n) >= 0.0) && (u <= 0.0 ==> Left(u, n) <= 0.0)
  {
  }

  /** On an affine map each step takes 0.3 off the distance to the solution along each
      axis, until nothing is left. */
  lemma {:induction false} AffineTrace(p: Problem, m: Affine, sol: LP, guess: LP, n: nat)
    requires IsAffine(p, m) && m.Det() != 0.0 && p.pi > 0.0
    requires InDomain(p, sol) && InDomain(p, guess) && p.fwd(sol) == p.target
    ensures var u, it := Minus(guess, sol), After(p, guess, n);
            && it.lp == LP(sol.lam + Left(u.lam, n), sol.phi + Left(u.phi, n))
            && (n > 0 ==> it.inverse == m.Inverse())
  {
    hide Next, IsAffine;
    var u := Minus(guess, sol);
    if n > 0 {
      AffineTrace(p, m, sol, guess, n - 1);
      LeftStep(u.lam, n - 1);
      LeftStep(u.phi, n - 1);
      hide Left;
      AffineStep(p, m, sol, n - 1, After(p, guess, n - 1));
    }
  }

  /** One step on an affine map. */
  lemma AffineStep(p: Problem, m: Affine, sol: LP, i: nat, it: Iterate)
    requires IsAffine(p, m) && m.Det() != 0.0 && p.fwd(sol) == p.target
    requires i > 0 ==> it.inverse == m.Inverse()
    ensures Next(p, i, it) == Iterate(Moved(p, it.lp, Minus(it.lp, sol)), m.Inverse())
  {
    hide Residual, Estimated, Correction, Moved;
    ResidualLinear(p, m, sol, it.lp);
    EstimateExact(p, m, it.lp, it.inverse);
    CorrectionExact(m, Minus(it.lp, sol));
  }

  /** An invertible affine map is inverted within the budget from any guess that is at
      most 14 full steps away along each axis. */
  lemma AffineConverges(p: Problem, m: Affine, sol: LP, guess: LP)
    requires IsAffine(p, m) && m.Det() != 0.0 && p.pi > 0.0 && p.tolerance > 0.0
    requires InDomain(p, sol) && InDomain(p, guess) && p.fwd(sol) == p.target
    requires Abs(guess.lam - sol.lam) <= 14.0 * 0.3 && Abs(guess.phi - sol.phi) <= 14.0 * 0.3
    ensures After(p, guess, 14).lp == sol
    ensures exists n :: 0 <= n < BUDGET && Converged(p, After(p, guess, n).lp)
  {
    AffineTrace(p, m, sol, guess, 14);
    hide After;
    assert After(p, guess, 14).lp == sol;
    assert Converged(p, sol);
  }

  /** So the solver succeeds on it. */
  method SolveAffine(p: Problem, ghost m: Affine, ghost sol: LP, guess: LP) returns (lp: LP, errno: bool)
    requires IsAffine(p, m) && m.Det() != 0.0 && p.pi > 0.0 && p.tolerance > 0.0
    requires InDomain(p, sol) && InDomain(p, guess) && p.fwd(sol) == p.target
    requires Abs(guess.lam - sol.lam) <= 14.0 * REACH && Abs(guess.phi - sol.phi) <= 14.0 * REACH
    ensures !errno && Converged(p, lp)
  {
    AffineConverges(p, m, sol, guess);
    var n;
    lp, errno, n := Solve(p, guess);
  }
}
