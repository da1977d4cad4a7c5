/** Numerical partial derivatives of a forward projection (src/deriv.cpp). */
module Derivatives {
  import opened Basics
  import opened RealMath

  /** A forward projection; None is a point where it yields HUGE_VAL. */
  type Forward = LP -> Option<XY>

  /** Derivatives of x and y along lambda and phi. */
  datatype Derivs = Derivs(x_l: real, x_p: real, y_l: real, y_p: real)

  /** The four corners of the square of half-width `h` around a point. */
  function Corner(lp: LP, h: real, east: bool, north: bool): LP {
    LP(if east then lp.lam + h else lp.lam - h, if north then lp.phi + h else lp.phi - h)
  }

  /** The square fits between the poles and has an image at every corner. */
  predicate Usable(fwd: Forward, lp: LP, h: real, halfPi: real) {
    && Abs(lp.phi + h) <= halfPi && Abs(lp.phi - h) <= halfPi
    && fwd(Corner(lp, h, true, true)).Some? && fwd(Corner(lp, h, true, false)).Some?
    && fwd(Corner(lp, h, false, false)).Some? && fwd(Corner(lp, h, false, true)).Some?
  }

  /** Means of the central differences along opposite sides of the square. */
  function Central(fwd: Forward, lp: LP, h: real, halfPi: real): Derivs
    requires Usable(fwd, lp, h, halfPi) && h != 0.0
  {
    var ne, se := fwd(Corner(lp, h, true, true)).value, fwd(Corner(lp, h, true, false)).value;
    var sw, nw := fwd(Corner(lp, h, false, false)).value, fwd(Corner(lp, h, false, true)).value;
    Derivs((ne.x + se.x - sw.x - nw.x) / (4.0 * h), (ne.x - se.x - sw.x + nw.x) / (4.0 * h),
           (ne.y + se.y - sw.y - nw.y) / (4.0 * h), (ne.y - se.y - sw.y + nw.y) / (4.0 * h))
  }

  /** Refused stands for the return value 1, NotANumber for four quotients of zero by zero. */
  datatype Outcome = Refused | NotANumber | Found(der: Derivs)

  /** pj_deriv. Without a step all differences are zero, and so is their divisor. */
  method PjDeriv(fwd: Option<Forward>, lp0: LP, h0: real, halfPi: real) returns (r: Outcome)
    ensures r.Refused? <==> fwd.None? || !Usable(fwd.value, lp0, h0, halfPi)
    ensures !r.Refused? ==>
              r == if h0 == 0.0 then NotANumber else Found(Central(fwd.value, lp0, h0, halfPi))
  {
    if fwd.None? {
      return Refused;
    }
    var lp, h := lp0, h0;
    lp := LP(lp.lam + h, lp.phi + h);
    if Abs(lp.phi) > halfPi {
      return Refused;
    }
    h := h + h;
    assert lp == Corner(lp0, h0, true, true);
    var t := fwd.value(lp);
    if t.None? {
      return Refused;
    }
    var x_l, y_p, x_p, y_l := t.value.x, t.value.y, t.value.x, t.value.y;

    lp := LP(lp.lam, lp.phi - h);
    if Abs(lp.phi) > halfPi {
      return Refused;
    }
    assert lp == Corner(lp0, h0, true, false);
    t := fwd.value(lp);
    if t.None? {
      return Refused;
    }
    x_l, y_p, x_p, y_l := x_l + t.value.x, y_p - t.value.y, x_p - t.value.x, y_l + t.value.y;

    lp := LP(lp.lam - h, lp.phi);
    assert lp == Corner(lp0, h0, false, false);
    t := fwd.value(lp);
    if t.None? {
      return Refused;
    }
    x_l, y_p, x_p, y_l := x_l - t.value.x, y_p - t.value.y, x_p - t.value.x, y_l - t.value.y;

    lp := LP(lp.lam, lp.phi + h);
    assert lp == Corner(lp0, h0, false, true);
    t := fwd.value(lp);
    if t.None? {
      return Refused;
    }
    x_l, y_p, x_p, y_l := x_l - t.value.x, y_p + t.value.y, x_p + t.value.x, y_l - t.value.y;

    h := h + h;
    assert h == 4.0 * h0;
    if h == 0.0 {
      assert x_l == x_p == y_l == y_p == 0.0;
      return NotANumber;
    }
    r := Found(Derivs(x_l / h, x_p / h, y_l / h, y_p / h));
  }

  // ---------- quadratic maps ----------

  /** c + l lam + p phi + ll lam^2 + lp lam phi + pp phi^2. */
  datatype Quadratic = Quadratic(c: real, l: real, p: real, ll: real, lp: real, pp: real) {
    function At(z: LP): real {
      c + l * z.lam + p * z.phi + ll * (z.lam * z.lam) + lp * (z.lam * z.phi) + pp * (z.phi * z.phi)
    }

    function AlongLam(z: LP): real {
      l + 2.0 * (ll * z.lam) + lp * z.phi
    }

    function AlongPhi(z: LP): real {
      p + lp * z.lam + 2.0 * (pp * z.phi)
    }
  }

  ghost predicate IsQuadratic(fwd: Forward, qx: Quadratic, qy: Quadratic) {
    forall z :: fwd(z) == Some(XY(qx.At(z), qy.At(z)))
  }

  /** The east corners less the west corners: the derivative along lambda, times 4 h. */
  lemma EastWest(q: Quadratic, z: LP, h: real)
    ensures q.At(Corner(z, h, true, true)) + q.At(Corner(z, h, true, false))
            - q.At(Corner(z, h, false, false)) - q.At(Corner(z, h, false, true)) == q.AlongLam(z) * (4.0 * h)
  {
  }

  /** The north corners less the south corners: the derivative along phi, times 4 h. */
  lemma NorthSouth(q: Quadratic, z: LP, h: real)
    ensures q.At(Corner(z, h, true, true)) - q.At(Corner(z, h, true, false))
            - q.At(Corner(z, h, false, false)) + q.At(Corner(z, h, false, true)) == q.AlongPhi(z) * (4.0 * h)
  {
  }

  /** The central differences of a quadratic map are its partial derivatives. */
  lemma QuadraticExact(fwd: Forward, qx: Quadratic, qy: Quadratic, lp: LP, h: real, halfPi: real)
    requires IsQuadratic(fwd, qx, qy) && h != 0.0
    requires Abs(lp.phi + h) <= halfPi && Abs(lp.phi - h) <= halfPi
    ensures Usable(fwd, lp, h, halfPi)
    ensures Central(fwd, lp, h, halfPi)
            == Derivs(qx.AlongLam(lp), qx.AlongPhi(lp), qy.AlongLam(lp), qy.AlongPhi(lp))
  {
    hide *;
    EastWest(qx, lp, h);
    NorthSouth(qx, lp, h);
    EastWest(qy, lp, h);
    NorthSouth(qy, lp, h);
    QuadraticUsable(fwd, qx, qy, lp, h, halfPi);
    QuadraticCentral(fwd, qx, qy, lp, h, halfPi);
    var ne, se := Corner(lp, h, true, true), Corner(lp, h, true, false);
    var sw, nw := Corner(lp, h, false, false), Corner(lp, h, false, true);
    Divided(qx.At(ne) + qx.At(se) - qx.At(sw) - qx.At(nw), qx.AlongLam(lp), 4.0 * h);
    Divided(qx.At(ne) - qx.At(se) - qx.At(sw) + qx.At(nw), qx.AlongPhi(lp), 4.0 * h);
    Divided(qy.At(ne) + qy.At(se) - qy.At(sw) - qy.At(nw), qy.AlongLam(lp), 4.0 * h);
    Divided(qy.At(ne) - qy.At(se) - qy.At(sw) + qy.At(nw), qy.AlongPhi(lp), 4.0 * h);
  }

  lemma QuadraticUsable(fwd: Forward, qx: Quadratic, qy: Quadratic, lp: LP, h: real, halfPi: real)
    requires IsQuadratic(fwd, qx, qy)
    requires Abs(lp.phi + h) <= halfPi && Abs(lp.phi - h) <= halfPi
    ensures Usable(fwd, lp, h, halfPi)
  {
  }

  lemma QuadraticCentral(fwd: Forward, qx: Quadratic, qy: Quadratic, lp: LP, h: real, halfPi: real)
    requires IsQuadratic(fwd, qx, qy) && h != 0.0 && Usable(fwd, lp, h, halfPi)
    ensures var (ne, se, sw, nw) := (Corner(lp, h, true, true), Corner(lp, h, true, false),
                                     Corner(lp, h, false, false), Corner(lp, h, false, true));
            Central(fwd, lp, h, halfPi)
            == Derivs((qx.At(ne) + qx.At(se) - qx.At(sw) - qx.At(nw)) / (4.0 * h),
                      (qx.At(ne) - qx.At(se) - qx.At(sw) + qx.At(nw)) / (4.0 * h),
                      (qy.At(ne) + qy.At(se) - qy.At(sw) - qy.At(nw)) / (4.0 * h),
                      (qy.At(ne) - qy.At(se) - qy.At(sw) + qy.At(nw)) / (4.0 * h))
  {
  }

  lemma Divided(n: real, d: real, w: real)
    requires w != 0.0 && n == d * w
    ensures n / w == d
  {
  }
}
