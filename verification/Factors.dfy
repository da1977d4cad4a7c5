/** Scale factors and the Tissot ellipse (pj_factors in src/factors.cpp). */
module Factors {
  import opened Basics
  import opened RealMath
  import opened LongitudeWrap
  import opened Derivatives

  /** The parts of the mathematical library that pj_factors calls. */
  datatype Library = Library(
    pi: real, sqrt: real -> real, hypot: (real, real) -> real,
    sin: real -> real, cos: real -> real, atan2: (real, real) -> real)

  ghost predicate Lawful(m: Library) {
    && (forall x :: x >= 0.0 ==> m.sqrt(x) >= 0.0 && m.sqrt(x) * m.sqrt(x) == x)
    && (forall x, y :: m.hypot(x, y) >= 0.0 && m.hypot(x, y) * m.hypot(x, y) == x * x + y * y)
    && (forall x :: m.sin(x) * m.sin(x) + m.cos(x) * m.cos(x) == 1.0)
    && m.pi > 0.0
    && (forall x :: -m.pi / 2.0 < x < m.pi / 2.0 ==> m.cos(x) > 0.0)
  }

  /** struct FACTORS, with the arguments that aasin is given in place of its results; None
      is a quotient by zero. */
  datatype Scales = Scales(
    der: Derivs, h: real, k: real, conv: real, s: real, thetapArg: Option<real>,
    a: real, b: real, omegaArg: Option<real>)

  // ---------- what the scale factors are ----------

  /** 1 - es sin^2, which is 1 on the sphere. */
  function Squeeze(m: Library, es: real, phi: real): real {
    1.0 - es * (m.sin(phi) * m.sin(phi))
  }

  function Determinant(der: Derivs): real {
    der.y_p * der.x_l - der.x_p * der.y_l
  }

  /** The meridional, parallel and areal scales of a map with these derivatives, without
      roots and quotients. */
  ghost predicate AreScales(m: Library, es: real, phi: real, der: Derivs, h: real, k: real, s: real) {
    var t, one, c := Squeeze(m, es, phi), 1.0 - es, m.cos(phi);
    && h >= 0.0 && k >= 0.0
    && h * h * (one * one) == (der.x_p * der.x_p + der.y_p * der.y_p) * (t * t * t)
    && k * k * (c * c) == (der.x_l * der.x_l + der.y_l * der.y_l) * t
    && s * (one * c) == Determinant(der) * (t * t)
  }

  lemma Squares(x: real, y: real)
    ensures (x * y) * (x * y) == (x * x) * (y * y)
  {
  }

  lemma SquareNonNegative(x: real)
    ensures x * x >= 0.0
  {
  }

  /** The square of the determinant is at most the product of the squared columns. */
  lemma Lagrange(a: real, b: real, c: real, d: real)
    ensures (b * c - a * d) * (b * c - a * d) <= (a * a + b * b) * (c * c + d * d)
  {
    var ac, bd, bc, ad := a * c, b * d, b * c, a * d;
    SquareNonNegative(ac + bd);
    Squares(a, c);
    Squares(b, d);
    Squares(b, c);
    Squares(a, d);
    assert ac * bd == bc * ad;
    assert (ac + bd) * (ac + bd) == ac * ac + 2.0 * (ac * bd) + bd * bd;
    assert (bc - ad) * (bc - ad) == bc * bc - 2.0 * (bc * ad) + ad * ad;
    assert (a * a + b * b) * (c * c + d * d) == ac * ac + ad * ad + bc * bc + bd * bd;
  }

  /** The areal scale never exceeds the product of the two linear scales. */
  lemma ArealBound(m: Library, es: real, phi: real, der: Derivs, h: real, k: real, s: real)
    requires es < 1.0 && m.cos(phi) > 0.0
    ensures AreScales(m, es, phi, der, h, k, s) ==> s * s <= (h * k) * (h * k)
  {
    if !AreScales(m, es, phi, der, h, k, s) {
      return;
    }
    var t, one, c := Squeeze(m, es, phi), 1.0 - es, m.cos(phi);
    var A, B := der.x_p * der.x_p + der.y_p * der.y_p, der.x_l * der.x_l + der.y_l * der.y_l;
    var det, tt := Determinant(der), t * t;
    Lagrange(der.x_p, der.y_p, der.x_l, der.y_l);
    ScaledArea(s, one * c, det, tt);
    ScaledSides(h, k, one, c, A, B, t);
    SquareNonNegative(tt);
    ProductPositive(one, c);
    CancelSquare(s * s, (h * k) * (h * k), one * c, det * det, A * B, tt * tt);
  }

  lemma ScaledArea(s: real, d: real, det: real, tt: real)
    requires s * d == det * tt
    ensures (s * s) * (d * d) == (det * det) * (tt * tt)
  {
  }

  lemma ScaledSides(h: real, k: real, one: real, c: real, A: real, B: real, t: real)
    requires h * h * (one * one) == A * (t * t * t) && k * k * (c * c) == B * t
    ensures ((h * k) * (h * k)) * ((one * c) * (one * c)) == (A * B) * ((t * t) * (t * t))
  {
  }

  lemma CancelSquare(x: real, y: real, d: real, u: real, v: real, w: real)
    requires x * (d * d) == u * w && y * (d * d) == v * w
    requires u <= v && w >= 0.0 && d > 0.0
    ensures x <= y
  {
    MulMono(u, v, w);
    var g := x - y;
    assert g * d * d == x * (d * d) - y * (d * d);
    if g > 0.0 {
      ProductPositive(g, d);
      ProductPositive(g * d, d);
    }
  }

  // ---------- the ellipse ----------

  lemma SmallerSquare(s: real, p: real)
    requires s * s <= p * p && p >= 0.0
    ensures -p <= s <= p
  {
    assert (s - p) * (s + p) == s * s - p * p;
    assert (-s - p) * (p - s) == s * s - p * p;
    if s > p {
      ProductPositive(s - p, s + p);
    } else if s < -p {
      ProductPositive(-s - p, p - s);
    }
  }

  lemma TwiceProduct(h: real, k: real)
    ensures 2.0 * (h * k) <= k * k + h * h
  {
  }

  /** Half sum and half difference of two roots. */
  lemma HalfSums(p: real, q: real)
    ensures (0.5 * (p + q)) * (0.5 * (p - q)) == 0.25 * (p * p - q * q)
    ensures (0.5 * (p + q)) * (0.5 * (p + q)) + (0.5 * (p - q)) * (0.5 * (p - q)) == 0.5 * (p * p + q * q)
  {
  }

  lemma RootsOrdered(p: real, q: real)
    requires p >= 0.0 && q >= 0.0
    ensures p * p >= q * q <==> p >= q
  {
    assert (q - p) * (q + p) == q * q - p * p;
    if p >= q {
      MulMono(q - p, 0.0, q + p);
    } else {
      ProductPositive(q - p, q + p);
    }
  }

  lemma RootAt(m: Library, x: real)
    requires Lawful(m) && x >= 0.0
    ensures m.sqrt(x) >= 0.0 && m.sqrt(x) * m.sqrt(x) == x
  {
  }

  lemma HypotAt(m: Library, x: real, y: real)
    requires Lawful(m)
    ensures m.hypot(x, y) >= 0.0 && m.hypot(x, y) * m.hypot(x, y) == x * x + y * y
  {
  }

  lemma SqueezePositive(m: Library, es: real, phi: real)
    requires Lawful(m) && 0.0 <= es < 1.0
    ensures Squeeze(m, es, phi) > 0.0
  {
    var s, c := m.sin(phi), m.cos(phi);
    assert s * s + c * c == 1.0;
    SquareNonNegative(s);
    SquareNonNegative(c);
    MulMono(s * s, 1.0, es);
  }

  /** The assignments of pj_factors to h, k and s. */
  function MeridionalFactor(t: real, n: real, one_es: real): real
    requires one_es != 0.0
  {
    t * n / one_es
  }

  function ArealFactor(t: real, one_es: real): real
    requires one_es != 0.0
  {
    t * t / one_es
  }

  function Product(x: real, y: real): real {
    x * y
  }

  function Quotient(x: real, y: real): real
    requires y != 0.0
  {
    x / y
  }

  /** The scale factors h, k and s, step by step. */
  method LinearScales(m: Library, es: real, phi: real, der: Derivs) returns (h: real, k: real, s: real)
    requires Lawful(m) && 0.0 <= es < 1.0 && m.cos(phi) > 0.0
    ensures AreScales(m, es, phi, der, h, k, s)
  {
    hide *;
    var cosphi, one_es := m.cos(phi), 1.0 - es;
    h := m.hypot(der.x_p, der.y_p);
    k := Quotient(m.hypot(der.x_l, der.y_l), cosphi);
    ghost var h0, k0 := h, k;
    var t, r := 1.0, 1.0;
    ghost var n := 1.0;
    if es != 0.0 {
      t := m.sin(phi);
      t := 1.0 - Product(Product(es, t), t);
      var root := m.sqrt(t);
      h := Product(h, MeridionalFactor(t, root, one_es));
      k := Product(k, root);
      r := ArealFactor(t, one_es);
      n := root;
      EllipsoidRoot(m, es, phi);
    } else {
      SphereRoot(m, es, phi, h, k);
    }
    s := Quotient(Product(Determinant(der), r), cosphi);
    ScalesFromFactors(m, es, phi, der, t, n, h, k, r, s);
  }

  lemma EllipsoidRoot(m: Library, es: real, phi: real)
    requires Lawful(m) && 0.0 <= es < 1.0
    ensures var t := 1.0 - Product(Product(es, m.sin(phi)), m.sin(phi));
            t == Squeeze(m, es, phi) && IsRoot(m.sqrt(t), t)
  {
    SqueezePositive(m, es, phi);
    RootAt(m, Squeeze(m, es, phi));
    assert es * m.sin(phi) * m.sin(phi) == es * (m.sin(phi) * m.sin(phi));
  }

  /** On the sphere all factors are one. */
  lemma SphereRoot(m: Library, es: real, phi: real, h: real, k: real)
    requires es == 0.0
    ensures Squeeze(m, es, phi) == 1.0 && IsRoot(1.0, 1.0)
    ensures h == Product(h, MeridionalFactor(1.0, 1.0, 1.0 - es)) && k == Product(k, 1.0)
    ensures ArealFactor(1.0, 1.0 - es) == 1.0
  {
  }

  ghost predicate IsRoot(n: real, x: real) {
    n >= 0.0 && n * n == x
  }

  lemma ScalesFromFactors(m: Library, es: real, phi: real, der: Derivs,
                          t: real, n: real, h: real, k: real, r: real, s: real)
    requires Lawful(m) && 0.0 <= es < 1.0 && m.cos(phi) > 0.0
    requires t == Squeeze(m, es, phi) && IsRoot(n, t)
    requires h == Product(m.hypot(der.x_p, der.y_p), MeridionalFactor(t, n, 1.0 - es))
    requires k == Product(Quotient(m.hypot(der.x_l, der.y_l), m.cos(phi)), n)
    requires r == ArealFactor(t, 1.0 - es)
    requires s == Quotient(Product(Determinant(der), r), m.cos(phi))
    ensures AreScales(m, es, phi, der, h, k, s)
  {
    hide *;
    SqueezePositive(m, es, phi);
    HypotAt(m, der.x_p, der.y_p);
    HypotAt(m, der.x_l, der.y_l);
    var one, c := 1.0 - es, m.cos(phi);
    assert one > 0.0 && r == ArealFactor(t, one);
    MeridionalScale(m.hypot(der.x_p, der.y_p), h, der.x_p * der.x_p + der.y_p * der.y_p, t, n, one);
    ParallelScale(m.hypot(der.x_l, der.y_l), k, der.x_l * der.x_l + der.y_l * der.y_l, t, n, c);
    ArealScale(s, Determinant(der), r, t, one, c);
    Assembled(m, es, phi, der, h, k, s);
  }

  lemma Assembled(m: Library, es: real, phi: real, der: Derivs, h: real, k: real, s: real)
    requires var t, one, c := Squeeze(m, es, phi), 1.0 - es, m.cos(phi);
             && h >= 0.0 && k >= 0.0
             && h * h * (one * one) == (der.x_p * der.x_p + der.y_p * der.y_p) * (t * t * t)
             && k * k * (c * c) == (der.x_l * der.x_l + der.y_l * der.y_l) * t
             && s * (one * c) == Determinant(der) * (t * t)
    ensures AreScales(m, es, phi, der, h, k, s)
  {
  }

  lemma MeridionalScale(h0: real, h: real, A: real, t: real, n: real, one: real)
    requires h0 >= 0.0 && h0 * h0 == A && IsRoot(n, t) && t > 0.0 && one > 0.0
    requires h == Product(h0, MeridionalFactor(t, n, one))
    ensures h >= 0.0 && h * h * (one * one) == A * (t * t * t)
  {
  }

  lemma ParallelScale(k0: real, k: real, B: real, t: real, n: real, c: real)
    requires k0 >= 0.0 && k0 * k0 == B && IsRoot(n, t) && c > 0.0
    requires k == Product(Quotient(k0, c), n)
    ensures k >= 0.0 && k * k * (c * c) == B * t
  {
  }

  lemma ArealScale(s: real, det: real, r: real, t: real, one: real, c: real)
    requires one > 0.0 && c > 0.0 && r == ArealFactor(t, one) && s == Quotient(Product(det, r), c)
    ensures s * (one * c) == det * (t * t)
  {
  }

  /** The half axes of an ellipse with conjugate scales h and k and areal scale s. */
  ghost predicate AreAxes(a: real, b: real, h: real, k: real, s: real) {
    a * b == s && a * a + b * b == h * h + k * k && a >= Abs(b)
  }

  /** A quotient, or None where C divides by zero. */
  function Ratio(x: real, y: real): (r: Option<real>)
    ensures r.Some? <==> y != 0.0
    ensures r.Some? ==> r.value * y == x
  {
    if y != 0.0 then Some(x / y) else None
  }

  const FLAT := Derivs(0.0, 0.0, 0.0, 0.0)

  /** The promises about a full set of factors. The argument of the first aasin is a sine
      unless a linear scale is zero. That of the second is a number unless the map is a
      conformal reflection (or flat), and a number that is a sine exactly if the map is not
      flat and does not reverse orientation. */
  ghost predicate WellScaled(m: Library, es: real, phi: real, f: Scales) {
    && AreScales(m, es, phi, f.der, f.h, f.k, f.s)
    && f.conv == -m.atan2(f.der.x_p, f.der.y_p)
    && f.thetapArg == Ratio(f.s, Product(f.h, f.k))
    && (f.thetapArg.Some? ==> -1.0 <= f.thetapArg.value <= 1.0)
    && AreAxes(f.a, f.b, f.h, f.k, f.s)
    && f.omegaArg == Ratio(f.a - f.b, f.a + f.b)
    && (f.omegaArg.None? <==> f.h == f.k && f.s == -Product(f.h, f.k))
    && (f.omegaArg.Some? ==> 0.0 <= f.omegaArg.value)
    && (f.omegaArg.Some? && f.omegaArg.value <= 1.0 <==> Determinant(f.der) >= 0.0 && f.der != FLAT)
  }

  /** What pj_factors assigns from the scale factors on. */
  method FromDerivatives(m: Library, es: real, phi: real, der: Derivs) returns (f: Scales)
    requires Lawful(m) && 0.0 <= es < 1.0 && m.cos(phi) > 0.0
    ensures f.der == der && WellScaled(m, es, phi, f)
  {
    hide *;
    var h, k, s := LinearScales(m, es, phi, der);
    ArealWithin(m, es, phi, der, h, k, s);
    var conv := -m.atan2(der.x_p, der.y_p);
    var hk := Product(h, k);
    var thetapArg := Ratio(s, hk);
    var a, b := TissotAxes(m, h, k, s);
    var omegaArg := Ratio(a - b, a + b);
    RatioBounds(s, hk, a - b, a + b);
    SignOfArea(m, es, phi, der, h, k, s);
    ScalesVanish(m, es, phi, der, h, k, s);
    KeptOrientation(h, k, s, a + b);
    f := Scales(der, h, k, conv, s, thetapArg, a, b, omegaArg);
    IsWellScaled(m, es, phi, f);
  }

  lemma IsWellScaled(m: Library, es: real, phi: real, f: Scales)
    requires AreScales(m, es, phi, f.der, f.h, f.k, f.s)
    requires f.conv == -m.atan2(f.der.x_p, f.der.y_p)
    requires f.thetapArg == Ratio(f.s, Product(f.h, f.k))
    requires f.thetapArg.Some? ==> -1.0 <= f.thetapArg.value <= 1.0
    requires AreAxes(f.a, f.b, f.h, f.k, f.s)
    requires f.omegaArg == Ratio(f.a - f.b, f.a + f.b)
    requires f.omegaArg.None? <==> f.h == f.k && f.s == -Product(f.h, f.k)
    requires f.omegaArg.Some? ==> 0.0 <= f.omegaArg.value
    requires f.omegaArg.Some? && f.omegaArg.value <= 1.0 <==> Determinant(f.der) >= 0.0 && f.der != FLAT
    ensures WellScaled(m, es, phi, f)
  {
  }

  /** The squares of the linear scales, and the areal scale, up to positive factors. */
  lemma ScaleEquations(m: Library, es: real, phi: real, der: Derivs, h: real, k: real, s: real)
    returns (c1: real, d1: real, c2: real, d2: real, c3: real, d3: real)
    requires Lawful(m) && 0.0 <= es < 1.0 && m.cos(phi) > 0.0 && AreScales(m, es, phi, der, h, k, s)
    ensures c1 > 0.0 && d1 > 0.0 && h * h * c1 == (der.x_p * der.x_p + der.y_p * der.y_p) * d1
    ensures c2 > 0.0 && d2 > 0.0 && k * k * c2 == (der.x_l * der.x_l + der.y_l * der.y_l) * d2
    ensures c3 > 0.0 && d3 > 0.0 && s * c3 == Determinant(der) * d3
  {
    SqueezePositive(m, es, phi);
    hide Lawful, Squeeze, Determinant;
    var t, one, c := Squeeze(m, es, phi), 1.0 - es, m.cos(phi);
    d3 := PositiveProduct(t, t);
    d1 := PositiveProduct(d3, t);
    d2 := t;
    c1 := PositiveProduct(one, one);
    c2 := PositiveProduct(c, c);
    c3 := PositiveProduct(one, c);
  }

  lemma PositiveProduct(x: real, y: real) returns (z: real)
    requires x > 0.0 && y > 0.0
    ensures z == x * y && z > 0.0
  {
    z := x * y;
  }

  /** The areal scale has the sign of the determinant. */
  lemma SignOfArea(m: Library, es: real, phi: real, der: Derivs, h: real, k: real, s: real)
    requires Lawful(m) && 0.0 <= es < 1.0 && m.cos(phi) > 0.0
    ensures AreScales(m, es, phi, der, h, k, s) ==> (s >= 0.0 <==> Determinant(der) >= 0.0)
  {
    hide *;
    if AreScales(m, es, phi, der, h, k, s) {
      var c1, d1, c2, d2, c3, d3 := ScaleEquations(m, es, phi, der, h, k, s);
      SameSign(s, c3, Determinant(der), d3);
    }
  }

  lemma SameSign(x: real, c: real, y: real, d: real)
    requires c > 0.0 && d > 0.0 && x * c == y * d
    ensures x >= 0.0 <==> y >= 0.0
  {
  }

  /** Both linear scales vanish exactly if all derivatives do. */
  lemma ScalesVanish(m: Library, es: real, phi: real, der: Derivs, h: real, k: real, s: real)
    requires Lawful(m) && 0.0 <= es < 1.0 && m.cos(phi) > 0.0
    ensures AreScales(m, es, phi, der, h, k, s) ==> (h == 0.0 && k == 0.0 <==> der == FLAT)
  {
    hide Lawful, AreScales, Squeeze, Determinant;
    if AreScales(m, es, phi, der, h, k, s) {
      var c1, d1, c2, d2, c3, d3 := ScaleEquations(m, es, phi, der, h, k, s);
      LengthVanishes(h, c1, der.x_p, der.y_p, d1);
      LengthVanishes(k, c2, der.x_l, der.y_l, d2);
    }
  }

  lemma LengthVanishes(h: real, c: real, x: real, y: real, d: real)
    requires c > 0.0 && d > 0.0 && h * h * c == (x * x + y * y) * d
    ensures h == 0.0 <==> x == 0.0 && y == 0.0
  {
    var a := Squared(h);
    var b := Squared(x);
    var e := Squared(y);
    BothVanish(a, c, b + e, d);
  }

  lemma BothVanish(x: real, c: real, y: real, d: real)
    requires c > 0.0 && d > 0.0 && x * c == y * d
    ensures x == 0.0 <==> y == 0.0
  {
  }

  lemma Squared(x: real) returns (q: real)
    ensures q == x * x && q >= 0.0 && (q == 0.0 <==> x == 0.0)
  {
    if x > 0.0 {
      q := PositiveProduct(x, x);
    } else if x < 0.0 {
      q := PositiveProduct(-x, -x);
    } else {
      q := 0.0;
    }
  }

  /** Which maps leave a divisor and keep their orientation. */
  lemma KeptOrientation(h: real, k: real, s: real, p: real)
    requires h >= 0.0 && k >= 0.0 && -Product(h, k) <= s <= Product(h, k)
    requires p == 0.0 <==> h == k && s == -Product(h, k)
    ensures p != 0.0 && s >= 0.0 <==> s >= 0.0 && !(h == 0.0 && k == 0.0)
  {
  }

  /** For a map that doubles the meridians and reverses them the argument is three. */
  lemma ReversedExample(m: Library, phi: real, f: Scales)
    requires Lawful(m) && m.cos(phi) == 1.0 && WellScaled(m, 0.0, phi, f)
    requires f.der == Derivs(1.0, 0.0, 0.0, -2.0)
    ensures f.h == 2.0 && f.k == 1.0 && f.s == -2.0 && f.thetapArg == Some(-1.0) && f.omegaArg == Some(3.0)
  {
    ExampleScales(m, phi, f, 2.0);
    SumOfAxes(f.a, f.b, 1.0, 3.0);
  }

  /** The convergence: where the image of the meridian points east of grid north by an angle,
      it is minus that angle. */
  lemma Convergence(m: Library, es: real, phi: real, f: Scales, r: real, gamma: real)
    requires WellScaled(m, es, phi, f) && r > 0.0
    requires f.der.x_p == r * m.sin(gamma) && f.der.y_p == r * m.cos(gamma)
    requires forall q, g {:trigger m.atan2(q * m.sin(g), q * m.cos(g))} ::
               q > 0.0 && -m.pi < g <= m.pi ==> m.atan2(q * m.sin(g), q * m.cos(g)) == g
    ensures -m.pi < gamma <= m.pi ==> f.conv == -gamma
  {
    hide AreScales, AreAxes, Ratio;
    if -m.pi < gamma <= m.pi {
      assert m.atan2(r * m.sin(gamma), r * m.cos(gamma)) == gamma;
    }
  }

  /** For a conformal reflection it is a quotient by zero. */
  lemma ReflectionExample(m: Library, phi: real, f: Scales)
    requires Lawful(m) && m.cos(phi) == 1.0 && WellScaled(m, 0.0, phi, f)
    requires f.der == Derivs(1.0, 0.0, 0.0, -1.0)
    ensures f.h == 1.0 && f.k == 1.0 && f.s == -1.0 && f.omegaArg == None
  {
    ExampleScales(m, phi, f, 1.0);
  }

  /** Both as computed. */
  method OmegaExamples(m: Library, phi: real) returns (reversed: Option<real>, reflected: Option<real>)
    requires Lawful(m) && m.cos(phi) == 1.0
    ensures reversed == Some(3.0) && reflected == None
  {
    hide Lawful, WellScaled;
    var f := FromDerivatives(m, 0.0, phi, Derivs(1.0, 0.0, 0.0, -2.0));
    ReversedExample(m, phi, f);
    var g := FromDerivatives(m, 0.0, phi, Derivs(1.0, 0.0, 0.0, -1.0));
    ReflectionExample(m, phi, g);
    return f.omegaArg, g.omegaArg;
  }

  lemma ExampleScales(m: Library, phi: real, f: Scales, y: real)
    requires m.cos(phi) == 1.0 && WellScaled(m, 0.0, phi, f) && y > 0.0
    requires f.der == Derivs(1.0, 0.0, 0.0, -y)
    ensures f.h == y && f.k == 1.0 && f.s == -y && AreAxes(f.a, f.b, y, 1.0, -y)
  {
    hide AreAxes, Ratio;
    assert AreScales(m, 0.0, phi, f.der, f.h, f.k, f.s);
    PlainScales(m, phi, f.h, f.k, f.s, y);
  }

  lemma PlainScales(m: Library, phi: real, h: real, k: real, s: real, y: real)
    requires m.cos(phi) == 1.0 && y > 0.0 && AreScales(m, 0.0, phi, Derivs(1.0, 0.0, 0.0, -y), h, k, s)
    ensures h == y && k == 1.0 && s == -y
  {
    assert Squeeze(m, 0.0, phi) == 1.0;
    assert h * h == y * y && k * k == 1.0;
    SameRoot(h, y);
    SameRoot(k, 1.0);
  }

  lemma SameRoot(x: real, y: real)
    requires x >= 0.0 && y >= 0.0 && x * x == y * y
    ensures x == y
  {
    RootsOrdered(x, y);
    RootsOrdered(y, x);
  }

  lemma SumOfAxes(a: real, b: real, p: real, q: real)
    requires p >= 0.0 && q >= 0.0 && a >= Abs(b)
    requires a * a + b * b + 2.0 * (a * b) == p * p && a * a + b * b - 2.0 * (a * b) == q * q
    ensures a + b == p && a - b == q
  {
    assert (a + b) * (a + b) == p * p && (a - b) * (a - b) == q * q;
    SameRoot(a + b, p);
    SameRoot(a - b, q);
  }

  lemma ArealWithin(m: Library, es: real, phi: real, der: Derivs, h: real, k: real, s: real)
    requires es < 1.0 && m.cos(phi) > 0.0
    ensures AreScales(m, es, phi, der, h, k, s) ==>
              h >= 0.0 && k >= 0.0 && -Product(h, k) <= s <= Product(h, k) && Product(h, k) >= 0.0
  {
    ArealBound(m, es, phi, der, h, k, s);
    if AreScales(m, es, phi, der, h, k, s) {
      assert h >= 0.0 && k >= 0.0;
      hide AreScales;
      ProductNonNegative(h, k);
      SmallerSquare(s, h * k);
    }
  }

  lemma RatioBounds(s: real, hk: real, q: real, p: real)
    requires hk >= 0.0 && -hk <= s <= hk && p >= 0.0 && q >= 0.0
    ensures Ratio(s, hk).Some? ==> -1.0 <= Ratio(s, hk).value <= 1.0
    ensures Ratio(q, p).Some? ==> Ratio(q, p).value >= 0.0 && (Ratio(q, p).value <= 1.0 <==> q <= p)
  {
  }

  lemma ProductNonNegative(x: real, y: real)
    requires x >= 0.0 && y >= 0.0
    ensures x * y >= 0.0
  {
  }

  /** The axes of the ellipse; both radicands are non-negative. */
  method TissotAxes(m: Library, h: real, k: real, s: real) returns (a: real, b: real)
    requires Lawful(m) && -Product(h, k) <= s <= Product(h, k)
    ensures AreAxes(a, b, h, k, s)
    ensures a + b >= 0.0 && a - b >= 0.0
    ensures a - b <= a + b <==> s >= 0.0
    ensures a + b == 0.0 <==> h == k && s == -Product(h, k)
  {
    hide *;
    var t := Product(k, k) + Product(h, h);
    ghost var sum := t;
    Radicands(m, h, k, s);
    a := m.sqrt(t + 2.0 * s);
    ghost var p := a;
    t := t - 2.0 * s;
    t := if t > 0.0 then m.sqrt(t) else 0.0;
    ghost var q := t;
    b := 0.5 * (a - t);
    a := 0.5 * (a + t);
    AxesFromRoots(h, k, s, p, q);
    RootVanishes(h, k, s, p);
  }

  lemma RootVanishes(h: real, k: real, s: real, p: real)
    requires -Product(h, k) <= s && IsRoot(p, Product(k, k) + Product(h, h) + 2.0 * s)
    ensures p == 0.0 <==> h == k && s == -Product(h, k)
  {
    var d, e := h - k, s + h * k;
    assert p * p == d * d + 2.0 * e;
    var pp := Squared(p);
    var dd := Squared(d);
  }

  lemma Radicands(m: Library, h: real, k: real, s: real)
    requires Lawful(m) && -Product(h, k) <= s <= Product(h, k)
    ensures var t := Product(k, k) + Product(h, h);
            && t + 2.0 * s >= 0.0 && IsRoot(m.sqrt(t + 2.0 * s), t + 2.0 * s)
            && t - 2.0 * s >= 0.0 && IsRoot(if t - 2.0 * s > 0.0 then m.sqrt(t - 2.0 * s) else 0.0, t - 2.0 * s)
  {
    var t := Product(k, k) + Product(h, h);
    TwiceProduct(h, k);
    RootAt(m, t + 2.0 * s);
    RootAt(m, t - 2.0 * s);
  }

  lemma AxesFromRoots(h: real, k: real, s: real, p: real, q: real)
    requires IsRoot(p, Product(k, k) + Product(h, h) + 2.0 * s)
    requires IsRoot(q, Product(k, k) + Product(h, h) - 2.0 * s)
    ensures AreAxes(0.5 * (p + q), 0.5 * (p - q), h, k, s)
    ensures p >= 0.0 && q >= 0.0 && (q <= p <==> s >= 0.0)
  {
    HalfSums(p, q);
    RootsOrdered(p, q);
  }

  // ---------- the whole function ----------

  /** What is read of the PJ object; `es` is the squared eccentricity, `geographic` turns
      geocentric latitudes into geographic ones where the input has them. */
  datatype Projection = Projection(
    fwd: Option<Forward>, geographic: Option<LP -> LP>, lam0: real, over: bool,
    isPipeline: bool, ra: real, frMeter: real, es: real)

  const EPS := 0.000000000001
  const DEFAULT_H := 0.00001

  function StepSize(h: real): (r: real)
    ensures r > 0.0
    ensures if -0.000000000001 < h < 0.000000000001 then r == 0.00001 else r == h || r == -h
  {
    if Abs(h) < EPS then DEFAULT_H else Abs(h)
  }

  /** The point at which the derivatives are taken: pulled inside the poles by one step,
      and relative to the central meridian unless the steps of a pipeline see to that. */
  function Centre(m: Library, P: Projection, lp: LP, h: real): LP
    requires m.pi > 0.0
  {
    var z := if P.geographic.Some? then P.geographic.value(lp) else lp;
    var edge := m.pi / 2.0 - h;
    var phi := if Abs(z.phi) > edge then (if z.phi < 0.0 then -edge else edge) else z.phi;
    var lam := if P.isPipeline then z.lam
               else if P.over then z.lam - P.lam0 else AdjLon(m.pi, z.lam - P.lam0);
    LP(lam, phi)
  }

  /** The longitude of the point is the distance from the central meridian, up to whole turns,
      and exactly where over-range is allowed or it is within the half turns; in a pipeline it
      is the longitude itself. */
  lemma CentreLongitude(m: Library, P: Projection, lp: LP, h: real)
    requires m.pi > 0.0
    ensures var z := if P.geographic.Some? then P.geographic.value(lp) else lp;
            var c := Centre(m, P, lp, h);
            && (P.isPipeline ==> c.lam == z.lam)
            && (!P.isPipeline ==> Congruent(c.lam + P.lam0, z.lam, 2.0 * m.pi))
            && (!P.isPipeline && (P.over || Abs(z.lam - P.lam0) < m.pi + 0.000000000001) ==>
                  c.lam + P.lam0 == z.lam)
  {
    var z := if P.geographic.Some? then P.geographic.value(lp) else lp;
    var c := Centre(m, P, lp, h);
    if !P.isPipeline {
      CongruentRefl(z.lam - P.lam0, 2.0 * m.pi);
      CongruentRefl(P.lam0, 2.0 * m.pi);
      CongruentAdd(c.lam, z.lam - P.lam0, P.lam0, P.lam0, 2.0 * m.pi);
      assert z.lam - P.lam0 + P.lam0 == z.lam;
    }
  }

  /** So moving the point and the central meridian by the same amount changes nothing, and on
      the central meridian the longitude is zero. */
  lemma CentreShifts(m: Library, P: Projection, lp: LP, h: real, d: real)
    requires m.pi > 0.0 && P.geographic.None? && !P.isPipeline
    ensures Centre(m, P.(lam0 := P.lam0 + d), LP(lp.lam + d, lp.phi), h) == Centre(m, P, lp, h)
    ensures Centre(m, P, LP(P.lam0, lp.phi), h).lam == 0.0
  {
    assert lp.lam + d - (P.lam0 + d) == lp.lam - P.lam0;
    hide AdjLon;
  }

  /** Latitudes that leave room for the step are kept, others go to the nearer bound. */
  lemma CentreLatitude(m: Library, P: Projection, lp: LP, h: real)
    requires m.pi > 0.0 && h > 0.0
    ensures var z := if P.geographic.Some? then P.geographic.value(lp) else lp;
            var c, bound := Centre(m, P, lp, h), m.pi / 2.0 - h;
            && (Abs(z.phi) <= bound ==> c.phi == z.phi)
            && (h <= m.pi / 2.0 && z.phi > bound ==> c.phi == bound)
            && (h <= m.pi / 2.0 && z.phi < -bound ==> c.phi == -bound)
  {
    hide AdjLon;
  }

  function Rescaled(P: Projection, d: Derivs): Derivs {
    if P.isPipeline then
      var q := P.ra * P.frMeter;
      Derivs(d.x_l * q, d.x_p * q, d.y_l * q, d.y_p * q)
    else d
  }

  function Times(d: Derivs, k: real): Derivs {
    Derivs(d.x_l * k, d.x_p * k, d.y_l * k, d.y_p * k)
  }

  function Shifted(k: real, x: real, o: real): real {
    k * x + o
  }

  function ScaledPoint(q: Option<XY>, k: real, x0: real, y0: real): Option<XY> {
    if q.None? then None else Some(XY(Shifted(k, q.value.x, x0), Shifted(k, q.value.y, y0)))
  }

  /** The derivatives of a scaled map with any false origin are those of the map, scaled. */
  lemma CentralScales(fwd: Forward, unit: Forward, k: real, x0: real, y0: real, lp: LP, h: real, halfPi: real)
    requires h != 0.0 && Usable(unit, lp, h, halfPi)
    requires forall z :: fwd(z) == ScaledPoint(unit(z), k, x0, y0)
    ensures Usable(fwd, lp, h, halfPi)
    ensures Central(fwd, lp, h, halfPi) == Times(Central(unit, lp, h, halfPi), k)
  {
    var ne, se := unit(Corner(lp, h, true, true)).value, unit(Corner(lp, h, true, false)).value;
    var sw, nw := unit(Corner(lp, h, false, false)).value, unit(Corner(lp, h, false, true)).value;
    assert fwd(Corner(lp, h, true, true)) == ScaledPoint(Some(ne), k, x0, y0);
    assert fwd(Corner(lp, h, true, false)) == ScaledPoint(Some(se), k, x0, y0);
    assert fwd(Corner(lp, h, false, false)) == ScaledPoint(Some(sw), k, x0, y0);
    assert fwd(Corner(lp, h, false, true)) == ScaledPoint(Some(nw), k, x0, y0);
    assert Usable(fwd, lp, h, halfPi);
    CentralIs(unit, lp, h, halfPi);
    CentralIs(fwd, lp, h, halfPi);
    hide Central, Corner, Slopes, Usable;
    SlopesScale(ne, se, sw, nw, k, x0, y0, 4.0 * h);
  }

  /** Mean slopes over a square, from its corners. */
  function Slopes(ne: XY, se: XY, sw: XY, nw: XY, w: real): Derivs
    requires w != 0.0
  {
    Derivs(East(ne.x, se.x, sw.x, nw.x, w), North(ne.x, se.x, sw.x, nw.x, w),
           East(ne.y, se.y, sw.y, nw.y, w), North(ne.y, se.y, sw.y, nw.y, w))
  }

  function East(a: real, b: real, c: real, d: real, w: real): real
    requires w != 0.0
  {
    (a + b - c - d) / w
  }

  function North(a: real, b: real, c: real, d: real, w: real): real
    requires w != 0.0
  {
    (a - b - c + d) / w
  }

  lemma CentralIs(fwd: Forward, lp: LP, h: real, halfPi: real)
    requires h != 0.0 && Usable(fwd, lp, h, halfPi)
    ensures Central(fwd, lp, h, halfPi)
            == Slopes(fwd(Corner(lp, h, true, true)).value, fwd(Corner(lp, h, true, false)).value,
                      fwd(Corner(lp, h, false, false)).value, fwd(Corner(lp, h, false, true)).value, 4.0 * h)
  {
    hide Corner;
  }

  lemma SlopesScale(ne: XY, se: XY, sw: XY, nw: XY, k: real, x0: real, y0: real, w: real)
    requires w != 0.0
    ensures Slopes(ScaledPoint(Some(ne), k, x0, y0).value, ScaledPoint(Some(se), k, x0, y0).value,
                   ScaledPoint(Some(sw), k, x0, y0).value, ScaledPoint(Some(nw), k, x0, y0).value, w)
            == Times(Slopes(ne, se, sw, nw, w), k)
  {
    hide East, North, Shifted;
    MeanScales(ne.x, se.x, sw.x, nw.x, k, x0, w);
    MeanScales(ne.y, se.y, sw.y, nw.y, k, y0, w);
  }

  lemma MeanScales(a: real, b: real, c: real, d: real, k: real, o: real, w: real)
    requires w != 0.0
    ensures var (a', b', c', d') := (Shifted(k, a, o), Shifted(k, b, o), Shifted(k, c, o), Shifted(k, d, o));
            East(a', b', c', d', w) == East(a, b, c, d, w) * k && North(a', b', c', d', w) == North(a, b, c, d, w) * k
  {
    var (a', b', c', d') := (Shifted(k, a, o), Shifted(k, b, o), Shifted(k, c, o), Shifted(k, d, o));
    assert a' + b' - c' - d' == (a + b - c - d) * k;
    assert a' - b' - c' + d' == (a - b - c + d) * k;
    QuotientScales(a + b - c - d, k, w);
    QuotientScales(a - b - c + d, k, w);
  }

  lemma QuotientScales(x: real, k: real, w: real)
    requires w != 0.0
    ensures (x * k) / w == x / w * k
  {
  }

  /** The rescaling for pipelines gives back the derivatives of a unit map exactly if the map
      is that map times a / fr_meter, or flat. */
  lemma RescaledExactly(P: Projection, unit: Derivs, k: real, a: real)
    requires P.isPipeline && P.ra * a == 1.0 && P.frMeter != 0.0
    ensures Rescaled(P, Times(unit, k)) == unit <==> k * P.frMeter == a || unit == FLAT
  {
    var q := P.ra * P.frMeter;
    assert k * q == (k * P.frMeter) * P.ra;
    OneExactly(k * P.frMeter, P.ra, a);
    TimesTwice(unit.x_l, k, q);
    TimesTwice(unit.x_p, k, q);
    TimesTwice(unit.y_l, k, q);
    TimesTwice(unit.y_p, k, q);
  }

  /** fwd_finalize scales by a * fr_meter instead, which is undone exactly in metres. */
  lemma RescaledFinalized(P: Projection, unit: Derivs, a: real)
    requires P.isPipeline && P.ra * a == 1.0 && P.frMeter > 0.0
    ensures Rescaled(P, Times(unit, a * P.frMeter)) == unit <==> P.frMeter == 1.0 || unit == FLAT
  {
    var f := P.frMeter;
    RescaledExactly(P, unit, a * f, a);
    assert a != 0.0;
    assert a * f * f - a == a * (f * f - 1.0);
    NullProduct(a, f * f - 1.0);
    SquareOne(f);
    hide Rescaled, Times;
  }

  lemma SquareOne(f: real)
    requires f > 0.0
    ensures f * f == 1.0 <==> f == 1.0
  {
    if f * f == 1.0 {
      SameRoot(f, 1.0);
    }
  }

  lemma OneExactly(x: real, ra: real, a: real)
    requires ra * a == 1.0
    ensures x * ra == 1.0 <==> x == a
  {
    assert (x * ra) * a == x * (ra * a);
  }

  lemma TimesTwice(x: real, k: real, q: real)
    ensures x * k * q == x <==> k * q == 1.0 || x == 0.0
  {
    assert x * k * q - x == x * (k * q - 1.0);
    NullProduct(x, k * q - 1.0);
  }

  lemma NullProduct(x: real, y: real)
    ensures x * y == 0.0 <==> x == 0.0 || y == 0.0
  {
  }

  /** What the scales measure: a map that keeps all lengths on the ellipsoid, whose meridian
      and parallel derivatives are the radii of curvature, has scale one in every respect. */
  lemma TrueScale(m: Library, es: real, phi: real, der: Derivs, h: real, k: real, s: real, n: real)
    requires Lawful(m) && 0.0 <= es < 1.0 && m.cos(phi) > 0.0 && AreScales(m, es, phi, der, h, k, s)
    requires IsRoot(n, Squeeze(m, es, phi)) && der.x_p == 0.0 && der.y_l == 0.0
    requires der.x_l * n == m.cos(phi) && der.y_p * (Squeeze(m, es, phi) * n) == 1.0 - es
    ensures h == 1.0 && k == 1.0 && s == 1.0
  {
    hide *;
    TrueH(m, es, phi, der, h, k, s, n);
    TrueK(m, es, phi, der, h, k, s, n);
    TrueS(m, es, phi, der, h, k, s, n);
  }

  lemma TrueH(m: Library, es: real, phi: real, der: Derivs, h: real, k: real, s: real, n: real)
    requires es < 1.0 && AreScales(m, es, phi, der, h, k, s) && IsRoot(n, Squeeze(m, es, phi))
    requires der.x_p == 0.0 && der.y_p * (Squeeze(m, es, phi) * n) == 1.0 - es
    ensures h == 1.0
  {
    hide Squeeze, Determinant;
    TrueMeridian(h, 1.0 - es, der.x_p, der.y_p, Squeeze(m, es, phi), n);
  }

  lemma TrueK(m: Library, es: real, phi: real, der: Derivs, h: real, k: real, s: real, n: real)
    requires m.cos(phi) > 0.0 && AreScales(m, es, phi, der, h, k, s) && IsRoot(n, Squeeze(m, es, phi))
    requires der.y_l == 0.0 && der.x_l * n == m.cos(phi)
    ensures k == 1.0
  {
    hide Squeeze, Determinant;
    TrueParallel(k, m.cos(phi), der.x_l, der.y_l, Squeeze(m, es, phi), n);
  }

  lemma TrueS(m: Library, es: real, phi: real, der: Derivs, h: real, k: real, s: real, n: real)
    requires es < 1.0 && m.cos(phi) > 0.0 && AreScales(m, es, phi, der, h, k, s) && IsRoot(n, Squeeze(m, es, phi))
    requires der.x_p == 0.0 && der.y_l == 0.0
    requires der.x_l * n == m.cos(phi) && der.y_p * (Squeeze(m, es, phi) * n) == 1.0 - es
    ensures s == 1.0
  {
    hide Squeeze;
    AreaOne(s, 1.0 - es, m.cos(phi), der.y_p, der.x_l, Squeeze(m, es, phi), n);
  }

  lemma TrueMeridian(h: real, one: real, x: real, y: real, t: real, n: real)
    requires h >= 0.0 && one > 0.0 && n * n == t && x == 0.0 && y * (t * n) == one
    requires h * h * (one * one) == (x * x + y * y) * (t * t * t)
    ensures h == 1.0
  {
    RadiusSquared(t, n);
    TrueLength(h, one, x, y, t * n, h * h, one * one, x * x + y * y, t * t * t);
  }

  lemma TrueParallel(k: real, c: real, x: real, y: real, t: real, n: real)
    requires k >= 0.0 && c > 0.0 && n * n == t && y == 0.0 && x * n == c
    requires k * k * (c * c) == (x * x + y * y) * t
    ensures k == 1.0
  {
    TrueLength(k, c, y, x, n, k * k, c * c, x * x + y * y, t);
  }

  lemma RadiusSquared(t: real, n: real)
    requires n * n == t
    ensures (t * n) * (t * n) == t * t * t
  {
  }

  lemma TrueLength(h: real, one: real, x: real, y: real, r: real, hh: real, oo: real, ss: real, rr: real)
    requires h >= 0.0 && one > 0.0 && x == 0.0 && y * r == one
    requires hh == h * h && oo == one * one && ss == x * x + y * y && rr == r * r && hh * oo == ss * rr
    ensures h == 1.0
  {
    Squares(y, r);
    var yy := Squared(y);
    assert ss == yy;
    assert yy * rr == oo;
    var o2 := PositiveProduct(one, one);
    BothEqual(hh, 1.0, oo);
    SameRoot(h, 1.0);
  }

  lemma BothEqual(x: real, y: real, d: real)
    requires d > 0.0 && x * d == y * d
    ensures x == y
  {
  }

  lemma AreaOne(s: real, one: real, c: real, y: real, x: real, t: real, n: real)
    requires one > 0.0 && c > 0.0 && x * n == c && y * (t * n) == one && n * n == t
    requires s * (one * c) == y * x * (t * t)
    ensures s == 1.0
  {
    assert y * x * (t * t) == (y * (t * n)) * (x * n);
    var oc := PositiveProduct(one, c);
    BothEqual(s, 1.0, oc);
  }

  lemma PiPositive(m: Library)
    requires Lawful(m)
    ensures m.pi > 0.0
  {
  }

  /** pj_factors; None when it returns 1. With a step of at most a quarter turn the square
      that the derivatives use fits between the poles, so a valid input fails only where
      the map has no value. */
  method PjFactors(m: Library, P: Projection, lp0: LP, h0: real) returns (r: Option<Scales>)
    requires Lawful(m) && 0.0 <= P.es < 1.0
    ensures var h := StepSize(h0);
            var z := Centre(m, P, lp0, h);
            && (r.Some? <==>
                  && Abs(lp0.phi) - m.pi / 2.0 <= 0.000000000001 && Abs(lp0.lam) <= 10.0
                  && P.fwd.Some? && Usable(P.fwd.value, z, h, m.pi / 2.0))
            && (r.Some? ==>
                  && r.value.der == Rescaled(P, Central(P.fwd.value, z, h, m.pi / 2.0))
                  && WellScaled(m, P.es, z.phi, r.value))
  {
    hide Lawful, Centre, Usable, Central, WellScaled, Rescaled;
    assert m.pi > 0.0 by {
      PiPositive(m);
    }
    CentreInside(m, P, lp0, StepSize(h0));
    var halfPi := m.pi / 2.0;
    if Abs(lp0.phi) - halfPi > EPS {
      return None;
    }
    if Abs(lp0.lam) > 10.0 {
      return None;
    }
    var h := Abs(h0);
    if h < EPS {
      h := DEFAULT_H;
    }
    var lp := Locate(m, P, lp0, h);
    var d := PjDeriv(P.fwd, lp, h, halfPi);
    if d.Refused? {
      return None;
    }
    BetweenPoles(P.fwd.value, lp, h, halfPi);
    var der := RescaledInPlace(P, d.der);
    var f := FromDerivatives(m, P.es, lp.phi, der);
    r := Some(f);
  }

  /** The part of pj_factors that moves to the point of the derivatives. */
  method Locate(m: Library, P: Projection, lp0: LP, h: real) returns (lp: LP)
    requires Lawful(m) && h > 0.0
    ensures lp == Centre(m, P, lp0, h)
    ensures h <= m.pi / 2.0 ==> m.cos(lp.phi) > 0.0
  {
    var halfPi := m.pi / 2.0;
    lp := lp0;
    if P.geographic.Some? {
      lp := P.geographic.value(lp);
    }
    if Abs(lp.phi) > halfPi - h {
      lp := LP(lp.lam, if lp.phi < 0.0 then -(halfPi - h) else halfPi - h);
    }
    if h <= m.pi / 2.0 {
      assert -m.pi / 2.0 < lp.phi < m.pi / 2.0;
      assert m.cos(lp.phi) > 0.0;
    }
    hide Lawful, AdjLon;
    if !P.isPipeline {
      lp := LP(lp.lam - P.lam0, lp.phi);
      if !P.over {
        lp := LP(AdjLon(m.pi, lp.lam), lp.phi);
      }
    }
  }

  /** The square around the centre fits between the poles exactly if the step is at most a
      quarter turn. */
  lemma CentreInside(m: Library, P: Projection, lp: LP, h: real)
    requires m.pi > 0.0 && h > 0.0
    ensures var z := Centre(m, P, lp, h);
            Abs(z.phi + h) <= m.pi / 2.0 && Abs(z.phi - h) <= m.pi / 2.0 <==> h <= m.pi / 2.0
  {
  }

  lemma BetweenPoles(fwd: Forward, lp: LP, h: real, halfPi: real)
    requires Usable(fwd, lp, h, halfPi)
    ensures Abs(lp.phi + h) <= halfPi && Abs(lp.phi - h) <= halfPi
  {
  }

  /** Undoes the scaling that the first step of a pipeline applied. */
  method RescaledInPlace(P: Projection, d: Derivs) returns (der: Derivs)
    ensures der == Rescaled(P, d)
  {
    der := d;
    if P.isPipeline {
      der := der.(x_l := der.x_l * (P.ra * P.frMeter));
      der := der.(x_p := der.x_p * (P.ra * P.frMeter));
      der := der.(y_l := der.y_l * (P.ra * P.frMeter));
      der := der.(y_p := der.y_p * (P.ra * P.frMeter));
    }
  }
}
