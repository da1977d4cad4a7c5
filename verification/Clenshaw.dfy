/** Clenshaw summation of trigonometric series (SinCosSeries in src/geodesic.c) and the
    series that it sums. */
module Clenshaw {

  /** Sine and cosine of 2 * i * x, by repeated angle addition. */
  function Multiple(i: nat, s: real, c: real): (r: (real, real)) {
    if i == 0 then (0.0, 1.0)
    else
      var m := Multiple(i - 1, s, c);
      Rotate(m.0, m.1, 2.0 * s * c, c * c - s * s)
  }

  /** Sine and cosine of the sum of two angles. */
  function Rotate(s1: real, c1: real, s2: real, c2: real): (real, real) {
    (s1 * c2 + c1 * s2, c1 * c2 - s1 * s2)
  }

  /** The j-th basis function: sin(2 * (j + 1) * x) for the sine series, and
      cos((2 * j + 1) * x) for the cosine series; -1 is the one before the first. */
  function Term(sinp: bool, j: int, s: real, c: real): real
    requires j >= -1
  {
    if sinp then Multiple(j + 1, s, c).0
    else if j == -1 then c
    else Rotate(Multiple(j, s, c).0, Multiple(j, s, c).1, s, c).1
  }

  /** Where the coefficient of the j-th basis function is stored: the sine series does
      not use element 0. */
  function Slot(sinp: bool, j: nat): nat {
    if sinp then j + 1 else j
  }

  /** The sum of the basis functions m, ..., n - 1, each times its coefficient. */
  function Series(sinp: bool, coeff: seq<real>, m: nat, n: nat, s: real, c: real): real
    requires m <= n && Slot(sinp, n) <= |coeff|
    decreases n - m
  {
    if m == n then 0.0
    else coeff[Slot(sinp, m)] * Term(sinp, m, s, c) + Series(sinp, coeff, m + 1, n, s, c)
  }

  // ---------- the three-term recurrence ----------

  predicate Unit(s: real, c: real) {
    s * s + c * c == 1.0
  }

  lemma ThreeTerm(p: real, q: real, s: real, c: real)
    requires Unit(s, c)
    ensures var (p1, q1) := Rotate(p, q, s, c);
            var (p2, q2) := Rotate(p1, q1, s, c);
            p2 + p == 2.0 * c * p1 && q2 + q == 2.0 * c * q1
  {
  }

  lemma DoubleAngleUnit(s: real, c: real)
    requires Unit(s, c)
    ensures Unit(2.0 * s * c, c * c - s * s)
  {
  }

  /** Twice the cosine of 2 * x, the multiplier of the recurrence. */
  function Multiplier(s: real, c: real): (ar: real)
    ensures ar == 2.0 * (c * c - s * s)
  {
    assert (c - s) * (c + s) == c * c - s * s;
    2.0 * (c - s) * (c + s)
  }

  lemma TermRecurrence(sinp: bool, j: nat, s: real, c: real)
    requires Unit(s, c)
    ensures Term(sinp, j + 1, s, c) == Multiplier(s, c) * Term(sinp, j, s, c) - Term(sinp, j - 1, s, c)
  {
    if sinp {
      SineRecurrence(j, s, c);
    } else if j == 0 {
      FirstCosines(s, c);
    } else {
      CosineRecurrence(j, s, c);
    }
  }

  lemma MultipleStep(i: nat, s: real, c: real)
    ensures Multiple(i + 1, s, c)
            == Rotate(Multiple(i, s, c).0, Multiple(i, s, c).1, 2.0 * s * c, c * c - s * s)
  {
  }

  /** Sines and cosines of successive multiples of 2 x. */
  lemma MultipleRecurrence(i: nat, s: real, c: real)
    requires Unit(s, c)
    ensures var (m0, m1, m2) := (Multiple(i, s, c), Multiple(i + 1, s, c), Multiple(i + 2, s, c));
            && m2.0 + m0.0 == Multiplier(s, c) * m1.0
            && m2.1 + m0.1 == Multiplier(s, c) * m1.1
  {
    hide Multiple, Rotate, Multiplier;
    MultipleStep(i, s, c);
    MultipleStep(i + 1, s, c);
    DoubleAngleUnit(s, c);
    hide Unit;
    ThreeTerm(Multiple(i, s, c).0, Multiple(i, s, c).1, 2.0 * s * c, c * c - s * s);
  }

  lemma SineRecurrence(j: nat, s: real, c: real)
    requires Unit(s, c)
    ensures Term(true, j + 1, s, c) == Multiplier(s, c) * Term(true, j, s, c) - Term(true, j - 1, s, c)
  {
    hide Multiple, Multiplier, Unit;
    MultipleRecurrence(j, s, c);
  }

  lemma CosineRecurrence(j: nat, s: real, c: real)
    requires Unit(s, c) && j > 0
    ensures Term(false, j + 1, s, c) == Multiplier(s, c) * Term(false, j, s, c) - Term(false, j - 1, s, c)
  {
    hide Multiple, Multiplier, Unit;
    MultipleRecurrence(j - 1, s, c);
    var m0, m1, m2 := Multiple(j - 1, s, c), Multiple(j, s, c), Multiple(j + 1, s, c);
    ShiftedRecurrence(m0.0, m0.1, m1.0, m1.1, m2.0, m2.1, Multiplier(s, c), s, c);
    var t0, t1, t2 := Term(false, j - 1, s, c), Term(false, j, s, c), Term(false, j + 1, s, c);
    assert t0 == m0.1 * c - m0.0 * s && t1 == m1.1 * c - m1.0 * s && t2 == m2.1 * c - m2.0 * s;
  }

  lemma ShiftedRecurrence(p: real, q: real, p1: real, q1: real, p2: real, q2: real,
                          ar: real, s: real, c: real)
    requires p2 + p == ar * p1 && q2 + q == ar * q1
    ensures q2 * c - p2 * s == ar * (q1 * c - p1 * s) - (q * c - p * s)
  {
  }

  /** cos(3 x) + cos(-x) is twice cos(2 x) times cos(x). */
  lemma FirstCosines(s: real, c: real)
    requires Unit(s, c)
    ensures Term(false, 1, s, c) == Multiplier(s, c) * Term(false, 0, s, c) - Term(false, -1, s, c)
  {
  }

  /** What the two accumulators stand for when the coefficients below m are not read yet. */
  function Held(sinp: bool, m: nat, s: real, c: real, y0: real, y1: real): real {
    y0 * Term(sinp, m, s, c) - y1 * Term(sinp, m - 1, s, c)
  }

  /** One Clenshaw step: reading the coefficient below keeps the sum. */
  lemma ClenshawStep(sinp: bool, coeff: seq<real>, m: nat, n: nat, s: real, c: real,
                     ar: real, y0: real, y1: real, next: real)
    requires Unit(s, c) && 0 < m <= n && Slot(sinp, n) <= |coeff|
    requires ar == Multiplier(s, c)
    requires Series(sinp, coeff, m, n, s, c) == Held(sinp, m, s, c, y0, y1)
    requires next == ar * y0 - y1 + coeff[Slot(sinp, m - 1)]
    ensures Series(sinp, coeff, m - 1, n, s, c) == Held(sinp, m - 1, s, c, next, y0)
  {
    hide Term, Multiplier, Unit;
    TermRecurrence(sinp, m - 1, s, c);
    RegroupStep(ar, y0, y1, coeff[Slot(sinp, m - 1)],
                Term(sinp, m, s, c), Term(sinp, m - 1, s, c), Term(sinp, m - 2, s, c));
    hide Series;
    SeriesHead(sinp, coeff, m - 1, n, s, c);
  }

  lemma SeriesHead(sinp: bool, coeff: seq<real>, m: nat, n: nat, s: real, c: real)
    requires m < n && Slot(sinp, n) <= |coeff|
    ensures Series(sinp, coeff, m, n, s, c)
            == coeff[Slot(sinp, m)] * Term(sinp, m, s, c) + Series(sinp, coeff, m + 1, n, s, c)
  {
  }

  lemma RegroupStep(ar: real, y0: real, y1: real, k: real, t: real, t1: real, t2: real)
    requires t == ar * t1 - t2
    ensures k * t1 + (y0 * t - y1 * t1) == (ar * y0 - y1 + k) * t1 - y0 * t2
  {
  }

  /** The summation loop, unrolled by two, with `p` the position one beyond the next
      coefficient to read. */
  method SinCosSeries(sinp: bool, sinx: real, cosx: real, coeff: array<real>, n: nat)
    returns (y: real)
    requires Slot(sinp, n) <= coeff.Length
    ensures Unit(sinx, cosx) ==> y == Series(sinp, coeff[..], 0, n, sinx, cosx)
  {
    hide Term, Multiplier, Unit, Series, Held;
    ghost var cs := coeff[..];
    ghost var m := n;  // coefficients not read yet
    var p := n + (if sinp then 1 else 0);
    var ar := 2.0 * (cosx - sinx) * (cosx + sinx);
    assert ar == Multiplier(sinx, cosx) by {
      MultiplierAsWritten(sinx, cosx);
    }
    SeriesEmpty(sinp, cs, n, sinx, cosx);
    var y0, y1 := 0.0, 0.0;
    if n % 2 == 1 {
      p := p - 1;
      y0 := coeff[p];
      m := n - 1;
      SeriesLast(sinp, cs, n, sinx, cosx);
    }
    var k := n / 2;
    while k != 0
      invariant 0 <= k && m == 2 * k && m <= n && p == Slot(sinp, m)
      invariant Unit(sinx, cosx) ==>
                  Series(sinp, cs, m, n, sinx, cosx) == Held(sinp, m, sinx, cosx, y0, y1)
    {
      k := k - 1;
      ghost var z0, z1 := y0, y1;
      p := p - 1;
      y1 := ar * y0 - y1 + coeff[p];
      if Unit(sinx, cosx) {
        ClenshawStep(sinp, cs, m, n, sinx, cosx, ar, z0, z1, y1);
      }
      p := p - 1;
      y0 := ar * y1 - y0 + coeff[p];
      if Unit(sinx, cosx) {
        ClenshawStep(sinp, cs, m - 1, n, sinx, cosx, ar, y1, z0, y0);
      }
      m := m - 2;
    }
    y := if sinp then 2.0 * sinx * cosx * y0 else cosx * (y0 - y1);
    FirstTerms(sinp, sinx, cosx, y0, y1);
  }

  lemma MultiplierAsWritten(s: real, c: real)
    ensures 2.0 * (c - s) * (c + s) == Multiplier(s, c)
  {
  }

  lemma SeriesEmpty(sinp: bool, coeff: seq<real>, n: nat, s: real, c: real)
    requires Slot(sinp, n) <= |coeff|
    ensures Series(sinp, coeff, n, n, s, c) == Held(sinp, n, s, c, 0.0, 0.0)
  {
  }

  lemma SeriesLast(sinp: bool, coeff: seq<real>, n: nat, s: real, c: real)
    requires 0 < n && Slot(sinp, n) <= |coeff|
    ensures Series(sinp, coeff, n - 1, n, s, c)
            == Held(sinp, n - 1, s, c, coeff[Slot(sinp, n - 1)], 0.0)
  {
  }

  lemma FirstTerms(sinp: bool, s: real, c: real, y0: real, y1: real)
    ensures Held(sinp, 0, s, c, y0, y1) == if sinp then 2.0 * s * c * y0 else c * (y0 - y1)
  {
  }

  // ---------- the basis functions are sines and cosines ----------

  /** Angle addition, and the values at zero. */
  ghost predicate Trigonometric(sin: real -> real, cos: real -> real) {
    sin(0.0) == 0.0 && cos(0.0) == 1.0 && forall x, y :: Adds(sin, cos, x, y)
  }

  ghost predicate Adds(sin: real -> real, cos: real -> real, x: real, y: real) {
    (sin(x + y), cos(x + y)) == Rotate(sin(x), cos(x), sin(y), cos(y))
  }

  /** k times x. */
  function Fold(k: int, x: real): real {
    k as real * x
  }

  lemma FoldAdds(k: int, x: real)
    ensures Fold(0, x) == 0.0
    ensures Fold(k, x) + x == Fold(k + 1, x) && Fold(k, x) + (x + x) == Fold(k + 2, x)
  {
    assert (k + 1) as real == k as real + 1.0 && (k + 2) as real == k as real + 2.0;
  }

  /** Sine and cosine of 2 i x. */
  lemma {:induction false} MultipleIsSine(sin: real -> real, cos: real -> real, i: nat, x: real)
    requires Trigonometric(sin, cos)
    ensures Multiple(i, sin(x), cos(x)) == (sin(Fold(2 * i, x)), cos(Fold(2 * i, x)))
  {
    hide Rotate, Fold;
    FoldAdds(2 * i - 2, x);
    if i > 0 {
      MultipleIsSine(sin, cos, i - 1, x);
      var y := Fold(2 * i - 2, x);
      assert 2 * (i - 1) == 2 * i - 2;
      assert Adds(sin, cos, y, x + x);
      DoubleAngle(sin, cos, x);
      MultipleStep(i - 1, sin(x), cos(x));
      hide Multiple;
    }
  }

  lemma DoubleAngle(sin: real -> real, cos: real -> real, x: real)
    requires Trigonometric(sin, cos)
    ensures sin(x + x) == 2.0 * sin(x) * cos(x) && cos(x + x) == cos(x) * cos(x) - sin(x) * sin(x)
  {
    assert Adds(sin, cos, x, x);
  }

  /** What is summed are sin(2 i x), for i = 1, ..., n, or cos((2 i + 1) x), from i = 0 on. */
  lemma TermIsTrigonometric(sin: real -> real, cos: real -> real, j: nat, x: real)
    requires Trigonometric(sin, cos)
    ensures Term(true, j, sin(x), cos(x)) == sin(Fold(2 * (j + 1), x))
    ensures Term(false, j, sin(x), cos(x)) == cos(Fold(2 * j + 1, x))
  {
    hide Rotate, Multiple, Fold;
    MultipleIsSine(sin, cos, j + 1, x);
    MultipleIsSine(sin, cos, j, x);
    FoldAdds(2 * j, x);
    assert Adds(sin, cos, Fold(2 * j, x), x);
  }
}
