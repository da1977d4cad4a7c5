/** Exact-real counterparts of the C library calls used by the modelled code.
    A double is a real number: rounding and the sign of zero are not modelled. */
module RealMath {

  function Abs(x: real): (r: real)
    ensures r >= 0.0 && (r == x || r == -x)
  {
    if x < 0.0 then -x else x
  }

  function Max(x: real, y: real): (r: real)
    ensures r >= x && r >= y && (r == x || r == y)
  {
    if x < y then y else x
  }

  function Min(x: real, y: real): (r: real)
    ensures r <= x && r <= y && (r == x || r == y)
  {
    if y < x then y else x
  }

  /** `copysign(x, y)` for a `y` whose sign is that of a real number. */
  function CopySign(x: real, y: real): (r: real)
    ensures Abs(r) == Abs(x)
    ensures y < 0.0 ==> r <= 0.0
    ensures y >= 0.0 ==> r >= 0.0
  {
    if y < 0.0 then -Abs(x) else Abs(x)
  }

  /** The nearest integer, ties to even. */
  function Rint(x: real): (n: int)
    ensures x - 0.5 <= n as real <= x + 0.5
    ensures Abs(x - n as real) == 0.5 ==> n % 2 == 0
  {
    var f := x.Floor;
    if x - f as real < 0.5 || (x - f as real == 0.5 && f % 2 == 0) then f else f + 1
  }

  /** IEEE `remainder(x, y)`, for a positive modulus. */
  function Remainder(x: real, y: real): (r: real)
    requires y > 0.0
    ensures -y / 2.0 <= r <= y / 2.0
    ensures Congruent(r, x, y)
  {
    var n := Rint(x / y);
    RemainderBounds(x, y, n);
    assert Apart(x - n as real * y, x, -n, y);
    x - n as real * y
  }

  lemma RemainderBounds(x: real, y: real, n: int)
    requires y > 0.0
    requires x / y - 0.5 <= n as real <= x / y + 0.5
    ensures -y / 2.0 <= x - n as real * y <= y / 2.0
  {
    ScaledUpper(x / y, n as real, x, y);
    ScaledLower(x / y, n as real, x, y);
  }

  lemma ScaledUpper(q: real, n: real, x: real, y: real)
    requires y > 0.0 && q * y == x && q - 0.5 <= n
    ensures x - n * y <= y / 2.0
  {
    var e := q - n;
    assert e * y == x - n * y;
    MulMono(e, 0.5, y);
  }

  lemma ScaledLower(q: real, n: real, x: real, y: real)
    requires y > 0.0 && q * y == x && n <= q + 0.5
    ensures -y / 2.0 <= x - n * y
  {
    var e := q - n;
    assert e * y == x - n * y;
    MulMono(-0.5, e, y);
  }

  lemma MulMono(a: real, b: real, y: real)
    requires a <= b && y >= 0.0
    ensures a * y <= b * y
  {
  }

  lemma ProductPositive(x: real, y: real)
    requires x > 0.0 && y > 0.0
    ensures x * y > 0.0
  {
  }

  // ---------- congruence of reals modulo a real ----------

  ghost predicate Apart(a: real, b: real, k: int, m: real) {
    a == b + k as real * m
  }

  /** `a` and `b` differ by a whole number of `m`. */
  ghost predicate Congruent(a: real, b: real, m: real) {
    exists k: int :: Apart(a, b, k, m)
  }

  lemma CongruentRefl(a: real, m: real)
    ensures Congruent(a, a, m)
  {
    assert Apart(a, a, 0, m);
  }

  lemma CongruentSym(a: real, b: real, m: real)
    requires Congruent(a, b, m)
    ensures Congruent(b, a, m)
  {
    var k :| Apart(a, b, k, m);
    assert Apart(b, a, -k, m);
  }

  lemma CongruentTrans(a: real, b: real, c: real, m: real)
    requires Congruent(a, b, m) && Congruent(b, c, m)
    ensures Congruent(a, c, m)
  {
    var k :| Apart(a, b, k, m);
    var l :| Apart(b, c, l, m);
    assert (k + l) as real * m == k as real * m + l as real * m;
    assert Apart(a, c, k + l, m);
  }

  lemma CongruentAdd(a: real, b: real, c: real, d: real, m: real)
    requires Congruent(a, b, m) && Congruent(c, d, m)
    ensures Congruent(a + c, b + d, m)
  {
    var k :| Apart(a, b, k, m);
    var l :| Apart(c, d, l, m);
    assert (k + l) as real * m == k as real * m + l as real * m;
    assert Apart(a + c, b + d, k + l, m);
  }

  lemma CongruentNeg(a: real, b: real, m: real)
    requires Congruent(a, b, m)
    ensures Congruent(-a, -b, m)
  {
    var k :| Apart(a, b, k, m);
    assert Apart(-a, -b, -k, m);
  }

  /** Two congruent numbers less than one modulus apart are equal. */
  lemma CongruentClose(a: real, b: real, m: real)
    requires m > 0.0 && Congruent(a, b, m) && -m < a - b < m
    ensures a == b
  {
    var k :| Apart(a, b, k, m);
    if k != 0 {
      MultipleFar(k, m);
    } else {
      assert k as real * m == 0.0;
    }
  }

  lemma MultipleFar(k: int, m: real)
    requires m > 0.0 && k != 0
    ensures Abs(k as real * m) >= m
  {
    if k >= 1 {
      MulMono(1.0, k as real, m);
    } else {
      MulMono(1.0, (-k) as real, m);
      assert (-k) as real * m == -(k as real * m);
    }
  }

  /** Whole turns: the quotient that `Congruent` hides, for a constant modulus. */
  lemma TurnsOf(a: real, b: real) returns (k: int)
    requires Congruent(a, b, 360.0)
    ensures a == b + 360.0 * k as real
  {
    k :| Apart(a, b, k, 360.0);
  }
}
