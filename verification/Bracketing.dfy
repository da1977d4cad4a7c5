/** The safeguarded Newton iteration of geod_geninverse_int (src/geodesic.c): Newton steps
    inside a bracket, bisection of the bracket when they fail. */
module Bracketing {
  import opened RealMath

  /** An azimuth in (0, pi), by sine and cosine; not necessarily normalised. */
  datatype Azimuth = Azimuth(s: real, c: real)

  /** The function to solve with its slope, the mathematical library, and the tolerances. */
  datatype Problem = Problem(
    lambda12: Azimuth -> real, slope: Azimuth -> real,
    sin: real -> real, cos: real -> real, hypot: (real, real) -> real,
    pi: real, tiny: real, tol0: real, tolb: real)

  const MAXIT1 := 20
  const MAXIT2 := MAXIT1 + 53 + 10

  /** What is needed of `hypot` and `tiny`. */
  ghost predicate Lawful(p: Problem) {
    && p.tiny > 0.0
    && forall x, y :: x > 0.0 ==> p.hypot(x, y) > 0.0
  }

  /** One visit to the head of the loop. */
  datatype Search = Search(at: Azimuth, a: Azimuth, b: Azimuth, tripn: bool, tripb: bool, numit: nat)

  ghost predicate Proper(st: Search) {
    st.at.s > 0.0 && st.a.s > 0.0 && st.b.s > 0.0
  }

  function Cot(z: Azimuth): real
    requires z.s > 0.0
  {
    z.c / z.s
  }

  function Norm2(p: Problem, z: Azimuth): (r: Azimuth)
    requires Lawful(p) && z.s > 0.0
    ensures r.s > 0.0 && Cot(r) == Cot(z)
  {
    var h := p.hypot(z.s, z.c);
    ScaledCot(z, h);
    Azimuth(z.s / h, z.c / h)
  }

  lemma ScaledCot(z: Azimuth, h: real)
    requires z.s > 0.0 && h > 0.0
    ensures z.s / h > 0.0 && (z.c / h) / (z.s / h) == z.c / z.s
  {
  }

  /** The starting point that InverseStart hands over. */
  function StartingGuess(p: Problem, guess: Azimuth): (r: Azimuth)
    requires Lawful(p)
    ensures r.s > 0.0
    ensures if guess.s > 0.0 then Cot(r) == Cot(guess) else r == Azimuth(1.0, 0.0)
  {
    if guess.s <= 0.0 then Azimuth(1.0, 0.0) else Norm2(p, guess)
  }

  function Start(p: Problem, guess: Azimuth): (st: Search)
    requires Lawful(p)
    ensures Proper(st)
  {
    Search(StartingGuess(p, guess), Azimuth(p.tiny, 1.0), Azimuth(p.tiny, -1.0), false, false, 0)
  }

  /** The loop is left after this evaluation. */
  predicate Stops(p: Problem, st: Search) {
    st.tripb || !(Abs(p.lambda12(st.at)) >= (if st.tripn then 8.0 else 1.0) * p.tol0)
    || st.numit == MAXIT2
  }

  /** Update of the bracketing values. */
  function Narrowed(p: Problem, st: Search): (r: Search)
    requires Proper(st)
    ensures Proper(r)
  {
    var v := p.lambda12(st.at);
    if v > 0.0 && (st.numit > MAXIT1 || Cot(st.at) > Cot(st.b)) then st.(b := st.at)
    else if v < 0.0 && (st.numit > MAXIT1 || Cot(st.at) < Cot(st.a)) then st.(a := st.at)
    else st
  }

  /** The Newton step, if it is taken. */
  function NewtonStep(p: Problem, at: Azimuth, numit: nat): (r: (bool, Azimuth))
    ensures r.0 ==> r.1.s > 0.0 && numit < MAXIT1
  {
    var v, dv := p.lambda12(at), p.slope(at);
    if numit < MAXIT1 && dv > 0.0 && Abs(-v / dv) < p.pi then
      var sd, cd := p.sin(-v / dv), p.cos(-v / dv);
      var ns := at.s * cd + at.c * sd;
      (ns > 0.0, Azimuth(ns, at.c * cd - at.s * sd))
    else (false, at)
  }

  function Middle(a: Azimuth, b: Azimuth): (m: Azimuth)
    ensures a.s > 0.0 && b.s > 0.0 ==> m.s > 0.0
  {
    Azimuth((a.s + b.s) / 2.0, (a.c + b.c) / 2.0)
  }

  function Next(p: Problem, st: Search): (r: Search)
    requires Lawful(p) && Proper(st)
    ensures Proper(r) && r.numit == st.numit + 1
  {
    var n := Narrowed(p, st);
    var (newton, z) := NewtonStep(p, st.at, st.numit);
    if newton then
      n.(at := Norm2(p, z), tripn := Abs(p.lambda12(st.at)) <= 16.0 * p.tol0, numit := st.numit + 1)
    else
      var m := Norm2(p, Middle(n.a, n.b));
      n.(at := m, tripn := false, numit := st.numit + 1,
         tripb := || Abs(n.a.s - m.s) + (n.a.c - m.c) < p.tolb
                  || Abs(m.s - n.b.s) + (m.c - n.b.c) < p.tolb)
  }

  /** The n-th visit to the head of the loop. */
  function Visit(p: Problem, guess: Azimuth, n: nat): (st: Search)
    requires Lawful(p)
    ensures Proper(st) && st.numit == n
  {
    if n == 0 then Start(p, guess) else Next(p, Visit(p, guess, n - 1))
  }

  /** The visit is part of the run. */
  ghost predicate Reached(p: Problem, guess: Azimuth, n: nat)
    requires Lawful(p)
  {
    forall m: nat :: m < n ==> !Stops(p, Visit(p, guess, m))
  }

  /** The loop. It stops at the first visit that `Stops`, after at most MAXIT2 + 1
      evaluations of lambda12, at an azimuth in (0, pi). */
  method Solve(p: Problem, guess: Azimuth) returns (alp1: Azimuth, evaluations: nat)
    requires Lawful(p)
    ensures 1 <= evaluations <= 84
    ensures Reached(p, guess, evaluations - 1)
    ensures forall n :: 0 <= n < evaluations - 1 ==>
              var st := Visit(p, guess, n);
              !st.tripb && Abs(p.lambda12(st.at)) >= (if st.tripn then 8.0 else 1.0) * p.tol0
    ensures var st := Visit(p, guess, evaluations - 1);
            st.tripb || Abs(p.lambda12(st.at)) < (if st.tripn then 8.0 else 1.0) * p.tol0 || evaluations == 84
    ensures alp1 == Visit(p, guess, evaluations - 1).at
    ensures alp1.s > 0.0
  {
    hide Cot, Norm2, NewtonStep, Middle, StartingGuess, Lawful, Abs, Visit, Reached;
    VisitStart(p, guess);
    var st0 := Start(p, guess);
    alp1 := st0.at;
    var a, b, tripn, tripb, numit := st0.a, st0.b, false, false, 0;
    evaluations := 0;
    while true
      invariant 0 <= numit <= MAXIT2 && evaluations == numit
      invariant Visit(p, guess, numit) == Search(alp1, a, b, tripn, tripb, numit)
      invariant Reached(p, guess, numit)
      invariant forall n :: 0 <= n < numit ==>
                  var st := Visit(p, guess, n);
                  !st.tripb && Abs(p.lambda12(st.at)) >= (if st.tripn then 8.0 else 1.0) * p.tol0
      decreases MAXIT2 - numit
    {
      ghost var st := Visit(p, guess, numit);
      var v := p.lambda12(alp1);
      evaluations := evaluations + 1;
      if tripb || !(Abs(v) >= (if tripn then 8.0 else 1.0) * p.tol0) || numit == MAXIT2 {
        break;
      }
      assert !Stops(p, st);
      // update bracketing values
      if v > 0.0 && (numit > MAXIT1 || Cot(alp1) > Cot(b)) {
        b := alp1;
      } else if v < 0.0 && (numit > MAXIT1 || Cot(alp1) < Cot(a)) {
        a := alp1;
      }
      assert Narrowed(p, st) == st.(a := a, b := b);
      var (newton, z) := NewtonStep(p, alp1, numit);
      if newton {
        alp1 := Norm2(p, z);
        tripn := Abs(v) <= 16.0 * p.tol0;
      } else {
        alp1 := Norm2(p, Middle(a, b));
        tripn := false;
        tripb := Abs(a.s - alp1.s) + (a.c - alp1.c) < p.tolb || Abs(alp1.s - b.s) + (alp1.c - b.c) < p.tolb;
      }
      assert Next(p, st) == Search(alp1, a, b, tripn, tripb, numit + 1);
      ReachedExtends(p, guess, numit);
      numit := numit + 1;
    }
  }

  lemma VisitStart(p: Problem, guess: Azimuth)
    requires Lawful(p)
    ensures Visit(p, guess, 0) == Start(p, guess) && Reached(p, guess, 0)
  {
  }

  lemma ReachedExtends(p: Problem, guess: Azimuth, n: nat)
    requires Lawful(p) && Reached(p, guess, n) && !Stops(p, Visit(p, guess, n))
    ensures Reached(p, guess, n + 1)
    ensures Visit(p, guess, n + 1) == Next(p, Visit(p, guess, n))
  {
  }

  // ---------- the bracket ----------

  /** The bracket, as an interval of cotangents, is not inside out. */
  ghost predicate Ordered(st: Search)
    requires Proper(st)
  {
    Cot(st.b) <= Cot(st.a)
  }

  /** The second bracket lies within the first. */
  ghost predicate Within(st: Search, st': Search)
    requires Proper(st) && Proper(st')
  {
    Cot(st.b) <= Cot(st'.b) && Cot(st'.a) <= Cot(st.a)
  }

  lemma MiddleBetween(a: Azimuth, b: Azimuth)
    requires a.s > 0.0 && b.s > 0.0
    ensures var m := Middle(a, b);
            && m.s > 0.0
            && (Cot(b) <= Cot(a) ==> Cot(b) <= Cot(m) <= Cot(a))
            && (Cot(a) < Cot(b) ==> Cot(a) < Cot(m) < Cot(b))
  {
    if Cot(b) <= Cot(a) {
      MediantBounds(b, a);
    } else {
      MediantBounds(a, b);
    }
  }

  /** The cotangent of the middle is the mediant of the cotangents. */
  lemma MediantBounds(u: Azimuth, v: Azimuth)
    requires u.s > 0.0 && v.s > 0.0 && Cot(u) <= Cot(v)
    ensures Middle(u, v) == Middle(v, u)
    ensures Cot(u) <= Cot(Middle(u, v)) <= Cot(v)
    ensures Cot(u) < Cot(v) ==> Cot(u) < Cot(Middle(u, v)) < Cot(v)
  {
    var x, y, m := Cot(u), Cot(v), Middle(u, v);
    assert x * u.s == u.c && y * v.s == v.c && Cot(m) * m.s == m.c;
    var d := y - x;
    assert m.c - x * m.s == d * v.s / 2.0;
    assert y * m.s - m.c == d * u.s / 2.0;
    Compare(x, Cot(m), m.s, d * v.s / 2.0);
    Compare(Cot(m), y, m.s, d * u.s / 2.0);
    if d > 0.0 {
      assert d * v.s > 0.0 && d * u.s > 0.0;
    }
  }

  lemma Compare(x: real, y: real, s: real, gap: real)
    requires s > 0.0 && y * s - x * s == gap && gap >= 0.0
    ensures x <= y && (gap > 0.0 ==> x < y)
  {
    assert (y - x) * s == gap;
    assert (x - y) * s == -gap;
    if y < x {
      ProductPositive(x - y, s);
    } else if x == y {
      assert (y - x) * s == 0.0;
    }
  }

  /** From the second visit after MAXIT1 on, every azimuth is the middle of the bracket. */
  lemma LateVisitIsMiddle(p: Problem, guess: Azimuth, n: nat)
    requires Lawful(p) && n > MAXIT1
    ensures var st := Visit(p, guess, n);
            Cot(st.at) == Cot(Middle(st.a, st.b))
  {
  }

  /** A step narrows the bracket, except exactly a bisection step (one after MAXIT1 whose
      value is not zero) in a bracket that an inconsistent lambda12 has turned inside out. */
  lemma StepNarrows(p: Problem, guess: Azimuth, n: nat)
    requires Lawful(p)
    ensures var st, st' := Visit(p, guess, n), Visit(p, guess, n + 1);
            Within(st, st') <==> n <= 20 || Ordered(st) || p.lambda12(st.at) == 0.0
    ensures n > MAXIT1 && Ordered(Visit(p, guess, n)) ==> Ordered(Visit(p, guess, n + 1))
  {
    var st := Visit(p, guess, n);
    MiddleBetween(st.a, st.b);
    if n > MAXIT1 {
      LateVisitIsMiddle(p, guess, n);
    }
  }

  /** lambda12 is positive on one side of a single root and negative on the other. */
  ghost predicate SingleRoot(p: Problem, root: real) {
    forall z: Azimuth :: z.s > 0.0 ==>
      (p.lambda12(z) > 0.0 <==> Cot(z) < root) && (p.lambda12(z) < 0.0 <==> Cot(z) > root)
  }

  ghost predicate Brackets(st: Search, root: real)
    requires Proper(st)
  {
    Cot(st.b) <= root <= Cot(st.a)
  }

  lemma RootStaysNarrowed(p: Problem, st: Search, root: real)
    requires SingleRoot(p, root) && Proper(st) && Brackets(st, root)
    ensures Brackets(Narrowed(p, st), root)
  {
  }

  /** The bracket of a visit is the one that the visit before narrowed. */
  lemma BracketOfNext(p: Problem, guess: Azimuth, n: nat, root: real)
    requires Lawful(p) && Brackets(Narrowed(p, Visit(p, guess, n)), root)
    ensures Brackets(Visit(p, guess, n + 1), root)
  {
  }

  /** A root inside the initial bracket stays bracketed through Newton steps, rejected
      steps and bisections. */
  lemma {:induction false} RootStaysBracketed(p: Problem, guess: Azimuth, root: real, n: nat)
    requires Lawful(p) && SingleRoot(p, root)
    requires Brackets(Start(p, guess), root)
    ensures Brackets(Visit(p, guess, n), root)
  {
    hide *;
    if n == 0 {
      VisitStart(p, guess);
    } else {
      RootStaysBracketed(p, guess, root, n - 1);
      var st := Visit(p, guess, n - 1);
      RootStaysNarrowed(p, st, root);
      BracketOfNext(p, guess, n - 1, root);
    }
  }

  /** When there is a root to bracket, every step narrows the bracket, and once the Newton
      budget is spent every azimuth lies inside it. */
  lemma BracketClosesIn(p: Problem, guess: Azimuth, root: real, n: nat)
    requires Lawful(p) && SingleRoot(p, root)
    requires Brackets(Start(p, guess), root)
    ensures Within(Visit(p, guess, n), Visit(p, guess, n + 1))
    ensures var st := Visit(p, guess, n);
            n > MAXIT1 ==> Cot(st.b) <= Cot(st.at) <= Cot(st.a)
  {
    hide Cot, Visit, Start, Middle, SingleRoot;
    RootStaysBracketed(p, guess, root, n);
    StepNarrows(p, guess, n);
    if n > MAXIT1 {
      var st := Visit(p, guess, n);
      LateVisitIsMiddle(p, guess, n);
      MiddleBetween(st.a, st.b);
    }
  }

  /** The initial bracket is [-1/tiny, 1/tiny]. */
  lemma InitialBracket(p: Problem, guess: Azimuth)
    requires Lawful(p)
    ensures Cot(Start(p, guess).a) == 1.0 / p.tiny && Cot(Start(p, guess).b) == -1.0 / p.tiny
  {
  }

  /** The azimuth that the loop returns solves the equation to the tolerance of the test
      that let it out, or sits in a bracket of the root that is too small to bisect, or
      the iteration budget is spent. */
  lemma SolveOutcome(p: Problem, guess: Azimuth, root: real, n: nat)
    requires Lawful(p) && SingleRoot(p, root) && p.tol0 >= 0.0
    requires Brackets(Start(p, guess), root)
    ensures var st := Visit(p, guess, n);
            && Brackets(st, root)
            && (Reached(p, guess, n) && Stops(p, st) ==>
                || Abs(p.lambda12(st.at)) < (if st.tripn then 8.0 else 1.0) * p.tol0
                || n == MAXIT2
                || (&& st.tripb && Cot(st.b) <= Cot(st.at) <= Cot(st.a)
                    && (|| Abs(st.a.s - st.at.s) + (st.a.c - st.at.c) < p.tolb
                        || Abs(st.at.s - st.b.s) + (st.at.c - st.b.c) < p.tolb)))
  {
    RootStaysBracketed(p, guess, root, n);
    var st := Visit(p, guess, n);
    hide SingleRoot, NewtonStep;
    if Reached(p, guess, n) && st.tripb {
      assert n > 0;
      var before := Visit(p, guess, n - 1);
      assert !Stops(p, before);
      MiddleBetween(st.a, st.b);
    }
  }

  // ---------- a bracket that widens ----------

  const X0 := Azimuth(735.0 / 1313.0, 1088.0 / 1313.0)
  const X1 := Azimuth(11218215.0 / 13393913.0, 7317688.0 / 13393913.0)
  const X2 := Azimuth(255.0 / 1313.0, 1288.0 / 1313.0)
  const CENTER := Azimuth(5.0 / 13.0, 12.0 / 13.0)

  const SIN_D := 3960.0 / 10201.0
  const COS_D := 9401.0 / 10201.0

  /** An oracle that is positive for small azimuths, negative for some around 34 degrees and
      positive again beyond, with slopes to match; and a library that has the right values
      for the angle `d`, whose sine is SIN_D, and for the azimuths that come up. */
  ghost predicate TwoSignChanges(p: Problem, d: real) {
    && Lawful(p) && 0.0 <= 16.0 * p.tol0 < d && 2.0 * d < p.pi && p.tolb <= 0.05 && p.tiny <= 0.1
    && p.sin(d) == SIN_D && p.cos(d) == COS_D
    && p.sin(-2.0 * d) == -2.0 * SIN_D * COS_D && p.cos(-2.0 * d) == COS_D * COS_D - SIN_D * SIN_D
    && p.hypot(X0.s, X0.c) == 1.0 && p.hypot(X1.s, X1.c) == 1.0 && p.hypot(X2.s, X2.c) == 1.0
    && p.hypot(Middle(X0, X2).s, Middle(X0, X2).c) == 99.0 / 101.0
    && p.lambda12 == TwoSigns(d)
    && p.slope == (z: Azimuth) => if z.c >= 2.0 * z.s then -1.0 else 1.0
  }

  function TwoSigns(d: real): Azimuth -> real {
    (z: Azimuth) => if z.c >= 2.0 * z.s then d else if z.c > z.s then -d else 2.0 * d
  }

  /** The second Newton step goes past the first value: the bracket is inside out, and a
      bisection stays put until the Newton budget is spent. */
  lemma {:induction false} InsideOut(p: Problem, d: real, n: nat)
    requires TwoSignChanges(p, d) && 3 <= n <= MAXIT1 + 1
    ensures Lawful(p)
    ensures Visit(p, X0, n) == Search(CENTER, X0, X2, false, false, n)
    ensures Reached(p, X0, n)
  {
    hide *;
    IsLawful(p, d);
    if n == 3 {
      FirstVisits(p, d);
    } else {
      InsideOut(p, d, n - 1);
      StaysPut(p, d, n - 1);
      ReachedExtends(p, X0, n - 1);
    }
  }

  lemma IsLawful(p: Problem, d: real)
    requires TwoSignChanges(p, d)
    ensures Lawful(p)
  {
  }

  lemma StaysPut(p: Problem, d: real, n: nat)
    requires TwoSignChanges(p, d) && n <= MAXIT1
    ensures var st := Search(CENTER, X0, X2, false, false, n);
            !Stops(p, st) && Proper(st) && Next(p, st) == Search(CENTER, X0, X2, false, false, n + 1)
  {
  }

  lemma FirstVisits(p: Problem, d: real)
    requires TwoSignChanges(p, d)
    ensures Visit(p, X0, 3) == Search(CENTER, X0, X2, false, false, 3) && Reached(p, X0, 3)
  {
    VisitStart(p, X0);
    FromX0(p, d);
    FromX1(p, d);
    FromX2(p, d);
    hide Visit, Reached, Next, Stops, Start;
    ReachedExtends(p, X0, 0);
    ReachedExtends(p, X0, 1);
    ReachedExtends(p, X0, 2);
  }

  lemma FromX0(p: Problem, d: real)
    requires TwoSignChanges(p, d)
    ensures var st := Start(p, X0);
            && !Stops(p, st)
            && Next(p, st) == Search(X1, X0, Azimuth(p.tiny, -1.0), false, false, 1)
  {
  }

  lemma FromX1(p: Problem, d: real)
    requires TwoSignChanges(p, d)
    ensures var st := Search(X1, X0, Azimuth(p.tiny, -1.0), false, false, 1);
            !Stops(p, st) && Next(p, st) == Search(X2, X0, X1, false, false, 2)
  {
  }

  lemma FromX2(p: Problem, d: real)
    requires TwoSignChanges(p, d)
    ensures var st := Search(X2, X0, X1, false, false, 2);
            !Stops(p, st) && Next(p, st) == Search(CENTER, X0, X2, false, false, 3)
  {
  }

  /** The first step after the Newton budget widens such a bracket: the visit is part of the
      run, and what it leads to does not lie within its bracket. */
  lemma BracketWidens(p: Problem, d: real)
    requires TwoSignChanges(p, d)
    ensures var n := MAXIT1 + 1;
            && Reached(p, X0, n) && !Stops(p, Visit(p, X0, n)) && !Ordered(Visit(p, X0, n))
            && !Within(Visit(p, X0, n), Visit(p, X0, n + 1))
  {
    var n := MAXIT1 + 1;
    InsideOut(p, d, n);
    hide Visit, Reached, Next, Start;
    StepNarrows(p, X0, n);
    assert Cot(X2) > Cot(X0);
  }

  /** A problem of this kind, with tolerances of the order that the code uses. */
  const TWO_SIGNS := Problem(
    TwoSigns(1.0), (z: Azimuth) => if z.c >= 2.0 * z.s then -1.0 else 1.0,
    (x: real) => if x == 1.0 then SIN_D else -2.0 * SIN_D * COS_D,
    (x: real) => if x == 1.0 then COS_D else COS_D * COS_D - SIN_D * SIN_D,
    (x: real, y: real) => if x * x + y * y == 1.0 then 1.0 else 99.0 / 101.0,
    3.14, 0.0000000000000001, 0.0000000000000001, 0.0000000000000001)

  lemma BracketWidensExample()
    ensures TwoSignChanges(TWO_SIGNS, 1.0) && TWO_SIGNS.tolb > 0.0
    ensures !Within(Visit(TWO_SIGNS, X0, MAXIT1 + 1), Visit(TWO_SIGNS, X0, MAXIT1 + 2))
  {
    ExampleFits();
    hide *;
    BracketWidens(TWO_SIGNS, 1.0);
  }

  lemma ExampleFits()
    ensures TwoSignChanges(TWO_SIGNS, 1.0) && TWO_SIGNS.tolb > 0.0
  {
  }

  // ---------- how fast bisection closes in ----------

  ghost predicate OnCircle(z: Azimuth) {
    z.s > 0.0 && z.s * z.s + z.c * z.c == 1.0
  }

  ghost predicate Pythagorean(p: Problem) {
    forall x, y :: p.hypot(x, y) >= 0.0 && p.hypot(x, y) * p.hypot(x, y) == x * x + y * y
  }

  /** Sine and cosine of the angle from `a` to `b`. */
  function Cross(a: Azimuth, b: Azimuth): real {
    b.s * a.c - a.s * b.c
  }

  function Dot(a: Azimuth, b: Azimuth): real {
    a.s * b.s + a.c * b.c
  }

  lemma LessThanHalfTurn(a: Azimuth, b: Azimuth)
    requires OnCircle(a) && OnCircle(b)
    ensures 0.0 < 1.0 + Dot(a, b) <= 2.0
  {
    var s, c, t := a.s + b.s, a.c + b.c, a.s - b.s;
    var e := a.c - b.c;
    assert s * s + c * c == 2.0 + 2.0 * Dot(a, b);
    assert t * t + e * e == 2.0 - 2.0 * Dot(a, b);
    assert s * s > 0.0 && c * c >= 0.0 && t * t >= 0.0 && e * e >= 0.0;
  }

  /** Tangent of half the angle from `a` to `b`. */
  function TanHalf(a: Azimuth, b: Azimuth): real
    requires OnCircle(a) && OnCircle(b)
  {
    LessThanHalfTurn(a, b);
    Cross(a, b) / (1.0 + Dot(a, b))
  }

  lemma TanHalfIs(a: Azimuth, b: Azimuth)
    requires OnCircle(a) && OnCircle(b)
    ensures -1.0 < Dot(a, b) <= 1.0 && TanHalf(a, b) * (1.0 + Dot(a, b)) == Cross(a, b)
    ensures Abs(Cross(a, b)) <= 1.0
  {
    hide OnCircle, Cross, Dot;
    LessThanHalfTurn(a, b);
    SineBounded(a, b);
  }

  lemma SineBounded(a: Azimuth, b: Azimuth)
    requires OnCircle(a) && OnCircle(b)
    ensures Abs(Cross(a, b)) <= 1.0
  {
    LagrangeIdentity(a.s, a.c, b.s, b.c);
    RootOfOne(Cross(a, b), Dot(a, b));
  }

  lemma LagrangeIdentity(a: real, b: real, c: real, d: real)
    requires a * a + b * b == 1.0 && c * c + d * d == 1.0
    ensures (c * b - a * d) * (c * b - a * d) + (a * c + b * d) * (a * c + b * d) == 1.0
  {
  }

  lemma RootOfOne(x: real, y: real)
    requires x * x + y * y == 1.0
    ensures Abs(x) <= 1.0
  {
  }

  ghost function Length(p: Problem, z: Azimuth): real {
    p.hypot(z.s, z.c)
  }

  lemma Normed(p: Problem, z: Azimuth)
    requires Lawful(p) && Pythagorean(p) && z.s > 0.0
    ensures var u, r := Norm2(p, z), Length(p, z);
            OnCircle(u) && r > 0.0 && u.s * r == z.s && u.c * r == z.c
  {
    hide Cot;
    var r := Length(p, z);
    var u := Norm2(p, z);
    assert r > 0.0 && r * r == z.s * z.s + z.c * z.c;
    assert u == Azimuth(z.s / r, z.c / r);
    UnitQuotient(z.s, z.c, r);
  }

  lemma UnitQuotient(s: real, c: real, r: real)
    requires r > 0.0 && s > 0.0 && r * r == s * s + c * c
    ensures var x, y := s / r, c / r;
            x > 0.0 && x * x + y * y == 1.0 && x * r == s && y * r == c
  {
  }

  lemma Cancel(x: real, y: real, d: real)
    requires d != 0.0 && x * d == y * d
    ensures x == y
  {
  }

  /** `m` is the direction of `u`, weighted with A, plus `v`, weighted with B. */
  predicate Weighted(u: Azimuth, v: Azimuth, m: Azimuth, A: real, B: real, L: real) {
    && A > 0.0 && B > 0.0 && L > 0.0
    && m.s * L == A * u.s + B * v.s && m.c * L == A * u.c + B * v.c
  }

  lemma Toward(u: Azimuth, v: Azimuth, m: Azimuth, A: real, B: real, L: real)
    requires OnCircle(u) && Weighted(u, v, m, A, B, L)
    ensures Cross(u, m) * L == B * Cross(u, v) && Dot(u, m) * L == A + B * Dot(u, v)
  {
    assert Cross(u, m) * L == (m.s * L) * u.c - u.s * (m.c * L);
    assert Dot(u, m) * L == u.s * (m.s * L) + u.c * (m.c * L);
    assert u.s * (A * u.s) + u.c * (A * u.c) == A * (u.s * u.s + u.c * u.c) == A;
  }

  lemma Turned(a: Azimuth, b: Azimuth)
    ensures Dot(b, a) == Dot(a, b) && Cross(b, a) == -Cross(a, b)
  {
  }

  /** Moving one end to the weighted mean never widens the angle, and halves it at least if
      the end that stays has the greater weight. */
  lemma EndMoves(u: Azimuth, v: Azimuth, m: Azimuth, A: real, B: real, L: real)
    requires OnCircle(u) && OnCircle(v) && OnCircle(m) && Weighted(u, v, m, A, B, L)
    ensures Abs(TanHalf(u, m)) <= Abs(TanHalf(u, v))
    ensures B <= A ==> Abs(TanHalf(u, m)) <= Abs(TanHalf(u, v)) / 2.0 && Abs(TanHalf(u, m)) < 1.0
  {
    Toward(u, v, m, A, B, L);
    assert Weighted(v, u, m, B, A, L);
    Toward(v, u, m, B, A, L);
    Turned(u, v);
    TanHalfIs(u, v);
    TanHalfIs(u, m);
    TanHalfIs(v, m);
    hide *;
    AnglesShrink(TanHalf(u, v), Cross(u, v), Dot(u, v), TanHalf(u, m), Cross(u, m), Dot(u, m), Dot(v, m), A, B, L);
  }

  lemma AnglesShrink(t: real, k: real, d: real, t': real, k': real, d': real, e': real,
                     A: real, B: real, L: real)
    requires A > 0.0 && B > 0.0 && L > 0.0 && -1.0 < d <= 1.0 && -1.0 < d' <= 1.0 && e' <= 1.0
    requires t * (1.0 + d) == k && t' * (1.0 + d') == k' && Abs(k') <= 1.0
    requires k' * L == B * k && d' * L == A + B * d && e' * L == B + A * d
    ensures Abs(t') <= Abs(t)
    ensures B <= A ==> Abs(t') <= Abs(t) / 2.0 && Abs(t') < 1.0
  {
    var V, W := B * (1.0 + d), (1.0 + d') * L;
    ProductPositive(B, 1.0 + d);
    ProductPositive(A, 1.0 + d);
    MulMono(d', 1.0, L);
    MulMono(e', 1.0, L);
    assert W == L + (A - B) + V;
    assert A * (1.0 + d) + (B - A) == e' * L;
    SameProduct(t, k, d, t', k', d', B, L);
    Smaller(t, V, t', W, 1.0);
    if B <= A {
      assert V + (A - B) == d' * L;
      Smaller(t, V, t', W, 2.0);
      AcuteAngle(t', k', d', L);
    }
  }

  lemma SameProduct(t: real, k: real, d: real, t': real, k': real, d': real, B: real, L: real)
    requires t * (1.0 + d) == k && t' * (1.0 + d') == k' && k' * L == B * k
    ensures t' * ((1.0 + d') * L) == t * (B * (1.0 + d))
  {
  }

  lemma Smaller(t: real, V: real, t': real, W: real, c: real)
    requires V > 0.0 && c > 0.0 && W >= c * V && t' * W == t * V
    ensures Abs(t') * c <= Abs(t)
  {
  }

  lemma AcuteAngle(t: real, k: real, d: real, L: real)
    requires L > 0.0 && d * L > 0.0 && d > -1.0 && t * (1.0 + d) == k && Abs(k) <= 1.0
    ensures Abs(t) < 1.0
  {
  }

  /** Size of the angle between two azimuths: the tangent of its half. */
  ghost function Spread(p: Problem, a: Azimuth, b: Azimuth): (t: real)
    requires Lawful(p) && Pythagorean(p) && a.s > 0.0 && b.s > 0.0
    ensures t >= 0.0
  {
    Normed(p, a);
    Normed(p, b);
    Abs(TanHalf(Norm2(p, a), Norm2(p, b)))
  }

  lemma SpreadIs(p: Problem, a: Azimuth, b: Azimuth)
    requires Lawful(p) && Pythagorean(p) && a.s > 0.0 && b.s > 0.0
    ensures var u, v := Norm2(p, a), Norm2(p, b);
            OnCircle(u) && OnCircle(v) && Spread(p, a, b) == Abs(TanHalf(u, v)) == Abs(TanHalf(v, u))
  {
    Normed(p, a);
    Normed(p, b);
    TurnedTangent(Norm2(p, a), Norm2(p, b));
  }

  lemma TurnedTangent(u: Azimuth, v: Azimuth)
    requires OnCircle(u) && OnCircle(v)
    ensures TanHalf(v, u) == -TanHalf(u, v)
  {
  }

  /** Putting the normalised middle in the place of either end never widens the bracket; it
      halves it at least, and brings it below a right angle, unless the end that stays is the
      shorter one. */
  lemma MiddleHalves(p: Problem, a: Azimuth, b: Azimuth)
    requires Lawful(p) && Pythagorean(p) && a.s > 0.0 && b.s > 0.0
    ensures var m, t := Norm2(p, Middle(a, b)), Spread(p, a, b);
            && OnCircle(m)
            && Spread(p, a, m) <= t && Spread(p, m, b) <= t
            && (Length(p, b) <= Length(p, a) ==> Spread(p, a, m) <= t / 2.0 && Spread(p, a, m) < 1.0)
            && (Length(p, a) <= Length(p, b) ==> Spread(p, m, b) <= t / 2.0 && Spread(p, m, b) < 1.0)
  {
    var M := Middle(a, b);
    Normed(p, a);
    Normed(p, b);
    Normed(p, M);
    var u, v, m := Norm2(p, a), Norm2(p, b), Norm2(p, M);
    var A, B, L := Length(p, a), Length(p, b), 2.0 * Length(p, M);
    assert Weighted(u, v, m, A, B, L);
    assert Weighted(v, u, m, B, A, L);
    hide *;
    UnitNormed(p, m);
    EndMoves(u, v, m, A, B, L);
    EndMoves(v, u, m, B, A, L);
    SpreadIs(p, a, b);
    SpreadIs(p, a, m);
    SpreadIs(p, m, b);
  }

  /** A normalised azimuth has length one and is left alone by normalising. */
  lemma UnitNormed(p: Problem, z: Azimuth)
    requires Lawful(p) && Pythagorean(p) && OnCircle(z)
    ensures Length(p, z) == 1.0 && z.s > 0.0 && Norm2(p, z) == z
  {
    var r := Length(p, z);
    assert r > 0.0 && r * r == 1.0;
    RootOfOne(r, 0.0);
    if r < 1.0 {
      MulMono(r, 1.0, r);
    }
  }

  // ---------- the Newton step ----------

  /** The step turns the azimuth by -v / dv, for a library whose sine and cosine lie on the
      unit circle; it is taken within the first 20 steps, on a positive slope, if it is less
      than a half turn and leads to an azimuth in (0, pi). */
  lemma NewtonTurns(p: Problem, at: Azimuth, numit: nat)
    requires Lawful(p) && Pythagorean(p) && OnCircle(at)
    requires forall x :: p.sin(x) * p.sin(x) + p.cos(x) * p.cos(x) == 1.0
    ensures var (taken, z) := NewtonStep(p, at, numit);
            var v, dv := p.lambda12(at), p.slope(at);
            && (taken <==>
                  && numit < 20 && dv > 0.0 && -p.pi < v / dv < p.pi
                  && at.s * p.cos(-v / dv) + at.c * p.sin(-v / dv) > 0.0)
            && (taken ==>
                  && OnCircle(z) && Norm2(p, z) == z
                  && Dot(at, z) == p.cos(-v / dv) && Cross(at, z) == p.sin(-v / dv))
  {
    var v, dv := p.lambda12(at), p.slope(at);
    var (taken, z) := NewtonStep(p, at, numit);
    if dv > 0.0 {
      NegatedQuotient(v, dv);
    }
    if taken {
      var sd, cd := p.sin(-v / dv), p.cos(-v / dv);
      Rotated(at.s, at.c, sd, cd);
      UnitNormed(p, z);
    }
  }

  lemma NegatedQuotient(x: real, y: real)
    requires y != 0.0
    ensures -x / y == -(x / y)
  {
  }

  lemma Rotated(s: real, c: real, sd: real, cd: real)
    requires s * s + c * c == 1.0 && sd * sd + cd * cd == 1.0
    ensures var (x, y) := (s * cd + c * sd, c * cd - s * sd);
            x * x + y * y == 1.0 && s * x + c * y == cd && x * c - s * y == sd
  {
    var (x, y) := (s * cd + c * sd, c * cd - s * sd);
    assert s * x + c * y == (s * s + c * c) * cd;
    assert x * c - s * y == (s * s + c * c) * sd;
    assert x * x + y * y == x * (s * cd + c * sd) + y * (c * cd - s * sd);
    assert x * (s * cd + c * sd) + y * (c * cd - s * sd) == (s * x + c * y) * cd + (x * c - s * y) * sd;
  }

  /** What follows a visit: the turned azimuth, with the looser test to come exactly if the
      value is within 16 tol0 already, or the normalised middle of the new bracket. */
  lemma NextVisit(p: Problem, guess: Azimuth, n: nat)
    requires Lawful(p)
    ensures var st, st' := Visit(p, guess, n), Visit(p, guess, n + 1);
            var (taken, z) := NewtonStep(p, st.at, n);
            && (st'.tripn <==> taken && Abs(p.lambda12(st.at)) <= 16.0 * p.tol0)
            && (taken ==> st'.at == Norm2(p, z) && st'.tripb == st.tripb)
            && (!taken ==>
                  && st'.at == Norm2(p, Middle(st'.a, st'.b))
                  && (st'.tripb <==>
                        || Abs(st'.a.s - st'.at.s) + (st'.a.c - st'.at.c) < p.tolb
                        || Abs(st'.at.s - st'.b.s) + (st'.at.c - st'.b.c) < p.tolb))
            && (st'.a == st.a || (st'.a == st.at && p.lambda12(st.at) < 0.0))
            && (st'.b == st.b || (st'.b == st.at && p.lambda12(st.at) > 0.0))
  {
    hide Cot, Norm2, NewtonStep, Middle;
    VisitNext(p, guess, n);
  }

  // ---------- the budget of bisections ----------

  /** Both ends are azimuths that the loop has visited; the others are (tiny, 1) and
      (tiny, -1), which are longer than one. */
  ghost predicate Visited(st: Search) {
    OnCircle(st.a) && OnCircle(st.b)
  }

  ghost predicate EndsKnown(p: Problem, st: Search) {
    && OnCircle(st.at)
    && (st.a == Azimuth(p.tiny, 1.0) || OnCircle(st.a))
    && (st.b == Azimuth(p.tiny, -1.0) || OnCircle(st.b))
  }

  lemma {:induction false} AlwaysKnown(p: Problem, guess: Azimuth, n: nat)
    requires Lawful(p) && Pythagorean(p)
    ensures EndsKnown(p, Visit(p, guess, n))
  {
    hide *;
    if n == 0 {
      VisitStart(p, guess);
      StartKnown(p, guess);
    } else {
      AlwaysKnown(p, guess, n - 1);
      VisitNext(p, guess, n - 1);
      NextKnown(p, Visit(p, guess, n - 1));
    }
  }

  lemma StartKnown(p: Problem, guess: Azimuth)
    requires Lawful(p) && Pythagorean(p)
    ensures EndsKnown(p, Start(p, guess))
  {
    if guess.s > 0.0 {
      Normed(p, guess);
    }
    hide Cot, Norm2;
  }

  lemma NextKnown(p: Problem, st: Search)
    requires Lawful(p) && Pythagorean(p) && Proper(st) && EndsKnown(p, st)
    ensures EndsKnown(p, Next(p, st))
  {
    var (newton, z) := NewtonStep(p, st.at, st.numit);
    var n := Narrowed(p, st);
    if newton {
      Normed(p, z);
    } else {
      Normed(p, Middle(n.a, n.b));
    }
    hide Cot, Norm2, OnCircle, NewtonStep, Middle, Lawful, Pythagorean;
  }

  lemma VisitNext(p: Problem, guess: Azimuth, n: nat)
    requires Lawful(p)
    ensures Visit(p, guess, n + 1) == Next(p, Visit(p, guess, n))
  {
  }

  /** The two initial ends are equally long, and longer than visited ones. */
  lemma Lengths(p: Problem, st: Search)
    requires Lawful(p) && Pythagorean(p) && EndsKnown(p, st)
    ensures OnCircle(st.a) ==> Length(p, st.a) == 1.0
    ensures OnCircle(st.b) ==> Length(p, st.b) == 1.0
    ensures !OnCircle(st.a) ==> Length(p, st.a) >= 1.0
    ensures !OnCircle(st.b) ==> Length(p, st.b) >= 1.0
    ensures !OnCircle(st.a) && !OnCircle(st.b) ==> Length(p, st.a) == Length(p, st.b)
  {
    if OnCircle(st.a) {
      UnitNormed(p, st.a);
    }
    if OnCircle(st.b) {
      UnitNormed(p, st.b);
    }
    LengthFrom(p.hypot(p.tiny, 1.0), p.hypot(p.tiny, -1.0), p.tiny);
  }

  lemma LengthFrom(x: real, y: real, t: real)
    requires x >= 0.0 && y >= 0.0 && x * x == t * t + 1.0 && y * y == t * t + 1.0
    ensures x == y && x >= 1.0
  {
    assert t * t >= 0.0;
    if x < 1.0 {
      MulMono(x, 1.0, x);
    }
    assert (y - x) * (y + x) == 0.0;
    Cancel(y - x, 0.0, y + x);
  }

  lemma LateVisitNormed(p: Problem, guess: Azimuth, n: nat)
    requires Lawful(p) && n > MAXIT1
    ensures var st := Visit(p, guess, n);
            st.at == Norm2(p, Middle(st.a, st.b))
  {
  }

  /** No step after the Newton budget widens the bracket, and each at least halves it, except
      the one that replaces the last of the initial ends. */
  lemma StepHalves(p: Problem, guess: Azimuth, n: nat)
    requires Lawful(p) && Pythagorean(p) && p.tol0 > 0.0 && n > MAXIT1 && !Stops(p, Visit(p, guess, n))
    ensures var st, st' := Visit(p, guess, n), Visit(p, guess, n + 1);
            var t, t' := Spread(p, st.a, st.b), Spread(p, st'.a, st'.b);
            && t' <= t && (Visited(st) ==> Visited(st'))
            && ((!Visited(st) && Visited(st')) || (t' <= t / 2.0 && t' < 1.0))
  {
    AlwaysKnown(p, guess, n);
    LateVisitNormed(p, guess, n);
    VisitNext(p, guess, n);
    var st := Visit(p, guess, n);
    assert p.lambda12(st.at) != 0.0;
    Lengths(p, st);
    MiddleHalves(p, st.a, st.b);
    hide Spread, Norm2, OnCircle, Middle, Cot, Visit, NewtonStep, Length, Lawful, Pythagorean;
  }

  /** 2 to the power of -k. */
  function Halved(k: nat): (x: real)
    ensures x > 0.0
  {
    if k == 0 then 1.0 else Halved(k - 1) / 2.0
  }

  lemma {:induction false} StepsHalve(p: Problem, guess: Azimuth, n: nat, k: nat)
    requires Lawful(p) && Pythagorean(p) && p.tol0 > 0.0 && n > MAXIT1 && k >= 1 && Reached(p, guess, n + k)
    ensures var st := Visit(p, guess, n + k);
            var t := Spread(p, st.a, st.b);
            && (!Visited(st) ==> t < Halved(k - 1))
            && (k >= 2 ==> t < Halved(k - 2))
  {
    hide Visit, Stops, Visited, Spread;
    assert Reached(p, guess, n + k - 1);
    StepHalves(p, guess, n + k - 1);
    if k > 1 {
      StepsHalve(p, guess, n, k - 1);
    }
  }

  /** That is what the iteration limit is made of: whatever the values of the oracle, the
      bisections it allows shrink the bracket to an angle of less than 2^-59 radians. */
  lemma BudgetSuffices(p: Problem, guess: Azimuth)
    requires Lawful(p) && Pythagorean(p) && p.tol0 > 0.0 && Reached(p, guess, MAXIT2)
    ensures var st := Visit(p, guess, MAXIT2);
            Spread(p, st.a, st.b) < Halved(60)
  {
    hide Visit, Stops, Visited, Spread, Halved, Reached;
    StepsHalve(p, guess, MAXIT1 + 1, 62);
  }
}
