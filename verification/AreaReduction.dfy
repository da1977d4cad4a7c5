/** Two-element accumulators and the reduction of a polygon area modulo the area of
    the ellipsoid (src/geodesic.c). */
module AreaReduction {
  import opened RealMath

  // ---------- accumulators ----------

  /** An accumulator whose second word, the error of the first, is zero: the state that
      every accumulator keeps in exact arithmetic. */
  ghost predicate Exact(s: array<real>)
    reads s
  {
    s.Length == 2 && s[1] == 0.0
  }

  /** The error-free sum `u + v = s + t`. */
  function SumX(u: real, v: real): (r: (real, real))
    ensures r.0 == u + v && r.1 == 0.0
  {
    var s := u + v;
    var up := s - v;
    var vpp := s - up;
    (s, if s != 0.0 then 0.0 - ((up - u) + (vpp - v)) else s)
  }

  method AccIni(s: array<real>)
    requires s.Length == 2
    modifies s
    ensures Exact(s) && s[0] == 0.0
  {
    s[0], s[1] := 0.0, 0.0;
  }

  method AccCopy(s: array<real>, t: array<real>)
    requires s.Length == t.Length == 2
    modifies t
    ensures t[..] == old(s[..])
  {
    t[0], t[1] := s[0], s[1];
  }

  method AccAdd(s: array<real>, y: real)
    requires Exact(s)
    modifies s
    ensures Exact(s) && s[0] == old(s[0]) + y
  {
    var z, u := SumX(y, s[1]).0, SumX(y, s[1]).1;
    var sum := SumX(z, s[0]);
    s[0], s[1] := sum.0, sum.1;
    if s[0] == 0.0 {
      s[0] := u;
    } else {
      s[1] := s[1] + u;
    }
  }

  /** The accumulator plus `y`; the accumulator itself is left alone. */
  method AccSum(s: array<real>, y: real) returns (r: real)
    requires Exact(s)
    ensures r == s[0] + y
  {
    var t := new real[2];
    AccCopy(s, t);
    assert t[1] == t[..][1] == s[1] && t[0] == t[..][0] == s[0];
    AccAdd(t, y);
    r := t[0];
  }

  method AccNeg(s: array<real>)
    requires Exact(s)
    modifies s
    ensures Exact(s) && s[0] == -old(s[0])
  {
    s[0], s[1] := -s[0], -s[1];
  }

  method AccRem(s: array<real>, y: real)
    requires Exact(s) && y > 0.0
    modifies s
    ensures Exact(s) && s[0] == Remainder(old(s[0]), y)
  {
    s[0] := Remainder(s[0], y);
    AccAdd(s, 0.0);
  }

  // ---------- area reduction ----------

  /** The interval that a reduced area is promised to lie in. */
  predicate InSpan(r: real, area0: real, sign: bool) {
    if sign then -area0 / 2.0 < r <= area0 / 2.0 else 0.0 <= r < area0
  }

  /** The area that the accumulated sum and the crossings stand for: every crossing is
      worth half the ellipsoid, and `reverse` picks the sense of traversal. */
  function SignedArea(area: real, area0: real, crossings: int, reverse: bool): real {
    var total := area + crossings as real * (area0 / 2.0);
    if reverse then total else -total
  }

  /** The reduction on plain numbers (areareduceB). */
  function AreaReduceB(area: real, area0: real, crossings: int, reverse: bool, sign: bool): (r: real)
    requires area0 > 0.0
    ensures InSpan(r, area0, sign)
    ensures Congruent(r, SignedArea(area, area0, crossings, reverse), area0)
  {
    var a0 := Remainder(area, area0);
    var a1 := if crossings % 2 == 1 then a0 + (if a0 < 0.0 then 1.0 else -1.0) * area0 / 2.0 else a0;
    CrossingsFolded(area, a0, a1, area0, crossings);
    var a2 := if !reverse then -a1 else a1;
    CongruentNeg(a1, area + crossings as real * (area0 / 2.0), area0);
    var a3 :=
      if sign then
        if a2 > area0 / 2.0 then a2 - area0 else if a2 <= -area0 / 2.0 then a2 + area0 else a2
      else
        if a2 >= area0 then a2 - area0 else if a2 < 0.0 then a2 + area0 else a2;
    ShiftedOnce(a3, a2, SignedArea(area, area0, crossings, reverse), area0);
    a3
  }

  lemma CrossingsFolded(area: real, a0: real, a1: real, area0: real, crossings: int)
    requires Congruent(a0, area, area0)
    requires if crossings % 2 == 1 then a1 == a0 + area0 / 2.0 || a1 == a0 - area0 / 2.0
             else a1 == a0
    ensures Congruent(a1, area + crossings as real * (area0 / 2.0), area0)
  {
    var h := crossings / 2;
    var j := if a1 == a0 then -h else if a1 == a0 + area0 / 2.0 then -h else -h - 1;
    var extra := crossings as real * (area0 / 2.0);
    HalfTimes(crossings, h, area0);
    assert (-h) as real * area0 == -(h as real * area0);
    assert (-h - 1) as real * area0 == -(h as real * area0) - area0;
    assert Apart(a1 - a0, extra, j, area0);
    CongruentAdd(a0, area, a1 - a0, extra, area0);
  }

  lemma HalfTimes(c: int, h: int, m: real)
    requires h == c / 2
    ensures c as real * (m / 2.0) == h as real * m + (if c % 2 == 1 then m / 2.0 else 0.0)
  {
    assert c == 2 * h + c % 2;
    assert c as real == 2.0 * h as real + (c % 2) as real;
  }

  lemma ShiftedOnce(a: real, b: real, c: real, m: real)
    requires Congruent(b, c, m) && (a == b || a == b + m || a == b - m)
    ensures Congruent(a, c, m)
  {
    assert Apart(a, b, if a == b then 0 else if a == b + m then 1 else -1, m);
    CongruentTrans(a, b, c, m);
  }

  /** The interval holds one number of each residue class, so the reduced area depends
      on the class alone. */
  lemma SpanUnique(r: real, q: real, area0: real, sign: bool)
    requires area0 > 0.0 && InSpan(r, area0, sign) && InSpan(q, area0, sign)
    requires Congruent(r, q, area0)
    ensures r == q
  {
    CongruentClose(r, q, area0);
  }

  /** Areas that stand for the same residue class reduce to the same number. */
  lemma ReduceByClass(a: real, c: int, reverse: bool, b: real, d: int, reverse': bool,
                      area0: real, sign: bool)
    requires area0 > 0.0
    requires Congruent(SignedArea(a, area0, c, reverse), SignedArea(b, area0, d, reverse'), area0)
    ensures AreaReduceB(a, area0, c, reverse, sign) == AreaReduceB(b, area0, d, reverse', sign)
  {
    var p, q := AreaReduceB(a, area0, c, reverse, sign), AreaReduceB(b, area0, d, reverse', sign);
    CongruentTrans(p, SignedArea(a, area0, c, reverse), SignedArea(b, area0, d, reverse'), area0);
    CongruentSym(q, SignedArea(b, area0, d, reverse'), area0);
    CongruentTrans(p, SignedArea(b, area0, d, reverse'), q, area0);
    SpanUnique(p, q, area0, sign);
  }

  /** What the flags mean, on areas that need no reduction: accumulated areas are clockwise,
      so they are negated unless `reverse` is set, and a negative area stands for its
      complement where no signed one is asked for. */
  lemma FlagsMean(area: real, area0: real, reverse: bool)
    requires 0.0 < area < area0 / 2.0
    ensures AreaReduceB(area, area0, 0, true, true) == area
    ensures AreaReduceB(area, area0, 0, false, true) == -area
    ensures AreaReduceB(area, area0, 0, true, false) == area
    ensures AreaReduceB(area, area0, 0, false, false) == area0 - area
    ensures AreaReduceB(-area, area0, 0, reverse, true) == AreaReduceB(area, area0, 0, !reverse, true)
  {
    ReducesTo(area, area0, 0, true, true, area);
    ReducesTo(area, area0, 0, false, true, -area);
    ReducesTo(area, area0, 0, true, false, area);
    ReducesTo(area, area0, 0, false, false, area0 - area);
    ReducesTo(-area, area0, 0, reverse, true, if reverse then -area else area);
  }

  /** A crossing is worth half the ellipsoid, and the half itself and the whole are on the
      closed and the open end of the intervals. */
  lemma EndsMean(area0: real, reverse: bool)
    requires area0 > 0.0
    ensures AreaReduceB(0.0, area0, 1, reverse, true) == area0 / 2.0
    ensures AreaReduceB(0.0, area0, -1, reverse, true) == area0 / 2.0
    ensures AreaReduceB(area0, area0, 0, reverse, false) == 0.0
    ensures AreaReduceB(0.0, area0, 2, reverse, false) == 0.0
  {
    ReducesTo(0.0, area0, 1, reverse, true, area0 / 2.0);
    ReducesTo(0.0, area0, -1, reverse, true, area0 / 2.0);
    ReducesTo(area0, area0, 0, reverse, false, 0.0);
    ReducesTo(0.0, area0, 2, reverse, false, 0.0);
  }

  lemma ReducesTo(area: real, area0: real, c: int, reverse: bool, sign: bool, r: real)
    requires area0 > 0.0 && InSpan(r, area0, sign) && -2 <= c <= 2 && -area0 <= area <= area0
    requires var x := SignedArea(area, area0, c, reverse);
             r == x || r == x + area0 || r == x - area0
    ensures AreaReduceB(area, area0, c, reverse, sign) == r
  {
    var x := SignedArea(area, area0, c, reverse);
    hide SignedArea;
    assert Apart(r, x, if r == x then 0 else if r == x + area0 then 1 else -1, area0);
    var q := AreaReduceB(area, area0, c, reverse, sign);
    hide AreaReduceB;
    CongruentSym(r, x, area0);
    CongruentTrans(q, x, r, area0);
    SpanUnique(q, r, area0, sign);
  }

  /** The reduction on an accumulator, in place (areareduceA). */
  method AreaReduceA(area: array<real>, area0: real, crossings: int, reverse: bool, sign: bool)
    returns (r: real)
    requires Exact(area) && area0 > 0.0
    modifies area
    ensures Exact(area)
    ensures r == area[0] == AreaReduceB(old(area[0]), area0, crossings, reverse, sign)
  {
    AccRem(area, area0);
    if crossings % 2 == 1 {
      AccAdd(area, (if area[0] < 0.0 then 1.0 else -1.0) * area0 / 2.0);
    }
    if !reverse {
      AccNeg(area);
    }
    // The two downward shifts serve rounded sums: an exact one never needs them.
    var shift :=
      if sign then
        if area[0] > area0 / 2.0 then -area0 else if area[0] <= -area0 / 2.0 then area0 else 0.0
      else
        if area[0] >= area0 then -area0 else if area[0] < 0.0 then area0 else 0.0;
    if shift != 0.0 {
      AccAdd(area, shift);
    }
    r := 0.0 + area[0];
  }
}
