/** The triangular coefficient tables of src/geodesic.c: constant polynomials in n are
    packed into A3x, C3x and C4x by one set of functions and read back, as polynomials in
    eps, by another. */
module Coefficients {
  import opened Basics

  function Pow(x: real, k: nat): real {
    if k == 0 then 1.0 else x * Pow(x, k - 1)
  }

  // ---------- polyvalx ----------

  /** The polynomial with these coefficients, that of the highest power first. */
  function Poly(q: seq<real>, x: real): real {
    if q == [] then 0.0 else q[0] * Pow(x, |q| - 1) + Poly(q[1..], x)
  }

  lemma PolyCons(q: seq<real>, x: real)
    requires q != []
    ensures Poly(q, x) == q[0] * Pow(x, |q| - 1) + Poly(q[1..], x)
  {
  }

  lemma PowZero(x: real)
    ensures Pow(x, 0) == 1.0
  {
  }

  lemma PowSucc(x: real, k: nat)
    ensures Pow(x, k + 1) == x * Pow(x, k)
  {
  }

  lemma {:induction false} PolySnoc(q: seq<real>, a: real, x: real)
    ensures Poly(q + [a], x) == Poly(q, x) * x + a
  {
    if q == [] {
      assert Pow(x, 0) == 1.0;
      assert [a][1..] == [];
    } else {
      hide Poly, Pow;
      PolySnoc(q[1..], a, x);
      assert (q + [a])[1..] == q[1..] + [a];
      PolyCons(q, x);
      PolyCons(q + [a], x);
      PowSucc(x, |q| - 1);
      HornerStep(q[0], Pow(x, |q| - 1), Poly(q[1..], x), x);
    }
  }

  lemma HornerStep(a: real, p: real, r: real, x: real)
    ensures a * (x * p) + r * x == (a * p + r) * x
  {
  }

  /** polyvalx(N, p + o, x): Horner's rule on the N + 1 coefficients from `o` on. */
  method Polyvalx(N: int, p: array<real>, o: nat, x: real) returns (y: real)
    requires N >= 0 ==> o + N + 1 <= p.Length
    ensures y == if N < 0 then 0.0 else Poly(p[o..o + N + 1], x)
  {
    if N < 0 {
      return 0.0;
    }
    y := p[o];
    var i, k := o + 1, N;
    assert p[o..i] == [] + [p[o]];
    PolySnoc([], p[o], x);
    while k > 0
      invariant 0 <= k <= N && i == o + N + 1 - k
      invariant y == Poly(p[o..i], x)
    {
      PolySnoc(p[o..i], p[i], x);
      assert p[o..i + 1] == p[o..i] + [p[i]];
      y := y * x + p[i];
      i, k := i + 1, k - 1;
    }
  }

  // ---------- the layout of a table ----------

  /** The coefficient of one power of eps: a polynomial in n over a common denominator. */
  datatype Cell = Cell(num: seq<real>, den: real)

  /** The cell for harmonic `l` and power `j` of eps. */
  type Table = (nat, nat) -> Cell

  /** Degree in n of the cells for eps^j, in tables of order N; A3 and C3 cap it at j. */
  function Degree(N: nat, capped: bool, j: nat): nat
    requires j < N
  {
    if capped && j <= N - j - 1 then j else N - j - 1
  }

  /** Row l has the degrees that the packing functions expect, and no zero denominator. */
  ghost predicate RowShaped(t: Table, N: nat, capped: bool, l: nat) {
    forall j: nat :: l <= j < N ==> |t(l, j).num| == Degree(N, capped, j) + 1 && t(l, j).den != 0.0
  }

  /** So have all rows from l on. */
  ghost predicate Shaped(t: Table, N: nat, capped: bool, l: nat)
    requires l <= N
    decreases N - l
  {
    l < N ==> RowShaped(t, N, capped, l) && Shaped(t, N, capped, l + 1)
  }

  /** What a cell is worth for a given n. */
  function Worth(cell: Cell, n: real): real
    requires cell.den != 0.0
  {
    Poly(cell.num, n) / cell.den
  }

  /** The row of harmonic l from eps^j down to eps^l as it is laid out in the source:
      numerator, then denominator. */
  ghost function RowText(t: Table, l: nat, j: int): seq<real>
    requires j >= l - 1
    decreases j - l + 1
  {
    if j < l then [] else t(l, j).num + [t(l, j).den] + RowText(t, l, j - 1)
  }

  ghost function RowsText(t: Table, N: nat, l: nat): seq<real>
    requires l <= N
    decreases N - l
  {
    if l == N then [] else RowText(t, l, N - 1) + RowsText(t, N, l + 1)
  }

  /** The same rows, one number per cell. */
  ghost function RowWorth(t: Table, N: nat, capped: bool, l: nat, j: int, n: real): (r: seq<real>)
    requires RowShaped(t, N, capped, l) && l - 1 <= j < N
    ensures |r| == j - l + 1
    decreases j - l + 1
  {
    if j < l then [] else [Worth(t(l, j), n)] + RowWorth(t, N, capped, l, j - 1, n)
  }

  ghost function RowsWorth(t: Table, N: nat, capped: bool, l: nat, n: real): (r: seq<real>)
    requires l <= N && Shaped(t, N, capped, l)
    ensures |r| == (N - l) * (N - l + 1) / 2
    decreases N - l
  {
    if l == N then []
    else
      Triangle(N - l);
      RowWorth(t, N, capped, l, N - 1, n) + RowsWorth(t, N, capped, l + 1, n)
  }

  lemma Triangle(k: nat)
    requires k > 0
    ensures k + (k - 1) * k / 2 == k * (k + 1) / 2
  {
  }

  // ---------- packing ----------

  /** The loop over j that the three packing functions share. */
  method PackRow(ghost t: Table, N: nat, capped: bool, l: nat, coeff: array<real>, o0: nat,
                 n: real, x: array<real>, k0: nat, ghost rest: seq<real>)
    returns (o: nat, k: nat)
    requires l < N && RowShaped(t, N, capped, l) && x != coeff
    requires o0 <= coeff.Length && coeff[o0..] == RowText(t, l, N - 1) + rest
    requires k0 + N - l <= x.Length
    modifies x
    ensures o <= coeff.Length && coeff[o..] == rest
    ensures k == k0 + N - l
    ensures x[..k] == old(x[..k0]) + RowWorth(t, N, capped, l, N - 1, n)
  {
    hide Poly, Worth, RowText, RowWorth, RowShaped;
    o, k := o0, k0;
    var j := N - 1;
    ghost var start := old(x[..k0]);
    ghost var row := [];
    RowEmpty(t, N, capped, l, n);
    while j >= l
      invariant l - 1 <= j < N && o <= coeff.Length && k == k0 + N - 1 - j
      invariant coeff[o..] == RowText(t, l, j) + rest
      invariant x[..k] == start + row
      invariant row + RowWorth(t, N, capped, l, j, n) == RowWorth(t, N, capped, l, N - 1, n)
    {
      var m := if capped && j <= N - j - 1 then j else N - j - 1;
      ghost var text, cell := coeff[o..], t(l, j);
      RowStep(t, N, capped, l, j, n, text, rest);
      assert coeff[o..o + m + 1] == text[..m + 1];
      assert coeff[o + m + 2..] == text[m + 2..];
      assert coeff[o + m + 1] == text[m + 1];
      PackCell(coeff, o, m, n, x, k);
      ConcatAssociates(row, [Worth(cell, n)], RowWorth(t, N, capped, l, j - 1, n));
      ConcatAssociates(start, row, [Worth(cell, n)]);
      row := row + [Worth(cell, n)];
      o, k, j := o + m + 2, k + 1, j - 1;
    }
    assert row + [] == row;
    assert [] + rest == rest;
  }

  /** Evaluates one polynomial in n into slot k. */
  method PackCell(coeff: array<real>, o: nat, m: nat, n: real, x: array<real>, k: nat)
    requires o + m + 1 < coeff.Length && coeff[o + m + 1] != 0.0 && k < x.Length && x != coeff
    modifies x
    ensures x[..k + 1] == old(x[..k]) + [Poly(coeff[o..o + m + 1], n) / coeff[o + m + 1]]
  {
    hide Poly;
    var y := Polyvalx(m, coeff, o, n);
    x[k] := y / coeff[o + m + 1];
  }

  lemma RowEmpty(t: Table, N: nat, capped: bool, l: nat, n: real)
    requires RowShaped(t, N, capped, l) && l < N
    ensures RowWorth(t, N, capped, l, l - 1, n) == [] && RowText(t, l, l - 1) == []
  {
  }

  /** One cell of a row, as text and as a number. */
  lemma RowStep(t: Table, N: nat, capped: bool, l: nat, j: nat, n: real, text: seq<real>, rest: seq<real>)
    requires RowShaped(t, N, capped, l) && l <= j < N && text == RowText(t, l, j) + rest
    ensures var (m, cell) := (Degree(N, capped, j), t(l, j));
            && |text| >= m + 2 && cell.den != 0.0
            && text[..m + 1] == cell.num && text[m + 1] == cell.den
            && text[m + 2..] == RowText(t, l, j - 1) + rest
            && Worth(cell, n) == Poly(cell.num, n) / cell.den
            && RowWorth(t, N, capped, l, j, n) == [Worth(cell, n)] + RowWorth(t, N, capped, l, j - 1, n)
  {
  }

  method A3coeff(ghost t: Table, N: nat, coeff: array<real>, n: real, A3x: array<real>)
    requires N > 0 && RowShaped(t, N, true, 0) && A3x != coeff && A3x.Length == N
    requires coeff[..] == RowText(t, 0, N - 1)
    modifies A3x
    ensures A3x[..] == RowWorth(t, N, true, 0, N - 1, n)
  {
    assert coeff[0..] == coeff[..] == RowText(t, 0, N - 1) + [];
    var o, k := PackRow(t, N, true, 0, coeff, 0, n, A3x, 0, []);
    assert A3x[..] == A3x[..k];
  }

  /** Rows 1, ..., N - 1: exactly N * (N - 1) / 2 slots. */
  method C3coeff(ghost t: Table, N: nat, coeff: array<real>, n: real, C3x: array<real>)
    requires N > 0 && Shaped(t, N, true, 1) && C3x != coeff && C3x.Length == N * (N - 1) / 2
    requires coeff[..] == RowsText(t, N, 1)
    modifies C3x
    ensures C3x[..] == RowsWorth(t, N, true, 1, n)
  {
    PackRows(t, N, true, 1, coeff, n, C3x);
  }

  /** Rows 0, ..., N - 1: exactly N * (N + 1) / 2 slots. */
  method C4coeff(ghost t: Table, N: nat, coeff: array<real>, n: real, C4x: array<real>)
    requires Shaped(t, N, false, 0) && C4x != coeff && C4x.Length == N * (N + 1) / 2
    requires coeff[..] == RowsText(t, N, 0)
    modifies C4x
    ensures C4x[..] == RowsWorth(t, N, false, 0, n)
  {
    PackRows(t, N, false, 0, coeff, n, C4x);
  }

  /** The loop over l that C3coeff and C4coeff share. */
  method PackRows(ghost t: Table, N: nat, capped: bool, l0: nat, coeff: array<real>, n: real, x: array<real>)
    requires l0 <= N && Shaped(t, N, capped, l0) && x != coeff
    requires x.Length == (N - l0) * (N - l0 + 1) / 2
    requires coeff[..] == RowsText(t, N, l0)
    modifies x
    ensures x[..] == RowsWorth(t, N, capped, l0, n)
  {
    hide RowsText, RowsWorth, RowWorth, RowText, RowShaped, Shaped;
    ghost var all := RowsWorth(t, N, capped, l0, n);
    var o, k, l := 0, 0, l0;
    assert coeff[0..] == coeff[..];
    while l < N
      invariant l0 <= l <= N && 0 <= o <= coeff.Length && 0 <= k <= x.Length
      invariant coeff[o..] == RowsText(t, N, l)
      invariant Shaped(t, N, capped, l)
      invariant x[..k] + RowsWorth(t, N, capped, l, n) == all
    {
      RowsStep(t, N, capped, l, n);
      ghost var row, tail := RowWorth(t, N, capped, l, N - 1, n), RowsWorth(t, N, capped, l + 1, n);
      ConcatAssociates(x[..k], row, tail);
      assert |row| == N - l && k + |row| + |tail| == |all|;
      o, k := PackRow(t, N, capped, l, coeff, o, n, x, k, RowsText(t, N, l + 1));
      l := l + 1;
    }
    RowsEnd(t, N, capped, n);
    assert x[..] == x[..k];
  }

  lemma RowsStep(t: Table, N: nat, capped: bool, l: nat, n: real)
    requires l < N && Shaped(t, N, capped, l)
    ensures RowShaped(t, N, capped, l) && Shaped(t, N, capped, l + 1)
    ensures RowsText(t, N, l) == RowText(t, l, N - 1) + RowsText(t, N, l + 1)
    ensures RowsWorth(t, N, capped, l, n)
            == RowWorth(t, N, capped, l, N - 1, n) + RowsWorth(t, N, capped, l + 1, n)
  {
  }

  lemma RowsEnd(t: Table, N: nat, capped: bool, n: real)
    requires Shaped(t, N, capped, N)
    ensures RowsText(t, N, N) == [] && RowsWorth(t, N, capped, N, n) == []
  {
  }

  // ---------- reading ----------

  /** The power series in eps that row l stands for, from eps^j down to eps^l. */
  ghost function EpsSum(t: Table, N: nat, capped: bool, l: nat, j: int, n: real, eps: real): real
    requires RowShaped(t, N, capped, l) && l - 1 <= j < N
    decreases j - l + 1
  {
    if j < l then 0.0
    else Worth(t(l, j), n) * Pow(eps, j) + EpsSum(t, N, capped, l, j - 1, n, eps)
  }

  /** A packed row is that series divided by eps^l. */
  lemma {:induction false} RowIsSeries(t: Table, N: nat, capped: bool, l: nat, j: int, n: real, eps: real)
    requires RowShaped(t, N, capped, l) && l - 1 <= j < N
    ensures Pow(eps, l) * Poly(RowWorth(t, N, capped, l, j, n), eps) == EpsSum(t, N, capped, l, j, n, eps)
    decreases j - l + 1
  {
    hide Poly, Pow, Worth, RowWorth, EpsSum;
    if j < l {
      EmptyRowSeries(t, N, capped, l, n, eps);
    } else {
      RowIsSeries(t, N, capped, l, j - 1, n, eps);
      RowUnfold(t, N, capped, l, j, n, eps);
      var row, tail := RowWorth(t, N, capped, l, j, n), RowWorth(t, N, capped, l, j - 1, n);
      PowAdd(eps, l, j - l);
      PolyCons(row, eps);
      assert row[1..] == tail;
      SeriesStep(Pow(eps, l), Pow(eps, j - l), Pow(eps, j), row[0], Poly(tail, eps), Poly(row, eps),
                 EpsSum(t, N, capped, l, j - 1, n, eps));
    }
  }

  lemma EmptyRowSeries(t: Table, N: nat, capped: bool, l: nat, n: real, eps: real)
    requires RowShaped(t, N, capped, l) && l - 1 < N
    ensures Pow(eps, l) * Poly(RowWorth(t, N, capped, l, l - 1, n), eps) == 0.0
    ensures EpsSum(t, N, capped, l, l - 1, n, eps) == 0.0
  {
  }

  lemma RowUnfold(t: Table, N: nat, capped: bool, l: nat, j: nat, n: real, eps: real)
    requires RowShaped(t, N, capped, l) && l <= j < N
    ensures RowWorth(t, N, capped, l, j, n) == [Worth(t(l, j), n)] + RowWorth(t, N, capped, l, j - 1, n)
    ensures EpsSum(t, N, capped, l, j, n, eps)
            == Worth(t(l, j), n) * Pow(eps, j) + EpsSum(t, N, capped, l, j - 1, n, eps)
  {
  }

  lemma SeriesStep(pl: real, pd: real, pj: real, w: real, tail: real, row: real, sum: real)
    requires pl * pd == pj && row == w * pd + tail && pl * tail == sum
    ensures pl * row == w * pj + sum
  {
  }

  lemma {:induction false} PowAdd(x: real, a: nat, b: nat)
    ensures Pow(x, a) * Pow(x, b) == Pow(x, a + b)
  {
    if a > 0 {
      PowAdd(x, a - 1, b);
      assert (x * Pow(x, a - 1)) * Pow(x, b) == x * (Pow(x, a - 1) * Pow(x, b));
    }
  }

  method A3f(ghost t: Table, N: nat, A3x: array<real>, ghost n: real, eps: real) returns (y: real)
    requires N > 0 && RowShaped(t, N, true, 0) && A3x[..] == RowWorth(t, N, true, 0, N - 1, n)
    ensures y == EpsSum(t, N, true, 0, N - 1, n, eps)
  {
    y := Polyvalx(N - 1, A3x, 0, eps);
    assert A3x[0..0 + (N - 1) + 1] == A3x[..];
    RowIsSeries(t, N, true, 0, N - 1, n, eps);
    assert Pow(eps, 0) == 1.0;
  }

  /** Sets c[1], ..., c[N - 1]. */
  method C3f(ghost t: Table, N: nat, C3x: array<real>, ghost n: real, eps: real, c: array<real>)
    requires N > 0 && Shaped(t, N, true, 1) && C3x[..] == RowsWorth(t, N, true, 1, n)
    requires c != C3x && c.Length >= N
    modifies c
    ensures forall l :: 1 <= l < N ==> RowShaped(t, N, true, l) && c[l] == EpsSum(t, N, true, l, N - 1, n, eps)
    ensures forall l :: l == 0 || N <= l < c.Length ==> c[l] == old(c[l])
  {
    hide RowsWorth, RowShaped, Shaped, EpsSum, Pow;
    PowZero(eps);
    var mult, o, l := 1.0, 0, 1;
    assert C3x[0..] == C3x[..];
    while l < N
      invariant 1 <= l <= N && 0 <= o <= C3x.Length
      invariant mult == Pow(eps, l - 1)
      invariant Shaped(t, N, true, l)
      invariant C3x[o..] == RowsWorth(t, N, true, l, n)
      invariant forall i :: 1 <= i < l ==> RowShaped(t, N, true, i) && c[i] == EpsSum(t, N, true, i, N - 1, n, eps)
      invariant forall i :: i == 0 || l <= i < c.Length ==> c[i] == old(c[i])
    {
      var m := N - l - 1;
      PowSucc(eps, l - 1);
      mult := eps * mult;
      var v := ReadRow(t, N, true, l, C3x, o, n, eps, m, mult);
      c[l] := v;
      o := o + m + 1;
      l := l + 1;
    }
  }

  /** Sets c[0], ..., c[N - 1]. */
  method C4f(ghost t: Table, N: nat, C4x: array<real>, ghost n: real, eps: real, c: array<real>)
    requires Shaped(t, N, false, 0) && C4x[..] == RowsWorth(t, N, false, 0, n)
    requires c != C4x && c.Length >= N
    modifies c
    ensures forall l :: 0 <= l < N ==> RowShaped(t, N, false, l) && c[l] == EpsSum(t, N, false, l, N - 1, n, eps)
    ensures forall l :: N <= l < c.Length ==> c[l] == old(c[l])
  {
    hide RowsWorth, RowShaped, Shaped, EpsSum, Pow;
    PowZero(eps);
    var mult, o, l := 1.0, 0, 0;
    assert C4x[0..] == C4x[..];
    while l < N
      invariant 0 <= l <= N && 0 <= o <= C4x.Length
      invariant mult == Pow(eps, l)
      invariant Shaped(t, N, false, l)
      invariant C4x[o..] == RowsWorth(t, N, false, l, n)
      invariant forall i :: 0 <= i < l ==> RowShaped(t, N, false, i) && c[i] == EpsSum(t, N, false, i, N - 1, n, eps)
      invariant forall i :: l <= i < c.Length ==> c[i] == old(c[i])
    {
      var m := N - l - 1;
      var v := ReadRow(t, N, false, l, C4x, o, n, eps, m, mult);
      c[l] := v;
      o := o + m + 1;
      PowSucc(eps, l);
      mult := eps * mult;
      l := l + 1;
    }
  }

  /** The value of row l: eps^l times polyvalx of the row. */
  method ReadRow(ghost t: Table, N: nat, ghost capped: bool, ghost l: nat, x: array<real>, o: nat, ghost n: real,
                 eps: real, m: nat, mult: real)
    returns (v: real)
    requires l < N && m == N - l - 1 && Shaped(t, N, capped, l) && mult == Pow(eps, l)
    requires o <= x.Length && x[o..] == RowsWorth(t, N, capped, l, n)
    ensures RowShaped(t, N, capped, l) && Shaped(t, N, capped, l + 1)
    ensures v == EpsSum(t, N, capped, l, N - 1, n, eps)
    ensures o + m + 1 <= x.Length && x[o + m + 1..] == RowsWorth(t, N, capped, l + 1, n)
  {
    hide RowsWorth, RowWorth, RowShaped, Shaped, EpsSum, Pow, Poly;
    RowsStep(t, N, capped, l, n);
    ghost var row := RowWorth(t, N, capped, l, N - 1, n);
    RowPrefix(x[..], o, row, RowsWorth(t, N, capped, l + 1, n));
    assert x[o..o + m + 1] == row;
    var y := Polyvalx(m, x, o, eps);
    RowIsSeries(t, N, capped, l, N - 1, n, eps);
    v := mult * y;
  }

  lemma RowPrefix(s: seq<real>, o: nat, row: seq<real>, rest: seq<real>)
    requires o <= |s| && s[o..] == row + rest
    ensures o + |row| <= |s| && s[o..o + |row|] == row && s[o + |row|..] == rest
  {
  }

  // ---------- the tables of order 6 ----------

  /** The coefficients of A3 for order 6; it has one row. */
  function A3Cell(l: nat, j: nat): Cell {
    match (l, j)
    case (0, 5) => Cell([-3.0], 128.0)
    case (0, 4) => Cell([-2.0, -3.0], 64.0)
    case (0, 3) => Cell([-1.0, -3.0, -1.0], 16.0)
    case (0, 2) => Cell([3.0, -1.0, -2.0], 8.0)
    case (0, 1) => Cell([1.0, -1.0], 2.0)
    case (0, 0) => Cell([1.0], 1.0)
    case _ => Cell([], 1.0)
  }

  /** The coefficients of C3[1] to C3[5] for order 6. */
  function C3Cell(l: nat, j: nat): Cell {
    match (l, j)
    case (1, 5) => Cell([3.0], 128.0)
    case (1, 4) => Cell([2.0, 5.0], 128.0)
    case (1, 3) => Cell([-1.0, 3.0, 3.0], 64.0)
    case (1, 2) => Cell([-1.0, 0.0, 1.0], 8.0)
    case (1, 1) => Cell([-1.0, 1.0], 4.0)
    case (2, 5) => Cell([5.0], 256.0)
    case (2, 4) => Cell([1.0, 3.0], 128.0)
    case (2, 3) => Cell([-3.0, -2.0, 3.0], 64.0)
    case (2, 2) => Cell([1.0, -3.0, 2.0], 32.0)
    case (3, 5) => Cell([7.0], 512.0)
    case (3, 4) => Cell([-10.0, 9.0], 384.0)
    case (3, 3) => Cell([5.0, -9.0, 5.0], 192.0)
    case (4, 5) => Cell([7.0], 512.0)
    case (4, 4) => Cell([-14.0, 7.0], 512.0)
    case (5, 5) => Cell([21.0], 2560.0)
    case _ => Cell([], 1.0)
  }

  /** The coefficients of C4[0] to C4[5] for order 6. */
  function C4Cell(l: nat, j: nat): Cell {
    match (l, j)
    case (0, 5) => Cell([97.0], 15015.0)
    case (0, 4) => Cell([1088.0, 156.0], 45045.0)
    case (0, 3) => Cell([-224.0, -4784.0, 1573.0], 45045.0)
    case (0, 2) => Cell([-10656.0, 14144.0, -4576.0, -858.0], 45045.0)
    case (0, 1) => Cell([64.0, 624.0, -4576.0, 6864.0, -3003.0], 15015.0)
    case (0, 0) => Cell([100.0, 208.0, 572.0, 3432.0, -12012.0, 30030.0], 45045.0)
    case (1, 5) => Cell([1.0], 9009.0)
    case (1, 4) => Cell([-2944.0, 468.0], 135135.0)
    case (1, 3) => Cell([5792.0, 1040.0, -1287.0], 135135.0)
    case (1, 2) => Cell([5952.0, -11648.0, 9152.0, -2574.0], 135135.0)
    case (1, 1) => Cell([-64.0, -624.0, 4576.0, -6864.0, 3003.0], 135135.0)
    case (2, 5) => Cell([8.0], 10725.0)
    case (2, 4) => Cell([1856.0, -936.0], 225225.0)
    case (2, 3) => Cell([-8448.0, 4992.0, -1144.0], 225225.0)
    case (2, 2) => Cell([-1440.0, 4160.0, -4576.0, 1716.0], 225225.0)
    case (3, 5) => Cell([-136.0], 63063.0)
    case (3, 4) => Cell([1024.0, -208.0], 105105.0)
    case (3, 3) => Cell([3584.0, -3328.0, 1144.0], 315315.0)
    case (4, 5) => Cell([-128.0], 135135.0)
    case (4, 4) => Cell([-2560.0, 832.0], 405405.0)
    case (5, 5) => Cell([128.0], 99099.0)
    case _ => Cell([], 1.0)
  }

  const ORDER := 6
  const A3_TABLE: Table := (l: nat, j: nat) => A3Cell(l, j)
  const C3_TABLE: Table := (l: nat, j: nat) => C3Cell(l, j)
  const C4_TABLE: Table := (l: nat, j: nat) => C4Cell(l, j)

  /** The constant tables have the shape that packing and reading rely on. */
  lemma ConstantTablesShaped()
    ensures RowShaped(A3_TABLE, ORDER, true, 0)
    ensures Shaped(C3_TABLE, ORDER, true, 1)
    ensures Shaped(C4_TABLE, ORDER, false, 0)
  {
    forall l: nat, j: nat | l <= j < ORDER
      ensures l == 0 ==> |A3Cell(l, j).num| == Degree(ORDER, true, j) + 1 && A3Cell(l, j).den != 0.0
      ensures l > 0 ==> |C3Cell(l, j).num| == Degree(ORDER, true, j) + 1 && C3Cell(l, j).den != 0.0
      ensures |C4Cell(l, j).num| == Degree(ORDER, false, j) + 1 && C4Cell(l, j).den != 0.0
    {
      assert j == 0 || j == 1 || j == 2 || j == 3 || j == 4 || j == 5;
      assert l == 0 || l == 1 || l == 2 || l == 3 || l == 4 || l == 5;
    }
    hide C3Cell, C4Cell;
    RowsShaped(C3_TABLE, ORDER, true, 1);
    RowsShaped(C4_TABLE, ORDER, false, 0);
  }

  lemma {:induction false} RowsShaped(t: Table, N: nat, capped: bool, l: nat)
    requires l <= N && forall i :: l <= i < N ==> RowShaped(t, N, capped, i)
    ensures Shaped(t, N, capped, l)
    decreases N - l
  {
    if l < N {
      RowsShaped(t, N, capped, l + 1);
    }
  }
}
