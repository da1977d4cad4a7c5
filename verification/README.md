# Verified models of PROJ's geodesic, codec and invocation code

This Dafny project models the parts of PROJ whose correctness rests on state, on
branching or on two pieces of code that have to agree, and proves what they promise.

* **Geodesic polygons** (`src/geodesic.c`): longitude arithmetic, accumulators, the polygon
  object with its add, compute and test operations, and theorems about whole runs: how the
  crossings count the turns swept, what cutting, rotating and reversing a polygon does to the
  reported area.
* **The inverse geodesic problem** (`src/geodesic.c`): the change to a canonical position and
  back, as a symmetry that holds for every solver; and the safeguarded Newton iteration.
* **Series** (`src/geodesic.c`): Clenshaw summation, and the coefficient tables that one set
  of functions packs and another reads.
* **Text codecs and line reader** (`src/filemanager.cpp`): UTF-8/UTF-16 conversion into
  bounded buffers, and `read_line` over a file in memory.
* **Invocation** (`src/fwd.cpp`, `src/inv.cpp`, `src/adjlon.cpp`): the forward and inverse
  wrappers around an operation, and the round trip through both.
* **Two-dimensional Newton solver** (`src/generic_inverse.cpp`), **derivatives and Tissot
  factors** (`src/deriv.cpp`, `src/factors.cpp`), and the **WKT bracket parser**
  (`scripts/build_db_from_esri.py`).

## How it is modelled

Doubles are exact reals. `remainder` rounds to the nearest multiple with ties to even, as
IEEE 754 has it. Error terms of compensated sums are then zero, which is itself proved from
the code of `sumx` and `accadd`.

Code that changes things in place is a method on a class or an array (`Polygons.Polygon`,
`LineReader.FileMemory`, `InvocationState.Cell` and `Context`, accumulators, coefficient
arrays, conversion buffers). Each such method is proved equal to a function on values, and
the theorems are about those functions: a state of a polygon is what `Value()` returns, a
state of a reader is a `Reader`, a coordinate under way is a `Transit`.

What the code calls but the model does not look into is a parameter: the solvers of the two
geodesic problems, `Lambda12`, the mathematical library, sub-operations such as datum shifts,
the forward projection. Each theorem holds for all of them, subject to the laws it states
(`OddEdge`, `Lawful`, `Sound`, and so on). `InverseSymmetry.EdgeOddExactly` shows for each single
edge when the wrapper of the inverse problem meets the law that cutting and reversing ask of that
edge, and `UndoneByAllExactly` that `UndoneByAll` is the part of it that no solver can spoil. pi is
a positive parameter. `HUGE_VAL`, NaN and error returns are `Option` values or constructors.

## Where the code differs from what it is meant to do

The model follows the code; the exact condition is proved in each case.

* `transit` misses the crossing of a westward half turn from the prime meridian to a longitude
  that is written +180, such as 360 to 180 (`Angles.TransitCountsTurns`). The crossings of a
  polygon are off by the number of such edges (`PolygonTheorems.WindingTheorem`), and with
  longitudes in [-180, 180] there are none.
* Swapping the end points turns the solution round for every solver behind the wrapper exactly
  when the absolute latitudes differ and the longitudes differ as numbers
  (`InverseSymmetry.SwapSymmetryExactly`). Elsewhere it depends on the solver's own answer at the
  canonical position being symmetric (`InverseSymmetry.SwapTurnsExactly`); on one longitude the
  code's answer is (`InverseSymmetry.MeridianTurns`), so that is no failure. Longitudes that differ
  by whole turns are fine: `AngDiff` signs a zero difference by the unreduced one.
* The area under an edge is not always negated by walking it back. Where the inputs do not
  decide the sense in which the canonical line is walked, both ways give the same area: that is
  harmless on a meridian, whose area is zero, but from 30 degrees south on the prime meridian to
  30 degrees north on the opposite one both ways give the same negative area, in doubles
  -pi * c2. Exactly when an edge is undone is
  `InverseSymmetry.EdgeOddExactly`; cutting a polygon along such a diagonal loses area
  (`InverseSymmetry.AntipodalCutFails`), and exactly when cutting conserves area is
  `PolygonTheorems.CutConservesExactly`.
* The comment on the Newton loop says that every evaluation shrinks the range if possible.
  After the Newton budget is spent the bracket is replaced without comparing. That widens it
  exactly if the bracket is inside out and the value is not zero
  (`Bracketing.StepNarrows`). A function with a single root never brings that about, and one with
  two sign changes can (`Bracketing.BracketWidensExample`).
* Where the output of `utf8fromwc` does not fit, the length it returns is not always the
  promised one: from the point where it stops writing, the measuring loop looks one word too far.
  For well-formed UTF-16 it is too large by two for each surrogate pair from there on, so right
  exactly if there is none (`UtfBuffers.ReportedExactly`). For other words it can be too small as
  well; the difference and the exact condition are in `UtfBuffers.ReportedInGeneral`.
* `WStringToUTF8` makes room for one byte per word and does not call again for more, so a string
  comes through exactly if the words that found no room are all NUL; without any NUL, exactly if it
  is ASCII (`UtfBuffers.WStringToUTF8`).
* `UTF8ToWString` throws for "non valid UTF-8", but the decoder yields 0xfffd for nothing except
  its own valid encoding (`UtfBuffers.ReplacementIsNeverAnError`).
* `fwd_prepare` forgives a latitude up to 1e-12 beyond the north pole, but none beyond the south
  pole: both tests subtract the half turn (`Invocation.LatitudeAccepted`).
* A datum shift of cartesian input is applied by `fwd_prepare` and not undone by
  `inv_finalize`; the round trip holds exactly for coordinates it leaves alone
  (`Invocation.CartesianRoundTripExactly`).
* Where a sub-operation of `fwd_finalize` has no result and leaves no error number, `pj_fwd4d`
  returns true with an error coordinate (`Invocation.ForwardEndsBadly`).
* A longitude on or beside the date line need not survive the round trip: with a central
  meridian east of Greenwich -pi comes back as pi (`Invocation.DateLineExample`). Exactly which
  longitudes survive is `Invocation.MeridianKept`.
* The argument that `pj_factors` gives to `aasin` for the angular distortion is a number no greater
  than one exactly if the derivatives are not all zero and their determinant is not negative
  (`Factors.FromDerivatives`). For other reversed maps it exceeds one (`Factors.ReversedExample`),
  but for conformal reflections and flat maps it is a quotient by zero
  (`Factors.ReflectionExample`).
* In a pipeline `pj_factors` multiplies the derivatives by ra * fr_meter, which undoes a scale of
  a / fr_meter (`Factors.RescaledExactly`). `fwd_finalize` scales by a * fr_meter, which is undone
  exactly in metres (`Factors.RescaledFinalized`).
* `geod_polygon_testedge` on an empty polygon returns NaN, where adding the edge and computing
  would return zero (`Polygons.Polygon.TestEdge`).
* `read_line` takes the two bytes of a CRLF for two line ends exactly if the CR is the last byte
  of the buffer that serves the call: the last byte buffered if the line end was buffered before,
  otherwise the last byte that maxLen lets in (`LineReader.CrLfDroppedExactly`).
* The WKT parser drops quotes on the way down. A quoted member of a group comes back as the leaf
  it is exactly if it is not empty and has no comma and no bracket
  (`WktParser.QuotedMemberExactly`); at the top level commas and closing brackets are safe
  (`WktParser.QuotedTopExactly`).

## Model

| member | source | states |
|---|---|---|
| RealMath.Remainder | src/geodesic.c:145-148 | IEEE remainder: within half a modulus, and a whole number of moduli away |
| Angles.AngNormalize | src/geodesic.c:145-148 | the angle modulo 360 in [-180, 180]; a half turn keeps the sign of the argument |
| Angles.AngDiff | src/geodesic.c:153-167 | the difference modulo 360 in [-180, 180], a half turn signed as the unreduced difference |
| Angles.DifferenceUnique | src/geodesic.c:153-167 | those conditions leave one value |
| Angles.AngDiffOdd | src/geodesic.c:153-167 | exchanging the longitudes negates the difference, sign bit of zero included unless the longitudes are equal |
| Angles.TransitCountsTurns | src/geodesic.c:1753-1765 | transit equals floor((lon1+AngDiff)/360) - floor(lon1/360) if and only if the edge is no hidden half turn, where it is one too many |
| Angles.HiddenHalfTurnExample | src/geodesic.c:1753-1765 | from 360 to 180 the crossing is missed |
| Angles.NormalizeInRange | src/geodesic.c:145-148 | identity on [-180, 180] |
| Angles.NoHiddenHalfTurnInRange | src/geodesic.c:1753-1765 | longitudes in [-180, 180] never make a hidden half turn |
| Angles.TransitOdd | src/geodesic.c:1753-1765 | the edge walked back has the opposite crossing if and only if neither way is a hidden half turn, for all longitudes |
| Angles.TransitDirect | src/geodesic.c:1767-1773 | parity of floor(lon2/360) - floor(lon1/360) for all reals |
| AreaReduction.SumX | src/geodesic.c:105-116 | sum plus error term is the exact sum; the error is zero on reals |
| AreaReduction.AccIni | src/geodesic.c:1775-1778 | a cleared accumulator holds zero |
| AreaReduction.AccCopy | src/geodesic.c:1780-1783 | both words are copied and the original is unchanged |
| AreaReduction.AccAdd | src/geodesic.c:1785-1793 | adds, and keeps the error word zero through both branches |
| AreaReduction.AccSum | src/geodesic.c:1795-1801 | accumulator plus y, accumulator unchanged |
| AreaReduction.AccNeg | src/geodesic.c:1803-1806 | negates |
| AreaReduction.AccRem | src/geodesic.c:1808-1812 | reduces to [-y/2, y/2] |
| AreaReduction.AreaReduceB | src/geodesic.c:2009-2031 | the result lies in the promised interval and is congruent to (reverse ? 1 : -1) * (area + crossings * area0 / 2) modulo area0 |
| AreaReduction.SpanUnique | src/geodesic.c:2009-2031 | the interval holds one number of each residue class |
| AreaReduction.ReduceByClass | src/geodesic.c:2009-2031 | areas of the same class reduce to the same number, so the reduction is a function of the class |
| AreaReduction.FlagsMean | src/geodesic.c:2009-2031 | without crossings a small area is negated unless reverse is set, and a negative one is replaced by its complement unless sign is set |
| AreaReduction.EndsMean | src/geodesic.c:2009-2031 | a crossing is worth half the ellipsoid; the half itself is positive, and the whole is zero |
| AreaReduction.AreaReduceA | src/geodesic.c:1985-2007 | the in-place reduction of an accumulator agrees with areareduceB |
| Polygons.Polygon.constructor | src/geodesic.c:1814-1817 | an initialised polygon is an empty one of the requested mode |
| Polygons.Polygon.Clear | src/geodesic.c:1819-1824 | back to the empty polygon in the same mode |
| Polygons.Polygon.AddPoint | src/geodesic.c:1826-1845 | the object moves to the value WithPoint gives: first point starts it, others add length and, for polygons, area and crossing |
| Polygons.Polygon.AddEdge | src/geodesic.c:1847-1866 | the same for an edge given by azimuth and length; no effect without a vertex |
| Polygons.Polygon.Compute | src/geodesic.c:1868-1891 | count, perimeter and reduced area of the closed polygon; object unchanged; no area for polylines |
| Polygons.Polygon.TestPoint | src/geodesic.c:1893-1930 | equals adding the point and computing, in both modes, object unchanged |
| Polygons.Polygon.TestEdge | src/geodesic.c:1932-1972 | equals adding the edge and computing if there is a vertex, else count 0 and NaN; object unchanged |
| PolygonTheorems.PolylineForgetsArea | src/geodesic.c:1826-1866 | over any run a polyline has the polygon's vertices, count and perimeter, and no area or crossings |
| PolygonTheorems.WoundStep | src/geodesic.c:1826-1866 | either operation keeps the winding invariant |
| PolygonTheorems.WindingInvariant | src/geodesic.c:1826-1866 | along every run of addpoint and addedge crossings count the turns swept plus the hidden half turns, modulo two with edges, exactly with points |
| PolygonTheorems.WindingTheorem | src/geodesic.c:1826-1891 | every closed polygon sweeps 360 times a whole number of turns; closed crossings are that number plus the number of hidden half turns for points, and have that parity for mixed runs |
| PolygonTheorems.WindingExactly | src/geodesic.c:1826-1891 | for a polygon built from points, total sweep = 360 * crossings if and only if no edge, the closing one included, is a hidden half turn |
| PolygonTheorems.RunInRange | src/geodesic.c:1826-1845 | runs of points with longitudes in [-180, 180] count every point, keep to that range and have no hidden edge |
| PolygonTheorems.WindingInRange | src/geodesic.c:1826-1891 | for every polygon with longitudes in [-180, 180], total sweep = 360 * crossings, closing edge included |
| PolygonTheorems.RunTally | src/geodesic.c:1826-1845 | the accumulated state is the sum over the edges of the path |
| PolygonTheorems.ReportTally | src/geodesic.c:1868-1891 | what compute reports is the reduced sum over the edges of the cycle |
| PolygonTheorems.RunLegs | src/geodesic.c:1826-1866 | for every run of addpoint and addedge, perimeter, area, crossings, count and end points are those of the positions visited: sums of what the inverse problem answers for points and the direct problem for edges |
| PolygonTheorems.ReportLegs | src/geodesic.c:1868-1891 | the report of every closed run is that sum plus the closing edge, reduced; zero below two positions |
| PolygonTheorems.PolylineReport | src/geodesic.c:1873-1881 | a polyline reports the sum of the lengths without a closing edge, and no area |
| PolygonTheorems.EdgeIsPoint | src/geodesic.c:1847-1866 | an edge whose landing the inverse problem agrees with, swept the shortest way and no hidden half turn, reports what its landing as a point reports |
| PolygonTheorems.ParityReduces | src/geodesic.c:2012-2014 | crossings matter modulo two |
| PolygonTheorems.PolygonArea | src/geodesic.c:1974-1983 | geod_polygonarea reports the polygon with the first n vertices, counter-clockwise positive, signed |
| PolygonTheorems.PathSplit | src/geodesic.c:1826-1845 | the tally of a path is the sum over a split at any vertex |
| PolygonTheorems.CutTally | src/geodesic.c:1826-1891 | the tallies of the two pieces of a cut polygon are that of the whole plus the diagonal there and back |
| PolygonTheorems.CutDeficit | src/geodesic.c:1826-1891 | for every polygon and diagonal, area and perimeter of the pieces exceed those of the whole by the diagonal there and back |
| PolygonTheorems.CutConservesExactly | src/geodesic.c:1826-1891 | cutting conserves area modulo the ellipsoid if and only if the diagonal there and back encloses a whole number of ellipsoids |
| PolygonTheorems.CutConservesArea | src/geodesic.c:1826-1891 | if going back undoes the one diagonal, areas of the pieces add up to the area of the whole modulo the ellipsoid, perimeters to that of the whole plus twice the diagonal; nothing is asked of other edges |
| PolygonTheorems.ReducedSum | src/geodesic.c:1985-2031 | reduction is additive modulo the area of the ellipsoid |
| PolygonTheorems.RotationInvariant | src/geodesic.c:1826-1891 | the report does not depend on which vertex comes first |
| PolygonTheorems.ReversedTally | src/geodesic.c:1826-1845 | if going back undoes each edge, the reversed path has the same length and opposite area and crossings |
| PolygonTheorems.ReversalFlipsFlag | src/geodesic.c:1826-1891 | if going back undoes each of the polygon's own edges, reversing the vertices equals flipping the reverse flag |
| InverseSymmetry.AngRound | src/geodesic.c:169-177 | identity in exact arithmetic |
| InverseSymmetry.Canonicalize | src/geodesic.c:726-762 | 0 <= lon12 <= 180, -90 <= lat1 <= 0, lat1 <= lat2 <= -lat1, and the three signs lead back to the inputs |
| InverseSymmetry.GenInverse | src/geodesic.c:726-762 | the step-by-step wrapper is canonicalise, solve, restore; NaN exactly for latitudes beyond 90 degrees |
| InverseSymmetry.CanonicalKept | src/geodesic.c:1017-1052 | in canonical position the problem goes to the solver as it is, and its answer comes back in all ten fields |
| InverseSymmetry.CanonicalEastward | src/geodesic.c:726-762 | so for every eastward difference from 0 to 180 degrees |
| InverseSymmetry.SolverKept | src/geodesic.c:1023-1052 | for every valid input a12, s12, m12, the scales in the order of the ends and the size of S12 are the solver's own at the canonical position |
| InverseSymmetry.SwappedCanonical | src/geodesic.c:741-751 | both orders of the end points reach the same canonical position with opposite swap flag |
| InverseSymmetry.SwapSymmetry | src/geodesic.c:1017-1052 | whatever the solver, swapping the ends keeps a12, s12, m12, exchanges M12 and M21, negates S12 and turns the azimuths round |
| InverseSymmetry.SwapSymmetryExactly | src/geodesic.c:1017-1052 | this holds for all solvers if and only if absolute latitudes differ and longitudes differ |
| InverseSymmetry.SwapTurnsExactly | src/geodesic.c:1017-1052 | for any solver and any points: the symmetry holds if and only if the solver's answer at the canonical position is symmetric in what the inputs leave undecided |
| InverseSymmetry.EqualCanonical | src/geodesic.c:741-751 | points of equal absolute latitude are not swapped; which signs the two orders exchange |
| InverseSymmetry.MeridianTurns | src/geodesic.c:799-800 | on one longitude and different absolute latitudes the code's own answer is symmetric, so the symmetry holds |
| InverseSymmetry.MeridianReflection | src/geodesic.c:726-762 | for unequal longitudes, negating both negates S12 and eastward azimuth components and keeps the rest |
| InverseSymmetry.MeridianReflectionExactly | src/geodesic.c:726-762 | this holds for all solvers if and only if the longitudes differ |
| InverseSymmetry.EquatorReflection | src/geodesic.c:749-762 | for latitudes that are not both zero, negating both negates S12 and northward azimuth components and keeps the rest |
| InverseSymmetry.EquatorReflectionExactly | src/geodesic.c:749-762 | this holds for all solvers if and only if the latitudes are not both zero |
| InverseSymmetry.EdgeAreaOdd | src/geodesic.c:1017-1052 | walking any edge between valid points back keeps s12, and negates S12 if and only if the inputs decide the sense of the canonical line or that line has no area |
| InverseSymmetry.EdgeAreaOddForAll | src/geodesic.c:1017-1052 | every solver's area is negated if and only if the inputs decide the sense |
| InverseSymmetry.EdgeOddExactly | src/geodesic.c:1017-1052 | a polygon edge is undone by going back if and only if its area is and neither way is a hidden half turn |
| InverseSymmetry.UndoneByAllExactly | src/geodesic.c:1017-1052 | an edge is undone by going back for every solver if and only if the sense is decided and no way is a hidden half turn |
| InverseSymmetry.CutConservesSolvedArea | src/geodesic.c:1826-1891 | for every solver behind the wrapper, cutting along a diagonal whose sense is decided by its end points conserves area |
| InverseSymmetry.ReversalOfSolvedArea | src/geodesic.c:1826-1891 | for every solver, reversing a polygon of such edges equals flipping the reverse flag |
| InverseSymmetry.UndoneInRange | src/geodesic.c:726-762 | different longitudes in [-180, 180] and latitudes that do not mirror each other make such an edge |
| InverseSymmetry.AntipodalCanonical | src/geodesic.c:731-751 | between antipodes both ways reach the same canonical position, with longitude and latitude sign both exchanged |
| InverseSymmetry.AntipodesNotUndone | src/geodesic.c:799-800 | antipodes off the equator: the area of the meridional line is the same both ways, and not zero |
| InverseSymmetry.AntipodalCutFails | src/geodesic.c:1002-1017 | cutting a polygon along such a diagonal does not conserve area |
| InverseSymmetry.AntipodesExample | src/geodesic.c:1002-1017 | (-30, 0) to (30, 180): both ways give c2 times atan2(-tiny, -1) |
| Bracketing.Norm2 | src/geodesic.c:924-934 | normalising keeps the sine positive and the cotangent |
| Bracketing.StartingGuess | src/geodesic.c:1372-1388 | the iteration starts at the normalised guess if its sine is positive, else due east |
| Bracketing.NewtonStep | src/geodesic.c:905-923 | a step is taken only within the budget and only into (0, pi) |
| Bracketing.NewtonTurns | src/geodesic.c:905-918 | the step turns the azimuth by -v / dv, and is taken exactly within 20 evaluations, on a positive slope, for less than a half turn and into (0, pi) |
| Bracketing.NextVisit | src/geodesic.c:900-937 | what follows a visit: the turned azimuth or the middle of the new bracket, the looser test exactly after a Newton step within 16 tol0, and ends replaced by visits of the right sign only |
| Bracketing.Solve | src/geodesic.c:880-938 | the loop makes at most 84 evaluations, stops at the first visit that meets the test of the source, and returns an azimuth in (0, pi) |
| Bracketing.MiddleBetween | src/geodesic.c:932-933 | the bisection point lies between the ends, in cotangents |
| Bracketing.MediantBounds | src/geodesic.c:932-933 | its cotangent is the mediant of theirs, strictly between if they differ |
| Bracketing.LateVisitIsMiddle | src/geodesic.c:905-937 | after maxit1 every iterate is the middle of the current bracket |
| Bracketing.StepNarrows | src/geodesic.c:900-904 | the cotangent bracket narrows on every step if and only if the step is within maxit1, the bracket is ordered or the value is zero |
| Bracketing.InsideOut | src/geodesic.c:900-923 | an oracle with two sign changes turns the bracket inside out in the first steps, and it stays so until the Newton budget is spent |
| Bracketing.BracketWidens | src/geodesic.c:900-904 | the step that follows is part of the run and widens the bracket |
| Bracketing.BracketWidensExample | src/geodesic.c:900-904 | such a problem, with positive tolerances |
| Bracketing.RootStaysBracketed | src/geodesic.c:869-938 | a single root in the initial bracket stays bracketed at every iteration |
| Bracketing.BracketClosesIn | src/geodesic.c:869-938 | then every step narrows the bracket, and after maxit1 every iterate lies inside it |
| Bracketing.InitialBracket | src/geodesic.c:883 | cotangents from -1/tiny to 1/tiny |
| Bracketing.SolveOutcome | src/geodesic.c:894-899 | at the exit the root is bracketed, and the value is within tol0 (8 tol0 after a small Newton step), or the bracket is tiny around the iterate, or the budget is spent |
| Bracketing.MiddleHalves | src/geodesic.c:932-934 | the normalised middle of any two azimuths never widens the angle, and at least halves the tangent of half of it if the end that stays is not the shorter one |
| Bracketing.AlwaysKnown | src/geodesic.c:880-904 | every iterate is normalised, and every end of the bracket is an iterate or an initial one |
| Bracketing.StepHalves | src/geodesic.c:900-937 | no step after the Newton budget widens the bracket, and each at least halves it, except the one that replaces the last initial end |
| Bracketing.StepsHalve | src/geodesic.c:900-937 | so k steps bring it below 2^-(k-2) |
| Bracketing.BudgetSuffices | src/geodesic.c:74-75 | on every run the bisections that maxit2 allows shrink the tangent of half the angle below 2^-60 |
| Clenshaw.ThreeTerm | src/geodesic.c:1092-1113 | three-term recurrence of angle addition on the unit circle |
| Clenshaw.MultipleRecurrence | src/geodesic.c:1092-1113 | recurrence of sin(2ix) and cos(2ix) with multiplier 2 cos(2x) |
| Clenshaw.TermRecurrence | src/geodesic.c:1092-1113 | recurrence of the basis functions of both series |
| Clenshaw.MultipleIsSine | src/geodesic.c:1092-1113 | for every sine and cosine with angle addition the multiples are those of 2 i x |
| Clenshaw.TermIsTrigonometric | src/geodesic.c:1094-1096 | so the basis functions are sin(2 i x) and cos((2 i + 1) x) |
| Clenshaw.ClenshawStep | src/geodesic.c:1104-1110 | reading one more coefficient keeps the partial sum |
| Clenshaw.SinCosSeries | src/geodesic.c:1092-1113 | the unrolled loop returns the sum of c[i] sin(2ix), i = 1..n, or of c[i] cos((2i+1)x), i = 0..n-1, for even and odd n |
| Coefficients.PolySnoc | src/geodesic.c:118-122 | appending a coefficient is one Horner step of the explicit polynomial |
| Coefficients.Polyvalx | src/geodesic.c:118-122 | equals the explicit polynomial sum; zero for negative order |
| Coefficients.PackCell | src/geodesic.c:1646-1650 | one slot is the polynomial in n over its denominator |
| Coefficients.PackRow | src/geodesic.c:1687-1694 | the inner loop reads one row of the table to its end and appends one number per cell |
| Coefficients.PackRows | src/geodesic.c:1687-1694 | the double loop reads the whole table and fills the array exactly |
| Coefficients.A3coeff | src/geodesic.c:1630-1651 | fills exactly N slots with the coefficients of A3 |
| Coefficients.C3coeff | src/geodesic.c:1654-1695 | fills exactly N (N-1) / 2 slots, row after row |
| Coefficients.C4coeff | src/geodesic.c:1698-1751 | fills exactly N (N+1) / 2 slots, row after row |
| Coefficients.RowIsSeries | src/geodesic.c:1497-1521 | eps^l times the polynomial of a packed row is the sum of coefficient(l, j) eps^j |
| Coefficients.A3f | src/geodesic.c:1492-1495 | evaluates the packed coefficients to the series of A3 |
| Coefficients.C3f | src/geodesic.c:1497-1508 | c[l] is the sum over j = l..N-1 of coefficient(l, j) eps^j, for l = 1..N-1; the rest of c unchanged |
| Coefficients.C4f | src/geodesic.c:1510-1521 | the same for l = 0..N-1 |
| Coefficients.ReadRow | src/geodesic.c:1502-1507 | the offset of a row and the next one, and its value |
| Coefficients.ConstantTablesShaped | src/geodesic.c:1631-1742 | the literal tables of order 6 have the layout that packing expects |
| Utf.Utf8Decode | src/filemanager.cpp:236-308 | advances one to four bytes without passing the end, to a code below 0x110000 |
| Utf.DecodeBytes | src/filemanager.cpp:236-308 | decoding undoes encoding for every code point, whatever follows |
| Utf.CharDecodes | src/filemanager.cpp:236-308 | a well-formed character decodes to the number whose encoding it is |
| Utf.MalformedDecodes | src/filemanager.cpp:236-308 | anything else is one byte, read as CP1252 or ISO 8859-1 |
| Utf.CharValue | src/filemanager.cpp:236-308 | a well-formed character decodes to the number that section 3 of RFC 3629 gives it |
| Utf.UnitValue | src/filemanager.cpp:485-490 | a surrogate pair spells the number that section 2.2 of RFC 2781 gives it, other words themselves |
| Utf.TableOneToOne | src/filemanager.cpp:186-193 | no two bytes of the table share a number, and which ones stand for themselves |
| Utf.WideRoundTrip | src/filemanager.cpp:458-521 | utf8towc returns what utf8fromwc was given, for every sequence of words, unpaired surrogates included |
| Utf.StrictIsGeneralized | src/filemanager.cpp:183-184 | section 4 of RFC 3629 is part of the accepted grammar |
| Utf.FirstChar | src/filemanager.cpp:345-385 | the first character of a generalized string as bytes and as words |
| Utf.BytesRoundTrip | src/filemanager.cpp:345-385 | utf8fromwc returns what utf8towc was given, for RFC 3629 with single surrogates |
| Utf.FromWideGeneralized | src/filemanager.cpp:458-521 | whatever utf8fromwc writes follows that grammar |
| Utf.ByteRoundTripExactly | src/filemanager.cpp:458-521 | bytes come back if and only if they follow that grammar |
| Utf.Rfc3629RoundTrip | src/filemanager.cpp:345-385 | in particular for every string of section 4 of RFC 3629 |
| UtfBuffers.Utf8ToWc | src/filemanager.cpp:345-406 | the count is the full length for every dstlen; the whole buffer afterwards: the characters that fit, a terminator, and what was there |
| UtfBuffers.WideFirst | src/filemanager.cpp:350-385 | what is left in the buffer is the start of the conversion, all of it if there is room and all but two words of the room otherwise |
| UtfBuffers.NextWords | src/filemanager.cpp:356-376 | the branches of the writing loop convert the character at hand and advance past it |
| UtfBuffers.CountWide | src/filemanager.cpp:386-405 | the second phase measures the rest |
| UtfBuffers.Utf8FromWc | src/filemanager.cpp:458-545 | the whole buffer afterwards: the characters that fit, a terminator, and what was there; the count is the full length if it fits, and in every case the true length up to the cut point plus what the measuring loop makes of the rest |
| UtfBuffers.WrittenFirst | src/filemanager.cpp:463-521 | what is written is the start of the conversion, all of it if there is room and all but four bytes of the room otherwise |
| UtfBuffers.CountNarrow | src/filemanager.cpp:523-545 | the second phase as it is written |
| UtfBuffers.NextBytes | src/filemanager.cpp:463-521 | the branches of the writing loop encode the character at hand and advance past it |
| UtfBuffers.Put | src/filemanager.cpp:463-521 | all units of a character are written if the terminator still fits, else the terminator, and nothing else is touched |
| UtfBuffers.MeasuredExcess | src/filemanager.cpp:523-545 | on well-formed UTF-16 the measuring loop counts two bytes too many per pair |
| UtfBuffers.MeasuredExactly | src/filemanager.cpp:523-545 | so on well-formed UTF-16 it measures the length if and only if there is no pair |
| UtfBuffers.CutKeepsPairs | src/filemanager.cpp:463-521 | the writing phase never stops inside a pair |
| UtfBuffers.ReportedExactly | src/filemanager.cpp:458-545 | for well-formed UTF-16 and every dstlen, the returned count is too large by two per pair after the cut point, and right if and only if there is none |
| UtfBuffers.MeasuredSaves | src/filemanager.cpp:523-545 | for any words, what the measuring loop counts: each word on its own less what it saves on false pairs |
| UtfBuffers.LengthSaves | src/filemanager.cpp:463-521 | for any words, the true length: each word on its own less two per pair |
| UtfBuffers.ReportedInGeneral | src/filemanager.cpp:458-545 | for any words and every dstlen, the difference between returned count and length, and when it is zero |
| UtfBuffers.ReportedExamples | src/filemanager.cpp:531-539 | the calls that return six for four bytes and seven for nine |
| UtfBuffers.MeasuredPairExample | src/filemanager.cpp:531-539 | without a buffer one pair is reported as six bytes and has four; a high surrogate, another word and a low one are reported as seven and have nine |
| UtfBuffers.UTF8ToWString | src/filemanager.cpp:413-424 | the full conversion, or an exception if it contains 0xfffd |
| UtfBuffers.ReplacementIsNeverAnError | src/filemanager.cpp:413-424 | 0xfffd comes from EF BF BD and nothing else |
| UtfBuffers.FromWideLength | src/filemanager.cpp:549-555 | the conversion has one byte per word if and only if the string is ASCII |
| UtfBuffers.NoNulBytes | src/filemanager.cpp:458-521 | no NUL comes out where none went in |
| UtfBuffers.NulsConverted | src/filemanager.cpp:458-545 | a conversion is all NUL if and only if its words are, and is then measured right |
| UtfBuffers.WStringToUTF8 | src/filemanager.cpp:549-555 | a string is converted if and only if the words without room are all NUL; without NUL, if and only if it is ASCII |
| LineReader.LineEnd | src/filemanager.cpp:99 | position of the first CR or LF |
| LineReader.TerminatorAt | src/filemanager.cpp:109-113 | the terminator dropped is the one in the buffer |
| LineReader.FileMemory.constructor | src/filemanager.cpp:908-937 | an opened file has all its bytes unread |
| LineReader.FileMemory.Read | src/filemanager.cpp:940-952 | hands out the next bytes, as many as there are up to the size asked for |
| LineReader.FileMemory.ReadLine | src/filemanager.cpp:93-143 | the loop hands out the line that NextLine cuts, both flags, and leaves its remainder |
| LineReader.FileMemory.Refill | src/filemanager.cpp:136-141 | the buffer is filled up to the limit, and a short read is remembered |
| LineReader.Prepared | src/filemanager.cpp:97-142 | one refill is enough, and moves bytes without losing any |
| LineReader.ServeConserves | src/filemanager.cpp:98-134 | cutting a line splits the buffer into text, terminator and remainder |
| LineReader.CallConserves | src/filemanager.cpp:93-143 | one call takes text and terminator off the front of what is left; text is no longer than maxLen and 1048576 and has no CR or LF |
| LineReader.CallProgresses | src/filemanager.cpp:119-134 | end of file is reported if and only if nothing is left, and until then bytes are consumed |
| LineReader.LimitReachedExactly | src/filemanager.cpp:101-126 | maxLenReached is set if and only if no line end comes before maxLen (at most 1048576) and so much is left, save for one buffered right at it; then so much is handed out |
| LineReader.RunConserves | src/filemanager.cpp:93-143 | over any run with any limits, texts and terminators concatenate to the bytes consumed |
| LineReader.RunReachesEnd | src/filemanager.cpp:93-143 | enough calls consume the whole file and report its end |
| LineReader.ShortLineRead | src/filemanager.cpp:93-143 | without CR, a line shorter than maxLen is read whole |
| LineReader.LfFileRead | src/filemanager.cpp:93-143 | an LF-only file with lines shorter than maxLen (at most a mebibyte) is read as its LF-separated lines, and maxLenReached is never set |
| LineReader.CrLfDropped | src/filemanager.cpp:99-117 | a line ended by CR LF within the limit, or at it if buffered, is handed out whole; the whole terminator is dropped if and only if the buffer reaches beyond the CR, else the LF is left behind |
| LineReader.CrLfDroppedExactly | src/filemanager.cpp:93-143 | the same condition in terms of the reader before the call and maxLen |
| LineReader.CrLfAtStart | src/filemanager.cpp:93-143 | for a fresh file: if and only if the CR is not the last of the first maxLen bytes |
| LineReader.LfLeftBehind | src/filemanager.cpp:93-143 | an LF left behind is an empty line of its own |
| LineReader.SplitTerminatorExample | src/filemanager.cpp:109-113 | a file whose CR ends the buffer: its LF makes an extra empty line |
| LongitudeWrap.AdjLon | src/adjlon.cpp:7-23 | congruent modulo a turn, within a half turn and 1e-12, and unchanged where it was already |
| LongitudeWrap.AdjLonRecoversExactly | src/adjlon.cpp:7-23 | a longitude is recovered from a congruent one if and only if that one is it, or is reduced and the longitude is in [-pi, pi) |
| LongitudeWrap.AdjLonRecovers | src/adjlon.cpp:7-23 | a longitude more than 1e-12 inside the half turns is recovered from any congruent one |
| Invocation.Trans | src/fwd.cpp:94-113 | an absent sub-operation and an error coordinate pass unchanged; a result means that there was an input, and leaves the error number alone |
| Invocation.TransUndone | src/fwd.cpp:94-113 | a successful sub-operation is undone by its other direction |
| Invocation.OffsetUndone | src/inv.cpp:75-79 | false origin and units are taken off again |
| Invocation.LongWrapExactly | src/fwd.cpp:177-182 | the long wrap leaves a longitude alone if and only if it is near the centre, and stays in its class |
| Invocation.OutputUnitsUndone | src/inv.cpp:58-99 | the unit switch of inv_prepare undoes that of fwd_finalize in all six cases, up to the long wrap |
| Invocation.FinalizeUndone | src/inv.cpp:39-100 | inv_prepare undoes fwd_finalize up to whole turns of an angular longitude, and exactly if and only if that is near the centre of the long wrap or not wrapped |
| Invocation.ToLocalUndone | src/inv.cpp:124-134 | the datum shift chain of inv_finalize undoes that of fwd_prepare |
| Invocation.ShiftedUndone | src/inv.cpp:119-140 | together with the vertical shift and geocentric latitude |
| Invocation.UnshiftedUndone | src/fwd.cpp:90-113 | and the other way round |
| Invocation.MeridianUndone | src/inv.cpp:113-117 | taking the central meridian off and putting it back keeps the longitude modulo a turn, and keeps it exactly if and only if MeridianKept holds |
| Invocation.KeptInside | src/inv.cpp:113-117 | that holds for every longitude more than 1e-12 inside the half turns |
| Invocation.DateLineExample | src/inv.cpp:113-117 | and not at the date line: -pi comes back as pi |
| Invocation.AcceptedUnchanged | src/fwd.cpp:42-83 | accepted angles are left as they are if and only if they are on the map, up to 1e-12 in longitude, or anywhere in longitude if over-range is allowed |
| Invocation.AcceptedTwice | src/fwd.cpp:42-83 | the accepted input is prepared to the same coordinate, and accepted as it is |
| Invocation.PrepareUndone | src/inv.cpp:102-142 | inv_finalize after fwd_prepare returns the accepted input if and only if the central meridian step (or the shift of cartesian input) leaves it alone |
| Invocation.SucceedsCleanly | src/fwd.cpp:270-311 | a forward run with a result raised no error in any step |
| Invocation.BackToMapped | src/inv.cpp:223-264 | the inverse of any forward run with a result continues with the converted coordinate, up to the long wrap |
| Invocation.BackToPrepared | src/inv.cpp:223-264 | if the converters undo each other, the inverse of a forward run with a result is inv_finalize of what fwd_prepare produced |
| Invocation.UnwrappedReconverts | src/fwd.cpp:177-182 | the converters undo each other where the long wrap moves nothing |
| Invocation.TurnBlindReconverts | src/fwd.cpp:177-182 | and where the inverse converter does not see whole turns |
| Invocation.RoundTripInGeneral | src/inv.cpp:223-264 | with no condition on converters and longitudes: the accepted input comes back if and only if the reconverted coordinate is its shifted form once the central meridian is put back |
| Invocation.RoundTripExactly | src/inv.cpp:223-264 | if the converters undo each other, pj_inv4d after a pj_fwd4d with a result returns the accepted input if and only if the preparations undo each other on it, for every unit kind, and both leave last_errno as found |
| Invocation.RoundTrip | src/inv.cpp:223-264 | pj_inv4d after pj_fwd4d returns an input on the map and off the date line, and both leave last_errno as found |
| Invocation.LongWrapRoundTrip | src/fwd.cpp:177-182 | where the inverse converter carries whole turns over, the accepted input comes back if and only if its longitude does; always for longitudes well inside the half turns unless over-range is allowed |
| Invocation.RestoredExactly | src/inv.cpp:113-117 | putting the central meridian back to any longitude of the prepared class, the exact condition for the original one |
| Invocation.CartesianRoundTripExactly | src/fwd.cpp:132-135 | for cartesian input the round trip holds if and only if the unmirrored datum shift leaves the coordinate alone |
| Invocation.LatitudeAccepted | src/fwd.cpp:46-69 | which latitudes are accepted: up to 1e-12 beyond the north pole, none beyond the south pole |
| Invocation.LongitudeAccepted | src/fwd.cpp:71-83 | accepted up to ten radians, and reduced by whole turns to the half turns around zero unless over-range is allowed |
| Invocation.LegsMirror | src/inv.cpp:119-140 | the shifts of inv_finalize are those of fwd_prepare backwards, each in the other direction |
| Invocation.ShiftedFollows | src/fwd.cpp:90-113 | both shift chains as lists of sub-operations with directions |
| Invocation.FollowPasses | src/fwd.cpp:90-113 | a chain has a result if and only if each sub-operation has one where those before it lead; else it leaves the error number of the first that has none |
| Invocation.ConvertByDimension | src/fwd.cpp:282-290 | the converter of the highest dimension there is decides, and which components it changes |
| Invocation.FwdPreparedExactly | src/fwd.cpp:40-136 | fwd_prepare has a result if and only if the angles are accepted and the shifts have one |
| Invocation.FwdFinalizedExactly | src/fwd.cpp:138-189 | fwd_finalize has a result if and only if its sub-operations have one |
| Invocation.ForwardExactly | src/fwd.cpp:270-311 | pj_fwd4d has a result if and only if each part has one where the part before it leads and there is a converter; it then succeeds with last_errno as found |
| Invocation.ForwardRefuses | src/fwd.cpp:270-311 | the error of unaccepted angles, of the first failing shift, of no converter at all and of a failing converter |
| Invocation.ForwardEndsBadly | src/fwd.cpp:301-310 | a sub-operation of fwd_finalize without a result fails the call with its error number, or, if it left none, lets it claim success with an error coordinate |
| Invocation.BareForward | src/fwd.cpp:282-311 | what a two-, three- or four-dimensional converter alone returns |
| Invocation.InvPreparedExactly | src/inv.cpp:39-100 | inv_prepare has a result if and only if its sub-operations have one |
| Invocation.InvFinalizedExactly | src/inv.cpp:102-142 | inv_finalize has a result if and only if the shifts backwards have one |
| Invocation.InverseExactly | src/inv.cpp:223-264 | the same as for pj_fwd4d |
| Invocation.InverseRefuses | src/inv.cpp:223-264 | the error of an error coordinate, of no converter at all and of a failing converter |
| Invocation.BareInverse | src/inv.cpp:223-264 | what a two-, three- or four-dimensional converter alone returns |
| Invocation.OutputInMetres | src/fwd.cpp:140-185 | what the output means in metres for each unit kind: semimajor axis, false origin and height |
| Invocation.AnglesPrepared | src/fwd.cpp:115-122 | the prepared longitude is the shifted one less the prime meridian and the central meridian, reduced |
| InvocationState.ProjTrans | src/fwd.cpp:94-113 | a sub-operation in place, with its error left in the context |
| InvocationState.FwdPrepare | src/fwd.cpp:40-136 | the steps in place are FwdPrepared, error number included |
| InvocationState.ApplyShifts | src/fwd.cpp:90-113 | the order of the datum shift steps |
| InvocationState.FwdFinalize | src/fwd.cpp:138-189 | the unit switch and the axis swap in place |
| InvocationState.InvPrepare | src/inv.cpp:39-100 | its counterpart |
| InvocationState.InvFinalize | src/inv.cpp:102-142 | its counterpart |
| InvocationState.RunConverter | src/fwd.cpp:270-311 | the converter of the highest dimension there is |
| InvocationState.Fwd4d | src/fwd.cpp:270-311 | return value, coordinate and last_errno after the call |
| InvocationState.Inv4d | src/inv.cpp:223-264 | return value, coordinate and last_errno after the call |
| InvocationState.ThereAndBack | src/inv.cpp:223-264 | both calls in sequence on one coordinate leave the accepted input under the exact condition |
| GenericInverse.Solve | src/generic_inverse.cpp:44-111 | at most 15 iterations; the first point within tolerance on both axes, or the error; every point but the guess in [-pi, pi] x [-pi/2, pi/2] |
| GenericInverse.StepSolves | src/generic_inverse.cpp:60-106 | on any map, where the residual is above 1e-6 and the slopes at the point are independent, the step is the displacement they predict the residual for, limited to 0.3 per axis and the domain |
| GenericInverse.StepUnique | src/generic_inverse.cpp:79-87 | there is exactly one such displacement |
| GenericInverse.MatrixKept | src/generic_inverse.cpp:60-87 | below 1e-6, or with dependent slopes, the last matrix is used on the new residual |
| GenericInverse.NextMoves | src/generic_inverse.cpp:51-107 | which matrix a step uses, and that it moves by its limited correction |
| GenericInverse.EstimatedExactly | src/generic_inverse.cpp:63-87 | the estimate is the inverse of the matrix of slopes at the point, or the old one |
| GenericInverse.EstimateExact | src/generic_inverse.cpp:60-87 | the numerical inverse Jacobian of an affine map is its inverse matrix |
| GenericInverse.CorrectionExact | src/generic_inverse.cpp:92-101 | the unlimited correction of an affine map is the whole displacement |
| GenericInverse.AffineStep | src/generic_inverse.cpp:51-107 | one iteration on an affine map moves by the displacement, limited to 0.3 per axis |
| GenericInverse.AffineTrace | src/generic_inverse.cpp:51-107 | after n iterations n times 0.3 is gone from the distance along each axis |
| GenericInverse.AffineConverges | src/generic_inverse.cpp:44-111 | any guess within 14 * 0.3 per axis of the solution of an invertible affine map reaches it within the budget |
| GenericInverse.SolveAffine | src/generic_inverse.cpp:44-111 | so the solver returns success on it |
| Derivatives.PjDeriv | src/deriv.cpp:8-70 | fails if and only if the square passes a pole or a corner has no image, else the mean central differences; not a number for a zero step |
| Derivatives.EastWest | src/deriv.cpp:19-64 | the corner sums of pj_deriv for lambda, on a quadratic map |
| Derivatives.NorthSouth | src/deriv.cpp:19-64 | the corner sums of pj_deriv for phi |
| Derivatives.QuadraticExact | src/deriv.cpp:8-70 | exact partial derivatives for every quadratic map |
| Factors.Lagrange | src/factors.cpp:108-113 | squared determinant is at most the product of the squared columns |
| Factors.ArealBound | src/factors.cpp:90-113 | s^2 <= (h k)^2 for all derivatives, cosphi > 0 and es < 1 |
| Factors.LinearScales | src/factors.cpp:90-110 | h, k and s are the meridional, parallel and areal scales, on sphere and ellipsoid |
| Factors.TissotAxes | src/factors.cpp:115-121 | radicands are non-negative; a b = s, a^2 + b^2 = h^2 + k^2, a >= abs(b); a + b = 0 if and only if h = k and s = -h k |
| Factors.SignOfArea | src/factors.cpp:108-110 | the areal scale has the sign of the determinant of the derivatives |
| Factors.ScalesVanish | src/factors.cpp:90-110 | both linear scales are zero if and only if all derivatives are |
| Factors.TrueScale | src/factors.cpp:90-110 | a map whose derivatives are the radii of curvature has scales one in every respect |
| Factors.Convergence | src/factors.cpp:105-106 | where the image of the meridian points east of grid north by an angle, the convergence is minus that angle |
| Factors.FromDerivatives | src/factors.cpp:90-125 | a full set of factors: first aasin argument in [-1, 1] where it is a number; second a number if and only if not h = k with s = -h k, then non-negative, and at most one if and only if the determinant is not negative and the map is not flat |
| Factors.ReversedExample | src/factors.cpp:124-125 | derivatives (1, 0, 0, -2) on the sphere: the argument is three |
| Factors.ReflectionExample | src/factors.cpp:124-125 | derivatives (1, 0, 0, -1) on the sphere: the argument is a quotient by zero |
| Factors.OmegaExamples | src/factors.cpp:90-125 | both as computed |
| Factors.Locate | src/factors.cpp:48-68 | the point of the derivatives: geographic, pulled inside the poles, central meridian taken off |
| Factors.CentreInside | src/factors.cpp:52-55 | one step either way stays between the poles if and only if the step is at most a quarter turn |
| Factors.CentreLongitude | src/factors.cpp:57-68 | the longitude of the point plus the central meridian is the input longitude, up to turns, exactly with over-range or within the half turns; the longitude itself in a pipeline |
| Factors.CentreShifts | src/factors.cpp:64-68 | moving point and central meridian together changes nothing, and on it the longitude is zero |
| Factors.CentreLatitude | src/factors.cpp:52-55 | latitudes with room for the step are kept, others go to the nearer bound |
| Factors.CentralScales | src/factors.cpp:77-88 | the derivatives of a scaled map with a false origin are those of the map, scaled |
| Factors.RescaledExactly | src/factors.cpp:83-88 | the rescaling gives back the derivatives of the unit map if and only if the map is that map times a / fr_meter, or flat |
| Factors.RescaledFinalized | src/factors.cpp:77-88 | a scale of a * fr_meter is undone if and only if fr_meter is one, or the map flat |
| Factors.PjFactors | src/factors.cpp:15-129 | fails exactly for inputs out of range or without derivatives, else the factors at that point |
| WktParser.TokensShort | scripts/build_db_from_esri.py:820-848 | no token is longer than the text, so the mutual recursion ends |
| WktParser.ParseWkt | scripts/build_db_from_esri.py:811-817 | returns the tree of the recursive specification, or raises with it |
| WktParser.ParseWktArray | scripts/build_db_from_esri.py:820-853 | the character loop returns the list of trees of the specification; the depth counter stays non-negative |
| WktParser.PrintedTokens | scripts/build_db_from_esri.py:826-845 | a printed tree goes into the current token without its quotes and leaves the depth as it was |
| WktParser.PrintedAllTokens | scripts/build_db_from_esri.py:826-845 | inside brackets so does a list with its commas |
| WktParser.TopTokens | scripts/build_db_from_esri.py:841-848 | at the top the commas separate the members, and the depth ends at zero |
| WktParser.SplitsExactly | scripts/build_db_from_esri.py:826-846 | splitting raises if and only if the brackets outside quotes do not balance |
| WktParser.Raises | scripts/build_db_from_esri.py:811-846 | unbalanced text and an empty member before a comma raise |
| WktParser.TreeRoundTrip | scripts/build_db_from_esri.py:811-817 | a tree printed without quotes parses to itself |
| WktParser.ForestRoundTrip | scripts/build_db_from_esri.py:820-853 | a printed forest, leaves quoted or not, parses to itself |
| WktParser.TreeRoundTripExactly | scripts/build_db_from_esri.py:811-817 | any printed tree parses to itself if and only if it is not a quoted leaf |
| WktParser.BracketParsed | scripts/build_db_from_esri.py:811-817 | after a name and a bracket everything but the last character, whatever it is, is parsed as the list |
| WktParser.SingleLeaf | scripts/build_db_from_esri.py:820-853 | quote-free text parses to itself as one leaf if and only if it is not empty and has no comma or bracket |
| WktParser.QuotedMemberExactly | scripts/build_db_from_esri.py:811-853 | a quoted member of a group comes back as that leaf if and only if it is not empty and has no comma or bracket |
| WktParser.QuotedTopExactly | scripts/build_db_from_esri.py:820-853 | at the top level, if and only if it is not empty and has no opening bracket |
| WktParser.QuotedCommaSplits | scripts/build_db_from_esri.py:826-845 | a quoted member with a comma inside comes back as two |

## Left out

- Rounding, signed zero and NaN arithmetic: numbers are exact reals, so accuracy (error-freeness of `sumx`, the effect of `AngRound` and `tiny`) is not stated. Where the code tests a sign bit of zero, the model decides it by the sign of the unreduced quantity.
- The analytic content of `Lambda12`, `InverseStart`, `Lengths`, `Astroid`, `geod_genposition`, the meridional and equatorial solver and the direct problem: they are parameters.
- The tables and series of A1, A2, C1, C1', C2: the same packing and reading pattern with fewer indices.
- The entries of the constant tables of A3, C3, C4 and CP1252 are transcribed; only their layout, and for CP1252 that it is one to one, is stated.
- Overflow of the polygon's `num` and `crossings`, of loop counters and of lengths passed as `unsigned`.
- Null output pointers and output masks of the geodesic functions: all outputs are always asked for, except that polylines have no area.
- Polygons.Polygon.constructor: the mode flag is a boolean, not an integer tested against zero.
- InverseSymmetry.SwapSymmetry: equal absolute latitudes and equal longitudes are not covered, because there the order of the end points decides; `InverseSymmetry.SwapSymmetryExactly` and `InverseSymmetry.SwapTurnsExactly` have the exact conditions.
- The branch of the codecs for 32-bit `wchar_t`, and the strict mode of RFC 3629 that the source switches off.
- Splitting a whole file at CRLF: when a line end is split is exact per call, and the lines of a run follow from it; conservation is proved for all files.
- Seeking, telling and writing of files, and all other file classes: a `Steady` reader is one whose position nobody else moves.
- `wkt_array_to_dict`, which post-processes level zero of the parser.
- The two- and three-dimensional entry points `pj_fwd`, `pj_fwd3d`, `pj_inv`, `pj_inv3d`, which share the modelled steps.
- Coordinates of which only some components are HUGE_VAL, and the defaults for a missing height or time: a coordinate is finite or the error coordinate.
- Invocation.Trans: alternatives of `proj_trans` are not modelled, and later steps of a chain pass an error coordinate on with its error number, where the code may let them run into it again.
- The statements of `inv_finalize` that follow its own error: the entry point has already returned by then.
- Invocation.RoundTrip: its conditions are sufficient; the exact ones are in `Invocation.RoundTripExactly`, `Invocation.LongWrapRoundTrip` and, for converters of which nothing is known at a longitude moved by the long wrap, `Invocation.RoundTripInGeneral`.
- InverseSymmetry.AntipodesNotUndone: that the meridional line is accepted (`m12x >= 0`) is a hypothesis on the solver, as reduced lengths are not modelled.
- Factors.FromDerivatives: the values of the inverse sines and the errors `aasin` raises are not modelled; their arguments are.
- Error messages, logging, and the error number bookkeeping of `pj_factors`.
- Initialisation of ellipsoids, datums and operations, pipelines, resource files, networks and databases.
