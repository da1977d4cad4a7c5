/** The forward and inverse entry points (src/fwd.cpp and src/inv.cpp): two separately
    written chains of pre- and post-processing around an operation. */
module Invocation {
  import opened Basics
  import opened RealMath
  import opened LongitudeWrap

  /** Four components with a meaning that depends on the unit kind, or the error
      coordinate, whose components are all HUGE_VAL. */
  datatype Coord = Coord(v0: real, v1: real, v2: real, v3: real) | Error

  datatype Units = Whatever | Classic | Projected | Cartesian | Radians | Degrees

  /** A sub-operation with its two directions, and the error number that it leaves behind
      when it has no result in a direction. */
  datatype Op = Op(forward: Coord -> Coord, inverse: Coord -> Coord, code: (bool, Coord) -> int)

  /** The converters of one direction: on all four components, on the first three, or on
      the first two; None of a result is HUGE_VAL, with the error number it leaves. */
  datatype Converters = Converters(
    four: Option<Coord -> Coord>,
    three: Option<(real, real, real) -> Option<(real, real, real)>>,
    two: Option<(real, real) -> Option<(real, real)>>,
    code: Coord -> int)

  /** What the entry points read of a PJ object. */
  datatype PJ = PJ(
    left: Units, right: Units, pi: real, over: bool,
    geoc: Option<Op>, hgridshift: Option<Op>, vgridshift: Option<Op>, helmert: Option<Op>,
    cart: Option<Op>, cartWgs84: Option<Op>, axisswap: Option<Op>, isGeocent: bool,
    fromGreenwich: real, lam0: real, a: real, ra: real, x0: real, y0: real, z0: real,
    frMeter: real, toMeter: real, vfrMeter: real, vtoMeter: real,
    longWrap: Option<real>,
    fwd: Converters, inv: Converters,
    skipFwdPrepare: bool, skipFwdFinalize: bool, skipInvPrepare: bool, skipInvFinalize: bool)

  const EPS_LAT := 0.000000000001
  const INVALID_COORD := 2049
  const OUTSIDE_PROJECTION_DOMAIN := 2050
  const NO_INVERSE_OP := 4098

  /** A coordinate on its way, and the error number of the context. */
  datatype Transit = Transit(coo: Coord, errno: int)

  // ---------- steps ----------

  /** proj_trans with a possibly absent operation. */
  function Trans(op: Option<Op>, forward: bool, t: Transit): (r: Transit)
    ensures op.None? || t.coo.Error? ==> r == t
    ensures r.coo.Coord? ==> t.coo.Coord? && r.errno == t.errno
  {
    if op.None? || t.coo.Error? then t
    else
      var c := if forward then op.value.forward(t.coo) else op.value.inverse(t.coo);
      if c.Error? then Transit(Error, op.value.code(forward, t.coo)) else t.(coo := c)
  }

  function WithLam(t: Transit, lam: real): Transit
    requires t.coo.Coord?
  {
    t.(coo := t.coo.(v0 := lam))
  }

  /** The longitude, reduced unless the operation allows over-range. */
  function Wrapped(P: PJ, lam: real): real
    requires P.pi > 0.0
  {
    if P.over then lam else AdjLon(P.pi, lam)
  }

  predicate HasDatumShift(P: PJ) {
    P.helmert.Some? || (P.cartWgs84.Some? && P.cart.Some?)
  }

  /** Through cartesian space from the WGS84 frame to the local one, and back. */
  function ToLocal(P: PJ, t: Transit): Transit {
    if P.hgridshift.Some? then Trans(P.hgridshift, false, t)
    else if HasDatumShift(P) then Trans(P.cart, false, Trans(P.helmert, false, Trans(P.cartWgs84, true, t)))
    else t
  }

  function ToWgs84(P: PJ, t: Transit): Transit {
    if P.hgridshift.Some? then Trans(P.hgridshift, true, t)
    else if HasDatumShift(P) then Trans(P.cartWgs84, false, Trans(P.helmert, true, Trans(P.cart, true, t)))
    else t
  }

  /** Latitude of an accepted angular input: up to 1e-12 beyond the north pole is pulled
      back, everything beyond the south pole is refused. */
  function CheckedPhi(P: PJ, phi: real): Option<real> {
    var halfPi := P.pi / 2.0;
    if Abs(phi) <= halfPi then Some(phi)
    else if phi > 0.0 then if phi - halfPi > EPS_LAT then None else Some(halfPi)
    else if phi - halfPi < -EPS_LAT then None
    else Some(-halfPi)
  }

  function CheckedLam(P: PJ, lam: real): Option<real>
    requires P.pi > 0.0
  {
    if Abs(lam) <= P.pi then Some(lam)
    else if Abs(lam) > 10.0 then None
    else Some(Wrapped(P, lam))
  }

  /** The angular input before the central meridian is taken off. */
  function Shifted(P: PJ, t: Transit): Transit {
    Trans(P.vgridshift, true, ToLocal(P, Trans(P.geoc, false, t)))
  }

  /** The same steps backwards. */
  function Unshifted(P: PJ, t: Transit): Transit {
    Trans(P.geoc, true, ToWgs84(P, Trans(P.vgridshift, false, t)))
  }

  /** fwd_prepare. */
  function FwdPrepared(P: PJ, t: Transit): Transit
    requires P.pi > 0.0
  {
    if t.coo.Error? then t
    else if P.left == Radians then
      var phi, lam := CheckedPhi(P, t.coo.v1), CheckedLam(P, t.coo.v0);
      if phi.None? || lam.None? then Transit(Error, INVALID_COORD)
      else
        var s := Shifted(P, t.(coo := t.coo.(v0 := lam.value, v1 := phi.value)));
        if s.coo.Error? then s
        else WithLam(s, Wrapped(P, (s.coo.v0 - P.fromGreenwich) - P.lam0))
    else if P.left == Cartesian then Trans(P.helmert, false, t)
    else t
  }

  function Scaled(c: Coord, f: real): Coord
    requires c.Coord?
  {
    Coord(c.v0 * f, c.v1 * f, c.v2 * f, c.v3)
  }

  /** The height with its false origin, in the vertical unit of the output, and back. */
  function HeightOut(P: PJ, z: real): real {
    P.vfrMeter * (z + P.z0)
  }

  function HeightIn(P: PJ, z: real): real {
    P.vtoMeter * z - P.z0
  }

  /** False origin, then units of the output. */
  function Offset(P: PJ, c: Coord): Coord
    requires c.Coord?
  {
    Coord(P.frMeter * (c.v0 + P.x0), P.frMeter * (c.v1 + P.y0), HeightOut(P, c.v2), c.v3)
  }

  function Unoffset(P: PJ, c: Coord): Coord
    requires c.Coord?
  {
    Coord(P.toMeter * c.v0 - P.x0, P.toMeter * c.v1 - P.y0, HeightIn(P, c.v2), c.v3)
  }

  function PlaneScaled(c: Coord, f: real): Coord
    requires c.Coord?
  {
    c.(v0 := c.v0 * f, v1 := c.v1 * f)
  }

  function LongWrapped(P: PJ, lam: real): real
    requires P.pi > 0.0
  {
    match P.longWrap
    case None => lam
    case Some(center) => center + AdjLon(P.pi, lam - center)
  }

  /** The unit-dependent part of fwd_finalize. */
  function ToOutputUnits(P: PJ, t: Transit): Transit
    requires P.pi > 0.0
  {
    match P.right
    case Cartesian =>
      var s := if P.isGeocent then Trans(P.cart, true, t) else t;
      if s.coo.Error? then s else s.(coo := Scaled(s.coo, P.frMeter))
    case Classic => if t.coo.Error? then t else t.(coo := Offset(P, PlaneScaled(t.coo, P.a)))
    case Projected => if t.coo.Error? then t else t.(coo := Offset(P, t.coo))
    case Radians =>
      if t.coo.Error? then t
      else t.(coo := t.coo.(v0 := LongWrapped(P, t.coo.v0), v2 := HeightOut(P, t.coo.v2)))
    case Whatever => t
    case Degrees => t
  }

  /** fwd_finalize. */
  function FwdFinalized(P: PJ, t: Transit): Transit
    requires P.pi > 0.0
  {
    Trans(P.axisswap, true, ToOutputUnits(P, t))
  }

  /** The unit-dependent part of inv_prepare. */
  function FromOutputUnits(P: PJ, t: Transit): Transit {
    if t.coo.Error? then t
    else
      match P.right
      case Cartesian =>
        var s := t.(coo := Scaled(t.coo, P.toMeter));
        if P.isGeocent then Trans(P.cart, false, s) else s
      case Classic => t.(coo := PlaneScaled(Unoffset(P, t.coo), P.ra))
      case Projected => t.(coo := Unoffset(P, t.coo))
      case Radians => t.(coo := t.coo.(v2 := HeightIn(P, t.coo.v2)))
      case Whatever => t
      case Degrees => t
  }

  /** inv_prepare. */
  function InvPrepared(P: PJ, t: Transit): Transit {
    if t.coo.Error? then Transit(Error, OUTSIDE_PROJECTION_DOMAIN)
    else FromOutputUnits(P, Trans(P.axisswap, false, t))
  }

  /** inv_finalize. */
  function InvFinalized(P: PJ, t: Transit): Transit
    requires P.pi > 0.0
  {
    if t.coo.Error? then Transit(Error, OUTSIDE_PROJECTION_DOMAIN)
    else if P.left == Radians then
      var s := WithLam(t, Wrapped(P, t.coo.v0 + P.fromGreenwich + P.lam0));
      Unshifted(P, s)
    else t
  }

  predicate Absent(k: Converters) {
    k.four.None? && k.three.None? && k.two.None?
  }

  /** The converter of the highest dimension there is, on a whole coordinate. */
  function Convert(k: Converters, c: Coord): Coord
    requires c.Coord? && !Absent(k)
  {
    if k.four.Some? then k.four.value(c)
    else if k.three.Some? then
      match k.three.value(c.v0, c.v1, c.v2)
      case None => Error
      case Some(r) => Coord(r.0, r.1, r.2, c.v3)
    else
      match k.two.value(c.v0, c.v1)
      case None => Error
      case Some(r) => Coord(r.0, r.1, c.v2, c.v3)
  }

  function Converted(k: Converters, t: Transit): Transit
    requires t.coo.Coord? && !Absent(k)
  {
    var c := Convert(k, t.coo);
    if c.Error? then Transit(Error, k.code(t.coo)) else t.(coo := c)
  }

  /** Outcome of an entry point: its return value, the coordinate and the error number
      that it leaves behind. */
  datatype Outcome = Outcome(ok: bool, coo: Coord, errno: int)

  /** The end of both entry points: the error number found on entry comes back only if
      none was raised. */
  function Concluded(t: Transit, errno: int): Outcome {
    if t.errno != 0 then Outcome(false, Error, t.errno) else Outcome(true, t.coo, errno)
  }

  /** pj_fwd4d. */
  function Forward(P: PJ, coo: Coord, errno: int): Outcome
    requires P.pi > 0.0
  {
    var t0 := Transit(coo, 0);
    var t1 := if P.skipFwdPrepare then t0 else FwdPrepared(P, t0);
    if t1.coo.Error? then Outcome(false, Error, t1.errno)
    else if Absent(P.fwd) then Outcome(false, Error, NO_INVERSE_OP)
    else
      var t2 := Converted(P.fwd, t1);
      if t2.coo.Error? then Outcome(false, Error, t2.errno)
      else Concluded(if P.skipFwdFinalize then t2 else FwdFinalized(P, t2), errno)
  }

  /** pj_inv4d. */
  function Inverse(P: PJ, coo: Coord, errno: int): Outcome
    requires P.pi > 0.0
  {
    var t0 := Transit(coo, 0);
    InverseFrom(P, if P.skipInvPrepare then t0 else InvPrepared(P, t0), errno)
  }

  /** The part of pj_inv4d after the preparation. */
  function InverseFrom(P: PJ, t: Transit, errno: int): Outcome
    requires P.pi > 0.0
  {
    if t.coo.Error? then Outcome(false, Error, t.errno)
    else if Absent(P.inv) then Outcome(false, Error, NO_INVERSE_OP)
    else
      var t2 := Converted(P.inv, t);
      if t2.coo.Error? then Outcome(false, Error, t2.errno)
      else Concluded(if P.skipInvFinalize then t2 else InvFinalized(P, t2), errno)
  }

  // ---------- the round trip ----------

  /** Each direction undoes the other wherever it has a result. */
  ghost predicate Bijective(op: Option<Op>) {
    op.Some? ==>
      && (forall c: Coord {:trigger op.value.forward(c)} ::
            c.Coord? && op.value.forward(c).Coord? ==> op.value.inverse(op.value.forward(c)) == c)
      && (forall c: Coord {:trigger op.value.inverse(c)} ::
            c.Coord? && op.value.inverse(c).Coord? ==> op.value.forward(op.value.inverse(c)) == c)
  }

  ghost predicate Inverses(k: Converters, l: Converters) {
    && !Absent(k) && !Absent(l)
    && forall c: Coord {:trigger Convert(k, c)} ::
         c.Coord? && Convert(k, c).Coord? ==> Convert(l, Convert(k, c)) == c
  }

  /** Sub-operations and converters are pairs of inverses, and units are reciprocal. */
  ghost predicate Sound(P: PJ) {
    && P.pi > OVERSHOOT
    && Bijective(P.geoc) && Bijective(P.hgridshift) && Bijective(P.vgridshift) && Bijective(P.helmert)
    && Bijective(P.cart) && Bijective(P.cartWgs84) && Bijective(P.axisswap)
    && Inverses(P.fwd, P.inv)
    && P.frMeter * P.toMeter == 1.0 && P.vfrMeter * P.vtoMeter == 1.0 && P.a * P.ra == 1.0
    && P.skipFwdPrepare == P.skipInvFinalize && P.skipFwdFinalize == P.skipInvPrepare
  }

  lemma TransUndone(op: Option<Op>, forward: bool, t: Transit)
    requires Bijective(op) && Trans(op, forward, t).coo.Coord?
    ensures Trans(op, !forward, Trans(op, forward, t)) == t
    ensures t.coo.Coord? && Trans(op, forward, t).errno == t.errno
  {
  }

  lemma UnitUndone(f: real, g: real, x: real, x0: real)
    requires f * g == 1.0
    ensures g * (f * (x + x0)) - x0 == x
    ensures x * f * g == x
  {
  }

  lemma OffsetUndone(P: PJ, c: Coord)
    requires c.Coord? && P.frMeter * P.toMeter == 1.0 && P.vfrMeter * P.vtoMeter == 1.0
    ensures Unoffset(P, Offset(P, c)) == c
  {
  }

  lemma ScaleUndone(c: Coord, f: real, g: real)
    requires c.Coord? && f * g == 1.0
    ensures Scaled(Scaled(c, f), g) == c && PlaneScaled(PlaneScaled(c, f), g) == c
  {
  }

  /** A long-wrapped longitude is left alone exactly if it is near the wrap centre. */
  predicate NearCenter(P: PJ, lam: real) {
    P.longWrap.Some? ==> Abs(lam - P.longWrap.value) < P.pi + OVERSHOOT
  }

  lemma LongWrapExactly(P: PJ, lam: real)
    requires P.pi > 0.0
    ensures LongWrapped(P, lam) == lam <==> NearCenter(P, lam)
    ensures NearCenter(P, LongWrapped(P, lam)) && Congruent(LongWrapped(P, lam), lam, 2.0 * P.pi)
  {
    match P.longWrap
    case None => CongruentRefl(lam, 2.0 * P.pi);
    case Some(center) =>
      CongruentRefl(center, 2.0 * P.pi);
      CongruentAdd(center, center, AdjLon(P.pi, lam - center), lam - center, 2.0 * P.pi);
      assert center + (lam - center) == lam;
  }

  /** What the long wrap makes of a coordinate: another longitude of the same class. */
  function LongTurned(P: PJ, t: Transit): Transit
    requires P.pi > 0.0 && t.coo.Coord?
  {
    if P.right == Radians then WithLam(t, LongWrapped(P, t.coo.v0)) else t
  }

  /** The output units are taken off again; the long wrap stays. */
  lemma OutputUnitsUndone(P: PJ, t: Transit)
    requires Sound(P) && t.coo.Coord? && ToOutputUnits(P, t).coo.Coord?
    ensures FromOutputUnits(P, ToOutputUnits(P, t)) == LongTurned(P, t)
    ensures ToOutputUnits(P, t).errno == t.errno
  {
    match P.right
    case Cartesian =>
      if P.isGeocent {
        TransUndone(P.cart, true, t);
        ScaleUndone(Trans(P.cart, true, t).coo, P.frMeter, P.toMeter);
      } else {
        ScaleUndone(t.coo, P.frMeter, P.toMeter);
      }
    case Classic =>
      ScaleUndone(t.coo, P.a, P.ra);
      OffsetUndone(P, PlaneScaled(t.coo, P.a));
    case Projected => OffsetUndone(P, t.coo);
    case Radians => UnitUndone(P.vfrMeter, P.vtoMeter, t.coo.v2, P.z0);
    case Whatever =>
    case Degrees =>
  }

  /** inv_prepare undoes fwd_finalize up to whole turns of the longitude, and exactly if
      there is no long wrap or the longitude is near its centre. */
  lemma FinalizeUndone(P: PJ, t: Transit)
    requires Sound(P) && t.coo.Coord? && FwdFinalized(P, t).coo.Coord?
    ensures InvPrepared(P, FwdFinalized(P, t)) == LongTurned(P, t) && FwdFinalized(P, t).errno == t.errno
    ensures Congruent(LongTurned(P, t).coo.v0, t.coo.v0, 2.0 * P.pi)
    ensures LongTurned(P, t) == t <==> P.right != Radians || NearCenter(P, t.coo.v0)
  {
    LongWrapExactly(P, t.coo.v0);
    CongruentRefl(t.coo.v0, 2.0 * P.pi);
    hide ToOutputUnits, FromOutputUnits, LongWrapped, NearCenter, Congruent;
    TransUndone(P.axisswap, true, ToOutputUnits(P, t));
    OutputUnitsUndone(P, t);
  }

  lemma ToLocalUndone(P: PJ, t: Transit)
    requires Sound(P) && ToLocal(P, t).coo.Coord?
    ensures ToWgs84(P, ToLocal(P, t)) == t
    ensures t.coo.Coord? && ToLocal(P, t).errno == t.errno
  {
  }

  lemma ToWgs84Undone(P: PJ, t: Transit)
    requires Sound(P) && ToWgs84(P, t).coo.Coord?
    ensures ToLocal(P, ToWgs84(P, t)) == t
    ensures t.coo.Coord? && ToWgs84(P, t).errno == t.errno
  {
  }

  lemma ShiftedUndone(P: PJ, t: Transit)
    requires Sound(P) && Shifted(P, t).coo.Coord?
    ensures Unshifted(P, Shifted(P, t)) == t
    ensures t.coo.Coord? && Shifted(P, t).errno == t.errno
  {
    hide Trans, ToLocal, ToWgs84;
    var t1 := Trans(P.geoc, false, t);
    var t2 := ToLocal(P, t1);
    TransUndone(P.vgridshift, true, t2);
    ToLocalUndone(P, t1);
    TransUndone(P.geoc, false, t);
  }

  lemma UnshiftedUndone(P: PJ, t: Transit)
    requires Sound(P) && Unshifted(P, t).coo.Coord?
    ensures Shifted(P, Unshifted(P, t)) == t
    ensures t.coo.Coord? && Unshifted(P, t).errno == t.errno
  {
    hide Trans, ToLocal, ToWgs84;
    var t1 := Trans(P.vgridshift, false, t);
    var t2 := ToWgs84(P, t1);
    TransUndone(P.geoc, true, t2);
    ToWgs84Undone(P, t1);
    TransUndone(P.vgridshift, false, t);
  }

  /** The longitude survives taking the central meridian off and putting it back: a sum that
      is not reduced must not have been reduced before, and one that is must lead back to
      [-pi, pi). */
  predicate MeridianKept(P: PJ, lam: real)
    requires P.pi > 0.0
  {
    var y := (lam - P.fromGreenwich) - P.lam0;
    P.over || if Abs(AdjLon(P.pi, y) + P.fromGreenwich + P.lam0) < P.pi + OVERSHOOT
              then Abs(y) < P.pi + OVERSHOOT else -P.pi <= lam < P.pi
  }

  /** Taking the central meridian off and putting it back: the same longitude up to turns,
      and exactly under that condition the same. */
  lemma MeridianUndone(P: PJ, lam: real)
    requires P.pi > 0.0
    ensures var back := Wrapped(P, Wrapped(P, (lam - P.fromGreenwich) - P.lam0) + P.fromGreenwich + P.lam0);
            Congruent(back, lam, 2.0 * P.pi) && (back == lam <==> MeridianKept(P, lam))
  {
    var y := (lam - P.fromGreenwich) - P.lam0;
    var inner := Wrapped(P, y);
    var z := inner + P.fromGreenwich + P.lam0;
    SameClass(P, y, inner, lam);
    hide AdjLon;
    if P.over {
      CongruentRefl(lam, 2.0 * P.pi);
    } else {
      AdjLonRecoversExactly(P.pi, lam, z);
      CongruentTrans(AdjLon(P.pi, z), z, lam, 2.0 * P.pi);
      CongruentRefl(y, 2.0 * P.pi);
      AdjLonRecoversExactly(P.pi, y, y);
      AdjLonFixed(P.pi, y);
    }
  }

  /** Putting the central meridian back leads to the class of the longitude. */
  lemma SameClass(P: PJ, y: real, inner: real, lam: real)
    requires P.pi > 0.0 && y == (lam - P.fromGreenwich) - P.lam0
    requires inner == Wrapped(P, y) || Congruent(inner, y, 2.0 * P.pi)
    ensures Congruent(inner + P.fromGreenwich + P.lam0, lam, 2.0 * P.pi)
  {
    hide AdjLon;
    var offset := P.fromGreenwich + P.lam0;
    CongruentRefl(y, 2.0 * P.pi);
    CongruentRefl(offset, 2.0 * P.pi);
    CongruentAdd(inner, y, offset, offset, 2.0 * P.pi);
    assert y + offset == lam && inner + P.fromGreenwich + P.lam0 == inner + offset;
  }

  lemma AdjLonFixed(pi: real, y: real)
    requires pi > 0.0
    ensures AdjLon(pi, y) == y <==> Abs(y) < pi + OVERSHOOT
  {
  }

  /** It is kept wherever it is well inside the half turns. */
  lemma KeptInside(P: PJ, lam: real)
    requires P.pi > OVERSHOOT && Abs(lam) < P.pi - OVERSHOOT
    ensures MeridianKept(P, lam)
  {
    if !P.over {
      var y := (lam - P.fromGreenwich) - P.lam0;
      SameClass(P, y, Wrapped(P, y), lam);
      var z := AdjLon(P.pi, y) + P.fromGreenwich + P.lam0;
      hide AdjLon;
      AdjLonRecovers(P.pi, lam, z);
      MeridianUndone(P, lam);
    }
  }

  /** At the date line it is not: with a central meridian east of Greenwich -pi comes back
      as pi. */
  lemma DateLineExample(P: PJ)
    requires P.pi > 0.0 && !P.over && OVERSHOOT <= P.fromGreenwich + P.lam0 <= P.pi
    ensures Wrapped(P, Wrapped(P, (-P.pi - P.fromGreenwich) - P.lam0) + P.fromGreenwich + P.lam0) == P.pi
  {
    var offset := P.fromGreenwich + P.lam0;
    var y := (-P.pi - P.fromGreenwich) - P.lam0;
    assert Apart(y, P.pi - offset, -1, 2.0 * P.pi);
    AdjLonRecoversExactly(P.pi, P.pi - offset, y);
  }

  /** The input as fwd_prepare accepts it: angles pulled back to the map. */
  function Accepted(P: PJ, c: Coord): Coord
    requires P.pi > 0.0 && c.Coord?
  {
    if P.left == Radians && CheckedPhi(P, c.v1).Some? && CheckedLam(P, c.v0).Some?
    then c.(v0 := CheckedLam(P, c.v0).value, v1 := CheckedPhi(P, c.v1).value)
    else c
  }

  /** Exactly the angles on the map are accepted as they are. */
  lemma AcceptedUnchanged(P: PJ, c: Coord)
    requires P.pi > EPS_LAT && c.Coord? && P.left == Radians
    requires CheckedPhi(P, c.v1).Some? && CheckedLam(P, c.v0).Some?
    ensures Accepted(P, c) == c <==> c.v1 <= P.pi / 2.0 && (P.over || Abs(c.v0) < P.pi + OVERSHOOT)
  {
  }

  lemma AcceptedTwice(P: PJ, c: Coord)
    requires P.pi > 0.0 && c.Coord?
    ensures Accepted(P, Accepted(P, c)) == Accepted(P, c)
    ensures FwdPrepared(P, Transit(Accepted(P, c), 0)) == FwdPrepared(P, Transit(c, 0))
  {
  }

  /** What the two preparations need of an accepted input to undo each other. */
  predicate Kept(P: PJ, c: Coord)
    requires P.pi > 0.0 && c.Coord?
  {
    match P.left
    case Radians =>
      var s := Shifted(P, Transit(c, 0));
      s.coo.Coord? ==> MeridianKept(P, s.coo.v0)
    case Cartesian => Trans(P.helmert, false, Transit(c, 0)).coo == c
    case _ => true
  }

  /** inv_finalize undoes fwd_prepare exactly under that condition. */
  lemma PrepareUndone(P: PJ, c: Coord)
    requires Sound(P) && c.Coord? && FwdPrepared(P, Transit(c, 0)).coo.Coord?
    ensures var d, t := Accepted(P, c), FwdPrepared(P, Transit(c, 0));
            && t.errno == 0
            && (InvFinalized(P, t).coo == d <==> Kept(P, d))
            && (Kept(P, d) ==> InvFinalized(P, t) == Transit(d, 0))
  {
    if P.left == Radians {
      AnglesUndone(P, c);
      hide FwdPrepared, InvFinalized, Accepted, MeridianKept, Shifted, Sound;
    }
  }

  lemma AnglesFinalized(P: PJ, t: Transit)
    requires P.pi > 0.0 && P.left == Radians && t.coo.Coord?
    ensures InvFinalized(P, t) == Unshifted(P, WithLam(t, Wrapped(P, t.coo.v0 + P.fromGreenwich + P.lam0)))
  {
  }

  lemma SetTwice(t: Transit, x: real, y: real)
    requires t.coo.Coord?
    ensures var u := WithLam(t, x);
            u.coo.Coord? && u.coo.v0 == x && u.errno == t.errno && WithLam(u, y) == WithLam(t, y)
    ensures WithLam(t, t.coo.v0) == t && (WithLam(t, y) == t <==> y == t.coo.v0)
  {
  }

  lemma AnglesUndone(P: PJ, c: Coord)
    requires Sound(P) && c.Coord? && P.left == Radians && FwdPrepared(P, Transit(c, 0)).coo.Coord?
    ensures var d, t := Accepted(P, c), FwdPrepared(P, Transit(c, 0));
            var s := Shifted(P, Transit(d, 0));
            && t.errno == 0 && s.coo.Coord?
            && (InvFinalized(P, t).coo == d <==> MeridianKept(P, s.coo.v0))
            && (MeridianKept(P, s.coo.v0) ==> InvFinalized(P, t) == Transit(d, 0))
  {
    var d, t := Accepted(P, c), FwdPrepared(P, Transit(c, 0));
    hide *;
    AnglesPrepared(P, c);
    var s := Shifted(P, Transit(d, 0));
    ShiftedUndone(P, Transit(d, 0));
    PiPositive(P);
    MeridianUndone(P, s.coo.v0);
    AnglesFinalized(P, t);
    SetTwice(s, t.coo.v0, Wrapped(P, t.coo.v0 + P.fromGreenwich + P.lam0));
    var back := WithLam(t, Wrapped(P, t.coo.v0 + P.fromGreenwich + P.lam0));
    if Unshifted(P, back).coo.Coord? {
      UnshiftedUndone(P, back);
    }
  }

  lemma PiPositive(P: PJ)
    requires Sound(P)
    ensures P.pi > OVERSHOOT
  {
  }

  lemma AnglesPrepared(P: PJ, c: Coord)
    requires P.pi > 0.0 && c.Coord? && P.left == Radians && FwdPrepared(P, Transit(c, 0)).coo.Coord?
    ensures var s := Shifted(P, Transit(Accepted(P, c), 0));
            && s.coo.Coord?
            && FwdPrepared(P, Transit(c, 0)) == WithLam(s, Wrapped(P, (s.coo.v0 - P.fromGreenwich) - P.lam0))
  {
  }

  /** The coordinate between preparation and conversion. */
  function Prepared(P: PJ, c: Coord): Transit
    requires P.pi > 0.0
  {
    if P.skipFwdPrepare then Transit(c, 0) else FwdPrepared(P, Transit(c, 0))
  }

  /** And between conversion and the steps that follow. */
  function Mapped(P: PJ, c: Coord): Transit
    requires P.pi > 0.0 && !Absent(P.fwd) && Prepared(P, c).coo.Coord?
  {
    Converted(P.fwd, Prepared(P, c))
  }

  /** A run with a result raises no error on the way. */
  lemma SucceedsCleanly(P: PJ, c: Coord, errno: int)
    requires P.pi > 0.0 && c.Coord? && Forward(P, c, errno).coo.Coord?
    ensures !Absent(P.fwd)
    ensures var t1 := Prepared(P, c);
            && t1.coo.Coord? && t1.errno == 0
            && var t2 := Mapped(P, c);
               && t2 == t1.(coo := Convert(P.fwd, t1.coo)) && t2.coo.Coord?
               && var t3 := if P.skipFwdFinalize then t2 else FwdFinalized(P, t2);
                  t3.coo.Coord? && Forward(P, c, errno) == Outcome(true, t3.coo, errno)
  {
  }

  /** What inv_prepare finds of a converted coordinate. */
  function Reread(P: PJ, t: Transit): Transit
    requires P.pi > 0.0 && t.coo.Coord?
  {
    if P.skipFwdFinalize then t else LongTurned(P, t)
  }

  /** The inverse of a forward run with a result continues with the converted coordinate, up
      to whole turns of an angular one. */
  lemma BackToMapped(P: PJ, c: Coord, errno: int, errno': int)
    requires Sound(P) && c.Coord? && Forward(P, c, errno).coo.Coord?
    ensures Forward(P, c, errno).ok && Forward(P, c, errno).errno == errno
    ensures !Absent(P.fwd) && Prepared(P, c).coo.Coord? && Mapped(P, c).coo.Coord?
    ensures Inverse(P, Forward(P, c, errno).coo, errno') == InverseFrom(P, Reread(P, Mapped(P, c)), errno')
  {
    PiPositive(P);
    SucceedsCleanly(P, c, errno);
    hide FwdPrepared, InvFinalized, FwdFinalized, InvPrepared, Forward, InverseFrom, LongTurned;
    if !P.skipFwdFinalize {
      FinalizeUndone(P, Mapped(P, c));
    }
  }

  /** The converted longitude survives the long wrap, where there is one. */
  predicate Unwrapped(P: PJ, c: Coord)
    requires P.pi > 0.0
  {
    P.right == Radians && !P.skipFwdFinalize && !Absent(P.fwd) && Prepared(P, c).coo.Coord?
    && Mapped(P, c).coo.Coord?
    ==> NearCenter(P, Mapped(P, c).coo.v0)
  }

  /** What the inverse converter makes of the converted coordinate as inv_prepare finds it. */
  function Reconverted(P: PJ, c: Coord): Coord
    requires P.pi > 0.0 && !Absent(P.fwd) && !Absent(P.inv)
    requires Prepared(P, c).coo.Coord? && Mapped(P, c).coo.Coord?
  {
    Convert(P.inv, Reread(P, Mapped(P, c)).coo)
  }

  /** The converters undo each other in spite of the long wrap. */
  predicate Reconverts(P: PJ, c: Coord)
    requires P.pi > 0.0
  {
    !Absent(P.fwd) && !Absent(P.inv) && Prepared(P, c).coo.Coord? && Mapped(P, c).coo.Coord?
    ==> Reconverted(P, c) == Prepared(P, c).coo
  }

  /** They do where the long wrap moves nothing. */
  lemma UnwrappedReconverts(P: PJ, c: Coord)
    requires Sound(P) && Unwrapped(P, c)
    ensures Reconverts(P, c)
  {
  }

  /** The inverse converter does not see whole turns of its input. */
  ghost predicate TurnBlind(P: PJ)
    requires !Absent(P.inv)
  {
    forall c: Coord, d: Coord {:trigger Convert(P.inv, c), Convert(P.inv, d)} ::
      SameUpToTurns(P, c, d) && Convert(P.inv, d).Coord? ==> Convert(P.inv, c) == Convert(P.inv, d)
  }

  /** And where the converter does not see the turns. */
  lemma TurnBlindReconverts(P: PJ, c: Coord)
    requires Sound(P) && TurnBlind(P)
    ensures Reconverts(P, c)
  {
    if !Absent(P.fwd) && Prepared(P, c).coo.Coord? && Mapped(P, c).coo.Coord? {
      var d := Mapped(P, c);
      LongWrapExactly(P, d.coo.v0);
      CongruentRefl(d.coo.v0, 2.0 * P.pi);
      hide FwdPrepared, NearCenter, LongWrapped;
      assert SameUpToTurns(P, Reread(P, d).coo, d.coo);
      assert Convert(P.inv, d.coo) == Prepared(P, c).coo;
    }
  }

  /** Then only the post-processing of the inverse is left. */
  lemma BackToPrepared(P: PJ, c: Coord, errno: int, errno': int)
    requires Sound(P) && c.Coord? && Forward(P, c, errno).coo.Coord? && Reconverts(P, c)
    ensures Prepared(P, c).coo.Coord?
    ensures var t1 := Prepared(P, c);
            Inverse(P, Forward(P, c, errno).coo, errno')
            == Concluded(if P.skipInvFinalize then t1 else InvFinalized(P, t1), errno')
  {
    PiPositive(P);
    SucceedsCleanly(P, c, errno);
    BackToMapped(P, c, errno, errno');
    hide FwdPrepared, InvFinalized, Forward, Inverse, LongTurned;
    var t1 := Prepared(P, c);
    assert Convert(P.inv, Reread(P, Mapped(P, c)).coo) == t1.coo;
    RereadErrno(P, Mapped(P, c));
  }

  lemma RereadErrno(P: PJ, t: Transit)
    requires P.pi > 0.0 && t.coo.Coord?
    ensures Reread(P, t).coo.Coord? && Reread(P, t).errno == t.errno
  {
  }

  /** The reconverted coordinate leads back to `d`: it is the one that `d` was shifted to, but
      for the longitude, and that is right once the central meridian is put back. */
  predicate Returned(P: PJ, d: Coord, r: Coord)
    requires P.pi > 0.0 && d.Coord?
  {
    if P.left == Radians then
      var s := Shifted(P, Transit(d, 0)).coo;
      && r.Coord? && s.Coord? && r == s.(v0 := r.v0)
      && Wrapped(P, r.v0 + P.fromGreenwich + P.lam0) == s.v0
    else r == d
  }

  /** With no condition on converters and longitudes: pj_inv4d after a pj_fwd4d with a result
      gives the accepted input back exactly if the reconverted coordinate leads there. */
  lemma RoundTripInGeneral(P: PJ, c: Coord, errno: int, errno': int)
    requires Sound(P) && c.Coord? && Forward(P, c, errno).coo.Coord? && !P.skipFwdPrepare
    ensures Forward(P, c, errno).errno == errno
    ensures !Absent(P.fwd) && Prepared(P, c).coo.Coord? && Mapped(P, c).coo.Coord?
    ensures var d, back := Accepted(P, c), Inverse(P, Forward(P, c, errno).coo, errno');
            && (back.coo == d <==> Returned(P, d, Reconverted(P, c)))
            && (Returned(P, d, Reconverted(P, c)) ==> back == Outcome(true, d, errno'))
  {
    PiPositive(P);
    SucceedsCleanly(P, c, errno);
    BackToMapped(P, c, errno, errno');
    RereadErrno(P, Mapped(P, c));
    var r := Reconverted(P, c);
    if r.Coord? {
      hide FwdPrepared, InvFinalized, Forward, Inverse, Reread, Returned, Sound, Accepted;
      FinalizedBack(P, c, r);
    } else {
      hide FwdPrepared, InvFinalized, Forward, Inverse, Reread, Shifted, Accepted, Sound;
    }
  }

  lemma FinalizedBack(P: PJ, c: Coord, r: Coord)
    requires Sound(P) && c.Coord? && FwdPrepared(P, Transit(c, 0)).coo.Coord? && r.Coord?
    ensures var d, t := Accepted(P, c), InvFinalized(P, Transit(r, 0));
            && (t.coo == d <==> Returned(P, d, r))
            && (Returned(P, d, r) ==> t == Transit(d, 0))
  {
    if P.left == Radians {
      AnglesBack(P, c, r);
      hide FwdPrepared, InvFinalized, Accepted, Shifted, Sound;
    }
  }

  lemma AnglesBack(P: PJ, c: Coord, r: Coord)
    requires Sound(P) && c.Coord? && FwdPrepared(P, Transit(c, 0)).coo.Coord? && r.Coord? && P.left == Radians
    ensures var d, t := Accepted(P, c), InvFinalized(P, Transit(r, 0));
            var s := Shifted(P, Transit(d, 0)).coo;
            && s.Coord?
            && (t.coo == d <==> r == s.(v0 := r.v0) && Wrapped(P, r.v0 + P.fromGreenwich + P.lam0) == s.v0)
            && (t.coo == d ==> t == Transit(d, 0))
  {
    var d, t := Accepted(P, c), Transit(r, 0);
    hide *;
    PiPositive(P);
    AnglesPrepared(P, c);
    AnglesFinalized(P, t);
    var s := Shifted(P, Transit(d, 0));
    var z := Wrapped(P, r.v0 + P.fromGreenwich + P.lam0);
    ShiftedErrno(P, d);
    SetLam(s, r, z);
    UnshiftedTo(P, d, WithLam(t, z));
  }

  lemma ShiftedErrno(P: PJ, d: Coord)
    requires Sound(P) && Shifted(P, Transit(d, 0)).coo.Coord?
    ensures Shifted(P, Transit(d, 0)).errno == 0
  {
  }

  /** The shifts backwards lead to `d` from its shifted form and from nowhere else. */
  lemma UnshiftedTo(P: PJ, d: Coord, t: Transit)
    requires Sound(P) && d.Coord? && Shifted(P, Transit(d, 0)).coo.Coord? && t.errno == 0
    ensures Unshifted(P, t).coo == d <==> t == Shifted(P, Transit(d, 0))
    ensures Unshifted(P, t).coo == d ==> Unshifted(P, t) == Transit(d, 0)
  {
    hide *;
    if Unshifted(P, t).coo == d {
      UnshiftedUndone(P, t);
    }
    ShiftedUndone(P, Transit(d, 0));
  }

  lemma SetLam(s: Transit, r: Coord, z: real)
    requires s.coo.Coord? && s.errno == 0 && r.Coord?
    ensures WithLam(Transit(r, 0), z) == s <==> r == s.coo.(v0 := r.v0) && z == s.coo.v0
    ensures WithLam(Transit(r, 0), z).errno == 0
  {
  }

  /** Where the converters undo each other that is a condition on the input alone. */
  lemma RoundTripExactly(P: PJ, c: Coord, errno: int, errno': int)
    requires Sound(P) && c.Coord? && Forward(P, c, errno).coo.Coord? && Reconverts(P, c)
    requires !P.skipFwdPrepare
    ensures Forward(P, c, errno).errno == errno
    ensures var d, r := Accepted(P, c), Inverse(P, Forward(P, c, errno).coo, errno');
            && (r.coo == d <==> Kept(P, d))
            && (Kept(P, d) ==> r == Outcome(true, d, errno'))
  {
    PiPositive(P);
    BackToMapped(P, c, errno, errno');
    BackToPrepared(P, c, errno, errno');
    hide Forward, Inverse, FwdPrepared, InvFinalized, Kept, Sound, Accepted;
    PrepareUndone(P, c);
  }

  /** The angular input is on the map and, after the datum shifts, off the date line. */
  predicate Recoverable(P: PJ, c: Coord)
    requires P.pi > 0.0 && c.Coord?
  {
    match P.left
    case Radians =>
      && Abs(c.v1) <= P.pi / 2.0
      && (Abs(c.v0) < P.pi + OVERSHOOT || P.over)
      && var s := Shifted(P, Transit(c, 0));
         s.coo.Coord? && !P.over ==> Abs(s.coo.v0) < P.pi - OVERSHOOT
    case Cartesian => Trans(P.helmert, false, Transit(c, 0)).coo == c
    case _ => true
  }

  /** In the terms of the caller: such an input comes back as it was. */
  lemma RoundTrip(P: PJ, c: Coord, errno: int, errno': int)
    requires Sound(P) && c.Coord? && Forward(P, c, errno).coo.Coord? && Reconverts(P, c)
    requires !P.skipFwdPrepare ==> Recoverable(P, c)
    ensures Forward(P, c, errno).errno == errno
    ensures Inverse(P, Forward(P, c, errno).coo, errno') == Outcome(true, c, errno')
  {
    PiPositive(P);
    BackToMapped(P, c, errno, errno');
    if P.skipFwdPrepare {
      BackToPrepared(P, c, errno, errno');
      hide Forward, Inverse, FwdPrepared, InvFinalized;
      assert Sound(P);
    } else {
      RoundTripExactly(P, c, errno, errno');
      hide Forward, Inverse, Sound;
      RecoverableKept(P, c);
    }
  }

  lemma RecoverableKept(P: PJ, c: Coord)
    requires P.pi > OVERSHOOT && c.Coord? && Recoverable(P, c)
    ensures Accepted(P, c) == c && Kept(P, c)
  {
    hide Shifted, AdjLon, Trans;
    if P.left == Radians {
      var s := Shifted(P, Transit(c, 0));
      if s.coo.Coord? && !P.over {
        KeptInside(P, s.coo.v0);
      }
    }
  }

  /** A datum shift of cartesian input is applied on the way in and not undone on the way
      out: the round trip holds exactly for coordinates that the shift leaves alone. */
  lemma CartesianRoundTripExactly(P: PJ, c: Coord, errno: int, errno': int)
    requires Sound(P) && c.Coord? && Forward(P, c, errno).coo.Coord? && Reconverts(P, c)
    requires P.left == Cartesian && !P.skipFwdPrepare
    ensures Inverse(P, Forward(P, c, errno).coo, errno').coo == c
       <==> Trans(P.helmert, false, Transit(c, 0)).coo == c
  {
    RoundTripExactly(P, c, errno, errno');
    hide Forward, Inverse, Trans, Sound;
  }

  /** The two coordinates differ by whole turns of the first component. */
  ghost predicate SameUpToTurns(P: PJ, c: Coord, d: Coord) {
    c.Coord? && d.Coord? && c == d.(v0 := c.v0) && Congruent(c.v0, d.v0, 2.0 * P.pi)
  }

  /** The inverse converter carries whole turns of its input over to its output. */
  ghost predicate Periodic(P: PJ)
    requires !Absent(P.inv)
  {
    forall c: Coord, d: Coord {:trigger Convert(P.inv, c), Convert(P.inv, d)} ::
      SameUpToTurns(P, c, d) && Convert(P.inv, d).Coord? ==> SameUpToTurns(P, Convert(P.inv, c), Convert(P.inv, d))
  }

  /** The longitude comes back when the central meridian is put back to one of its class. */
  predicate LonRestored(P: PJ, lam: real, target: real) {
    var z := lam + P.fromGreenwich + P.lam0;
    if P.over || Abs(z) < P.pi + OVERSHOOT then z == target else -P.pi <= target < P.pi
  }

  /** With such a converter the long wrap is undone along with the central meridian: the
      accepted input comes back exactly if its longitude does, which over-range operations
      only grant to the same turn, and others to all longitudes well inside the half turns. */
  lemma LongWrapRoundTrip(P: PJ, c: Coord, errno: int, errno': int)
    requires Sound(P) && Periodic(P) && c.Coord? && Forward(P, c, errno).coo.Coord?
    requires P.left == Radians && !P.skipFwdPrepare
    ensures !Absent(P.fwd) && Prepared(P, c).coo.Coord? && Mapped(P, c).coo.Coord?
    ensures var d, r := Accepted(P, c), Reconverted(P, c);
            var s, back := Shifted(P, Transit(d, 0)).coo, Inverse(P, Forward(P, c, errno).coo, errno');
            && r.Coord? && s.Coord?
            && (back.coo == d <==> LonRestored(P, r.v0, s.v0))
            && (LonRestored(P, r.v0, s.v0) ==> back == Outcome(true, d, errno'))
            && (!P.over && Abs(s.v0) < P.pi - OVERSHOOT ==> LonRestored(P, r.v0, s.v0))
  {
    RoundTripInGeneral(P, c, errno, errno');
    hide Forward, Inverse;
    PiPositive(P);
    SameReconverted(P, c);
    AnglesPrepared(P, c);
    var r, d := Reconverted(P, c), Accepted(P, c);
    var s, t1 := Shifted(P, Transit(d, 0)).coo, Prepared(P, c).coo;
    hide Sound, FwdPrepared, Shifted, Accepted, Reconverted;
    RestoredExactly(P, r.v0, t1.v0, s.v0);
    assert r == s.(v0 := r.v0);
  }

  lemma SameReconverted(P: PJ, c: Coord)
    requires Sound(P) && Periodic(P) && Prepared(P, c).coo.Coord? && Mapped(P, c).coo.Coord?
    ensures SameUpToTurns(P, Reconverted(P, c), Prepared(P, c).coo)
  {
    var d := Mapped(P, c);
    LongWrapExactly(P, d.coo.v0);
    CongruentRefl(d.coo.v0, 2.0 * P.pi);
    hide FwdPrepared, NearCenter, LongWrapped;
    assert SameUpToTurns(P, Reread(P, d).coo, d.coo);
    assert Convert(P.inv, d.coo) == Prepared(P, c).coo;
  }

  lemma RestoredExactly(P: PJ, lam: real, prepared: real, target: real)
    requires P.pi > OVERSHOOT && Congruent(lam, prepared, 2.0 * P.pi)
    requires prepared == Wrapped(P, (target - P.fromGreenwich) - P.lam0)
    ensures Wrapped(P, lam + P.fromGreenwich + P.lam0) == target <==> LonRestored(P, lam, target)
    ensures !P.over && Abs(target) < P.pi - OVERSHOOT ==> LonRestored(P, lam, target)
  {
    var y, z := (target - P.fromGreenwich) - P.lam0, lam + P.fromGreenwich + P.lam0;
    CongruentRefl(y, 2.0 * P.pi);
    CongruentTrans(lam, prepared, y, 2.0 * P.pi);
    SameClass(P, y, lam, target);
    hide AdjLon;
    AdjLonRecoversExactly(P.pi, target, z);
    if Abs(target) < P.pi - OVERSHOOT {
      AdjLonRecovers(P.pi, target, z);
    }
  }

  /** Latitudes overshooting the north pole a little are pulled back; overshooting the
      south pole is refused however little it is. */
  lemma LatitudeAccepted(P: PJ, phi: real)
    requires P.pi > EPS_LAT
    ensures CheckedPhi(P, phi).Some? <==> -P.pi / 2.0 <= phi <= P.pi / 2.0 + 0.000000000001
    ensures CheckedPhi(P, phi).Some? ==> CheckedPhi(P, phi).value == Min(phi, P.pi / 2.0)
  {
  }

  /** Longitudes up to ten radians are accepted; unless over-range is allowed they are
      reduced by whole turns to the half turns around zero. */
  lemma LongitudeAccepted(P: PJ, lam: real)
    requires P.pi > 0.0
    ensures CheckedLam(P, lam).Some? <==> Abs(lam) <= Max(P.pi, 10.0)
    ensures CheckedLam(P, lam).Some? ==>
              var r := CheckedLam(P, lam).value;
              && Congruent(r, lam, 2.0 * P.pi)
              && (P.over || Abs(lam) <= P.pi ==> r == lam)
              && (!P.over ==> Abs(r) < P.pi + OVERSHOOT)
  {
    hide AdjLon;
    CongruentRefl(lam, 2.0 * P.pi);
  }

  // ---------- when the entry points succeed ----------

  /** A sub-operation in one direction. */
  datatype Leg = Leg(op: Option<Op>, forward: bool) {
    /** It has a result, or there is nothing to do. */
    predicate Works(c: Coord) {
      op.None? || (if forward then op.value.forward(c) else op.value.inverse(c)).Coord?
    }

    function Result(c: Coord): Coord {
      if op.None? then c else if forward then op.value.forward(c) else op.value.inverse(c)
    }
  }

  /** The shifts of an angular input, in order. */
  function FwdLegs(P: PJ): seq<Leg> {
    [Leg(P.geoc, false)]
    + (if P.hgridshift.Some? then [Leg(P.hgridshift, false)]
       else if P.helmert.Some? || (P.cartWgs84.Some? && P.cart.Some?)
       then [Leg(P.cartWgs84, true), Leg(P.helmert, false), Leg(P.cart, false)]
       else [])
    + [Leg(P.vgridshift, true)]
  }

  /** The shifts of an angular result of the inverse. */
  function InvLegs(P: PJ): seq<Leg> {
    [Leg(P.vgridshift, false)]
    + (if P.hgridshift.Some? then [Leg(P.hgridshift, true)]
       else if P.helmert.Some? || (P.cartWgs84.Some? && P.cart.Some?)
       then [Leg(P.cart, true), Leg(P.helmert, true), Leg(P.cartWgs84, false)]
       else [])
    + [Leg(P.geoc, true)]
  }

  function Backwards(legs: seq<Leg>): seq<Leg> {
    if legs == [] then [] else Backwards(legs[1..]) + [Leg(legs[0].op, !legs[0].forward)]
  }

  /** Every leg has a result where the legs before it lead. */
  predicate Passes(legs: seq<Leg>, c: Coord) {
    legs != [] ==> legs[0].Works(c) && Passes(legs[1..], legs[0].Result(c))
  }

  function Passed(legs: seq<Leg>, c: Coord): Coord {
    if legs == [] then c else Passed(legs[1..], legs[0].Result(c))
  }

  function Follow(legs: seq<Leg>, t: Transit): Transit {
    if legs == [] then t else Follow(legs[1..], Trans(legs[0].op, legs[0].forward, t))
  }

  /** The error number of the first leg without a result. */
  function FailureCode(legs: seq<Leg>, c: Coord): int
    requires !Passes(legs, c)
  {
    if !legs[0].Works(c) then legs[0].op.value.code(legs[0].forward, c)
    else FailureCode(legs[1..], legs[0].Result(c))
  }

  lemma {:induction false} FollowPasses(legs: seq<Leg>, t: Transit)
    ensures t.coo.Coord? && !Passes(legs, t.coo) ==>
              Follow(legs, t) == Transit(Error, FailureCode(legs, t.coo))
    ensures t.coo.Error? ==> Follow(legs, t) == t
    ensures t.coo.Coord? ==>
              && (Follow(legs, t).coo.Coord? <==> Passes(legs, t.coo))
              && (Passes(legs, t.coo) ==> Follow(legs, t) == t.(coo := Passed(legs, t.coo)))
  {
    if legs != [] {
      FollowPasses(legs[1..], Trans(legs[0].op, legs[0].forward, t));
    }
  }

  /** The shifts of the inverse are those of the forward run, backwards. */
  lemma LegsMirror(P: PJ)
    ensures InvLegs(P) == Backwards(FwdLegs(P))
  {
    var legs := FwdLegs(P);
    hide Backwards;
    FirstLast(legs);
    var a := legs[1..];
    FirstLast(a);
    var b := a[1..];
    FirstLast(b);
    if P.hgridshift.Some? {
      assert b[1..] == [];
    } else if P.helmert.Some? || (P.cartWgs84.Some? && P.cart.Some?) {
      var c := b[1..];
      FirstLast(c);
      var d := c[1..];
      FirstLast(d);
      assert d[1..] == [];
    } else {
      assert b == [];
    }
  }

  lemma FirstLast(legs: seq<Leg>)
    ensures Backwards([]) == []
    ensures legs != [] ==> Backwards(legs) == Backwards(legs[1..]) + [Leg(legs[0].op, !legs[0].forward)]
  {
  }

  lemma ShiftedFollows(P: PJ, t: Transit)
    ensures Shifted(P, t) == Follow(FwdLegs(P), t) && Unshifted(P, t) == Follow(InvLegs(P), t)
  {
    hide Trans;
    FollowShift(FwdLegs(P), t);
    FollowShift(InvLegs(P), t);
  }

  /** Following three or five legs. */
  lemma FollowShift(legs: seq<Leg>, t: Transit)
    requires 2 <= |legs| <= 5
    ensures var t1 := Trans(legs[0].op, legs[0].forward, t);
            var t2 := Trans(legs[1].op, legs[1].forward, t1);
            && (|legs| == 2 ==> Follow(legs, t) == t2)
            && (|legs| >= 3 ==>
                  var t3 := Trans(legs[2].op, legs[2].forward, t2);
                  && (|legs| == 3 ==> Follow(legs, t) == t3)
                  && (|legs| >= 4 ==>
                        var t4 := Trans(legs[3].op, legs[3].forward, t3);
                        && (|legs| == 4 ==> Follow(legs, t) == t4)
                        && (|legs| == 5 ==> Follow(legs, t) == Trans(legs[4].op, legs[4].forward, t4))))
  {
    hide Trans, Follow;
    var a := legs[1..];
    var b := a[1..];
    var t1 := Trans(legs[0].op, legs[0].forward, t);
    var t2 := Trans(legs[1].op, legs[1].forward, t1);
    assert a[0] == legs[1];
    FollowStep(legs, t);
    FollowStep(a, t1);
    FollowStep(b, t2);
    if |legs| >= 3 {
      var c := b[1..];
      var t3 := Trans(legs[2].op, legs[2].forward, t2);
      assert b[0] == legs[2];
      FollowStep(c, t3);
      if |legs| >= 4 {
        var d := c[1..];
        var t4 := Trans(legs[3].op, legs[3].forward, t3);
        assert c[0] == legs[3];
        FollowStep(d, t4);
        if |legs| == 5 {
          assert d[0] == legs[4];
          FollowStep(d[1..], Trans(legs[4].op, legs[4].forward, t4));
        }
      }
    }
  }

  lemma FollowStep(legs: seq<Leg>, t: Transit)
    ensures legs == [] ==> Follow(legs, t) == t
    ensures legs != [] ==> Follow(legs, t) == Follow(legs[1..], Trans(legs[0].op, legs[0].forward, t))
  {
  }

  /** The converter of the highest dimension that is there has a result. */
  predicate ConverterWorks(k: Converters, c: Coord)
    requires c.Coord?
  {
    if k.four.Some? then k.four.value(c).Coord?
    else if k.three.Some? then k.three.value(c.v0, c.v1, c.v2).Some?
    else k.two.Some? && k.two.value(c.v0, c.v1).Some?
  }

  /** What it changes: all components, the first three, or the first two. */
  lemma ConvertByDimension(k: Converters, c: Coord)
    requires c.Coord? && !Absent(k)
    ensures Convert(k, c).Coord? <==> ConverterWorks(k, c)
    ensures k.four.Some? ==> Convert(k, c) == k.four.value(c)
    ensures k.four.None? && k.three.Some? && ConverterWorks(k, c) ==>
              var r := k.three.value(c.v0, c.v1, c.v2).value;
              Convert(k, c) == Coord(r.0, r.1, r.2, c.v3)
    ensures k.four.None? && k.three.None? && ConverterWorks(k, c) ==>
              var r := k.two.value(c.v0, c.v1).value;
              Convert(k, c) == Coord(r.0, r.1, c.v2, c.v3)
  {
  }

  /** fwd_prepare has a result. */
  predicate FwdPrepareWorks(P: PJ, c: Coord)
    requires P.pi > 0.0 && c.Coord?
  {
    match P.left
    case Radians =>
      && -P.pi / 2.0 <= c.v1 <= P.pi / 2.0 + 0.000000000001
      && Abs(c.v0) <= Max(P.pi, 10.0)
      && Passes(FwdLegs(P), Accepted(P, c))
    case Cartesian => Leg(P.helmert, false).Works(c)
    case _ => true
  }

  lemma FwdPreparedExactly(P: PJ, c: Coord)
    requires P.pi > EPS_LAT && c.Coord?
    ensures FwdPrepared(P, Transit(c, 0)).coo.Coord? <==> FwdPrepareWorks(P, c)
  {
    LatitudeAccepted(P, c.v1);
    LongitudeAccepted(P, c.v0);
    hide Shifted, CheckedPhi, CheckedLam, AdjLon, Passes, FwdLegs;
    ShiftedFollows(P, Transit(Accepted(P, c), 0));
    FollowPasses(FwdLegs(P), Transit(Accepted(P, c), 0));
  }

  /** fwd_finalize has a result. */
  predicate FwdFinalizeWorks(P: PJ, c: Coord)
    requires P.pi > 0.0 && c.Coord?
  {
    && (P.right == Cartesian && P.isGeocent ==> Leg(P.cart, true).Works(c))
    && Leg(P.axisswap, true).Works(ToOutputUnits(P, Transit(c, 0)).coo)
  }

  lemma FwdFinalizedExactly(P: PJ, t: Transit)
    requires P.pi > 0.0 && t.coo.Coord?
    ensures FwdFinalized(P, t).coo.Coord? <==> FwdFinalizeWorks(P, t.coo)
  {
    hide AdjLon;
    OutputUnitsErrno(P, t);
  }

  lemma OutputUnitsErrno(P: PJ, t: Transit)
    requires P.pi > 0.0 && t.coo.Coord?
    ensures ToOutputUnits(P, t).coo == ToOutputUnits(P, Transit(t.coo, 0)).coo
    ensures ToOutputUnits(P, t).coo.Coord? <==> P.right == Cartesian && P.isGeocent ==> Leg(P.cart, true).Works(t.coo)
  {
    hide AdjLon;
  }

  /** All that pj_fwd4d needs: each part has a result where the part before it leads. */
  predicate ForwardWorks(P: PJ, c: Coord)
    requires P.pi > 0.0 && c.Coord?
  {
    && (P.skipFwdPrepare || FwdPrepareWorks(P, c))
    && var d := Prepared(P, c).coo;
       && d.Coord?
       && (P.fwd.four.Some? || P.fwd.three.Some? || P.fwd.two.Some?)
       && ConverterWorks(P.fwd, d)
       && (P.skipFwdFinalize || FwdFinalizeWorks(P, Convert(P.fwd, d)))
  }

  /** pj_fwd4d has a result exactly then, and then succeeds with the error number as found. */
  lemma ForwardExactly(P: PJ, c: Coord, errno: int)
    requires P.pi > EPS_LAT && c.Coord?
    ensures Forward(P, c, errno).coo.Coord? <==> ForwardWorks(P, c)
    ensures ForwardWorks(P, c) ==> Forward(P, c, errno).ok && Forward(P, c, errno).errno == errno
  {
    FwdPreparedExactly(P, c);
    hide FwdPrepared, FwdPrepareWorks, FwdFinalizeWorks;
    var t1 := Prepared(P, c);
    if t1.coo.Coord? && !Absent(P.fwd) {
      ConvertByDimension(P.fwd, t1.coo);
      hide Convert, ConverterWorks;
      var t2 := Converted(P.fwd, t1);
      if t2.coo.Coord? {
        FwdFinalizedExactly(P, t2);
        hide FwdFinalized;
        if Forward(P, c, errno).coo.Coord? {
          SucceedsCleanly(P, c, errno);
        }
        PreparedErrno(P, c);
        FinalizedErrno(P, t2);
      }
    }
  }

  lemma PreparedErrno(P: PJ, c: Coord)
    requires P.pi > 0.0 && c.Coord? && Prepared(P, c).coo.Coord?
    ensures Prepared(P, c).errno == 0
  {
  }

  lemma FinalizedErrno(P: PJ, t: Transit)
    requires P.pi > 0.0 && t.coo.Coord?
    ensures FwdFinalized(P, t).coo.Coord? ==> FwdFinalized(P, t).errno == t.errno
  {
  }

  /** Why it fails, up to the conversion: angles that are not accepted, the reason of the first
      shift without a result, no converter at all, or the converter's own reason. */
  lemma ForwardRefuses(P: PJ, c: Coord, errno: int)
    requires P.pi > EPS_LAT && c.Coord?
    ensures !P.skipFwdPrepare && P.left == Radians
            && !(&& -P.pi / 2.0 <= c.v1 <= P.pi / 2.0 + 0.000000000001
                 && Abs(c.v0) <= Max(P.pi, 10.0)) ==>
              Forward(P, c, errno) == Outcome(false, Error, 2049)
    ensures !P.skipFwdPrepare && P.left == Radians
            && -P.pi / 2.0 <= c.v1 <= P.pi / 2.0 + 0.000000000001 && Abs(c.v0) <= Max(P.pi, 10.0)
            && !Passes(FwdLegs(P), Accepted(P, c)) ==>
              Forward(P, c, errno) == Outcome(false, Error, FailureCode(FwdLegs(P), Accepted(P, c)))
    ensures Prepared(P, c).coo.Coord? && P.fwd.four.None? && P.fwd.three.None? && P.fwd.two.None? ==>
              Forward(P, c, errno) == Outcome(false, Error, 4098)
    ensures Prepared(P, c).coo.Coord? && !Absent(P.fwd) && !ConverterWorks(P.fwd, Prepared(P, c).coo) ==>
              Forward(P, c, errno) == Outcome(false, Error, P.fwd.code(Prepared(P, c).coo))
  {
    LatitudeAccepted(P, c.v1);
    LongitudeAccepted(P, c.v0);
    if Prepared(P, c).coo.Coord? && !Absent(P.fwd) {
      ConvertByDimension(P.fwd, Prepared(P, c).coo);
    }
    ShiftedFollows(P, Transit(Accepted(P, c), 0));
    FollowPasses(FwdLegs(P), Transit(Accepted(P, c), 0));
    hide Shifted, CheckedPhi, CheckedLam, AdjLon, Convert, ConverterWorks, FwdFinalized, Trans, Passes, FwdLegs,
      FailureCode;
  }

  /** Where only fwd_finalize has no result, the sub-operation's error number decides: without
      one the call claims success with an error coordinate. */
  lemma ForwardEndsBadly(P: PJ, c: Coord, errno: int)
    requires P.pi > 0.0 && c.Coord? && Prepared(P, c).coo.Coord? && !Absent(P.fwd) && !P.skipFwdFinalize
    requires Mapped(P, c).coo.Coord? && !FwdFinalizeWorks(P, Mapped(P, c).coo)
    ensures var e := Mapped(P, c).coo;
            var code := if P.right == Cartesian && P.isGeocent && !Leg(P.cart, true).Works(e)
                        then P.cart.value.code(true, e)
                        else P.axisswap.value.code(true, ToOutputUnits(P, Transit(e, 0)).coo);
            Forward(P, c, errno) == if code != 0 then Outcome(false, Error, code) else Outcome(true, Error, errno)
  {
    PreparedErrno(P, c);
    var t := Mapped(P, c);
    OutputUnitsErrno(P, t);
    hide FwdPrepared, Convert;
    assert t.errno == 0 && t == Transit(t.coo, 0);
    EndsBadly(P, t);
    hide FwdFinalized, ToOutputUnits, FwdFinalizeWorks;
  }

  lemma EndsBadly(P: PJ, t: Transit)
    requires P.pi > 0.0 && t.coo.Coord? && t.errno == 0 && !FwdFinalizeWorks(P, t.coo)
    ensures FwdFinalized(P, t)
            == Transit(Error, if P.right == Cartesian && P.isGeocent && !Leg(P.cart, true).Works(t.coo)
                              then P.cart.value.code(true, t.coo)
                              else P.axisswap.value.code(true, ToOutputUnits(P, Transit(t.coo, 0)).coo))
  {
    hide AdjLon, Offset, PlaneScaled, LongWrapped, HeightOut, Scaled;
    OutputUnitsErrno(P, t);
    assert t == Transit(t.coo, 0);
    var u := ToOutputUnits(P, t);
    if u.coo.Error? {
      assert P.right == Cartesian && P.isGeocent;
      assert Trans(P.cart, true, t) == Transit(Error, P.cart.value.code(true, t.coo));
    } else {
      assert u.errno == 0;
      assert Trans(P.axisswap, true, u) == Transit(Error, P.axisswap.value.code(true, u.coo));
    }
  }

  /** A bare converter of two, three or four dimensions, without processing around it. */
  lemma BareForward(P: PJ, x: real, y: real, z: real, t: real, errno: int)
    requires P.pi > 0.0 && P.skipFwdPrepare && P.skipFwdFinalize
    ensures var c := Coord(x, y, z, t);
            var r := Forward(P, c, errno);
            && (P.fwd.four.Some? && P.fwd.four.value(c).Coord? ==> r == Outcome(true, P.fwd.four.value(c), errno))
            && (P.fwd.four.None? && P.fwd.three.Some? && P.fwd.three.value(x, y, z).Some? ==>
                  var q := P.fwd.three.value(x, y, z).value;
                  r == Outcome(true, Coord(q.0, q.1, q.2, t), errno))
            && (P.fwd.four.None? && P.fwd.three.None? && P.fwd.two.Some? && P.fwd.two.value(x, y).Some? ==>
                  var q := P.fwd.two.value(x, y).value;
                  r == Outcome(true, Coord(q.0, q.1, z, t), errno))
  {
  }

  /** inv_prepare has a result. */
  predicate InvPrepareWorks(P: PJ, c: Coord)
    requires c.Coord?
  {
    && Leg(P.axisswap, false).Works(c)
    && var d := Leg(P.axisswap, false).Result(c);
       d.Coord? && (P.right == Cartesian && P.isGeocent ==> Leg(P.cart, false).Works(Scaled(d, P.toMeter)))
  }

  lemma InvPreparedExactly(P: PJ, c: Coord)
    requires c.Coord?
    ensures InvPrepared(P, Transit(c, 0)).coo.Coord? <==> InvPrepareWorks(P, c)
    ensures InvPrepareWorks(P, c) ==> InvPrepared(P, Transit(c, 0)).errno == 0
  {
  }

  /** The coordinate between inv_prepare and the inverse converter. */
  function InvReady(P: PJ, c: Coord): Transit
  {
    if P.skipInvPrepare then Transit(c, 0) else InvPrepared(P, Transit(c, 0))
  }

  /** inv_finalize has a result. */
  predicate InvFinalizeWorks(P: PJ, c: Coord)
    requires P.pi > 0.0 && c.Coord?
  {
    P.left == Radians ==>
      Passes(InvLegs(P), c.(v0 := Wrapped(P, c.v0 + P.fromGreenwich + P.lam0)))
  }

  lemma InvFinalizedExactly(P: PJ, t: Transit)
    requires P.pi > 0.0 && t.coo.Coord?
    ensures InvFinalized(P, t).coo.Coord? <==> InvFinalizeWorks(P, t.coo)
    ensures InvFinalizeWorks(P, t.coo) ==> InvFinalized(P, t).errno == t.errno
  {
    hide Unshifted, Passes, InvLegs, Wrapped;
    var s := WithLam(t, Wrapped(P, t.coo.v0 + P.fromGreenwich + P.lam0));
    ShiftedFollows(P, s);
    FollowPasses(InvLegs(P), s);
  }

  /** All that pj_inv4d needs. */
  predicate InverseWorks(P: PJ, c: Coord)
    requires P.pi > 0.0 && c.Coord?
  {
    && (P.skipInvPrepare || InvPrepareWorks(P, c))
    && var d := InvReady(P, c).coo;
       && d.Coord?
       && (P.inv.four.Some? || P.inv.three.Some? || P.inv.two.Some?)
       && ConverterWorks(P.inv, d)
       && (P.skipInvFinalize || InvFinalizeWorks(P, Convert(P.inv, d)))
  }

  /** pj_inv4d has a result exactly then, and then succeeds with the error number as found. */
  lemma InverseExactly(P: PJ, c: Coord, errno: int)
    requires P.pi > 0.0 && c.Coord?
    ensures Inverse(P, c, errno).coo.Coord? <==> InverseWorks(P, c)
    ensures InverseWorks(P, c) ==> Inverse(P, c, errno).ok && Inverse(P, c, errno).errno == errno
  {
    InvPreparedExactly(P, c);
    hide InvPrepared, InvPrepareWorks, InvFinalizeWorks;
    var t1 := InvReady(P, c);
    if t1.coo.Coord? && !Absent(P.inv) {
      ConvertByDimension(P.inv, t1.coo);
      hide Convert, ConverterWorks;
      var t2 := Converted(P.inv, t1);
      if t2.coo.Coord? {
        InvFinalizedExactly(P, t2);
        hide InvFinalized;
      }
    }
  }

  /** An error coordinate, no converter at all, or the converter's own reason. */
  lemma InverseRefuses(P: PJ, c: Coord, errno: int)
    requires P.pi > 0.0 && c.Coord?
    ensures !P.skipInvPrepare ==> Inverse(P, Error, errno) == Outcome(false, Error, 2050)
    ensures InvReady(P, c).coo.Coord? && P.inv.four.None? && P.inv.three.None? && P.inv.two.None? ==>
              Inverse(P, c, errno) == Outcome(false, Error, 4098)
    ensures InvReady(P, c).coo.Coord? && !Absent(P.inv) && !ConverterWorks(P.inv, InvReady(P, c).coo) ==>
              Inverse(P, c, errno) == Outcome(false, Error, P.inv.code(InvReady(P, c).coo))
  {
    if InvReady(P, c).coo.Coord? && !Absent(P.inv) {
      ConvertByDimension(P.inv, InvReady(P, c).coo);
    }
    hide Convert, ConverterWorks, FromOutputUnits, Trans;
  }

  /** A bare converter of two, three or four dimensions, without processing around it. */
  lemma BareInverse(P: PJ, x: real, y: real, z: real, t: real, errno: int)
    requires P.pi > 0.0 && P.skipInvPrepare && P.skipInvFinalize
    ensures var c := Coord(x, y, z, t);
            var r := Inverse(P, c, errno);
            && (P.inv.four.Some? && P.inv.four.value(c).Coord? ==> r == Outcome(true, P.inv.four.value(c), errno))
            && (P.inv.four.None? && P.inv.three.Some? && P.inv.three.value(x, y, z).Some? ==>
                  var q := P.inv.three.value(x, y, z).value;
                  r == Outcome(true, Coord(q.0, q.1, q.2, t), errno))
            && (P.inv.four.None? && P.inv.three.None? && P.inv.two.Some? && P.inv.two.value(x, y).Some? ==>
                  var q := P.inv.two.value(x, y).value;
                  r == Outcome(true, Coord(q.0, q.1, z, t), errno))
  {
  }

  /** What the output means, in metres: false origins are added, plane coordinates of classic
      operations are in units of the semimajor axis, and the rest is kept. */
  lemma OutputInMetres(P: PJ, c: Coord)
    requires P.pi > 0.0 && P.frMeter * P.toMeter == 1.0 && P.vfrMeter * P.vtoMeter == 1.0 && c.Coord?
    requires !(P.right == Cartesian && P.isGeocent)
    ensures var o := ToOutputUnits(P, Transit(c, 0)).coo;
            && o.Coord? && o.v3 == c.v3
            && (P.right == Classic ==>
                  P.toMeter * o.v0 == c.v0 * P.a + P.x0 && P.toMeter * o.v1 == c.v1 * P.a + P.y0)
            && (P.right == Projected ==> P.toMeter * o.v0 == c.v0 + P.x0 && P.toMeter * o.v1 == c.v1 + P.y0)
            && (P.right == Classic || P.right == Projected || P.right == Radians ==>
                  P.vtoMeter * o.v2 == c.v2 + P.z0)
            && (P.right == Radians ==> o.v1 == c.v1 && Congruent(o.v0, c.v0, 2.0 * P.pi))
            && (P.right == Cartesian ==>
                  P.toMeter * o.v0 == c.v0 && P.toMeter * o.v1 == c.v1 && P.toMeter * o.v2 == c.v2)
            && (P.right == Whatever || P.right == Degrees ==> o == c)
  {
    hide Offset, PlaneScaled, Scaled, LongWrapped, HeightOut, NearCenter, Congruent;
    match P.right
    case Classic =>
      PlaneScaledIs(c, P.a);
      OffsetInMetres(P, PlaneScaled(c, P.a));
    case Projected => OffsetInMetres(P, c);
    case Radians =>
      LongWrapExactly(P, c.v0);
      HeightInMetres(P, c.v2);
    case Cartesian => ScaledInMetres(P, c);
    case _ =>
  }

  lemma PlaneScaledIs(c: Coord, f: real)
    requires c.Coord?
    ensures PlaneScaled(c, f) == c.(v0 := c.v0 * f, v1 := c.v1 * f)
  {
  }

  lemma HeightInMetres(P: PJ, z: real)
    requires P.vfrMeter * P.vtoMeter == 1.0
    ensures P.vtoMeter * HeightOut(P, z) == z + P.z0
  {
    InMetres(P.vfrMeter, P.vtoMeter, z, P.z0);
  }

  lemma OffsetInMetres(P: PJ, c: Coord)
    requires P.frMeter * P.toMeter == 1.0 && P.vfrMeter * P.vtoMeter == 1.0 && c.Coord?
    ensures var o := Offset(P, c);
            && o.Coord? && P.toMeter * o.v0 == c.v0 + P.x0 && P.toMeter * o.v1 == c.v1 + P.y0
            && P.vtoMeter * o.v2 == c.v2 + P.z0 && o.v3 == c.v3
  {
    hide HeightOut;
    HeightInMetres(P, c.v2);
    InMetres(P.frMeter, P.toMeter, c.v0, P.x0);
    InMetres(P.frMeter, P.toMeter, c.v1, P.y0);
  }

  lemma ScaledInMetres(P: PJ, c: Coord)
    requires P.frMeter * P.toMeter == 1.0 && c.Coord?
    ensures var o := Scaled(c, P.frMeter);
            && o.Coord? && o.v3 == c.v3
            && P.toMeter * o.v0 == c.v0 && P.toMeter * o.v1 == c.v1 && P.toMeter * o.v2 == c.v2
  {
    InMetres(P.frMeter, P.toMeter, c.v0, 0.0);
    InMetres(P.frMeter, P.toMeter, c.v1, 0.0);
    InMetres(P.frMeter, P.toMeter, c.v2, 0.0);
  }

  lemma InMetres(f: real, g: real, x: real, x0: real)
    requires f * g == 1.0
    ensures g * (f * (x + x0)) == x + x0 && g * (x * f) == x
  {
    assert g * (f * (x + x0)) == (f * g) * (x + x0);
    assert g * (x * f) == (f * g) * x;
  }
}
