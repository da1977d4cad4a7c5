/** The entry points of src/fwd.cpp and src/inv.cpp as they run: the coordinate and the
    error number of the context are changed in place. */
module InvocationState {
  import opened Basics
  import opened RealMath
  import opened LongitudeWrap
  import opened Invocation

  /** The part of the context that the entry points use. */
  class Context {
    var last_errno: int

    constructor (errno: int)
      ensures last_errno == errno
    {
      last_errno := errno;
    }
  }

  /** A coordinate passed by reference. */
  class Cell {
    var coo: Coord

    constructor (c: Coord)
      ensures coo == c
    {
      coo := c;
    }
  }

  ghost function Now(cell: Cell, ctx: Context): Transit
    reads cell, ctx
  {
    Transit(cell.coo, ctx.last_errno)
  }

  method ProjTrans(op: Option<Op>, forward: bool, cell: Cell, ctx: Context)
    modifies cell, ctx
    ensures Now(cell, ctx) == Trans(op, forward, old(Now(cell, ctx)))
  {
    if op.Some? && cell.coo.Coord? {
      var before := cell.coo;
      cell.coo := if forward then op.value.forward(before) else op.value.inverse(before);
      if cell.coo.Error? {
        ctx.last_errno := op.value.code(forward, before);
      }
    }
  }

  method Refuse(cell: Cell, ctx: Context)
    modifies cell, ctx
    ensures Now(cell, ctx) == Transit(Error, INVALID_COORD)
  {
    ctx.last_errno := INVALID_COORD;
    cell.coo := Error;
  }

  method FwdPrepare(P: PJ, cell: Cell, ctx: Context)
    requires P.pi > 0.0
    modifies cell, ctx
    ensures Now(cell, ctx) == FwdPrepared(P, old(Now(cell, ctx)))
  {
    hide AdjLon, Trans;
    if cell.coo.Error? {
      return;
    }
    if P.left == Radians {
      var halfPi := P.pi / 2.0;
      if Abs(cell.coo.v1) > halfPi {
        if cell.coo.v1 > 0.0 {
          if cell.coo.v1 - halfPi > EPS_LAT {
            Refuse(cell, ctx);
            return;
          }
          cell.coo := cell.coo.(v1 := halfPi);
        } else {
          if cell.coo.v1 - halfPi < -EPS_LAT {
            Refuse(cell, ctx);
            return;
          }
          cell.coo := cell.coo.(v1 := -halfPi);
        }
      }
      if Abs(cell.coo.v0) > P.pi {
        if Abs(cell.coo.v0) > 10.0 {
          Refuse(cell, ctx);
          return;
        }
        if !P.over {
          cell.coo := cell.coo.(v0 := AdjLon(P.pi, cell.coo.v0));
        }
      }
      ApplyShifts(P, cell, ctx);
      if cell.coo.Error? {
        return;
      }
      cell.coo := cell.coo.(v0 := (cell.coo.v0 - P.fromGreenwich) - P.lam0);
      if !P.over {
        cell.coo := cell.coo.(v0 := AdjLon(P.pi, cell.coo.v0));
      }
      return;
    }
    if P.left == Cartesian && P.helmert.Some? {
      ProjTrans(P.helmert, false, cell, ctx);
    } else {
      assert P.left == Cartesian ==> P.helmert.None?;
      assert Trans(P.helmert, false, Now(cell, ctx)) == Now(cell, ctx) || P.helmert.Some?;
    }
  }

  /** The part of fwd_prepare between the range checks and the central meridian. */
  method ApplyShifts(P: PJ, cell: Cell, ctx: Context)
    modifies cell, ctx
    ensures Now(cell, ctx) == Shifted(P, old(Now(cell, ctx)))
  {
    hide Trans;
    ProjTrans(P.geoc, false, cell, ctx);
    if P.hgridshift.Some? {
      ProjTrans(P.hgridshift, false, cell, ctx);
    } else if P.helmert.Some? || (P.cartWgs84.Some? && P.cart.Some?) {
      ProjTrans(P.cartWgs84, true, cell, ctx);
      ProjTrans(P.helmert, false, cell, ctx);
      ProjTrans(P.cart, false, cell, ctx);
    }
    ProjTrans(P.vgridshift, true, cell, ctx);
  }

  method FwdFinalize(P: PJ, cell: Cell, ctx: Context)
    requires P.pi > 0.0
    modifies cell, ctx
    ensures Now(cell, ctx) == FwdFinalized(P, old(Now(cell, ctx)))
  {
    hide AdjLon, Trans, Scaled, Offset, PlaneScaled, LongWrapped, HeightOut;
    ghost var t := Now(cell, ctx);
    match P.right {
      case Cartesian =>
        if P.isGeocent {
          ProjTrans(P.cart, true, cell, ctx);
        }
        assert Now(cell, ctx) == if P.isGeocent then Trans(P.cart, true, t) else t;
        if cell.coo.Coord? {
          ScaleBy(P.frMeter, cell);
        }
        assert Now(cell, ctx) == ToOutputUnits(P, t);
      case Classic =>
        if cell.coo.Coord? {
          ScalePlaneBy(P.a, cell);
          AddOffsets(P, cell);
        }
        assert Now(cell, ctx) == ToOutputUnits(P, t);
      case Projected =>
        if cell.coo.Coord? {
          AddOffsets(P, cell);
        }
        assert Now(cell, ctx) == ToOutputUnits(P, t);
      case Whatever =>
      case Degrees =>
      case Radians =>
        if cell.coo.Coord? {
          cell.coo := cell.coo.(v2 := HeightOut(P, cell.coo.v2));
          WrapAround(P, cell);
        }
        assert Now(cell, ctx) == ToOutputUnits(P, t);
    }
    assert Now(cell, ctx) == ToOutputUnits(P, old(Now(cell, ctx)));
    ProjTrans(P.axisswap, true, cell, ctx);
  }

  /** Another linear unit for all three components. */
  method ScaleBy(f: real, cell: Cell)
    requires cell.coo.Coord?
    modifies cell
    ensures cell.coo.Coord? && cell.coo == Scaled(old(cell.coo), f)
  {
    cell.coo := cell.coo.(v0 := cell.coo.v0 * f);
    cell.coo := cell.coo.(v1 := cell.coo.v1 * f);
    cell.coo := cell.coo.(v2 := cell.coo.v2 * f);
  }

  /** Another linear unit in the plane. */
  method ScalePlaneBy(f: real, cell: Cell)
    requires cell.coo.Coord?
    modifies cell
    ensures cell.coo.Coord? && cell.coo == PlaneScaled(old(cell.coo), f)
  {
    cell.coo := cell.coo.(v0 := cell.coo.v0 * f);
    cell.coo := cell.coo.(v1 := cell.coo.v1 * f);
  }

  /** The long wrap at the end of the angular case of fwd_finalize. */
  method WrapAround(P: PJ, cell: Cell)
    requires P.pi > 0.0 && cell.coo.Coord?
    modifies cell
    ensures cell.coo == old(cell.coo).(v0 := LongWrapped(P, old(cell.coo).v0))
  {
    hide AdjLon;
    if P.longWrap.Some? {
      cell.coo := cell.coo.(v0 := P.longWrap.value + AdjLon(P.pi, cell.coo.v0 - P.longWrap.value));
    }
  }

  /** What the classic and the projected case of fwd_finalize share. */
  method AddOffsets(P: PJ, cell: Cell)
    requires cell.coo.Coord?
    modifies cell
    ensures cell.coo.Coord? && cell.coo == Offset(P, old(cell.coo))
  {
    cell.coo := cell.coo.(v0 := P.frMeter * (cell.coo.v0 + P.x0));
    cell.coo := cell.coo.(v1 := P.frMeter * (cell.coo.v1 + P.y0));
    cell.coo := cell.coo.(v2 := HeightOut(P, cell.coo.v2));
  }

  method InvPrepare(P: PJ, cell: Cell, ctx: Context)
    modifies cell, ctx
    ensures Now(cell, ctx) == InvPrepared(P, old(Now(cell, ctx)))
  {
    hide Trans, Scaled, Unoffset, PlaneScaled, HeightIn;
    if cell.coo.Error? {
      ctx.last_errno := OUTSIDE_PROJECTION_DOMAIN;
      return;
    }
    ProjTrans(P.axisswap, false, cell, ctx);
    if cell.coo.Error? {
      return;
    }
    ghost var t := Now(cell, ctx);
    match P.right {
      case Whatever =>
        assert Now(cell, ctx) == FromOutputUnits(P, t);
      case Degrees =>
        assert Now(cell, ctx) == FromOutputUnits(P, t);
      case Cartesian =>
        ScaleBy(P.toMeter, cell);
        assert Now(cell, ctx) == t.(coo := Scaled(t.coo, P.toMeter));
        if P.isGeocent {
          ProjTrans(P.cart, false, cell, ctx);
        }
        assert Now(cell, ctx) == FromOutputUnits(P, t);
      case Projected =>
        RemoveOffsets(P, cell);
        assert Now(cell, ctx) == FromOutputUnits(P, t);
      case Classic =>
        RemoveOffsets(P, cell);
        ScalePlaneBy(P.ra, cell);
        assert Now(cell, ctx) == FromOutputUnits(P, t);
      case Radians =>
        cell.coo := cell.coo.(v2 := HeightIn(P, cell.coo.v2));
        assert Now(cell, ctx) == FromOutputUnits(P, t);
    }
  }

  /** What the classic and the projected case of inv_prepare share. */
  method RemoveOffsets(P: PJ, cell: Cell)
    requires cell.coo.Coord?
    modifies cell
    ensures cell.coo.Coord? && cell.coo == Unoffset(P, old(cell.coo))
  {
    cell.coo := cell.coo.(v0 := P.toMeter * cell.coo.v0 - P.x0);
    cell.coo := cell.coo.(v1 := P.toMeter * cell.coo.v1 - P.y0);
    cell.coo := cell.coo.(v2 := HeightIn(P, cell.coo.v2));
  }

  method InvFinalize(P: PJ, cell: Cell, ctx: Context)
    requires P.pi > 0.0
    modifies cell, ctx
    ensures Now(cell, ctx) == InvFinalized(P, old(Now(cell, ctx)))
  {
    hide AdjLon, Trans;
    if cell.coo.Error? {
      ctx.last_errno := OUTSIDE_PROJECTION_DOMAIN;
      return;
    }
    if P.left == Radians {
      cell.coo := cell.coo.(v0 := cell.coo.v0 + P.fromGreenwich + P.lam0);
      if !P.over {
        cell.coo := cell.coo.(v0 := AdjLon(P.pi, cell.coo.v0));
      }
      ProjTrans(P.vgridshift, false, cell, ctx);
      if P.hgridshift.Some? {
        ProjTrans(P.hgridshift, true, cell, ctx);
      } else if P.helmert.Some? || (P.cartWgs84.Some? && P.cart.Some?) {
        ProjTrans(P.cart, true, cell, ctx);
        ProjTrans(P.helmert, true, cell, ctx);
        ProjTrans(P.cartWgs84, false, cell, ctx);
      }
      ProjTrans(P.geoc, true, cell, ctx);
    }
  }

  /** The call of the highest-dimensional converter. */
  method RunConverter(k: Converters, cell: Cell, ctx: Context)
    requires cell.coo.Coord? && !Absent(k)
    modifies cell, ctx
    ensures Now(cell, ctx) == Converted(k, old(Now(cell, ctx)))
  {
    var before := cell.coo;
    if k.four.Some? {
      cell.coo := k.four.value(cell.coo);
    } else if k.three.Some? {
      var r := k.three.value(cell.coo.v0, cell.coo.v1, cell.coo.v2);
      cell.coo := if r.Some? then cell.coo.(v0 := r.value.0, v1 := r.value.1, v2 := r.value.2) else Error;
    } else {
      var r := k.two.value(cell.coo.v0, cell.coo.v1);
      cell.coo := if r.Some? then cell.coo.(v0 := r.value.0, v1 := r.value.1) else Error;
    }
    if cell.coo.Error? {
      ctx.last_errno := k.code(before);
    }
  }

  method Fwd4d(P: PJ, cell: Cell, ctx: Context) returns (ok: bool)
    requires P.pi > 0.0
    modifies cell, ctx
    ensures Outcome(ok, cell.coo, ctx.last_errno) == Forward(P, old(cell.coo), old(ctx.last_errno))
  {
    hide FwdPrepared, FwdFinalized, Convert;
    var last_errno := ctx.last_errno;
    ctx.last_errno := 0;
    if !P.skipFwdPrepare {
      FwdPrepare(P, cell, ctx);
    }
    if cell.coo.Error? {
      return false;
    }
    if P.fwd.four.None? && P.fwd.three.None? && P.fwd.two.None? {
      ctx.last_errno := NO_INVERSE_OP;
      cell.coo := Error;
      return false;
    }
    RunConverter(P.fwd, cell, ctx);
    if cell.coo.Error? {
      return false;
    }
    if !P.skipFwdFinalize {
      FwdFinalize(P, cell, ctx);
    }
    if ctx.last_errno != 0 {
      cell.coo := Error;
      return false;
    }
    ctx.last_errno := last_errno;
    return true;
  }

  method Inv4d(P: PJ, cell: Cell, ctx: Context) returns (ok: bool)
    requires P.pi > 0.0
    modifies cell, ctx
    ensures Outcome(ok, cell.coo, ctx.last_errno) == Inverse(P, old(cell.coo), old(ctx.last_errno))
  {
    hide InvPrepared, InvFinalized, Convert;
    var last_errno := ctx.last_errno;
    ctx.last_errno := 0;
    if !P.skipInvPrepare {
      InvPrepare(P, cell, ctx);
    }
    if cell.coo.Error? {
      return false;
    }
    if P.inv.four.None? && P.inv.three.None? && P.inv.two.None? {
      ctx.last_errno := NO_INVERSE_OP;
      cell.coo := Error;
      return false;
    }
    RunConverter(P.inv, cell, ctx);
    if cell.coo.Error? {
      return false;
    }
    if !P.skipInvFinalize {
      InvFinalize(P, cell, ctx);
    }
    if ctx.last_errno != 0 {
      cell.coo := Error;
      return false;
    }
    ctx.last_errno := last_errno;
    return true;
  }

  /** There and back on one coordinate in place. */
  method ThereAndBack(P: PJ, cell: Cell, ctx: Context) returns (ok: bool)
    requires Sound(P) && cell.coo.Coord? && !P.skipFwdPrepare && Reconverts(P, cell.coo)
    requires Kept(P, Accepted(P, cell.coo))
    modifies cell, ctx
    ensures ok ==> cell.coo == Accepted(P, old(cell.coo)) && ctx.last_errno == old(ctx.last_errno)
    ensures ok <==> Forward(P, old(cell.coo), old(ctx.last_errno)).coo.Coord?
  {
    PiPositive(P);
    hide Sound, Reconverts, Kept, Accepted;
    ghost var c, errno := cell.coo, ctx.last_errno;
    ok := Fwd4d(P, cell, ctx);
    if ok {
      if cell.coo.Coord? {
        RoundTripExactly(P, c, errno, ctx.last_errno);
      }
      ErrorRefused(P, ctx.last_errno);
      hide Forward, Inverse;
      ok := Inv4d(P, cell, ctx);
    } else {
      assert !Forward(P, c, errno).ok;
    }
  }

  lemma ErrorRefused(P: PJ, errno: int)
    requires P.pi > 0.0
    ensures !Inverse(P, Error, errno).ok
  {
  }
}
