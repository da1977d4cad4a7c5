/** Value types that several modules share. */
module Basics {

  datatype Option<+T> = None | Some(value: T)

  /** Geographic coordinates, in radians. */
  datatype LP = LP(lam: real, phi: real)

  /** Plane coordinates. */
  datatype XY = XY(x: real, y: real)

  lemma ConcatAssociates<T>(a: seq<T>, b: seq<T>, c: seq<T>)
    ensures a + (b + c) == (a + b) + c
  {
  }

  type byte = x: int | 0 <= x < 0x100
}
