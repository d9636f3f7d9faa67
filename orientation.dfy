/** Orientation presets (src/lib/hex/orientation.ts): the forward matrix
    f0..f3 from axial coordinates to pixels, its inverse b0..b3, and the
    angle, in sixths of a turn, at which the first corner sits. */
module Orientations {

  datatype Orientation = Orientation(
    f0: real, f1: real, f2: real, f3: real,
    b0: real, b1: real, b2: real, b3: real,
    startAngle: real)

  /** `Math.sqrt(3)` is taken as a parameter: every property below only
      needs `sqrt3 * sqrt3 == 3`. */
  predicate IsSqrt3(sqrt3: real)
  {
    sqrt3 * sqrt3 == 3.0
  }

  /** The b-matrix is a left inverse of the f-matrix. */
  predicate Inverts(m: Orientation)
  {
    && m.b0 * m.f0 + m.b1 * m.f2 == 1.0
    && m.b0 * m.f1 + m.b1 * m.f3 == 0.0
    && m.b2 * m.f0 + m.b3 * m.f2 == 0.0
    && m.b2 * m.f1 + m.b3 * m.f3 == 1.0
  }

  /** The pointy-top preset: its b-matrix inverts its f-matrix, and its
      first corner sits half a sixth of a turn round. */
  function Pointy(sqrt3: real): (o: Orientation)
    ensures IsSqrt3(sqrt3) ==> Inverts(o)
    ensures o.startAngle == 0.5
  {
    Orientation(sqrt3, sqrt3 / 2.0, 0.0, 3.0 / 2.0,
                sqrt3 / 3.0, -1.0 / 3.0, 0.0, 2.0 / 3.0,
                0.5)
  }

  /** The flat-top preset: its b-matrix inverts its f-matrix, and its
      first corner sits at angle zero. */
  function Flat(sqrt3: real): (o: Orientation)
    ensures IsSqrt3(sqrt3) ==> Inverts(o)
    ensures o.startAngle == 0.0
  {
    Orientation(3.0 / 2.0, 0.0, sqrt3 / 2.0, sqrt3,
                2.0 / 3.0, 0.0, -1.0 / 3.0, sqrt3 / 3.0,
                0.0)
  }

  function ForwardDeterminant(m: Orientation): real
  {
    m.f0 * m.f3 - m.f1 * m.f2
  }

  /** Flat-top is pointy-top with both matrices read backwards. */
  lemma FlatMirrorsPointy(sqrt3: real)
    ensures var p, f := Pointy(sqrt3), Flat(sqrt3);
      && (f.f0, f.f1, f.f2, f.f3) == (p.f3, p.f2, p.f1, p.f0)
      && (f.b0, f.b1, f.b2, f.b3) == (p.b3, p.b2, p.b1, p.b0)
  {
  }

  /** Both forward matrices have determinant 3 * sqrt3 / 2, which is not zero. */
  lemma Determinants(sqrt3: real)
    requires IsSqrt3(sqrt3)
    ensures ForwardDeterminant(Pointy(sqrt3)) == 3.0 * sqrt3 / 2.0
    ensures ForwardDeterminant(Flat(sqrt3)) == 3.0 * sqrt3 / 2.0
    ensures 3.0 * sqrt3 / 2.0 != 0.0
  {
  }
}
