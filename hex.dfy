/** Cube-coordinate hexes (src/lib/hex/hex.ts): lattice hexes over int,
    fractional hexes (the results of interpolation) over real, their vector
    algebra, rotation, neighbours, distance, rounding and line drawing. */
module HexAlgebra {
  import opened Wrappers

  /** Three coordinates; a hex is a triple whose coordinates sum to zero. */
  datatype Cube = Cube(q: int, r: int, s: int)

  /** A lattice hex. Every `new Hex(...)` of the source checks the sum, so
      every hex value the source handles satisfies it. */
  type Hex = c: Cube | c.q + c.r + c.s == 0 witness Cube(0, 0, 0)

  datatype FracCube = FracCube(q: real, r: real, s: real)

  /** A hex whose coordinates may be fractional, as produced by `lerp`. */
  type FracHex = c: FracCube | c.q + c.r + c.s == 0.0 witness FracCube(0.0, 0.0, 0.0)

  datatype HexError = InvalidCoordinate | IndexOutOfRange

  function Abs(x: int): nat { if x < 0 then -x else x }

  function Max3(a: int, b: int, c: int): int
  {
    if a >= b && a >= c then a else if b >= c then b else c
  }

  /** `new Hex(q, r, s)`; an omitted `s` is derived as `-q - r`. */
  function NewHex(q: int, r: int, s: Option<int>): (res: Result<Hex, HexError>)
    ensures res.Err? <==> s.Some? && q + r + s.value != 0
    ensures res.Err? ==> res.error == InvalidCoordinate
    ensures res.Ok? ==> res.value.q == q && res.value.r == r
    ensures res.Ok? && s.Some? ==> res.value.s == s.value
  {
    var s' := if s.None? then -q - r else s.value;
    if q + r + s' != 0 then Err(InvalidCoordinate) else Ok(Cube(q, r, s'))
  }

  /** A lattice hex seen as a fractional one. */
  function ToFrac(h: Hex): FracHex
  {
    FracCube(h.q as real, h.r as real, h.s as real)
  }

  predicate IsLattice(f: FracHex)
  {
    f.q.Floor as real == f.q && f.r.Floor as real == f.r && f.s.Floor as real == f.s
  }

  // Direction tables

  const DirectionDeltas: seq<Hex> :=
    [Cube(1, 0, -1), Cube(1, -1, 0), Cube(0, -1, 1),
     Cube(-1, 0, 1), Cube(-1, 1, 0), Cube(0, 1, -1)]

  const DiagonalDeltas: seq<Hex> :=
    [Cube(2, -1, -1), Cube(1, -2, 1), Cube(-1, -1, 2),
     Cube(-2, 1, 1), Cube(-1, 2, -1), Cube(1, 1, -2)]

  // Operators

  /** `equals`: coordinate-wise comparison. */
  function Equals(a: Hex, b: Hex): (e: bool)
    ensures e <==> a == b
  {
    a.q == b.q && a.r == b.r && a.s == b.s
  }

  /** Subtracting either summand gives back the other. */
  function Add(a: Hex, b: Hex): (sum: Hex)
    ensures Subtract(sum, b) == a && Subtract(sum, a) == b
  {
    Cube(a.q + b.q, a.r + b.r, a.s + b.s)
  }

  /** The difference is the origin exactly when the hexes are equal. */
  function Subtract(a: Hex, b: Hex): (diff: Hex)
    ensures diff == Cube(0, 0, 0) <==> a == b
  {
    Cube(a.q - b.q, a.r - b.r, a.s - b.s)
  }

  /** Scaling by k multiplies the length by |k|. */
  function Scale(h: Hex, k: int): (scaled: Hex)
    ensures Len(scaled) == Abs(k) * Len(h)
  {
    assert h.q * k + h.r * k + h.s * k == (h.q + h.r + h.s) * k;
    var scaled: Hex := Cube(h.q * k, h.r * k, h.s * k);
    LenOfProducts(h, k, scaled);
    scaled
  }

  /** Rotation by 60 degrees about the origin, one way... */
  function RotateLeft(h: Hex): (rotated: Hex)
    ensures RotateRight(rotated) == h
    ensures Len(rotated) == Len(h)
  {
    Cube(-h.s, -h.q, -h.r)
  }

  /** ... and the other. */
  function RotateRight(h: Hex): (rotated: Hex)
    ensures Len(rotated) == Len(h)
  {
    Cube(-h.r, -h.s, -h.q)
  }

  function Direction(d: int): (res: Result<Hex, HexError>)
    ensures res.Ok? <==> 0 <= d < 6
    ensures res.Err? ==> res.error == IndexOutOfRange
    ensures res.Ok? ==> Len(res.value) == 1
  {
    if d < 0 || d >= 6 then Err(IndexOutOfRange) else Ok(DirectionDeltas[d])
  }

  function Neighbor(h: Hex, d: int): (res: Result<Hex, HexError>)
    ensures res.Ok? <==> 0 <= d < 6
    ensures res.Err? ==> res.error == IndexOutOfRange
    ensures res.Ok? ==> Distance(h, res.value) == 1
  {
    match Direction(d)
    case Err(e) => Err(e)
    case Ok(delta) =>
      DistanceOfAdd(h, delta);
      Ok(Add(h, delta))
  }

  /** The source indexes the diagonal table without a range check, so an
      index outside [0, 6) is not a valid call. */
  function DiagonalNeighbor(h: Hex, d: int): (n: Hex)
    requires 0 <= d < 6
    ensures Distance(h, n) == 2
  {
    DistanceOfAdd(h, DiagonalDeltas[d]);
    Add(h, DiagonalDeltas[d])
  }

  /** Distance from the origin: half the sum of the absolute coordinates;
      the sum is always even, so the division is exact. */
  function Len(h: Hex): (n: nat)
    ensures 2 * n == Abs(h.q) + Abs(h.r) + Abs(h.s)
  {
    (Abs(h.q) + Abs(h.r) + Abs(h.s)) / 2
  }

  /** On the lattice, the length is also the largest absolute coordinate. */
  lemma LenIsMax(h: Hex)
    ensures Len(h) == Max3(Abs(h.q), Abs(h.r), Abs(h.s))
  {
  }

  function Distance(a: Hex, b: Hex): (n: nat)
    ensures n == 0 <==> a == b
  {
    Len(Subtract(a, b))
  }

  lemma DistanceOfAdd(h: Hex, delta: Hex)
    ensures Distance(h, Add(h, delta)) == Len(delta)
  {
    assert Subtract(h, Add(h, delta)) == Cube(-delta.q, -delta.r, -delta.s);
  }

  // Rounding and interpolation

  /** JavaScript's `Math.round`: the nearest integer, halves rounded up. */
  function JsRound(x: real): (n: int)
    ensures n as real - 0.5 <= x < n as real + 0.5
  {
    (x + 0.5).Floor
  }

  /** `round`: round each coordinate, then recompute the one whose rounding
      moved it furthest from the negation of the other two. */
  function Round(f: FracHex): (h: Hex)
    ensures (h.q == JsRound(f.q) && h.r == JsRound(f.r)) ||
            (h.q == JsRound(f.q) && h.s == JsRound(f.s)) ||
            (h.r == JsRound(f.r) && h.s == JsRound(f.s))
  {
    var qi, ri, si := JsRound(f.q), JsRound(f.r), JsRound(f.s);
    var qd, rd, sd := RealAbs(qi as real - f.q), RealAbs(ri as real - f.r), RealAbs(si as real - f.s);
    if qd > rd && qd > sd then Cube(-ri - si, ri, si)
    else if rd > sd then Cube(qi, -qi - si, si)
    else Cube(qi, ri, -qi - ri)
  }

  /** `lerp`: coordinate-wise linear interpolation, extrapolating outside [0, 1]. */
  function Lerp(a: FracHex, b: FracHex, t: real): (f: FracHex)
    ensures t == 0.0 ==> f == a
    ensures t == 1.0 ==> f == b
  {
    assert a.q * (1.0 - t) + a.r * (1.0 - t) + a.s * (1.0 - t) == (a.q + a.r + a.s) * (1.0 - t);
    assert b.q * t + b.r * t + b.s * t == (b.q + b.r + b.s) * t;
    FracCube(a.q * (1.0 - t) + b.q * t, a.r * (1.0 - t) + b.r * t, a.s * (1.0 - t) + b.s * t)
  }

  const Epsilon: real := 0.000001

  /** The tie-breaking shift `linedraw` applies to both endpoints. */
  function Nudge(h: Hex): (f: FracHex)
    ensures Round(f) == h
  {
    assert JsRound(h.q as real + Epsilon) == h.q;
    assert JsRound(h.r as real + Epsilon) == h.r;
    assert JsRound(h.s as real - 2.0 * Epsilon) == h.s;
    FracCube(h.q as real + Epsilon, h.r as real + Epsilon, h.s as real - 2.0 * Epsilon)
  }

  /** `1.0 / Math.max(N, 1)`. */
  function StepSize(n: nat): (step: real)
    ensures n >= 1 ==> step * n as real == 1.0
  {
    1.0 / (if n > 1 then n else 1) as real
  }

  /** The i-th sample of `linedraw` between a and b over n steps: the
      first sample is a and, for n >= 1, the n-th is b. */
  function LineSample(a: Hex, b: Hex, n: nat, i: nat): (h: Hex)
    ensures i == 0 ==> h == a
    ensures n >= 1 && i == n ==> h == b
  {
    assert StepSize(n) * 0 as real == 0.0;
    Round(Lerp(Nudge(a), Nudge(b), StepSize(n) * i as real))
  }

  /** `linedraw`: the n + 1 rounded samples of the nudged segment, where n is
      the distance between the ends; the line starts at a and ends at b. */
  method LineDraw(a: Hex, b: Hex) returns (results: seq<Hex>)
    ensures |results| == Distance(a, b) + 1
    ensures results[0] == a && results[|results| - 1] == b
    ensures forall i :: 0 <= i < |results| ==> results[i] == LineSample(a, b, Distance(a, b), i)
  {
    var n := Distance(a, b);
    results := [];
    var i := 0;
    while i <= n
      invariant 0 <= i <= n + 1
      invariant |results| == i
      invariant forall j :: 0 <= j < i ==> results[j] == LineSample(a, b, n, j)
    {
      results := results + [LineSample(a, b, n, i)];
      i := i + 1;
    }
  }

  // Properties

  /** `a.add(b).subtract(b) == a` and back. */
  lemma AddSubtractInverse(a: Hex, b: Hex)
    ensures Subtract(Add(a, b), b) == a
    ensures Add(Subtract(a, b), b) == a
  {
  }

  lemma LenOfProducts(h: Hex, k: int, scaled: Hex)
    requires scaled == Cube(h.q * k, h.r * k, h.s * k)
    ensures Len(scaled) == Abs(k) * Len(h)
  {
    SumOfProducts(h.q, h.r, h.s, k);
    var n, m, x := Len(h), Abs(k), Len(scaled);
    var t := Abs(h.q) + Abs(h.r) + Abs(h.s);
    assert 2 * x == t * m;
    assert t == 2 * n;
    TwiceProduct(n, m);
  }

  lemma TwiceProduct(n: int, m: int)
    ensures (2 * n) * m == 2 * (m * n)
  {
  }

  lemma SumOfProducts(q: int, r: int, s: int, k: int)
    ensures Abs(q * k) + Abs(r * k) + Abs(s * k) == (Abs(q) + Abs(r) + Abs(s)) * Abs(k)
  {
    AbsOfProduct(q, k);
    AbsOfProduct(r, k);
    AbsOfProduct(s, k);
    var a, b, c, m := Abs(q), Abs(r), Abs(s), Abs(k);
    Distributes(a, b, m);
    Distributes(a + b, c, m);
  }

  lemma Distributes(a: int, b: int, m: int)
    ensures a * m + b * m == (a + b) * m
  {
  }

  lemma AbsOfProduct(x: int, k: int)
    ensures Abs(x * k) == Abs(x) * Abs(k)
  {
    if x < 0 && k >= 0 {
      assert x * k == -((-x) * k);
    } else if x >= 0 && k < 0 {
      assert x * k == -(x * (-k));
    } else if x < 0 && k < 0 {
      assert x * k == (-x) * (-k);
    }
  }

  lemma RotateLeftRightInverse(h: Hex)
    ensures RotateRight(RotateLeft(h)) == h
    ensures RotateLeft(RotateRight(h)) == h
  {
  }

  /** Three left rotations negate a hex; six give it back. */
  lemma RotateLeftThreeAndSix(h: Hex)
    ensures RotateLeft(RotateLeft(RotateLeft(h))) == Cube(-h.q, -h.r, -h.s)
    ensures RotateLeft(RotateLeft(RotateLeft(RotateLeft(RotateLeft(RotateLeft(h)))))) == h
  {
  }

  lemma RotationKeepsLen(h: Hex)
    ensures Len(RotateLeft(h)) == Len(h) && Len(RotateRight(h)) == Len(h)
  {
  }

  /** The direction table is ordered by left rotation. */
  lemma DirectionRotates(d: int)
    requires 0 <= d < 6
    ensures RotateLeft(Direction(d).value) == Direction((d + 1) % 6).value
  {
    var next := if d == 5 then 0 else d + 1;
    assert (d + 1) % 6 == next;
    assert |DirectionDeltas| == 6;
    var e, e' := Direction(d).value, Direction(next).value;
    if d == 0 {
      assert e == Cube(1, 0, -1) && e' == Cube(1, -1, 0);
      assert RotateLeft(Cube(1, 0, -1)) == Cube(1, -1, 0);
    } else if d == 1 {
      assert e == Cube(1, -1, 0) && e' == Cube(0, -1, 1);
      assert RotateLeft(Cube(1, -1, 0)) == Cube(0, -1, 1);
    } else if d == 2 {
      assert e == Cube(0, -1, 1) && e' == Cube(-1, 0, 1);
      assert RotateLeft(Cube(0, -1, 1)) == Cube(-1, 0, 1);
    } else if d == 3 {
      assert e == Cube(-1, 0, 1) && e' == Cube(-1, 1, 0);
      assert RotateLeft(Cube(-1, 0, 1)) == Cube(-1, 1, 0);
    } else if d == 4 {
      assert e == Cube(-1, 1, 0) && e' == Cube(0, 1, -1);
      assert RotateLeft(Cube(-1, 1, 0)) == Cube(0, 1, -1);
    } else {
      assert e == Cube(0, 1, -1) && e' == Cube(1, 0, -1);
      assert RotateLeft(Cube(0, 1, -1)) == Cube(1, 0, -1);
    }
  }

  /** Each diagonal is the sum of two consecutive directions. */
  lemma DiagonalIsSumOfDirections(d: int)
    requires 0 <= d < 6
    ensures DiagonalDeltas[d] == Add(DirectionDeltas[d], DirectionDeltas[(d + 1) % 6])
    ensures Len(DiagonalDeltas[d]) == 2
  {
    var next := if d == 5 then 0 else d + 1;
    assert (d + 1) % 6 == next;
    var e, e', g := DirectionDeltas[d], DirectionDeltas[next], DiagonalDeltas[d];
    assert g.q == e.q + e'.q && g.r == e.r + e'.r && g.s == e.s + e'.s;
    DiagonalLen(d);
  }

  lemma DiagonalLen(d: int)
    requires 0 <= d < 6
    ensures Len(DiagonalDeltas[d]) == 2
  {
    var g := DiagonalDeltas[d];
    assert Abs(g.q) + Abs(g.r) + Abs(g.s) == 4;
  }

  lemma DistanceSymmetric(a: Hex, b: Hex)
    ensures Distance(a, b) == Distance(b, a)
  {
  }

  /** Distance is a metric on the lattice: the triangle inequality. */
  lemma DistanceTriangle(a: Hex, b: Hex, c: Hex)
    ensures Distance(a, c) <= Distance(a, b) + Distance(b, c)
  {
    DistanceAsSum(a, c);
    DistanceAsSum(a, b);
    DistanceAsSum(b, c);
    AbsTriangle(a.q, b.q, c.q);
    AbsTriangle(a.r, b.r, c.r);
    AbsTriangle(a.s, b.s, c.s);
    var ac, ab, bc := Distance(a, c), Distance(a, b), Distance(b, c);
    assert 2 * ac <= 2 * ab + 2 * bc;
  }

  lemma DistanceAsSum(a: Hex, b: Hex)
    ensures 2 * Distance(a, b) == Abs(a.q - b.q) + Abs(a.r - b.r) + Abs(a.s - b.s)
  {
  }

  lemma AbsTriangle(x: int, y: int, z: int)
    ensures Abs(x - z) <= Abs(x - y) + Abs(y - z)
  {
  }

  /** Rounding a lattice hex gives it back. */
  lemma RoundLattice(h: Hex)
    ensures Round(ToFrac(h)) == h
  {
  }

  lemma RoundOfLatticeFrac(f: FracHex)
    requires IsLattice(f)
    ensures ToFrac(Round(f)) == f
  {
    var h: Hex := Cube(f.q.Floor, f.r.Floor, f.s.Floor);
    assert ToFrac(h) == f;
    RoundLattice(h);
  }
}
