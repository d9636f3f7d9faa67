/** Offset and doubled coordinates (src/lib/hex/coords.ts): two-number
    representations of the hex lattice and their conversions to and from
    cube coordinates. */
module HexCoords {
  import opened Wrappers
  import opened HexAlgebra
  import Bits

  /** The two parity selectors the offset conversions accept. */
  const Even: int := 1
  const Odd: int := -1

  datatype OffsetCoord = OffsetCoord(col: int, row: int)

  datatype DoubledCoord = DoubledCoord(col: int, row: int)

  datatype CoordError = InvalidParity

  predicate ValidParity(offset: int)
  {
    offset == Even || offset == Odd
  }

  /** `(x + offset * (x & 1)) / 2`. The numerator is always even, so the
      source's division gives an integer. */
  function ParityShift(offset: int, x: int): (half: int)
    requires ValidParity(offset)
    ensures 2 * half == x + offset * (x % 2)
  {
    Bits.JsAndOne(x);
    (x + offset * Bits.JsAnd(x, 1)) / 2
  }

  /** `equals` on offset coordinates: structural. */
  function OffsetEquals(a: OffsetCoord, b: OffsetCoord): (e: bool)
    ensures e <==> a == b
  {
    a.col == b.col && a.row == b.row
  }

  /** `equals` on doubled coordinates: structural. */
  function DoubledEquals(a: DoubledCoord, b: DoubledCoord): (e: bool)
    ensures e <==> a == b
  {
    a.col == b.col && a.row == b.row
  }

  function QOffsetFromCube(offset: int, h: Hex): (res: Result<OffsetCoord, CoordError>)
    ensures res.Err? <==> !ValidParity(offset)
    ensures res.Ok? ==> res.value.col == h.q
  {
    if !ValidParity(offset) then Err(InvalidParity)
    else Ok(OffsetCoord(h.q, h.r + ParityShift(offset, h.q)))
  }

  function QOffsetToCube(offset: int, oc: OffsetCoord): (res: Result<Hex, CoordError>)
    ensures res.Err? <==> !ValidParity(offset)
    ensures res.Ok? ==> res.value.q == oc.col
  {
    if !ValidParity(offset) then Err(InvalidParity)
    else
      var q := oc.col;
      var r := oc.row - ParityShift(offset, oc.col);
      Ok(Cube(q, r, -q - r))
  }

  function ROffsetFromCube(offset: int, h: Hex): (res: Result<OffsetCoord, CoordError>)
    ensures res.Err? <==> !ValidParity(offset)
    ensures res.Ok? ==> res.value.row == h.r
  {
    if !ValidParity(offset) then Err(InvalidParity)
    else Ok(OffsetCoord(h.q + ParityShift(offset, h.r), h.r))
  }

  function ROffsetToCube(offset: int, oc: OffsetCoord): (res: Result<Hex, CoordError>)
    ensures res.Err? <==> !ValidParity(offset)
    ensures res.Ok? ==> res.value.r == oc.row
  {
    if !ValidParity(offset) then Err(InvalidParity)
    else
      var q := oc.col - ParityShift(offset, oc.row);
      var r := oc.row;
      Ok(Cube(q, r, -q - r))
  }

  function QDoubledFromCube(h: Hex): (dc: DoubledCoord)
    ensures dc.col == h.q && dc.row - dc.col == 2 * h.r
  {
    DoubledCoord(h.q, 2 * h.r + h.q)
  }

  /** The source divides with real division, so an odd `row - col` yields a
      hex with a fractional `r`: the result is a lattice hex exactly when
      `row - col` is even. */
  function QDoubledToCube(dc: DoubledCoord): (f: FracHex)
    ensures f.q == dc.col as real
    ensures IsLattice(f) <==> (dc.row - dc.col) % 2 == 0
  {
    HalfIsInteger(dc.row - dc.col);
    var q := dc.col as real;
    var r := (dc.row - dc.col) as real / 2.0;
    assert r.Floor as real == r ==> (-q - r).Floor as real == -q - r by {
      if r.Floor as real == r {
        assert -q - r == (-dc.col - r.Floor) as real;
      }
    }
    FracCube(q, r, -q - r)
  }

  function RDoubledFromCube(h: Hex): (dc: DoubledCoord)
    ensures dc.row == h.r && dc.col - dc.row == 2 * h.q
  {
    DoubledCoord(2 * h.q + h.r, h.r)
  }

  /** Likewise a lattice hex exactly when `col - row` is even. */
  function RDoubledToCube(dc: DoubledCoord): (f: FracHex)
    ensures f.r == dc.row as real
    ensures IsLattice(f) <==> (dc.col - dc.row) % 2 == 0
  {
    HalfIsInteger(dc.col - dc.row);
    var q := (dc.col - dc.row) as real / 2.0;
    var r := dc.row as real;
    assert q.Floor as real == q ==> (-q - r).Floor as real == -q - r by {
      if q.Floor as real == q {
        assert -q - r == (-q.Floor - dc.row) as real;
      }
    }
    FracCube(q, r, -q - r)
  }

  // Round trips

  lemma QOffsetRoundTrip(offset: int, h: Hex)
    requires ValidParity(offset)
    ensures QOffsetToCube(offset, QOffsetFromCube(offset, h).value) == Ok(h)
  {
  }

  lemma QOffsetRoundTripBack(offset: int, oc: OffsetCoord)
    requires ValidParity(offset)
    ensures QOffsetFromCube(offset, QOffsetToCube(offset, oc).value) == Ok(oc)
  {
  }

  lemma ROffsetRoundTrip(offset: int, h: Hex)
    requires ValidParity(offset)
    ensures ROffsetToCube(offset, ROffsetFromCube(offset, h).value) == Ok(h)
  {
  }

  lemma ROffsetRoundTripBack(offset: int, oc: OffsetCoord)
    requires ValidParity(offset)
    ensures ROffsetFromCube(offset, ROffsetToCube(offset, oc).value) == Ok(oc)
  {
  }

  lemma QDoubledRoundTrip(h: Hex)
    ensures QDoubledToCube(QDoubledFromCube(h)) == ToFrac(h)
  {
  }

  lemma RDoubledRoundTrip(h: Hex)
    ensures RDoubledToCube(RDoubledFromCube(h)) == ToFrac(h)
  {
  }

  /** A real number that is half an integer is an integer exactly when that
      integer is even. */
  lemma HalfIsInteger(n: int)
    ensures ((n as real / 2.0).Floor as real == n as real / 2.0) <==> n % 2 == 0
  {
    var k := n / 2;
    if n % 2 == 0 {
      assert n as real / 2.0 == k as real;
    } else {
      assert n as real / 2.0 == k as real + 0.5;
      assert (n as real / 2.0).Floor == k;
    }
  }

  /** When `row - col` is even the doubled pair names a lattice hex, and
      converting that hex back gives the pair itself. */
  lemma QDoubledRoundTripBack(dc: DoubledCoord)
    ensures (dc.row - dc.col) % 2 == 0 ==>
      var k := (dc.row - dc.col) / 2;
      var h: Hex := Cube(dc.col, k, -dc.col - k);
      ToFrac(h) == QDoubledToCube(dc) && QDoubledFromCube(h) == dc
  {
    HalfIsInteger(dc.row - dc.col);
  }

  lemma RDoubledRoundTripBack(dc: DoubledCoord)
    ensures (dc.col - dc.row) % 2 == 0 ==>
      var k := (dc.col - dc.row) / 2;
      var h: Hex := Cube(k, dc.row, -k - dc.row);
      ToFrac(h) == RDoubledToCube(dc) && RDoubledFromCube(h) == dc
  {
    HalfIsInteger(dc.col - dc.row);
  }

  /** An example: `Hex(1, 1, -2)` to even-q offset coordinates and back. */
  lemma EvenQExample()
    ensures QOffsetFromCube(Even, Cube(1, 1, -2)) == Ok(OffsetCoord(1, 2))
    ensures QOffsetToCube(Even, OffsetCoord(1, 2)) == Ok(Cube(1, 1, -2))
  {
    Bits.JsAndOne(1);
  }
}
