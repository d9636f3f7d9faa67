/** The hexagon-shaped map (src/lib/hex/maps/hexagon-map.ts): every hex
    within `size` steps of the origin, each with a colour chosen by a
    caller-supplied function. */
module HexagonMaps {
  import opened Wrappers
  import opened HexAlgebra
  import opened HexMaps

  /** The payload stored for each hex. */
  datatype TestData = TestData(color: string)

  /** The colour used when the caller supplies none. */
  function DefaultHexColor(h: Hex): string
  {
    "gray"
  }

  function Max(a: int, b: int): int { if a >= b then a else b }

  function Min(a: int, b: int): int { if a <= b then a else b }

  /** The first and last r the inner loop visits in column q. */
  function RowStart(size: int, q: int): int { Max(-size, -q - size) }

  function RowEnd(size: int, q: int): int { Min(size, -q + size) }

  /** How many hexes column q contributes. */
  function RowLength(size: int, q: int): (n: int)
    requires -size <= q <= size
    ensures n == 2 * size + 1 - Abs(q)
    ensures n >= 1
  {
    RowEnd(size, q) - RowStart(size, q) + 1
  }

  /** How many hexes the columns before q contribute. */
  function RowsBefore(size: int, q: int): int
    requires -size <= q <= size + 1
    decreases q + size
  {
    if q == -size then 0 else RowsBefore(size, q - 1) + RowLength(size, q - 1)
  }

  lemma {:induction false} RowsBeforeLeft(size: int, q: int)
    requires -size <= q <= 0
    ensures 2 * RowsBefore(size, q) == LeftClosedForm(size, q)
    decreases q + size
  {
    if q > -size {
      RowsBeforeLeft(size, q - 1);
      var len := RowLength(size, q - 1);
      var prev := RowsBefore(size, q - 1);
      assert len == 2 * size + q;
      assert RowsBefore(size, q) == prev + len;
      LeftClosedFormStep(size, q);
    }
  }

  /** Twice the number of hexes in the columns before q, for q <= 0. */
  function LeftClosedForm(size: int, q: int): int
  {
    2 * (q + size) * size + (q + size) * (q + size + 1)
  }

  lemma LeftClosedFormStep(size: int, q: int)
    ensures LeftClosedForm(size, q) == LeftClosedForm(size, q - 1) + 2 * (2 * size + q)
  {
    var n := q + size;
    assert 2 * n * size - 2 * (n - 1) * size == 2 * size;
    assert n * (n + 1) - (n - 1) * n == 2 * n;
  }

  lemma {:induction false} RowsBeforeRight(size: int, q: int)
    requires 0 <= size && 0 <= q <= size + 1
    ensures 2 * RowsBefore(size, q) == RightClosedForm(size, q)
    decreases q
  {
    if q == 0 {
      RowsBeforeLeft(size, 0);
      assert LeftClosedForm(size, 0) == 3 * size * size + size;
      assert RightClosedForm(size, 0) == 3 * size * size + size;
    } else {
      RowsBeforeRight(size, q - 1);
      var len := RowLength(size, q - 1);
      var prev := RowsBefore(size, q - 1);
      assert len == 2 * size + 2 - q;
      assert RowsBefore(size, q) == prev + len;
      RightClosedFormStep(size, q);
      var f0, f1 := RightClosedForm(size, q - 1), RightClosedForm(size, q);
      assert 2 * prev == f0;
      assert f1 == f0 + 2 * len;
      assert 2 * (prev + len) == f1;
    }
  }

  /** Twice the number of hexes in the columns before q, for q >= 0. */
  function RightClosedForm(size: int, q: int): int
  {
    3 * size * size + size + 2 * q * (2 * size + 1) - q * (q - 1)
  }

  lemma RightClosedFormStep(size: int, q: int)
    ensures RightClosedForm(size, q) == RightClosedForm(size, q - 1) + 2 * (2 * size + 2 - q)
  {
    var c := 2 * size + 1;
    assert q * c - (q - 1) * c == c;
    assert q * (q - 1) - (q - 1) * (q - 2) == 2 * (q - 1);
  }

  /** All the columns together hold the hexagonal number 3 size^2 + 3 size + 1. */
  lemma RowsBeforeAll(size: int)
    requires size >= 0
    ensures RowsBefore(size, size + 1) == 3 * size * size + 3 * size + 1
  {
    RowsBeforeRight(size, size + 1);
    assert RightClosedForm(size, size + 1) == 6 * size * size + 6 * size + 2;
  }

  /** A hex lies within `size` of the origin exactly when the two loops visit it. */
  lemma WithinSize(h: Hex, size: int)
    ensures Len(h) <= size <==>
      -size <= h.q <= size && RowStart(size, h.q) <= h.r <= RowEnd(size, h.q)
  {
    LenIsMax(h);
  }

  /** The `HexagonHexMap` constructor: one fresh key per hex within `size`
      of the origin, column by column. */
  method NewHexagonHexMap(size: int, getHexColor: Hex -> string) returns (m: HexMap<TestData>)
    ensures fresh(m)
    ensures |m.hexData| == if size >= 0 then 3 * size * size + 3 * size + 1 else 0
    ensures forall h: Hex :: h in m.Coordinates() <==> Len(h) <= size
    ensures forall k :: k in m.hexData ==> m.hexData[k] == TestData(getHexColor(k.hex))
    ensures forall k1, k2 :: k1 in m.hexData && k2 in m.hexData && k1.hex == k2.hex ==> k1 == k2
  {
    m := new HexMap<TestData>();
    if size < 0 {
      return;
    }
    var q := -size;
    NothingVisited(m.Coordinates(), size);
    while q <= size
      invariant -size <= q <= size + 1
      invariant fresh(m)
      invariant |m.hexData| == RowsBefore(size, q)
      invariant Visited(m.Coordinates(), size, q, RowStart(size, q))
      invariant Coloured(m.hexData, getHexColor) && DistinctCoordinates(m.hexData)
    {
      FillColumn(m, size, q, getHexColor);
      q := q + 1;
    }
    AllVisited(m.Coordinates(), size);
    RowsBeforeAll(size);
  }

  /** `new HexagonHexMap(size)` with the colour argument omitted: every
      payload is `{color: 'gray'}`. */
  method NewDefaultHexagonHexMap(size: int) returns (m: HexMap<TestData>)
    ensures fresh(m)
    ensures |m.hexData| == if size >= 0 then 3 * size * size + 3 * size + 1 else 0
    ensures forall h: Hex :: h in m.Coordinates() <==> Len(h) <= size
    ensures forall k :: k in m.hexData ==> m.hexData[k] == TestData("gray")
  {
    m := NewHexagonHexMap(size, DefaultHexColor);
  }

  /** The coordinates the loops have visited by column q, row r. */
  ghost predicate Visited(c: set<Hex>, size: int, q: int, r: int)
  {
    forall h: Hex :: h in c <==> Len(h) <= size && (h.q < q || (h.q == q && h.r < r))
  }

  /** Every payload is the colour of its key. */
  ghost predicate Coloured(data: map<HexObject, TestData>, getHexColor: Hex -> string)
  {
    forall k :: k in data ==> data[k] == TestData(getHexColor(k.hex))
  }

  /** No two keys carry the same coordinates. */
  ghost predicate DistinctCoordinates(data: map<HexObject, TestData>)
  {
    forall k1, k2 :: k1 in data && k2 in data && k1.hex == k2.hex ==> k1 == k2
  }

  lemma VisitStep(c: set<Hex>, size: int, q: int, r: int)
    requires -size <= q <= size && RowStart(size, q) <= r <= RowEnd(size, q)
    requires Visited(c, size, q, r)
    ensures Cube(q, r, -q - r) !in c
    ensures Visited(c + {Cube(q, r, -q - r)}, size, q, r + 1)
  {
    forall h: Hex
      ensures h in c + {Cube(q, r, -q - r)} <==> Len(h) <= size && (h.q < q || (h.q == q && h.r < r + 1))
    {
      WithinSize(h, size);
    }
  }

  lemma ColumnDone(c: set<Hex>, size: int, q: int)
    requires -size <= q <= size
    requires Visited(c, size, q, RowEnd(size, q) + 1)
    ensures Visited(c, size, q + 1, RowStart(size, q + 1))
  {
    forall h: Hex ensures h in c <==> Len(h) <= size && h.q < q + 1 {
      WithinSize(h, size);
    }
  }

  lemma NothingVisited(c: set<Hex>, size: int)
    requires size >= 0 && c == {}
    ensures Visited(c, size, -size, RowStart(size, -size))
  {
    forall h: Hex ensures !(Len(h) <= size && (h.q < -size || (h.q == -size && h.r < RowStart(size, -size)))) {
      WithinSize(h, size);
    }
  }

  lemma AllVisited(c: set<Hex>, size: int)
    requires size >= 0
    requires Visited(c, size, size + 1, RowStart(size, size + 1))
    ensures forall h: Hex :: h in c <==> Len(h) <= size
  {
    forall h: Hex ensures h in c <==> Len(h) <= size {
      WithinSize(h, size);
    }
  }

  /** One pass of the inner loop: the hexes of column q within `size`, in
      increasing r, each under a fresh key. */
  method FillColumn(m: HexMap<TestData>, size: int, q: int, getHexColor: Hex -> string)
    requires -size <= q <= size
    requires |m.hexData| == RowsBefore(size, q)
    requires Visited(m.Coordinates(), size, q, RowStart(size, q))
    requires Coloured(m.hexData, getHexColor) && DistinctCoordinates(m.hexData)
    modifies m
    ensures |m.hexData| == RowsBefore(size, q + 1)
    ensures Visited(m.Coordinates(), size, q + 1, RowStart(size, q + 1))
    ensures Coloured(m.hexData, getHexColor) && DistinctCoordinates(m.hexData)
  {
    var r1 := Max(-size, -q - size);
    var r2 := Min(size, -q + size);
    var r := r1;
    while r <= r2
      invariant r1 <= r <= r2 + 1
      invariant |m.hexData| == RowsBefore(size, q) + (r - r1)
      invariant Visited(m.Coordinates(), size, q, r)
      invariant Coloured(m.hexData, getHexColor) && DistinctCoordinates(m.hexData)
    {
      var checked := NewHex(q, r, Some(-q - r));
      assert checked.Ok?;
      var hex := new HexObject(checked.value);
      VisitStep(m.Coordinates(), size, q, r);
      InsertFresh(m, hex, TestData(getHexColor(hex.hex)));
      r := r + 1;
    }
    ColumnDone(m.Coordinates(), size, q);
  }

  /** `this.set` with a key the map has never seen. */
  method InsertFresh(m: HexMap<TestData>, key: HexObject, data: TestData)
    requires key !in m.hexData
    modifies m
    ensures m.hexData == old(m.hexData)[key := data]
    ensures |m.hexData| == |old(m.hexData)| + 1
    ensures m.Coordinates() == old(m.Coordinates()) + {key.hex}
  {
    m.Set(key, data);
    assert m.Coordinates() == old(m.Coordinates()) + {key.hex} by {
      forall h | h in old(m.Coordinates()) + {key.hex} ensures h in m.Coordinates() {
        if h != key.hex {
          var k :| k in old(m.hexData) && k.hex == h;
          assert k in m.hexData;
        } else {
          assert key in m.hexData;
        }
      }
    }
  }
}
