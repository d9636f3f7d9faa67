/** The hex <-> pixel layout (src/lib/hex/layout.ts): an orientation, a size
    and an origin define an affine map from axial coordinates to pixels,
    its inverse, and the six corner offsets of a hex. */
module Layouts {
  import opened Wrappers
  import opened HexAlgebra
  import opened Orientations

  datatype Point = Point(x: real, y: real)

  datatype Layout = Layout(orientation: Orientation, size: Point, origin: Point)

  datatype LayoutError = CornerOutOfRange

  /** `Math.PI`, `Math.cos` and `Math.sin`, left uninterpreted. */
  datatype Trig = Trig(pi: real, cos: real -> real, sin: real -> real)

  function AddPoints(a: Point, b: Point): Point
  {
    Point(a.x + b.x, a.y + b.y)
  }

  function SubPoints(a: Point, b: Point): Point
  {
    Point(a.x - b.x, a.y - b.y)
  }

  /** The centre of a hex in pixels. The origin hex sits at the layout's
      origin, and when the orientation's b-matrix inverts its f-matrix and
      the size is non-zero, `pixelToHex` recovers (q, r) from the pixel. */
  function HexToPixel(l: Layout, h: Hex): (p: Point)
    ensures h == Cube(0, 0, 0) ==> p == l.origin
    ensures Inverts(l.orientation) && l.size.x != 0.0 && l.size.y != 0.0 ==>
      PixelToHex(l, p) == Point(h.q as real, h.r as real)
  {
    var m, sz := l.orientation, l.size;
    var q, r := h.q as real, h.r as real;
    var u, v := m.f0 * q + m.f1 * r, m.f2 * q + m.f3 * r;
    var p := Point(u * sz.x + l.origin.x, v * sz.y + l.origin.y);
    assert Inverts(m) && sz.x != 0.0 && sz.y != 0.0 ==> PixelToHex(l, p) == Point(q, r) by {
      if Inverts(m) && sz.x != 0.0 && sz.y != 0.0 {
        assert (p.x - l.origin.x) / sz.x == u;
        assert (p.y - l.origin.y) / sz.y == v;
        assert m.b0 * u + m.b1 * v == (m.b0 * m.f0 + m.b1 * m.f2) * q + (m.b0 * m.f1 + m.b1 * m.f3) * r;
        assert m.b2 * u + m.b3 * v == (m.b2 * m.f0 + m.b3 * m.f2) * q + (m.b2 * m.f1 + m.b3 * m.f3) * r;
      }
    }
    p
  }

  /** The inverse transform; the result is a fractional (q, r) pair, not a hex.
      The source divides by the size, so a zero size is not a valid layout here. */
  function PixelToHex(l: Layout, p: Point): (qr: Point)
    requires l.size.x != 0.0 && l.size.y != 0.0
    ensures p == l.origin ==> qr == Point(0.0, 0.0)
  {
    var m := l.orientation;
    var pt := Point((p.x - l.origin.x) / l.size.x, (p.y - l.origin.y) / l.size.y);
    Point(m.b0 * pt.x + m.b1 * pt.y, m.b2 * pt.x + m.b3 * pt.y)
  }

  /** The angle of a corner, in radians: `start_angle` and the corner index
      count sixths of a turn. */
  function CornerAngle(trig: Trig, startAngle: real, corner: int): real
  {
    2.0 * trig.pi * (startAngle - corner as real) / 6.0
  }

  /** The offset of a corner from the centre: the size scaled by the cosine
      and sine of the corner's angle. */
  function HexCornerOffset(l: Layout, trig: Trig, corner: int): (res: Result<Point, LayoutError>)
    ensures res.Err? <==> corner < 0 || corner > 5
  {
    if corner < 0 || corner > 5 then Err(CornerOutOfRange)
    else
      var angle := CornerAngle(trig, l.orientation.startAngle, corner);
      Ok(Point(l.size.x * trig.cos(angle), l.size.y * trig.sin(angle)))
  }

  /** `polygonCorners`: the six corners, in order of the corner index. */
  method PolygonCorners(l: Layout, trig: Trig, h: Hex) returns (cornerPoints: seq<Point>)
    ensures |cornerPoints| == 6
    ensures forall i :: 0 <= i < 6 ==>
      HexCornerOffset(l, trig, i).Ok? &&
      cornerPoints[i] == AddPoints(HexToPixel(l, h), HexCornerOffset(l, trig, i).value)
  {
    cornerPoints := [];
    var center := HexToPixel(l, h);
    for i := 0 to 6
      invariant |cornerPoints| == i
      invariant forall j :: 0 <= j < i ==> cornerPoints[j] == AddPoints(center, HexCornerOffset(l, trig, j).value)
    {
      var offset := HexCornerOffset(l, trig, i);
      cornerPoints := cornerPoints + [Point(center.x + offset.value.x, center.y + offset.value.y)];
    }
  }

  // Properties

  /** The transform is affine: relative to the origin it is linear in the hex. */
  lemma HexToPixelIsAffine(l: Layout, a: Hex, b: Hex)
    ensures SubPoints(HexToPixel(l, Add(a, b)), l.origin) ==
      AddPoints(SubPoints(HexToPixel(l, a), l.origin), SubPoints(HexToPixel(l, b), l.origin))
  {
    var m, sz := l.orientation, l.size;
    var aq, ar, bq, br := a.q as real, a.r as real, b.q as real, b.r as real;
    assert (m.f0 * (aq + bq) + m.f1 * (ar + br)) * sz.x == (m.f0 * aq + m.f1 * ar) * sz.x + (m.f0 * bq + m.f1 * br) * sz.x;
    assert (m.f2 * (aq + bq) + m.f3 * (ar + br)) * sz.y == (m.f2 * aq + m.f3 * ar) * sz.y + (m.f2 * bq + m.f3 * br) * sz.y;
  }

  /** For both presets, rounding the back-converted point gives the hex. */
  lemma PresetsRoundTrip(sqrt3: real, size: Point, origin: Point, h: Hex)
    requires IsSqrt3(sqrt3)
    requires size.x != 0.0 && size.y != 0.0
    ensures var p := PixelToHex(Layout(Pointy(sqrt3), size, origin), HexToPixel(Layout(Pointy(sqrt3), size, origin), h));
      Round(FracCube(p.x, p.y, -p.x - p.y)) == h
    ensures var p := PixelToHex(Layout(Flat(sqrt3), size, origin), HexToPixel(Layout(Flat(sqrt3), size, origin), h));
      Round(FracCube(p.x, p.y, -p.x - p.y)) == h
  {
    assert FracCube(h.q as real, h.r as real, -(h.q as real) - h.r as real) == ToFrac(h);
    RoundLattice(h);
  }

  /** Corner offsets depend on the start angle, the size and the corner only. */
  lemma CornerOffsetIgnoresOrigin(l: Layout, l2: Layout, trig: Trig, corner: int)
    requires l.orientation.startAngle == l2.orientation.startAngle && l.size == l2.size
    ensures HexCornerOffset(l, trig, corner) == HexCornerOffset(l2, trig, corner)
  {
    var a, b := HexCornerOffset(l, trig, corner), HexCornerOffset(l2, trig, corner);
    if a.Ok? {
      assert a.value == b.value;
    } else {
      assert a.error == b.error;
    }
  }

  /** A pointy layout of size (10, 10) at the origin puts Hex(1, 0, -1) at (10 * sqrt3, 0). */
  lemma PointyExample(sqrt3: real)
    ensures HexToPixel(Layout(Pointy(sqrt3), Point(10.0, 10.0), Point(0.0, 0.0)), Cube(1, 0, -1)) == Point(10.0 * sqrt3, 0.0)
  {
  }
}
