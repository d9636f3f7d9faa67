# hex-grids core, modelled in Dafny

This project models the geometry and noise engine of the hex-grids
TypeScript library and proves its laws. It covers:

- the cube-coordinate `Hex` and its vector algebra, rotations, direction
  tables, distance, rounding, interpolation and line drawing;
- the offset and doubled coordinate conversions;
- the `pointy` and `flat` orientation presets;
- the hex/pixel layout transform and hex corners;
- the `HexMap` container and the hexagon-shaped population loop;
- the Perlin value noise, `grad2`, `fade`, `lerp` and the octave combinator.

Modules, one per source file:

| Dafny module | file | source |
|---|---|---|
| `Wrappers` | wrappers.dfy | `Option` and `Result`. A thrown error becomes an `Err`. Also `RealAbs`, the absolute value of a real. |
| `Bits` | bits.dfy | JavaScript's `&` on numbers: ToInt32 on both operands, a bitwise AND, then the result read back as signed 32-bit. |
| `HexAlgebra` | hex.dfy | src/lib/hex/hex.ts |
| `HexCoords` | coords.dfy | src/lib/hex/coords.ts |
| `Orientations` | orientation.dfy | src/lib/hex/orientation.ts |
| `Layouts` | layout.dfy | src/lib/hex/layout.ts |
| `HexMaps` | hex_map.dfy | src/lib/hex/maps/index.ts |
| `HexagonMaps` | hexagon_map.dfy | src/lib/hex/maps/hexagon-map.ts |
| `Noise` | noise.dfy | src/lib/noise/noise.ts |

How the source's values become Dafny values:

- **Hexes.** A lattice hex is a `Cube(q, r, s)` of integers with q + r + s = 0. This is the subset type `Hex`, so no hex the model builds can break the invariant the constructor checks. A fractional hex, as produced by `lerp`, is the same over `real` (`FracHex`).
- **Rounding.** `Math.round(x)` is `floor(x + 1/2)`.
- **`&`.** `x & 1` and `x & 255` are proved equal to Euclidean `x % 2` and `x % 256` for every integer, negative ones included.
- **√3.** `Math.sqrt(3)` is a parameter `sqrt3`. The facts that need it assume `sqrt3 * sqrt3 == 3`.
- **Trigonometry.** `Math.PI`, `Math.cos` and `Math.sin` are the fields of a `Trig` value and are left uninterpreted.
- **`HexMap`.** A class whose field `hexData` is a `map` from `HexObject` references to payloads. `set` and `delete` reassign that field.
- **The hexagon map.** `HexagonHexMap`'s constructor is a pair of nested `while` loops that call `Set`.
- **The noise table.** The 512-entry table is an `array<byte>`, filled by a `for` loop.
- **`octave2`.** Its accumulation loop is a method proved against recursive sum functions.

Two facts about the code shape the model:

- `HexMap` keys are `Hex` objects in a JavaScript `Map`, which compares them by reference. The model keys the map by `HexObject` reference. `FreshHexIsNotAKey` states the consequence: a freshly built hex with the same coordinates as a key is still not a key.
- `qDoubledToCube` and `rDoubledToCube` divide with real division, so an odd `row - col` (or `col - row`) gives a fractional hex rather than an error. The model returns a `FracHex`.

## Model

| member | source | states |
|---|---|---|
| `HexAlgebra.NewHex` | src/lib/hex/hex.ts:34-40 | An omitted s becomes -q-r. The result is an error exactly when a given s breaks q+r+s=0. Otherwise the coordinates are kept. |
| `HexAlgebra.Equals` | src/lib/hex/hex.ts:49-52 | `equals` holds exactly when the two hexes are the same triple. |
| `HexAlgebra.Add` | src/lib/hex/hex.ts:64-66 | Subtracting either summand from the sum gives back the other one. |
| `HexAlgebra.Subtract` | src/lib/hex/hex.ts:68-70 | The difference is the origin exactly when the two hexes are equal. |
| `HexAlgebra.Scale` | src/lib/hex/hex.ts:72-74 | len(h.scale(k)) == \|k\|·len(h). |
| `HexAlgebra.RotateLeft` | src/lib/hex/hex.ts:79-81 | `rotateRight` undoes it, and it keeps `len`. |
| `HexAlgebra.RotateRight` | src/lib/hex/hex.ts:86-88 | It keeps `len`. |
| `HexAlgebra.Direction` | src/lib/hex/hex.ts:94-99 | Rejected exactly when d<0 or d>=6. Every accepted direction has length 1. |
| `HexAlgebra.Neighbor` | src/lib/hex/hex.ts:105-107 | Rejected exactly for an invalid direction. Otherwise the neighbour is at distance 1. |
| `HexAlgebra.DiagonalNeighbor` | src/lib/hex/hex.ts:113-115 | With 0<=d<6 (the source does not check it), the diagonal neighbour is at distance 2. |
| `HexAlgebra.Len` | src/lib/hex/hex.ts:120-127 | 2·len = |q|+|r|+|s|, so the sum is even and `len` is a whole number. |
| `HexAlgebra.LenIsMax` | src/lib/hex/hex.ts:120-127 | `len` equals the largest absolute coordinate. |
| `HexAlgebra.Distance` | src/lib/hex/hex.ts:133-135 | Distance is a natural number, and zero exactly for equal hexes. |
| `HexAlgebra.DistanceOfAdd` | src/lib/hex/hex.ts:105-107 | Moving by a delta covers a distance equal to the delta's length. |
| `HexAlgebra.DistanceSymmetric` | src/lib/hex/hex.ts:133-135 | distance(a,b) == distance(b,a). |
| `HexAlgebra.DistanceAsSum` | src/lib/hex/hex.ts:120-135 | 2·distance is the sum of the absolute coordinate differences. |
| `HexAlgebra.DistanceTriangle` | src/lib/hex/hex.ts:133-135 | The triangle inequality for distance. |
| `HexAlgebra.AddSubtractInverse` | src/lib/hex/hex.ts:64-70 | a.add(b).subtract(b) == a, and a.subtract(b).add(b) == a. |
| `HexAlgebra.RotateLeftRightInverse` | src/lib/hex/hex.ts:79-88 | `rotateRight` undoes `rotateLeft`, and the reverse. |
| `HexAlgebra.RotateLeftThreeAndSix` | src/lib/hex/hex.ts:79-81 | Three left rotations give (-q,-r,-s), and six give h back. |
| `HexAlgebra.RotationKeepsLen` | src/lib/hex/hex.ts:79-88 | Rotating either way keeps `len`. |
| `HexAlgebra.DirectionRotates` | src/lib/hex/hex.ts:5-12 | direction(d).rotateLeft() == direction((d+1)%6). |
| `HexAlgebra.DiagonalIsSumOfDirections` | src/lib/hex/hex.ts:14-21 | diagonalDeltas[d] == directionDeltas[d] + directionDeltas[(d+1)%6], and it has length 2. |
| `HexAlgebra.JsRound` | src/lib/hex/hex.ts:143-145 | `Math.round(x)` is the integer n with n-1/2 <= x < n+1/2. |
| `HexAlgebra.Round` | src/lib/hex/hex.ts:142-157 | The rounded hex agrees with the independent roundings `Math.round` on at least two of its coordinates. |
| `HexAlgebra.RoundLattice` | src/lib/hex/hex.ts:142-157 | Rounding a lattice hex gives the same hex. |
| `HexAlgebra.RoundOfLatticeFrac` | src/lib/hex/hex.ts:142-157 | Rounding a fractional hex with integer coordinates changes nothing. |
| `HexAlgebra.Lerp` | src/lib/hex/hex.ts:163-165 | a.lerp(b,0) == a and a.lerp(b,1) == b. |
| `HexAlgebra.Nudge` | src/lib/hex/hex.ts:175-176 | Rounding a hex nudged by (1e-6, 1e-6, -2e-6) gives the hex back. |
| `HexAlgebra.StepSize` | src/lib/hex/hex.ts:178 | For N >= 1, the step times N is 1. |
| `HexAlgebra.LineSample` | src/lib/hex/hex.ts:174-180 | Sample 0 is a, and for N >= 1 sample N is b. |
| `HexAlgebra.LineDraw` | src/lib/hex/hex.ts:173-183 | Returns distance(a,b)+1 hexes. Hex i is the rounded i-th nudged interpolant. The line starts at a and ends at b. |
| `HexCoords.ParityShift` | src/lib/hex/coords.ts:36 | 2·((x + off·(x&1))/2) == x + off·(x mod 2): the numerator is even, so the division is exact. |
| `HexCoords.OffsetEquals` | src/lib/hex/coords.ts:17-20 | Structural equality of offset coordinates. |
| `HexCoords.DoubledEquals` | src/lib/hex/coords.ts:90-93 | Structural equality of doubled coordinates. |
| `HexCoords.QOffsetFromCube` | src/lib/hex/coords.ts:30-39 | Rejected exactly when the parity is neither +1 nor -1. Otherwise col == q. |
| `HexCoords.QOffsetToCube` | src/lib/hex/coords.ts:41-50 | Rejected exactly for a bad parity. Otherwise q == col. |
| `HexCoords.ROffsetFromCube` | src/lib/hex/coords.ts:52-61 | Rejected exactly for a bad parity. Otherwise row == r. |
| `HexCoords.ROffsetToCube` | src/lib/hex/coords.ts:63-72 | Rejected exactly for a bad parity. Otherwise r == row. |
| `HexCoords.QOffsetRoundTrip` | src/lib/hex/coords.ts:30-50 | qOffsetToCube(off, qOffsetFromCube(off, h)) == h for both parities. |
| `HexCoords.QOffsetRoundTripBack` | src/lib/hex/coords.ts:30-50 | qOffsetFromCube(off, qOffsetToCube(off, oc)) == oc for every integer pair. |
| `HexCoords.ROffsetRoundTrip` | src/lib/hex/coords.ts:52-72 | rOffsetToCube(off, rOffsetFromCube(off, h)) == h. |
| `HexCoords.ROffsetRoundTripBack` | src/lib/hex/coords.ts:52-72 | rOffsetFromCube(off, rOffsetToCube(off, oc)) == oc. |
| `HexCoords.QDoubledFromCube` | src/lib/hex/coords.ts:103-108 | col == q and row - col == 2r, which is even. |
| `HexCoords.QDoubledToCube` | src/lib/hex/coords.ts:110-115 | q == col, and the result is a lattice hex exactly when row - col is even. |
| `HexCoords.RDoubledFromCube` | src/lib/hex/coords.ts:117-122 | row == r and col - row == 2q. |
| `HexCoords.RDoubledToCube` | src/lib/hex/coords.ts:124-129 | r == row, and the result is a lattice hex exactly when col - row is even. |
| `HexCoords.QDoubledRoundTrip` | src/lib/hex/coords.ts:103-115 | qDoubledToCube(qDoubledFromCube(h)) == h. |
| `HexCoords.RDoubledRoundTrip` | src/lib/hex/coords.ts:117-129 | rDoubledToCube(rDoubledFromCube(h)) == h. |
| `HexCoords.HalfIsInteger` | src/lib/hex/coords.ts:112 | n/2 is a whole number exactly when n is even. |
| `HexCoords.QDoubledRoundTripBack` | src/lib/hex/coords.ts:103-115 | qDoubledToCube(dc) is a lattice hex exactly when row - col is even. Then converting back gives dc. |
| `HexCoords.RDoubledRoundTripBack` | src/lib/hex/coords.ts:117-129 | rDoubledToCube(dc) is a lattice hex exactly when col - row is even. Then converting back gives dc. |
| `HexCoords.EvenQExample` | src/lib/hex/coords.ts:30-50 | Hex(1,1,-2) is even-q offset (1,2), and back. |
| `Orientations.Pointy` | src/lib/hex/orientation.ts:2 | With sqrt3² = 3, the b-matrix inverts the f-matrix. start_angle is 0.5. |
| `Orientations.Flat` | src/lib/hex/orientation.ts:3 | With sqrt3² = 3, the b-matrix inverts the f-matrix. start_angle is 0. |
| `Orientations.FlatMirrorsPointy` | src/lib/hex/orientation.ts:2-3 | Flat (f0..f3) is pointy (f3..f0), and flat (b0..b3) is pointy (b3..b0). |
| `Orientations.Determinants` | src/lib/hex/orientation.ts:2-3 | Both f-matrices have determinant 3·sqrt3/2, which is not zero. |
| `Layouts.HexToPixel` | src/lib/hex/layout.ts:20-27 | Hex(0,0,0) is drawn at the origin. When the b-matrix inverts the f-matrix and the size is non-zero, pixelToHex of the pixel is (q, r). |
| `Layouts.PixelToHex` | src/lib/hex/layout.ts:33-41 | The origin pixel maps to (0, 0). |
| `Layouts.HexToPixelIsAffine` | src/lib/hex/layout.ts:24-26 | Relative to the origin, hexToPixel(a+b) is hexToPixel(a) + hexToPixel(b). |
| `Layouts.PresetsRoundTrip` | src/lib/hex/layout.ts:20-41 | For both presets, rounding the back-converted point gives the hex. |
| `Layouts.HexCornerOffset` | src/lib/hex/layout.ts:47-57 | Rejected exactly when corner < 0 or corner > 5. |
| `Layouts.CornerOffsetIgnoresOrigin` | src/lib/hex/layout.ts:52-56 | The corner offset depends only on start_angle, size and corner. |
| `Layouts.PolygonCorners` | src/lib/hex/layout.ts:62-70 | Six points. Point i is hexToPixel(h) + hexCornerOffset(i), in order of i. |
| `Layouts.PointyExample` | src/lib/hex/layout.ts:20-27 | A pointy layout of size (10,10) draws Hex(1,0,-1) at (10·sqrt3, 0). |
| `HexMaps.HexMap.constructor` | src/lib/hex/maps/index.ts:4 | A new map is empty. |
| `HexMaps.HexMap.Has` | src/lib/hex/maps/index.ts:10-12 | `has` is key membership. |
| `HexMaps.HexMap.Get` | src/lib/hex/maps/index.ts:14-16 | `get` returns the stored value when the key is present and the value is truthy. Otherwise it returns null, so an absent key reads as null. |
| `HexMaps.HexMap.Set` | src/lib/hex/maps/index.ts:18-20 | The new map is the old one with key↦data. `has` becomes true, and `get` returns data when data is truthy. Other keys are unchanged. An existing key is overwritten rather than added. |
| `HexMaps.HexMap.Delete` | src/lib/hex/maps/index.ts:22-24 | The key is removed, `has` becomes false, and other keys are unchanged. |
| `HexMaps.HexMap.ForEach` | src/lib/hex/maps/index.ts:6-8 | One callback per entry, with that entry's payload and key, and no key twice. |
| `HexMaps.FreshHexIsNotAKey` | src/lib/hex/maps/index.ts:4 | Keys compare by reference, so a freshly built hex is never a key, whatever its coordinates. |
| `HexagonMaps.RowLength` | src/lib/hex/maps/hexagon-map.ts:16-18 | For -size <= q <= size, row q is non-empty (r1 <= r2) and holds 2·size+1-|q| hexes. |
| `HexagonMaps.RowsBeforeAll` | src/lib/hex/maps/hexagon-map.ts:15-22 | All rows together hold 3·size²+3·size+1 hexes. |
| `HexagonMaps.WithinSize` | src/lib/hex/maps/hexagon-map.ts:15-19 | len(h) <= size exactly when the loop bounds admit h's q and r. |
| `HexagonMaps.InsertFresh` | src/lib/hex/maps/hexagon-map.ts:20 | `this.set` with a new key adds one entry, and that key's coordinates. |
| `HexagonMaps.FillColumn` | src/lib/hex/maps/hexagon-map.ts:16-21 | The inner loop adds exactly the hexes of column q within size, each via a constructor call that cannot fail. |
| `HexagonMaps.NewHexagonHexMap` | src/lib/hex/maps/hexagon-map.ts:9-23 | The map holds 3·size²+3·size+1 entries, or none when size < 0. Its coordinates are exactly the hexes with len <= size. Each payload is {color: getHexColor(hex)}. No two keys share coordinates. |
| `HexagonMaps.NewDefaultHexagonHexMap` | src/lib/hex/maps/hexagon-map.ts:9-12 | With the colour argument omitted, the map has the same hexes and every payload is {color: 'gray'}. |
| `Bits.JsAnd` | src/lib/noise/noise.ts:14 | `a & b` is a signed 32-bit integer. |
| `Bits.JsAndLowMask` | src/lib/hex/coords.ts:36 | For 1 <= k <= 31, x & (2^k - 1) is x mod 2^k for every integer x, negative ones included. |
| `Bits.JsAndOne` | src/lib/hex/coords.ts:36 | x & 1 == x mod 2. |
| `Bits.JsAndByte` | src/lib/noise/noise.ts:14 | x & 255 == x mod 256. |
| `Bits.JsAndTwo` | src/lib/noise/noise.ts:44 | For a byte i, i & 2 is 2 times bit 1 of i. |
| `Noise.InitPermutation` | src/lib/noise/noise.ts:4-5 | A fresh 512-byte table with p[i] == P[i] mod 256 == p[i+256], so p[i] == P[i] for in-range entries. |
| `Noise.PermutationTable` | src/lib/noise/noise.ts:4-5 | 512 bytes: entry i is P[i] mod 256, and entry i+256 repeats entry i. |
| `Noise.FilledIsPermutationTable` | src/lib/noise/noise.ts:4-5 | A 512-byte table whose two halves both hold P modulo 256 is exactly `PermutationTable(P)`. |
| `Noise.Perlin2OnInitialTable` | src/lib/noise/noise.ts:4-22 | `perlin2` on the table the module builds: the same value as `Perlin2` on `PermutationTable(P)`, within [-1,1], and 0 at integer points. |
| `Noise.Mask255` | src/lib/noise/noise.ts:14 | X = xi & 255 lies in [0,255] and equals xi mod 256, also for negative xi. |
| `Noise.CellOf` | src/lib/noise/noise.ts:13-16 | X and Y are the wrapped cell coordinates, and A = p[X]+Y, B = p[X+1]+Y. Every table read p[X+1], p[A], p[A+1], p[B], p[B+1] has its index in [0,512). |
| `Noise.Grad2` | src/lib/noise/noise.ts:42-45 | Bit 0 of i picks y over x, and bit 1 negates. |
| `Noise.Grad2Bounded` | src/lib/noise/noise.ts:42-45 | `grad2` returns x, y, -x or -y, so it lies in [-1,1] when x and y do. |
| `Noise.Fade` | src/lib/noise/noise.ts:47-49 | fade(0) = 0, fade(1) = 1, and fade(t) lies in [0,1] for t in [0,1]. |
| `Noise.Lerp` | src/lib/noise/noise.ts:51-53 | lerp(0,a,b) = a and lerp(1,a,b) = b. For t in [0,1] the result lies between a and b, in either order. |
| `Noise.LerpBounded` | src/lib/noise/noise.ts:51-53 | For t in [0,1], lerp keeps a common bound on a and b. |
| `Noise.CellNoise` | src/lib/noise/noise.ts:15-21 | The blend is 0 at the cell's corner offset (0,0), and within [-1,1] for offsets in [0,1]. |
| `Noise.Perlin2` | src/lib/noise/noise.ts:12-22 | \|perlin2(x,y)\| <= 1 for every table and point, and perlin2(x,y) == 0 whenever x and y are integers. |
| `Noise.Octave2` | src/lib/noise/noise.ts:26-40 | With no octaves the result is 0/0 (NaN, here `None`). Otherwise it is the amplitude-weighted sum of the octaves divided by the total amplitude. |
| `Noise.Amplitude` | src/lib/noise/noise.ts:30-35 | Every octave weight lies in (0, 1]. |
| `Noise.TotalAmplitude` | src/lib/noise/noise.ts:28-34 | After n octaves, total == 2 - 2·amplitude. It is positive exactly when n >= 1, and zero exactly when n == 0. |
| `Noise.AmplitudeIsPower` | src/lib/noise/noise.ts:35 | The amplitude of octave i is 2^-i: amplitude·2^i == 1. |
| `Noise.FrequencyIsPower` | src/lib/noise/noise.ts:36 | The frequency of octave i is 2^i. |
| `Noise.OctaveSumBounded` | src/lib/noise/noise.ts:32-37 | The loop's running `value` (`OctaveSum`): if the base noise is bounded by M, the weighted sum is bounded by M·total. |
| `Noise.OctaveBounded` | src/lib/noise/noise.ts:26-40 | The returned `value / total` (`OctaveValue`): if the base noise is bounded by M, so is the normalised octave sum. |

## Left out

- IEEE-754 arithmetic. All fractional values are exact reals. This leaves out rounding error, NaN and infinities, and the numeric value of `Math.sqrt(3)`.
- The NaN guard in `len`, which logs to the console. Lattice lengths are never NaN.
- Whether the constructor's exact `!== 0` check can trip on float sums, such as the nudged endpoints of `linedraw`.
- `Math.cos`, `Math.sin` and `Math.PI`, which are uninterpreted. No property of the corner points' geometry, such as equal distance from the centre, is stated.
- `Hex`'s coordinate setters, and the `id`, `hash` and `toString` strings of `Hex` and of the offset and doubled coordinates. A hex is an immutable value.
- `Noise.random2`, which uses `Math.random`.
- The concrete values of the table `P`, whose module is not part of this model. `P` is any 256-entry sequence of integers.
- Indices and directions that are not integers (for example `direction(2.5)`). Every index is an `int`.
- `HexAlgebra.LineDraw`: modelled for lattice endpoints only. It does not state that consecutive hexes of the line are adjacent, because that needs an analysis of how rounding treats neighbouring nudged samples, which the model does not attempt.
- Scale factors and the hexagon map's size are integers. The source accepts any number.
- `HexAlgebra.DiagonalNeighbor`: requires 0 <= d < 6. The source reads the table without a range check, and the out-of-range result (`undefined`, then a TypeError inside `add`) is not modelled.
- `Layouts.PixelToHex`: requires a non-zero size. Division by zero is not modelled.
- `HexMaps.HexMap.ForEach`: returns the calls the callback receives rather than running a callback. Iteration order and the callback's side effects are not modelled.
- `HexMaps.HexMap.Get`: whether a stored value is truthy is a parameter, because payloads are generic.
- `Noise.Octave2`: takes the point directly instead of returning a closure. The octave count is an integer.
- `Perlin2` takes the table as a sequence. `InitPermutation` proves that the array it fills holds `PermutationTable(P)`, and `Perlin2OnInitialTable` builds that array and evaluates `Perlin2` on its contents. No other code writes the table.
- The renderer, the editor, the configuration and the page shell, which are outside the core.
