/** Gradient noise (src/lib/noise/noise.ts): a doubled 256-entry permutation
    table, two-dimensional Perlin noise over it, and a fractal sum of
    octaves of any base noise. */
module Noise {
  import opened Wrappers
  import Bits

  /** An element of a `Uint8Array`. */
  newtype byte = x: int | 0 <= x < 256

  // The permutation table

  /** The module-level initialisation: a zero-filled 512-byte array whose
      two halves both receive `P`. Storing into a `Uint8Array` keeps the
      value modulo 256. */
  method InitPermutation(P: seq<int>) returns (p: array<byte>)
    requires |P| == 256
    ensures fresh(p) && p.Length == 512
    ensures p[..] == PermutationTable(P)
    ensures forall i :: 0 <= i < 256 ==> p[i] as int == P[i] % 256 && p[i + 256] == p[i]
    ensures forall i :: 0 <= i < 256 && 0 <= P[i] < 256 ==> p[i] as int == P[i] && p[i + 256] as int == P[i]
  {
    p := new byte[512](_ => 0);
    for i := 0 to 256
      invariant forall j :: 0 <= j < i ==> p[j] as int == P[j] % 256 && p[j + 256] == p[j]
    {
      p[i + 256] := (P[i] % 256) as byte;
      p[i] := p[i + 256];
    }
    FilledIsPermutationTable(P, p[..]);
  }

  /** A 512-byte table whose halves both hold `P` modulo 256 is the table
      `PermutationTable(P)`. */
  lemma FilledIsPermutationTable(P: seq<int>, t: seq<byte>)
    requires |P| == 256 && |t| == 512
    requires forall i :: 0 <= i < 256 ==> t[i] as int == P[i] % 256 && t[i + 256] == t[i]
    ensures t == PermutationTable(P)
  {
    var table := PermutationTable(P);
    forall j | 0 <= j < 512
      ensures t[j] == table[j]
    {
      if j >= 256 {
        var k := j - 256;
        assert t[k + 256] == t[k];
      }
    }
  }

  /** The table the initialisation builds: entry i is the low byte of
      `P[i mod 256]`, so both halves repeat `P`. */
  function PermutationTable(P: seq<int>): (p: seq<byte>)
    requires |P| == 256
    ensures |p| == 512
    ensures forall i :: 0 <= i < 256 ==> p[i] == p[i + 256] && p[i] as int == P[i] % 256
  {
    seq(512, i requires 0 <= i < 512 => (P[i % 256] % 256) as byte)
  }

  /** `Noise.perlin2` as the program runs it, on the table built from `P`
      at start-up. */
  method Perlin2OnInitialTable(P: seq<int>, x: real, y: real) returns (n: real)
    requires |P| == 256
    ensures n == Perlin2(PermutationTable(P), x, y)
    ensures RealAbs(n) <= 1.0
    ensures x.Floor as real == x && y.Floor as real == y ==> n == 0.0
  {
    var p := InitPermutation(P);
    n := Perlin2(p[..], x, y);
  }

  // Integer index arithmetic

  /** `n & 255`: the low byte of n, which is n modulo 256 for negative n too. */
  function Mask255(n: int): (m: int)
    ensures 0 <= m < 256 && m == n % 256
  {
    Bits.JsAndByte(n);
    Bits.JsAnd(n, 255)
  }

  /** The lattice cell containing a point: the wrapped column and row `X`,
      `Y` and the two hashed indices `A`, `B`. */
  datatype Cell = Cell(X: int, Y: int, A: int, B: int)

  function CellOf(p: seq<byte>, xi: int, yi: int): (c: Cell)
    requires |p| == 512
    ensures c.X == xi % 256 && c.Y == yi % 256
    ensures c.A == p[xi % 256] as int + yi % 256 && c.B == p[xi % 256 + 1] as int + yi % 256
    ensures 0 <= c.X + 1 < 512 && 0 <= c.A && c.A + 1 < 512 && 0 <= c.B && c.B + 1 < 512
  {
    var X, Y := Mask255(xi), Mask255(yi);
    Cell(X, Y, p[X] as int + Y, p[X + 1] as int + Y)
  }

  // Real-valued pieces

  /** `grad2`: bit 0 of i picks y over x, bit 1 negates. */
  function Grad2(i: byte, x: real, y: real): (g: real)
    ensures (i as int / 2) % 2 == 0 ==> g == if i as int % 2 == 0 then x else y
    ensures (i as int / 2) % 2 == 1 ==> g == if i as int % 2 == 0 then -x else -y
  {
    Bits.JsAndOne(i as int);
    Bits.JsAndTwo(i as int);
    var v := if Bits.JsAnd(i as int, 1) != 0 then y else x;
    if Bits.JsAnd(i as int, 2) != 0 then -v else v
  }

  /** The quintic smoothstep 6t^5 - 15t^4 + 10t^3. */
  function Fade(t: real): (f: real)
    ensures t == 0.0 ==> f == 0.0
    ensures t == 1.0 ==> f == 1.0
    ensures 0.0 <= t <= 1.0 ==> 0.0 <= f <= 1.0
  {
    var f := t * t * t * (t * (t * 6.0 - 15.0) + 10.0);
    assert 0.0 <= t <= 1.0 ==> 0.0 <= f <= 1.0 by {
      if 0.0 <= t <= 1.0 {
        QuinticInUnit(t);
      }
    }
    f
  }

  /** Linear interpolation: a at t = 0, b at t = 1, and between the two
      for t in [0, 1]. */
  function Lerp(t: real, a: real, b: real): (r: real)
    ensures t == 0.0 ==> r == a
    ensures t == 1.0 ==> r == b
    ensures 0.0 <= t <= 1.0 && a <= b ==> a <= r <= b
    ensures 0.0 <= t <= 1.0 && b <= a ==> b <= r <= a
  {
    var d := b - a;
    assert 0.0 <= t <= 1.0 ==> (d >= 0.0 ==> 0.0 <= t * d <= d) && (d <= 0.0 ==> d <= t * d <= 0.0) by {
      if 0.0 <= t <= 1.0 {
        if d >= 0.0 {
          FractionOf(t, d);
        } else {
          var e := a - b;
          FractionOf(t, e);
          assert t * d == -(t * e);
        }
      }
    }
    a + t * d
  }

  /** The blend of a cell's four corner gradients at offset (fx, fy) in it.
      At the cell's own corner it is zero, and inside the cell it stays in
      [-1, 1]. */
  function CellNoise(p: seq<byte>, c: Cell, fx: real, fy: real): (n: real)
    requires |p| == 512 && 0 <= c.A && c.A + 1 < 512 && 0 <= c.B && c.B + 1 < 512
    ensures fx == 0.0 && fy == 0.0 ==> n == 0.0
    ensures 0.0 <= fx <= 1.0 && 0.0 <= fy <= 1.0 ==> RealAbs(n) <= 1.0
  {
    var u, v := Fade(fx), Fade(fy);
    var g1, g2 := Grad2(p[c.A], fx, fy), Grad2(p[c.B], fx - 1.0, fy);
    var g3, g4 := Grad2(p[c.A + 1], fx, fy - 1.0), Grad2(p[c.B + 1], fx - 1.0, fy - 1.0);
    var n := Lerp(v, Lerp(u, g1, g2), Lerp(u, g3, g4));
    assert 0.0 <= fx <= 1.0 && 0.0 <= fy <= 1.0 ==> RealAbs(n) <= 1.0 by {
      if 0.0 <= fx <= 1.0 && 0.0 <= fy <= 1.0 {
        Grad2Bounded(p[c.A], fx, fy);
        Grad2Bounded(p[c.B], fx - 1.0, fy);
        Grad2Bounded(p[c.A + 1], fx, fy - 1.0);
        Grad2Bounded(p[c.B + 1], fx - 1.0, fy - 1.0);
        LerpBounded(u, g1, g2, 1.0);
        LerpBounded(u, g3, g4, 1.0);
        LerpBounded(v, Lerp(u, g1, g2), Lerp(u, g3, g4), 1.0);
      }
    }
    n
  }

  /** `Noise.perlin2`: the blend for the cell containing (x, y), at the
      fractional parts of x and y. */
  function Perlin2(p: seq<byte>, x: real, y: real): (n: real)
    requires |p| == 512
    ensures RealAbs(n) <= 1.0
    ensures x.Floor as real == x && y.Floor as real == y ==> n == 0.0
  {
    var xi, yi := x.Floor, y.Floor;
    CellNoise(p, CellOf(p, xi, yi), x - xi as real, y - yi as real)
  }

  // Octaves

  /** The weight of octave i: halved each octave. */
  function Amplitude(i: nat): (a: real)
    ensures 0.0 < a <= 1.0
  {
    if i == 0 then 1.0 else Amplitude(i - 1) * 0.5
  }

  /** The frequency of octave i: doubled each octave. */
  function Frequency(i: nat): real
  {
    if i == 0 then 1.0 else Frequency(i - 1) * 2.0
  }

  /** A coordinate scaled by an octave's frequency. */
  function Scaled(x: real, frequency: real): real
  {
    x * frequency
  }

  /** Octave i's contribution: the noise at the scaled point, weighted. */
  function OctaveTerm(noise: (real, real) -> real, x: real, y: real, i: nat): real
  {
    noise(Scaled(x, Frequency(i)), Scaled(y, Frequency(i))) * Amplitude(i)
  }

  /** The weighted sum of the first n octaves. */
  function OctaveSum(noise: (real, real) -> real, x: real, y: real, n: nat): real
  {
    if n == 0 then 0.0
    else OctaveSum(noise, x, y, n - 1) + OctaveTerm(noise, x, y, n - 1)
  }

  /** The sum of the first n weights: 2 - 2^(1-n), which is positive
      exactly when there is at least one octave. */
  function TotalAmplitude(n: nat): (total: real)
    ensures total == 2.0 - 2.0 * Amplitude(n)
    ensures n >= 1 <==> total > 0.0
    ensures n == 0 <==> total == 0.0
  {
    if n == 0 then 0.0 else TotalAmplitude(n - 1) + Amplitude(n - 1)
  }

  /** The normalised sum of n >= 1 octaves. */
  function OctaveValue(noise: (real, real) -> real, n: nat, x: real, y: real): real
    requires n >= 1
  {
    OctaveSum(noise, x, y, n) / TotalAmplitude(n)
  }

  /** The function `octave2` returns, applied to (x, y). With no octaves the
      source computes 0 / 0, which is NaN; the model answers `None`. */
  method Octave2(noise: (real, real) -> real, octaves: int, x: real, y: real) returns (r: Option<real>)
    ensures r.None? <==> octaves <= 0
    ensures octaves >= 1 ==> r == Some(OctaveValue(noise, octaves, x, y))
  {
    var total := 0.0;
    var frequency := 1.0;
    var amplitude := 1.0;
    var value := 0.0;
    var i := 0;
    while i < octaves
      invariant 0 <= i && (i == 0 || i <= octaves)
      invariant total == TotalAmplitude(i)
      invariant frequency == Frequency(i)
      invariant amplitude == Amplitude(i)
      invariant value == OctaveSum(noise, x, y, i)
    {
      value := value + noise(Scaled(x, frequency), Scaled(y, frequency)) * amplitude;
      total := total + amplitude;
      amplitude := amplitude * 0.5;
      frequency := frequency * 2.0;
      i := i + 1;
    }
    if total == 0.0 {
      r := None;
    } else {
      r := Some(value / total);
    }
  }

  // Properties

  /** Amplitude i is 2^-i. */
  lemma {:induction false} AmplitudeIsPower(n: nat)
    ensures Amplitude(n) * Bits.Pow2(n) as real == 1.0
  {
    if n > 0 {
      AmplitudeIsPower(n - 1);
      assert Amplitude(n) * Bits.Pow2(n) as real == Amplitude(n - 1) * Bits.Pow2(n - 1) as real;
    }
  }

  /** Frequency i is 2^i. */
  lemma {:induction false} FrequencyIsPower(n: nat)
    ensures Frequency(n) == Bits.Pow2(n) as real
  {
    if n > 0 {
      FrequencyIsPower(n - 1);
    }
  }

  /** A term weighted by w > 0 is bounded by the bound weighted by w. */
  lemma WeightedTerm(term: real, w: real, bound: real)
    requires w > 0.0 && RealAbs(term) <= bound
    ensures RealAbs(term * w) <= bound * w
  {
    if term >= 0.0 {
      assert term * w <= bound * w;
    } else {
      assert -(term * w) == (-term) * w;
      assert (-term) * w <= bound * w;
    }
  }

  lemma OctaveTermBounded(noise: (real, real) -> real, x: real, y: real, i: nat, bound: real)
    requires forall a: real, b: real :: RealAbs(noise(a, b)) <= bound
    ensures RealAbs(OctaveTerm(noise, x, y, i)) <= bound * Amplitude(i)
  {
    WeightedTerm(noise(Scaled(x, Frequency(i)), Scaled(y, Frequency(i))), Amplitude(i), bound);
  }

  lemma {:induction false} OctaveSumBounded(noise: (real, real) -> real, x: real, y: real, n: nat, bound: real)
    requires forall a: real, b: real :: RealAbs(noise(a, b)) <= bound
    ensures RealAbs(OctaveSum(noise, x, y, n)) <= bound * TotalAmplitude(n)
  {
    if n > 0 {
      OctaveSumBounded(noise, x, y, n - 1, bound);
      OctaveTermBounded(noise, x, y, n - 1, bound);
      OctaveSumStep(noise, x, y, n, bound);
    }
  }

  lemma OctaveSumStep(noise: (real, real) -> real, x: real, y: real, n: nat, bound: real)
    requires n > 0
    requires RealAbs(OctaveSum(noise, x, y, n - 1)) <= bound * TotalAmplitude(n - 1)
    requires RealAbs(OctaveTerm(noise, x, y, n - 1)) <= bound * Amplitude(n - 1)
    ensures RealAbs(OctaveSum(noise, x, y, n)) <= bound * TotalAmplitude(n)
  {
    SumBound(OctaveSum(noise, x, y, n - 1), OctaveTerm(noise, x, y, n - 1), bound, TotalAmplitude(n - 1), Amplitude(n - 1), TotalAmplitude(n));
  }

  /** Bounds proportional to two weights add up. */
  lemma SumBound(a: real, b: real, bound: real, u: real, w: real, total: real)
    requires RealAbs(a) <= bound * u && RealAbs(b) <= bound * w && total == u + w
    ensures RealAbs(a + b) <= bound * total
  {
    assert bound * total == bound * u + bound * w;
  }

  /** Dividing a value bounded by bound * t by t > 0 leaves it bounded by bound. */
  lemma DivideBound(s: real, t: real, bound: real)
    requires t > 0.0 && RealAbs(s) <= bound * t
    ensures RealAbs(s / t) <= bound
  {
    if s >= 0.0 {
      assert s / t <= (bound * t) / t;
    } else {
      assert -(s / t) == (-s) / t;
      assert (-s) / t <= (bound * t) / t;
    }
  }

  /** Dividing by the total weight keeps a bounded base noise within the same bound. */
  lemma OctaveBounded(noise: (real, real) -> real, x: real, y: real, n: nat, bound: real)
    requires n >= 1
    requires forall a: real, b: real :: RealAbs(noise(a, b)) <= bound
    ensures RealAbs(OctaveValue(noise, n, x, y)) <= bound
  {
    OctaveSumBounded(noise, x, y, n, bound);
    DivideBound(OctaveSum(noise, x, y, n), TotalAmplitude(n), bound);
  }

  /** A fraction in [0, 1] of a non-negative amount lies between 0 and that amount. */
  lemma FractionOf(t: real, d: real)
    requires 0.0 <= t <= 1.0 && d >= 0.0
    ensures 0.0 <= t * d <= d
  {
    MulNonNegative(t, d);
    MulNonNegative(1.0 - t, d);
    assert d - t * d == (1.0 - t) * d;
  }

  lemma LerpBounded(t: real, a: real, b: real, bound: real)
    requires 0.0 <= t <= 1.0
    requires RealAbs(a) <= bound && RealAbs(b) <= bound
    ensures RealAbs(Lerp(t, a, b)) <= bound
  {
  }

  /** `grad2` returns one of x, y, -x, -y, so it is bounded by the larger of |x|, |y|. */
  lemma Grad2Bounded(i: byte, x: real, y: real)
    ensures var g := Grad2(i, x, y); g == x || g == y || g == -x || g == -y
    ensures RealAbs(x) <= 1.0 && RealAbs(y) <= 1.0 ==> RealAbs(Grad2(i, x, y)) <= 1.0
  {
  }

  /** Products of non-negative reals are non-negative. */
  lemma CubeNonNegative(t: real)
    requires t >= 0.0
    ensures t * t * t >= 0.0
  {
    assert t * t >= 0.0;
  }

  /** On [0, 1] the quintic 6t^5 - 15t^4 + 10t^3 stays in [0, 1]: it is t^3
      times a positive quadratic, and one minus it is (1 - t)^3 times another. */
  lemma QuinticInUnit(t: real)
    requires 0.0 <= t <= 1.0
    ensures 0.0 <= t * t * t * (t * (t * 6.0 - 15.0) + 10.0) <= 1.0
  {
    var q := t * (t * 6.0 - 15.0) + 10.0;
    assert q == 6.0 * (t - 1.25) * (t - 1.25) + 0.625;
    assert q > 0.0;
    CubeNonNegative(t);
    var f := t * t * t * q;
    assert f == (t * t * t) * q;
    var w := 1.0 - t;
    CubeNonNegative(w);
    var e := 6.0 * t * t + 3.0 * t + 1.0;
    assert e > 0.0;
    assert 1.0 - f == (w * w * w) * e;
    MulNonNegative(t * t * t, q);
    MulNonNegative(w * w * w, e);
  }

  lemma MulNonNegative(a: real, b: real)
    requires a >= 0.0 && b >= 0.0
    ensures a * b >= 0.0
  {
  }
}
