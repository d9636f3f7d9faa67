/** JavaScript's bitwise AND on numbers: both operands are converted with
    ToInt32 (reduction modulo 2^32), combined bit by bit, and the 32-bit
    result is read back as a signed integer. */
module Bits {

  const TwoTo31: int := 0x8000_0000
  const TwoTo32: int := 0x1_0000_0000

  function Pow2(k: nat): (r: nat)
    ensures r >= 1
  {
    if k == 0 then 1 else 2 * Pow2(k - 1)
  }

  /** Bitwise AND of two naturals, least significant bit first. */
  function AndNat(a: nat, b: nat): (r: nat)
    ensures r <= a && r <= b
    decreases a
  {
    if a == 0 || b == 0 then 0
    else 2 * AndNat(a / 2, b / 2) + (a % 2) * (b % 2)
  }

  /** The 32 bits ToInt32 keeps, as an unsigned number. */
  function ToUint32(x: int): (u: nat)
    ensures u < TwoTo32
  {
    x % TwoTo32
  }

  /** A 32-bit pattern read as a two's complement integer. */
  function ToSigned32(u: nat): (x: int)
    requires u < TwoTo32
    ensures -TwoTo31 <= x < TwoTo31
    ensures ToUint32(x) == u
  {
    if u < TwoTo31 then u else u - TwoTo32
  }

  /** `a & b` as JavaScript evaluates it on integer-valued numbers. */
  function JsAnd(a: int, b: int): (r: int)
    ensures -TwoTo31 <= r < TwoTo31
  {
    ToSigned32(AndNat(ToUint32(a), ToUint32(b)))
  }

  /** Euclidean division is unique: any quotient and remainder in range are Dafny's. */
  lemma DivModUnique(x: int, n: int, q: int, r: int)
    requires n > 0 && 0 <= r < n && x == n * q + r
    ensures x / n == q && x % n == r
  {
    var q', r' := x / n, x % n;
    var d := q - q';
    assert n * q - n * q' == n * d;
    assert n * d == r' - r;
  }

  /** Splitting off the lowest bit before reducing modulo 2m. */
  lemma ModDouble(u: nat, m: nat)
    requires m > 0
    ensures u % (2 * m) == 2 * ((u / 2) % m) + u % 2
  {
    var a, b := u / 2, u % 2;
    var c, d := a / m, a % m;
    assert u == (2 * m) * c + (2 * d + b);
    DivModUnique(u, 2 * m, c, 2 * d + b);
  }

  /** Reducing modulo a multiple n of m first does not change the remainder modulo m. */
  lemma ModOfMultiple(x: int, m: nat, c: nat, n: nat)
    requires m > 0 && c > 0 && n == m * c
    ensures (x % n) % m == x % m
  {
    var big := x % n;
    var q := x / n;
    assert x == n * q + big;
    assert n * q == m * (c * q);
    assert big == m * (big / m) + big % m;
    assert x == m * (c * q + big / m) + big % m;
    DivModUnique(x, m, c * q + big / m, big % m);
  }

  lemma Pow2Add(j: nat, k: nat)
    ensures Pow2(j + k) == Pow2(j) * Pow2(k)
    decreases j
  {
    if j > 0 {
      Pow2Add(j - 1, k);
    }
  }

  /** ANDing with k low one-bits keeps the value modulo 2^k. */
  lemma {:induction false} AndLowMaskNat(u: nat, k: nat)
    ensures AndNat(u, Pow2(k) - 1) == u % Pow2(k)
  {
    if k == 0 {
    } else if u == 0 {
    } else {
      var m := Pow2(k - 1);
      assert (Pow2(k) - 1) / 2 == m - 1 && (Pow2(k) - 1) % 2 == 1;
      AndLowMaskNat(u / 2, k - 1);
      ModDouble(u, m);
    }
  }

  /** `x & (2^k - 1) == x mod 2^k` for every integer x, negative ones included,
      for masks that fit in 31 bits. */
  lemma JsAndLowMask(x: int, k: nat)
    requires 1 <= k <= 31
    ensures JsAnd(x, Pow2(k) - 1) == x % Pow2(k)
  {
    LowMaskFits(k);
    ModOfMultiple(x, Pow2(k), Pow2(32 - k), TwoTo32);
    JsAndMask(x, k, Pow2(k));
  }

  /** The same, with 2^k named and the reduction modulo 2^32 known not to
      change the remainder modulo 2^k. */
  lemma JsAndMask(x: int, k: nat, m: nat)
    requires m == Pow2(k) && 1 <= m <= TwoTo31
    requires (x % TwoTo32) % m == x % m
    ensures JsAnd(x, m - 1) == x % m
  {
    var u := ToUint32(x);
    DivModUnique(m - 1, TwoTo32, 0, m - 1);
    var mask := ToUint32(m - 1);
    assert mask == m - 1;
    AndLowMaskNat(u, k);
    var low := AndNat(u, mask);
    assert low == u % m;
    assert 0 <= low < TwoTo31;
    assert ToSigned32(low) == low;
  }

  /** A mask of k < 32 bits splits 2^32 and fits in 31 bits. */
  lemma LowMaskFits(k: nat)
    requires 1 <= k <= 31
    ensures Pow2(k) * Pow2(32 - k) == TwoTo32
    ensures Pow2(k) <= TwoTo31
  {
    Pow2Of31();
    Pow2Add(k, 32 - k);
    Pow2Add(k, 31 - k);
    MulAtLeast(Pow2(k), Pow2(31 - k));
  }

  lemma MulAtLeast(a: nat, b: nat)
    requires b >= 1
    ensures a * b >= a
  {
    assert a * b == a * (b - 1) + a;
  }

  lemma Pow2Of8()
    ensures Pow2(8) == 256
  {
    assert Pow2(1) == 2 && Pow2(2) == 4 && Pow2(3) == 8 && Pow2(4) == 16;
    assert Pow2(5) == 32 && Pow2(6) == 64 && Pow2(7) == 128;
  }

  lemma Pow2Of31()
    ensures Pow2(31) == TwoTo31 && Pow2(32) == TwoTo32
  {
    Pow2Of8();
    Pow2Add(8, 8);
    Pow2Add(16, 8);
    Pow2Add(1, 7);
    Pow2Add(24, 7);
    Pow2Add(31, 1);
  }

  /** `x & 1` is the Euclidean remainder of x by 2. */
  lemma JsAndOne(x: int)
    ensures JsAnd(x, 1) == x % 2
  {
    assert Pow2(1) == 2;
    JsAndLowMask(x, 1);
  }

  /** `x & 255` is the Euclidean remainder of x by 256. */
  lemma JsAndByte(x: int)
    ensures JsAnd(x, 255) == x % 256
  {
    Pow2Of8();
    JsAndLowMask(x, 8);
  }

  /** For a byte i, `i & 2` is non-zero exactly when bit 1 of i is set. */
  lemma JsAndTwo(i: int)
    requires 0 <= i < 256
    ensures JsAnd(i, 2) == 2 * ((i / 2) % 2)
  {
    assert Pow2(1) == 2;
    AndLowMaskNat(i / 2, 1);
  }
}
