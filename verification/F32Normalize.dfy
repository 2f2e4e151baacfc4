/**
  The two normalization loops of sim/tools/iss.py, as loops, and the specification
  of the square-root reading.
 */
module F32Normalize {
  import opened Wrappers
  import opened PowersOfTwo
  import opened F32

  function BitLength(n: nat): nat {
    if n == 0 then 0 else 1 + BitLength(n / 2)
  }

  lemma {:induction false} BitLengthBounds(n: nat)
    requires n > 0
    ensures BitLength(n) > 0
    ensures Pow2(BitLength(n) - 1) <= n < Pow2(BitLength(n))
  {
    if n == 1 {
    } else {
      BitLengthBounds(n / 2);
      var k := BitLength(n / 2);
      assert Pow2(k) == 2 * Pow2(k - 1);
    }
  }

  lemma QuotientBounds(n: real, d: real, nLo: real, nHi: real, dLo: real, dHi: real)
    requires 0.0 < nLo <= n < nHi
    requires 0.0 < dLo <= d < dHi
    ensures nLo / dHi <= n / d < nHi / dLo
  {
    assert (n / d) * d == n;
    assert (nLo / dHi) * dHi == nLo;
    assert (nHi / dLo) * dLo == nHi;
    if n / d < nLo / dHi {
      RealProductMono(n / d, nLo / dHi, d, dHi);
    }
    if nHi / dLo <= n / d {
      RealProductMono(nHi / dLo, n / d, dLo, d);
    }
  }

  lemma RealProductMono(x: real, y: real, u: real, v: real)
    requires 0.0 < x <= y && 0.0 < u <= v
    ensures x * u <= y * v
  {
    assert x * u <= y * u;
    assert y * u <= y * v;
  }

  lemma Exp2Quotient(a: nat, b: nat)
    ensures Pow2(a) as real / Pow2(b) as real == Exp2(a - b)
  {
    hide Exp2, Pow2;
    Exp2Nat(a);
    Exp2Nat(b);
    Exp2Add(a - b, b);
    assert a - b + b == a;
    var x, y, z := Exp2(a), Exp2(b), Exp2(a - b);
    QuotientFromProduct(x, y, z);
  }

  lemma QuotientFromProduct(x: real, y: real, z: real)
    requires y > 0.0 && x == z * y
    ensures x / y == z
  {
  }

  /** The bit-length estimate is the wanted exponent or one below it. */
  lemma EstimateBounds(num: nat, den: nat)
    requires num > 0 && den > 0
    ensures var d := BitLength(num) - BitLength(den);
            Exp2(d - 1) <= Ratio(num, den) < Exp2(d + 1)
  {
    hide Exp2, Pow2, BitLength;
    BitLengthBounds(num);
    BitLengthBounds(den);
    var a: int, b: int := BitLength(num), BitLength(den);
    Exp2Quotient(a - 1, b);
    Exp2Quotient(a, b - 1);
    assert a - (b - 1) == a - b + 1 && a - 1 - b == a - b - 1;
    QuotientBounds(num as real, den as real,
                   Pow2(a - 1) as real, Pow2(a) as real, Pow2(b - 1) as real, Pow2(b) as real);
  }

  /** The scaled magnitude read as a significand and the class of what is left over. */
  function ReadAt(m: real, e: int): Norm {
    var x := m * Exp2(23 - e);
    Norm(e, x.Floor, Classify(x - x.Floor as real))
  }

  lemma BinadeReading(m: real, e: int)
    requires m > 0.0 && Exp2(e) <= m < Exp2(e + 1)
    ensures ReadAt(m, e) == Normalize(m)
  {
    hide Exp2, FloorLog2, Normalize;
    BinadeScales(m, e);
    NormUnique(m, ReadAt(m, e));
  }

  /** A Python Fraction with positive numerator and denominator. */
  function Ratio(num: nat, den: nat): (m: real)
    requires num > 0 && den > 0
    ensures m > 0.0
  {
    num as real / den as real
  }

  /** The exponent of the base-2^k digit that leads `m`. */
  function LeadingExponent(m: real, k: nat): int
    requires m > 0.0 && (k == 1 || k == 2)
  {
    FloorLog2(m) / k
  }

  /** Comparing against 2^(k * e) is comparing `e` against the leading exponent. */
  lemma LeadingExponentCompares(m: real, k: nat, e: int)
    requires m > 0.0 && (k == 1 || k == 2)
    ensures m >= Exp2(k * e) <==> e <= LeadingExponent(m, k)
  {
    hide Exp2, FloorLog2;
    var f := FloorLog2(m);
    if e <= f / k {
      assert k * e <= f;
      Exp2Mono(k * e, f);
    } else {
      assert k * e >= f + 1;
      Exp2Mono(f + 1, k * e);
    }
  }

  /**
    The two correction loops, from any estimate: they end at the leading exponent after as
    many iterations as the estimate was off.  iss.py runs them with k = 1 for a fraction and
    with k = 2 for a square root.
   */
  method SettleExponent(m: real, k: nat, estimate: int) returns (e: int, ghost iterations: nat)
    requires m > 0.0 && (k == 1 || k == 2)
    ensures e == LeadingExponent(m, k)
    ensures iterations == if e < estimate then estimate - e else e - estimate
  {
    hide *;
    ghost var t := LeadingExponent(m, k);
    e := estimate;
    iterations := 0;
    LeadingExponentCompares(m, k, e + 1);
    while m >= Exp2(k * (e + 1))
      invariant estimate <= e && (e == estimate || e <= t)
      invariant iterations == e - estimate
      invariant m >= Exp2(k * (e + 1)) <==> e + 1 <= t
      decreases t - e
    {
      e := e + 1;
      iterations := iterations + 1;
      LeadingExponentCompares(m, k, e + 1);
    }
    LeadingExponentCompares(m, k, e);
    while m < Exp2(k * e)
      invariant t <= e && (e <= estimate || e == t)
      invariant iterations == if e < estimate then estimate - e else e - estimate
      invariant m >= Exp2(k * e) <==> e <= t
      decreases e - t
    {
      e := e - 1;
      iterations := iterations + 1;
      LeadingExponentCompares(m, k, e);
    }
  }

  /** The normalization of a positive fraction: the correction loops run at most once in all. */
  method NormalizeFraction(num: nat, den: nat) returns (n: Norm, ghost iterations: nat)
    requires num > 0 && den > 0
    ensures n == Normalize(Ratio(num, den))
    ensures iterations <= 1
  {
    hide Exp2, FloorLog2, Normalize, Ratio, BitLength, ReadAt;
    EstimateBounds(num, den);
    var m := Ratio(num, den);
    var estimate := BitLength(num) - BitLength(den) - 1;
    var e;
    e, iterations := SettleExponent(m, 1, estimate);
    LeadingExponentCompares(m, 1, estimate);
    LeadingExponentCompares(m, 1, estimate + 2);
    LeadingExponentCompares(m, 1, e);
    LeadingExponentCompares(m, 1, e + 1);
    BinadeReading(m, e);
    n := ReadAt(m, e);
  }

  // ---- square root ----

  /** `r` is the integer square root of `n`. */
  predicate IsRoot(n: nat, r: nat) {
    r * r <= n < (r + 1) * (r + 1)
  }

  /** The root of `n` from the root of `n / 4`. */
  function NextDigit(n: nat, q: nat): nat {
    if (2 * q + 1) * (2 * q + 1) <= n then 2 * q + 1 else 2 * q
  }

  lemma NextDigitRoots(n: nat, q: nat)
    requires IsRoot(n / 4, q)
    ensures IsRoot(n, NextDigit(n, q))
  {
    var d := n / 4;
    assert 4 * d <= n < 4 * (d + 1);
    assert (2 * q) * (2 * q) == 4 * (q * q);
    assert (2 * q + 2) * (2 * q + 2) == 4 * ((q + 1) * (q + 1));
  }

  /** math.isqrt, one base-4 digit at a time. */
  function ISqrt(n: nat): (r: nat) {
    if n == 0 then 0 else NextDigit(n, ISqrt(n / 4))
  }

  lemma {:induction false} ISqrtRoots(n: nat)
    ensures IsRoot(n, ISqrt(n))
  {
    if n > 0 {
      hide IsRoot, NextDigit;
      ISqrtRoots(n / 4);
      NextDigitRoots(n, ISqrt(n / 4));
    }
  }

  lemma ISqrtBounds(n: nat)
    ensures ISqrt(n) * ISqrt(n) <= n < (ISqrt(n) + 1) * (ISqrt(n) + 1)
  {
    hide ISqrt;
    ISqrtRoots(n);
  }

  lemma SquareMono(r: int, q: int)
    requires 0 <= r <= q
    ensures r * r <= q * q
  {
  }

  lemma ISqrtUnique(n: nat, r: nat)
    requires r * r <= n < (r + 1) * (r + 1)
    ensures r == ISqrt(n)
  {
    ISqrtBounds(n);
    hide ISqrt;
    var q := ISqrt(n);
    if r < q {
      SquareMono(r + 1, q);
    } else if q < r {
      SquareMono(q + 1, r);
    }
  }

  function SqrtScaled(m: real, e: int): real {
    m * Exp2(2 * (23 - e))
  }

  /** The class of an integer radicand against the midpoint above its root. */
  function SqrtClass(n: int, sig: int): Class {
    if sig * sig == n then Exact
    else
      var mid := (2 * sig + 1) * (2 * sig + 1);
      if 4 * n < mid then Below else if 4 * n > mid then Above else Tie
  }

  function SqrtReadAt(m: real, e: int): Norm
    requires m > 0.0
  {
    var n := SqrtScaled(m, e).Floor;
    var sig := if n < 0 then 0 else ISqrt(n);
    Norm(e, sig, SqrtClass(n, sig))
  }

  /** _f32_sqrt_normalize, on the magnitude of one decoded float. */
  function SqrtNormalize(m: real): Norm
    requires m > 0.0
  {
    SqrtReadAt(m, LeadingExponent(m, 2))
  }

  /** The scaled magnitude is a whole number, as the procedure asserts. */
  predicate Radicable(m: real)
    requires m > 0.0
  {
    IsWhole(SqrtScaled(m, LeadingExponent(m, 2)))
  }

  predicate IsWhole(x: real) {
    x == x.Floor as real
  }

  /** The loop form, None where the assertion fails; again the estimate is corrected at most once. */
  method SqrtNormalizeFraction(num: nat, den: nat) returns (n: Option<Norm>, ghost iterations: nat)
    requires num > 0 && den > 0
    ensures n == if Radicable(Ratio(num, den)) then Some(SqrtNormalize(Ratio(num, den))) else None
    ensures iterations <= 1
  {
    hide Exp2, FloorLog2, Ratio, BitLength, SqrtReadAt, LeadingExponent;
    EstimateBounds(num, den);
    var m := Ratio(num, den);
    var d := BitLength(num) - BitLength(den);
    var estimate := d / 2 - 1;
    var e;
    e, iterations := SettleExponent(m, 2, estimate);
    Exp2Mono(2 * estimate, d - 1);
    Exp2Mono(d + 1, 2 * (estimate + 2));
    LeadingExponentCompares(m, 2, estimate);
    LeadingExponentCompares(m, 2, estimate + 2);
    var scaled := SqrtScaled(m, e);
    n := if IsWhole(scaled) then Some(SqrtReadAt(m, e)) else None;
  }

  /** The scale that makes the radicand of a decoded float an integer: 2^23 or 2^24 by parity. */
  function SqrtRadicand(e: int, mant: int): int {
    mant * (if e % 2 == 0 then MIN_SIG else SIG_LIMIT)
  }

  lemma MagnitudeBinade(e: int, sig: int)
    requires OnGrid(e, sig)
    ensures Magnitude(e, sig) > 0.0
    ensures Exp2(e) <= Magnitude(e, sig) < Exp2(e + 1)
    ensures Magnitude(e, sig) * Exp2(23 - e) == sig as real
  {
    hide Exp2;
    MagnitudePositive(e, sig);
    Exp2Inverse(e - 23);
    CancelFactor(sig as real, Exp2(e - 23), Exp2(23 - e));
    assert -(e - 23) == 23 - e;
    BinadeScales(Magnitude(e, sig), e);
  }

  lemma CancelFactor(s: real, x: real, y: real)
    requires x * y == 1.0
    ensures s * x * y == s
  {
    assert s * x * y == s * (x * y);
  }

  /** For a decoded float the leading root exponent is half the float's, and the radicand is integral. */
  lemma SqrtScaledIntegral(e: int, mant: int)
    requires OnGrid(e, mant)
    ensures Magnitude(e, mant) > 0.0
    ensures LeadingExponent(Magnitude(e, mant), 2) == e / 2
    ensures SqrtScaled(Magnitude(e, mant), e / 2) == SqrtRadicand(e, mant) as real
  {
    hide Exp2, FloorLog2, Magnitude;
    var m := Magnitude(e, mant);
    MagnitudeBinade(e, mant);
    BinadeUnique(m, e, FloorLog2(m));
    var p := e % 2;
    assert 2 * (23 - e / 2) == (23 - e) + (23 + p);
    Exp2Add(23 - e, 23 + p);
    Exp2Nat(23 + p);
    Pow2Literals();
    RegroupProduct(m, Exp2(23 - e), Exp2(23 + p), mant as real);
    assert Pow2(23 + p) == if p == 0 then MIN_SIG else SIG_LIMIT;
  }

  /** So the assertion never fails on a decoded float. */
  lemma DecodedIsRadicable(e: int, mant: int)
    requires OnGrid(e, mant)
    ensures Magnitude(e, mant) > 0.0 && Radicable(Magnitude(e, mant))
  {
    hide Exp2, FloorLog2, Magnitude, SqrtScaled, SqrtRadicand, LeadingExponent;
    SqrtScaledIntegral(e, mant);
  }

  lemma RegroupProduct(m: real, x: real, y: real, s: real)
    requires m * x == s
    ensures m * (x * y) == s * y
  {
    assert m * (x * y) == (m * x) * y;
  }

  // ---- the square root is the root ----

  lemma SquareOrder(x: real, y: real)
    requires x >= 0.0 && y >= 0.0
    ensures x < y <==> x * x < y * y
    ensures x == y <==> x * x == y * y
  {
    if x < y {
      SquareStrict(x, y);
    } else if y < x {
      SquareStrict(y, x);
    }
  }

  lemma SquareStrict(x: real, y: real)
    requires 0.0 <= x < y
    ensures x * x < y * y
  {
    assert y * y - x * x == (y - x) * (y + x);
    PositiveProduct(y - x, y + x);
  }

  lemma PositiveProduct(a: real, b: real)
    requires a > 0.0 && b > 0.0
    ensures a * b > 0.0
  {
  }

  /** Scaling a root scales its square by the square of the factor. */
  lemma ScaledRoot(y: real, m: real, k: int)
    requires y * y == m
    ensures (y * Exp2(k)) * (y * Exp2(k)) == m * Exp2(2 * k)
  {
    hide Exp2;
    Exp2Add(k, k);
    var x := Exp2(k);
    assert (y * x) * (y * x) == (y * y) * (x * x) by { FourFactors(y, x); }
  }

  lemma FourFactors(y: real, x: real)
    ensures (y * x) * (y * x) == (y * y) * (x * x)
  {
  }

  /** An integer radicand's root lies in the class its integer root is given. */
  lemma RootClass(z: real, n: nat, sig: nat)
    requires z > 0.0 && z * z == n as real && IsRoot(n, sig)
    ensures InClass(z - sig as real, SqrtClass(n, sig))
  {
    RootOrder(z, n, sig);
    RootOrder(z, n, sig + 1);
    Doubled(z);
    RootOrder(2.0 * z, 4 * n, 2 * sig + 1);
    assert (2 * sig + 1) as real == 2.0 * sig as real + 1.0;
  }

  /** A real root compares with an integer as the squares do. */
  lemma RootOrder(z: real, n: nat, k: nat)
    requires z > 0.0 && z * z == n as real
    ensures z < k as real <==> n < k * k
    ensures z == k as real <==> n == k * k
  {
    RealSquare(k);
    SquareOrder(z, k as real);
  }

  lemma Doubled(z: real)
    ensures (2.0 * z) * (2.0 * z) == 4.0 * (z * z)
  {
  }

  lemma RealSquare(k: int)
    ensures k as real * k as real == (k * k) as real
  {
  }

  lemma RadicandRoot(e: int, mant: int)
    requires OnGrid(e, mant)
    ensures SqrtRadicand(e, mant) >= 0 && MIN_SIG <= ISqrt(SqrtRadicand(e, mant)) < SIG_LIMIT
  {
    var n := SqrtRadicand(e, mant);
    assert MIN_SIG * MIN_SIG <= n < SIG_LIMIT * SIG_LIMIT;
    hide ISqrt, SqrtRadicand;
    ISqrtBounds(n);
    var r := ISqrt(n);
    if r < MIN_SIG {
      SquareMono(r + 1, MIN_SIG);
    } else if r >= SIG_LIMIT {
      SquareMono(SIG_LIMIT, r);
    }
  }

  /** For a decoded float, the integer procedure normalizes the exact real root. */
  lemma SqrtIsRoot(e: int, mant: int, y: real)
    requires OnGrid(e, mant) && y > 0.0 && y * y == Magnitude(e, mant)
    ensures SqrtNormalize(y * y) == Normalize(y)
  {
    hide Exp2, Magnitude, ISqrt, SqrtClass, InClass, LeadingExponent, SqrtScaled, IsRoot, Normalize;
    SqrtScaledIntegral(e, mant);
    RadicandRoot(e, mant);
    var E, n := e / 2, SqrtRadicand(e, mant);
    hide SqrtRadicand;
    var z, sig := y * Exp2(23 - E), ISqrt(n);
    assert z > 0.0 && z * z == n as real by {
      ScaledRoot(y, Magnitude(e, mant), 23 - E);
      ScaledIs(Magnitude(e, mant), E);
    }
    ISqrtRoots(n);
    RootClass(z, n, sig);
    RootReading(y, E, sig, SqrtClass(n, sig));
    assert SqrtNormalize(y * y) == Norm(E, sig, SqrtClass(n, sig));
  }

  lemma RootReading(y: real, e: int, sig: int, cls: Class)
    requires y > 0.0 && MIN_SIG <= sig < SIG_LIMIT && InClass(y * Exp2(23 - e) - sig as real, cls)
    ensures Normalize(y) == Norm(e, sig, cls)
  {
    NormUnique(y, Norm(e, sig, cls));
  }

  lemma ScaledIs(m: real, e: int)
    ensures SqrtScaled(m, e) == m * Exp2(2 * (23 - e))
  {
  }
}
