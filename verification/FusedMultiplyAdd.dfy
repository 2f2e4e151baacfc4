/**
  design/FMADDUnit.v: the fused multiply-add datapath on its 112-bit frame, against f_madd of
  sim/tools/iss.py.  The only information the frame loses is jammed into its lowest bit, and
  that bit is enough for the one rounding at the end.
 */
module FusedMultiplyAdd {
  import opened Arithmetic
  import opened PowersOfTwo
  import opened RestoringDivision
  import opened F32
  import opened F32Normalize
  import opened F32Rounding
  import opened FpRound

  const FRAME := 112

  // ---- sticky right shift ----

  /** x >> amt with every bit shifted out OR-ed into the lowest kept bit. */
  function Jam(x: int, amt: int): int {
    if amt <= 0 then x
    else
      var q := x / Pow2(amt);
      if x % Pow2(amt) != 0 && q % 2 == 0 then q + 1 else q
  }

  predicate BitSet(x: int, k: nat) {
    x / Pow2(k) % 2 == 1
  }

  lemma LowBitsStep(x: int, k: nat)
    requires 0 <= x
    ensures x % Pow2(k + 1) != 0 <==> x % Pow2(k) != 0 || BitSet(x, k)
  {
    var P := Pow2(k);
    assert Pow2(k + 1) == 2 * P;
    hide Pow2;
    var hi, lo := x / (2 * P), x % (2 * P);
    SplitTop(x, P);
    QuotientInRange(lo, P, 2);
    assert x / P % 2 == lo / P;
    assert lo == lo / P * P + lo % P;
  }

  /** The source's loop over the shifted-out bits. */
  method WideShiftRightSticky(x: int, amt: int) returns (r: int)
    requires 0 <= x < Pow2(FRAME)
    ensures r == Jam(x, amt)
  {
    if amt <= 0 {
      r := x;
    } else if amt >= FRAME {
      r := if x != 0 then 1 else 0;
      Pow2Mono(FRAME, amt);
      DivModUnique(x, Pow2(amt), 0, x);
    } else {
      var sticky := false;
      var k := 0;
      while k < FRAME
        invariant 0 <= k <= FRAME
        invariant sticky <==> x % Pow2(if k < amt then k else amt) != 0
      {
        if k < amt {
          LowBitsStep(x, k);
          sticky := sticky || BitSet(x, k);
        }
        k := k + 1;
      }
      var shifted := x / Pow2(amt);
      r := if sticky && shifted % 2 == 0 then shifted + 1 else shifted;
    }
  }

  /** `T` stands for the real `S`: equal to it, or odd and less than one away from it. */
  ghost predicate Jammed(T: int, S: real) {
    T as real == S || (T % 2 == 1 && T as real - 1.0 < S < T as real + 1.0)
  }

  /** The real number x / 2^amt. */
  function Shifted(x: int, amt: nat): real {
    x as real / Pow2(amt) as real
  }

  lemma JamStandsFor(x: int, amt: nat)
    requires 0 <= x
    ensures Jammed(Jam(x, amt), Shifted(x, amt))
    ensures x % Pow2(amt) == 0 ==> Jam(x, amt) as real == Shifted(x, amt)
  {
    var P := Pow2(amt);
    if amt == 0 {
      assert P == 1;
    } else {
      var q, r := x / P, x % P;
      assert x == q * P + r;
      assert x as real == q as real * P as real + r as real by {
        assert (q * P) as real == q as real * P as real;
      }
      hide Pow2;
      FractionBetween(x as real, P as real, q as real, r as real);
    }
  }

  lemma FractionBetween(x: real, P: real, q: real, r: real)
    requires P > 0.0 && 0.0 <= r < P && x == q * P + r
    ensures q <= x / P < q + 1.0 && (r == 0.0 <==> x / P == q)
  {
    var y := x / P;
    assert y * P == x;
    ScaledCompare(y - q, 0.0, P, r);
    ScaledCompare(y - q, 1.0, P, r);
  }

  lemma JamBound(x: int, amt: nat, B: int)
    requires 0 <= x < 2 * B * Pow2(amt) && B > 0
    ensures 0 <= Jam(x, amt) < 2 * B
  {
    if amt > 0 {
      QuotientInRange(x, Pow2(amt), 2 * B);
    }
  }

  /** Adding an even integer, or subtracting from one, keeps the jam. */
  lemma JammedSum(A: int, T: int, S: real)
    requires A % 2 == 0 && Jammed(T, S)
    ensures Jammed(A + T, A as real + S)
    ensures Jammed(A - T, A as real - S)
  {
  }

  // ---- reading a jammed sum ----

  /**
    Inside one block of four nothing can move a comparison with a coarser threshold: the
    jammed integer gives the same kept bits, guard and rest as the real it stands for.
   */
  lemma BlockReading(x: real, y: real, Z: int, M: int)
    requires 0 <= Z && M >= 4 && M % 4 == 0 && Times(y, 2.0 * M as real) == x
    requires Z % 4 != 0
    requires (Z - Z % 4) as real < x < (Z - Z % 4) as real + 4.0
    ensures InClass(y - (Z / M / 2) as real, ClassOf(Z / M % 2 == 1, Z % M != 0))
  {
    var Q := x.Floor;
    assert Q / 4 == Z / 4;
    CoarseQuotient(Q, Z, M);
    hide InClass, ClassOf, Times;
    GuardReading(x, y, Q, M);
    assert Q % M != 0 || x != Q as real;
  }

  lemma CoarseQuotient(Q: int, Z: int, M: int)
    requires M >= 4 && M % 4 == 0 && Q / 4 == Z / 4
    ensures Q / M == Z / M
    ensures Z % 4 != 0 ==> Z % M != 0
    ensures Q % 4 != 0 ==> Q % M != 0
  {
    var K := M / 4;
    QuarterDivision(Q, K);
    QuarterDivision(Z, K);
  }

  lemma QuarterDivision(n: int, K: int)
    requires K > 0
    ensures n / (4 * K) == n / 4 / K
    ensures n % 4 != 0 ==> n % (4 * K) != 0
  {
    var t := n / 4;
    var q, r := t / K, t % K;
    assert t == q * K + r;
    assert n == q * (4 * K) + (4 * r + n % 4) by {
      assert 4 * (q * K) == q * (4 * K);
    }
    DivModUnique(n, 4 * K, q, 4 * r + n % 4);
  }

  /** The jammed sum scaled by 2^shl, with shl at most one unless the sum is exact. */
  lemma JammedReading(T: int, S: real, y: real, shl: nat, Z: int, M: int)
    requires 0 <= T && Jammed(T, S) && (T as real != S ==> shl <= 1) && Z == T * Pow2(shl)
    requires M >= 4 && M % 4 == 0 && Times(y, 2.0 * M as real) == Times(S, Pow2(shl) as real)
    ensures InClass(y - (Z / M / 2) as real, ClassOf(Z / M % 2 == 1, Z % M != 0))
  {
    hide InClass, ClassOf, Times, Pow2, Jammed;
    var x := Times(S, Pow2(shl) as real);
    ScaledNatural(T, Pow2(shl), Z);
    if T as real == S {
      ExactScaled(T, S, Pow2(shl), Z);
      GuardReading(x, y, Z, M);
    } else {
      InexactScaled(T, S, shl, Z);
      BlockReading(x, y, Z, M);
    }
  }

  lemma ScaledNatural(T: int, p: int, Z: int)
    requires 0 <= T && 0 <= p && Z == T * p
    ensures 0 <= Z
  {
  }

  lemma ExactScaled(T: int, S: real, p: int, Z: int)
    requires T as real == S && Z == T * p
    ensures Z as real == Times(S, p as real)
  {
  }

  /** An odd integer shifted by at most one is no multiple of four, and stands for a real in its block of four. */
  lemma InexactScaled(T: int, S: real, shl: nat, Z: int)
    requires 0 <= T && Jammed(T, S) && T as real != S && shl <= 1 && Z == T * Pow2(shl)
    ensures Z % 4 != 0
    ensures (Z - Z % 4) as real < Times(S, Pow2(shl) as real) < (Z - Z % 4) as real + 4.0
  {
    assert Pow2(0) == 1 && Pow2(1) == 2;
    hide Pow2;
    if shl == 0 {
      assert Z == T;
    } else {
      assert Z == 2 * T;
    }
  }

  // ---- the slices handed to the rounder ----

  /** sum[FRAME:FRAME-24], then guard, round and the OR of the rest. */
  function SumSlices(exp: int, Z: int): HandOver {
    HandOver(exp, Z / Pow2(88), BitSet(Z, 87), BitSet(Z, 86), Z % Pow2(86) != 0)
  }

  lemma HalfQuotient(Z: int, k: nat)
    requires 0 <= Z
    ensures Z / Pow2(k + 1) == Z / Pow2(k) / 2
  {
    var P := Pow2(k);
    assert Pow2(k + 1) == 2 * P;
    hide Pow2;
    SplitTop(Z, P);
  }

  lemma SumSlicesRead(exp: int, Z: int)
    requires Pow2(111) <= Z < Pow2(113)
    ensures var n := Reading(SumSlices(exp, Z));
            (if Z >= Pow2(112)
             then n == Norm(exp + 1, Z / Pow2(88) / 2, ClassOf(Z / Pow2(88) % 2 == 1, Z % Pow2(88) != 0))
             else n == Norm(exp, Z / Pow2(87) / 2, ClassOf(Z / Pow2(87) % 2 == 1, Z % Pow2(87) != 0))) &&
            MIN_SIG <= n.sig < SIG_LIMIT
    ensures MIN_SIG <= SumSlices(exp, Z).sig < 2 * SIG_LIMIT
  {
    LowBitsStep(Z, 86);
    LowBitsStep(Z, 87);
    HalfQuotient(Z, 87);
    SliceWindow(Z);
    hide Pow2, ClassOf;
  }

  lemma SliceWindow(Z: int)
    requires Pow2(111) <= Z < Pow2(113)
    ensures MIN_SIG <= Z / Pow2(88) < 2 * SIG_LIMIT
    ensures Z / Pow2(88) >= SIG_LIMIT <==> Z >= Pow2(112)
  {
    Pow2Add(88, 23);
    Pow2Add(88, 24);
    Pow2Add(88, 25);
    Pow2Literals();
    var P := Pow2(88);
    hide Pow2;
    QuotientWindow(Z, P, MIN_SIG, SIG_LIMIT, 2 * SIG_LIMIT);
  }

  lemma QuotientWindow(Z: int, P: int, lo: int, mid: int, hi: int)
    requires P > 0 && P * lo <= Z < P * hi
    ensures lo <= Z / P < hi
    ensures Z / P >= mid <==> Z >= P * mid
  {
    var q := Z / P;
    assert Z == q * P + Z % P;
    QuotientCompare(q, Z, P, lo);
    QuotientCompare(q, Z, P, mid);
    QuotientCompare(q, Z, P, hi);
  }

  lemma QuotientCompare(q: int, Z: int, P: int, c: int)
    requires P > 0 && q * P <= Z < q * P + P
    ensures q >= c <==> Z >= P * c
  {
    if q >= c {
      ProductMono(c, q, P);
    } else {
      ProductMono(q + 1, c, P);
    }
  }

  /** Scaling the magnitude into the 24-bit window undoes all but 2^(j + 1) of the frame scale. */
  lemma FrameScale(v: real, S: real, exp: int, shl: nat, j: nat)
    requires v == Times(S, Exp2(exp - 111))
    ensures var e := exp - shl + (j as int - 87);
            Times(Times(v, Exp2(23 - e)), 2.0 * Pow2(j) as real) == Times(S, Pow2(shl) as real)
  {
    var e := exp - shl + (j as int - 87);
    var y := Times(v, Exp2(23 - e));
    Exp2Nat(shl);
    Exp2Nat(j + 1);
    assert Pow2(j + 1) == 2 * Pow2(j);
    hide Exp2, Pow2, Times;
    Exp2Split(exp - 111, 23 - e, shl - (j as int + 1));
    Exp2Split(shl - (j as int + 1), j + 1, shl);
    RegroupFrame(v, S, Exp2(exp - 111), Exp2(23 - e), Exp2(shl - (j as int + 1)), Exp2(j + 1), Exp2(shl), y);
  }

  lemma RegroupFrame(v: real, S: real, a: real, b: real, ab: real, w: real, t: real, y: real)
    requires v == Times(S, a) && ab == Times(a, b) && t == Times(ab, w) && y == Times(v, b)
    ensures Times(y, w) == Times(S, t)
  {
    calc {
      y * w;
      (S * a) * b * w;
      S * (a * b * w);
      S * t;
    }
  }

  /** The renormalized jammed sum reads as the exact magnitude. */
  lemma FrameReading(T: int, S: real, shl: nat, Z: int, exp: int, v: real)
    requires 0 < T && Jammed(T, S) && (T as real != S ==> shl <= 1) && Z == T * Pow2(shl) && v > 0.0
    requires v == Times(S, Exp2(exp - 111))
    requires Pow2(111) <= Z < Pow2(113)
    ensures Reading(SumSlices(exp - shl, Z)) == Normalize(v)
  {
    hide SumSlices, Reading, ClassOf, InClass, Normalize, Exp2, Pow2, Times, Jammed;
    SumSlicesRead(exp - shl, Z);
    if Z >= Pow2(112) {
      FrameReadingAt(T, S, shl, Z, exp, v, 88, Pow2(88), Reading(SumSlices(exp - shl, Z)));
    } else {
      FrameReadingAt(T, S, shl, Z, exp, v, 87, Pow2(87), Reading(SumSlices(exp - shl, Z)));
    }
  }

  /** The same with the place of the leading one named: j bits below the rounder's guard bit. */
  lemma FrameReadingAt(T: int, S: real, shl: nat, Z: int, exp: int, v: real, j: nat, M: int, n: Norm)
    requires 0 < T && Jammed(T, S) && (T as real != S ==> shl <= 1) && Z == T * Pow2(shl) && v > 0.0
    requires v == Times(S, Exp2(exp - 111)) && j >= 2 && M == Pow2(j) && M > 0
    requires n == Norm(exp - shl + (j as int - 87), Z / M / 2, ClassOf(Z / M % 2 == 1, Z % M != 0))
    requires MIN_SIG <= n.sig < SIG_LIMIT
    ensures n == Normalize(v)
  {
    hide ClassOf, InClass, Normalize, Exp2, Pow2, Times, Jammed;
    CoarseWidth(j);
    FrameScale(v, S, exp, shl, j);
    JammedReading(T, S, Times(v, Exp2(23 - n.e)), shl, Z, M);
    NormByTimes(v, n);
  }

  lemma CoarseWidth(j: nat)
    requires j >= 2
    ensures Pow2(j) >= 4 && Pow2(j) % 4 == 0
  {
    var p := Pow2(j - 2);
    assert Pow2(j) == 2 * Pow2(j - 1) == 2 * (2 * p);
    hide Pow2;
    DivModUnique(4 * p, 4, p, 0);
  }

  lemma NormByTimes(v: real, n: Norm)
    requires v > 0.0 && MIN_SIG <= n.sig < SIG_LIMIT
    requires InClass(Times(v, Exp2(23 - n.e)) - n.sig as real, n.cls)
    ensures n == Normalize(v)
  {
    hide Exp2, Normalize;
    NormUnique(v, n);
  }

  // ---- alignment and sum ----

  const TWO47 := 0x8000_0000_0000
  const TWO48 := 0x1_0000_0000_0000

  /** The 48-bit product with its leading one at bit 47, and the exponent of that bit. */
  function ProdNorm(ma: int, mb: int): int {
    if ma * mb >= TWO47 then ma * mb else ma * mb * 2
  }

  function ProdLead(ea: int, ma: int, eb: int, mb: int): int {
    if ma * mb >= TWO47 then ea + eb + 1 else ea + eb
  }

  lemma ProdNormBounds(ma: int, mb: int)
    requires MIN_SIG <= ma < SIG_LIMIT && MIN_SIG <= mb < SIG_LIMIT
    ensures TWO47 <= ProdNorm(ma, mb) < TWO48
  {
    var p := ma * mb;
    assert MIN_SIG * MIN_SIG <= p < SIG_LIMIT * SIG_LIMIT by {
      ProductMono(MIN_SIG, ma, mb);
      ProductMono(ma, SIG_LIMIT, mb);
    }
    assert ProdNorm(ma, mb) == if p >= TWO47 then p else p * 2;
    hide ProdNorm;
  }

  /** Both operands on the common frame; `shift` is how far the smaller one moves down. */
  datatype Aligned = Aligned(big: int, small: int, shift: int, exp: int, addendIsBig: bool)

  function Align(pn: int, pe: int, mc: int, ec: int): Aligned {
    if ec > pe || (ec == pe && mc * SIG_LIMIT > pn) then
      Aligned(mc * Pow2(88), pn * Pow2(64), ec - pe, ec, true)
    else
      Aligned(pn * Pow2(64), mc * Pow2(88), pe - ec, pe, false)
  }

  lemma FrameLimits()
    ensures Pow2(111) == TWO47 * Pow2(64) == MIN_SIG * Pow2(88)
    ensures Pow2(112) == TWO48 * Pow2(64) == SIG_LIMIT * Pow2(88)
    ensures Pow2(88) == SIG_LIMIT * Pow2(64) && Pow2(64) % 2 == 0
    ensures Pow2(113) == 2 * Pow2(112) && Pow2(112) == 2 * Pow2(111) && Pow2(111) == 2 * Pow2(110)
  {
    hide Pow2;
    Pow2Literals();
    Pow2Add(64, 24);
    Pow2Add(88, 23);
    Pow2Add(88, 24);
    assert Pow2(1) == 2 by { Pow2One(); }
    Pow2Add(63, 1);
    Pow2Add(112, 1);
    Pow2Add(111, 1);
    Pow2Add(110, 1);
  }

  lemma Pow2One()
    ensures Pow2(1) == 2
  {
    assert Pow2(1) == 2 * Pow2(0);
  }

  predicate WellAligned(al: Aligned) {
    Pow2(111) <= al.big < Pow2(112) && Pow2(111) <= al.small < Pow2(112) &&
    al.big % 2 == 0 && al.small % Pow2(64) == 0 && 0 <= al.shift &&
    (al.shift == 0 ==> al.small <= al.big)
  }

  lemma MultipleOf(x: int, P: int)
    requires P > 0
    ensures x * P % P == 0
    ensures P % 2 == 0 ==> x * P % 2 == 0
  {
    DivModUnique(x * P, P, x, 0);
    if P % 2 == 0 {
      var h := P / 2;
      assert x * P == (x * h) * 2;
    }
  }

  lemma FrameOperands(pn: int, mc: int, P: int, K: int)
    requires TWO47 <= pn < TWO48 && MIN_SIG <= mc < SIG_LIMIT
    requires P > 0 && P % 2 == 0 && K == SIG_LIMIT * P
    ensures TWO47 * P <= pn * P < TWO48 * P
    ensures MIN_SIG * K <= mc * K < SIG_LIMIT * K
    ensures mc * K == mc * SIG_LIMIT * P
    ensures pn * P % P == 0 && pn * P % 2 == 0 && mc * K % P == 0 && mc * K % 2 == 0
    ensures mc * SIG_LIMIT <= pn ==> mc * K <= pn * P
    ensures pn <= mc * SIG_LIMIT ==> pn * P <= mc * K
  {
    ProductMono(TWO47, pn, P);
    ProductMono(pn + 1, TWO48, P);
    ProductMono(MIN_SIG, mc, K);
    ProductMono(mc + 1, SIG_LIMIT, K);
    MultipleOf(pn, P);
    MultipleOf(mc * SIG_LIMIT, P);
    if mc * SIG_LIMIT <= pn {
      ProductMono(mc * SIG_LIMIT, pn, P);
    } else {
      ProductMono(pn, mc * SIG_LIMIT, P);
    }
  }

  lemma AlignWellFormed(pn: int, pe: int, mc: int, ec: int)
    requires TWO47 <= pn < TWO48 && MIN_SIG <= mc < SIG_LIMIT
    ensures WellAligned(Align(pn, pe, mc, ec))
  {
    hide Pow2;
    FrameLimits();
    FrameOperands(pn, mc, Pow2(64), Pow2(88));
  }

  function FrameSum(al: Aligned, subtract: bool): int {
    if subtract then al.big - Jam(al.small, al.shift) else al.big + Jam(al.small, al.shift)
  }

  /** The exact sum on the frame's scale. */
  function ExactSum(al: Aligned, subtract: bool): real
    requires al.shift >= 0
  {
    if subtract then al.big as real - Shifted(al.small, al.shift) else al.big as real + Shifted(al.small, al.shift)
  }

  lemma MultipleDown(x: int, k: nat, n: nat)
    requires k <= n && x % Pow2(n) == 0
    ensures x % Pow2(k) == 0
  {
    hide Pow2;
    Pow2Add(n - k, k);
    ProductDivides(x, x / Pow2(n), Pow2(n - k), Pow2(k));
  }

  lemma ProductDivides(x: int, q: int, a: int, b: int)
    requires b > 0 && x == q * (a * b)
    ensures x % b == 0
  {
    assert x == (q * a) * b;
    MultipleOf(q * a, b);
  }

  /**
    The 113-bit sum: the subtraction never underflows, nothing carries out of the frame, and
    the sum is the exact sum with the lost bits jammed into its lowest bit.  It is inexact
    only when the shift is long, and then there is no cancellation.
   */
  lemma FrameSumJams(al: Aligned, subtract: bool)
    requires WellAligned(al)
    ensures var T := FrameSum(al, subtract);
            0 <= T < Pow2(113) && Jammed(T, ExactSum(al, subtract)) &&
            (T as real != ExactSum(al, subtract) ==> T >= Pow2(110))
  {
    hide Pow2, Jam, Shifted, Jammed;
    FrameLimits();
    JamStandsFor(al.small, al.shift);
    if al.shift <= 64 {
      MultipleDown(al.small, al.shift, 64);
    }
    JamSizes(al.small, al.shift);
    SumCases(al.big, Jam(al.small, al.shift), Shifted(al.small, al.shift), subtract);
  }

  lemma SumCases(big: int, J: int, X: real, subtract: bool)
    requires big % 2 == 0 && Jammed(J, X)
    ensures var T := if subtract then big - J else big + J;
            var S := if subtract then big as real - X else big as real + X;
            Jammed(T, S) && (J as real == X <==> T as real == S)
  {
    JammedSum(big, J, X);
  }

  lemma JamSizes(x: int, amt: nat)
    requires 0 <= x < Pow2(112)
    ensures 0 <= Jam(x, amt) < Pow2(112)
    ensures amt == 0 ==> Jam(x, amt) == x
    ensures amt >= 1 ==> Jam(x, amt) < Pow2(111)
    ensures amt > 64 ==> Jam(x, amt) < Pow2(48)
    ensures Pow2(48) <= Pow2(110)
  {
    hide Pow2;
    Pow2Mono(48, 110);
    Pow2Mono(111, 112);
    Pow2Mono(112, 113);
    if amt >= 1 {
      JamBelow(x, amt, 111, 1);
    }
    if amt > 64 {
      JamBelow(x, amt, 48, 65);
    }
  }

  /** A shift by at least n takes n bits off the bound. */
  lemma JamBelow(x: int, amt: nat, b: nat, n: nat)
    requires b > 0 && n <= amt && 0 <= x < Pow2(b + n)
    ensures 0 <= Jam(x, amt) < Pow2(b)
  {
    hide Jam;
    assert Pow2(b) == 2 * Pow2(b - 1);
    hide Pow2;
    Pow2Mono(b + n, b + amt);
    Pow2Add(b, amt);
    JamBound(x, amt, Pow2(b - 1));
  }

  // ---- the frame against the exact values ----

  lemma RegroupProduct4(x: real, a: real, y: real, b: real, A: real, B: real, xy: real, ab: real)
    requires A == Times(x, a) && B == Times(y, b) && xy == Times(x, y) && ab == Times(a, b)
    ensures Times(A, B) == Times(xy, ab)
  {
    calc {
      (x * a) * (y * b);
      (x * y) * (a * b);
    }
  }

  lemma IntTimes(x: int, y: int)
    ensures (x * y) as real == Times(x as real, y as real)
  {
  }

  /** x * 2^k at scale e is x at scale e + k. */
  lemma ScaleMoves(x: int, k: nat, e: int)
    ensures Times((x * Pow2(k)) as real, Exp2(e)) == Times(x as real, Exp2(e + k))
  {
    Exp2Nat(k);
    IntTimes(x, Pow2(k));
    hide Exp2, Pow2, Times;
    Exp2Split(e, k, e + k);
    MoveFactor(x as real, Pow2(k) as real, Exp2(e), Exp2(e + k), (x * Pow2(k)) as real);
  }

  lemma MoveFactor(x: real, p: real, e: real, f: real, xp: real)
    requires xp == Times(x, p) && f == Times(e, p)
    ensures Times(xp, e) == Times(x, f)
  {
    assert (x * p) * e == x * (e * p);
  }

  lemma ShiftMoves(x: int, d: nat, e: int)
    ensures Times(Shifted(x, d), Exp2(e)) == Times(x as real, Exp2(e - d))
  {
    Exp2Nat(d);
    assert Times(Shifted(x, d), Pow2(d) as real) == x as real;
    hide Exp2, Pow2, Times, Shifted;
    Exp2Split(e - d, d, e);
    MoveFactor(Shifted(x, d), Pow2(d) as real, Exp2(e - d), Exp2(e), x as real);
  }

  /** The normalized product is the exact product. */
  lemma ProductValue(ea: int, ma: int, eb: int, mb: int)
    ensures Times(Magnitude(ea, ma), Magnitude(eb, mb))
         == Times(ProdNorm(ma, mb) as real, Exp2(ProdLead(ea, ma, eb, mb) - 47))
  {
    var p := ma * mb;
    var e := ea + eb - 46;
    assert Times(Magnitude(ea, ma), Magnitude(eb, mb)) == Times(p as real, Exp2(e)) by {
      IntTimes(ma, mb);
      MagnitudeProduct(ea, ma);
      MagnitudeProduct(eb, mb);
      hide Exp2, Times, Magnitude;
      Exp2Split(ea - 23, eb - 23, e);
      RegroupProduct4(ma as real, Exp2(ea - 23), mb as real, Exp2(eb - 23),
                      Magnitude(ea, ma), Magnitude(eb, mb), p as real, Exp2(e));
    }
    if p < TWO47 {
      assert Pow2(1) == 2;
      ScaleMoves(p, 1, e - 1);
    }
    hide Times, Exp2, Magnitude;
  }

  /** What the aligned operands stand for. */
  lemma AlignedValues(pn: int, pe: int, mc: int, ec: int)
    ensures var al := Align(pn, pe, mc, ec);
            var P, C := Times(pn as real, Exp2(pe - 47)), Magnitude(ec, mc);
            0 <= al.shift &&
            Times(al.big as real, Exp2(al.exp - 111)) == (if al.addendIsBig then C else P) &&
            Times(Shifted(al.small, al.shift), Exp2(al.exp - 111)) == (if al.addendIsBig then P else C)
  {
    hide Exp2, Pow2, Times, Magnitude, Shifted;
    var al := Align(pn, pe, mc, ec);
    MagnitudeProduct(ec, mc);
    ShiftMoves(al.small, al.shift, al.exp - 111);
    ScaleMoves(pn, 64, pe - 111);
    ScaleMoves(mc, 88, ec - 111);
    assert pe - 111 + 64 == pe - 47 && ec - 111 + 88 == ec - 23;
    assert al.exp - 111 - al.shift == if al.addendIsBig then pe - 111 else ec - 111;
  }

  lemma TimesDistributes(x: real, y: real, k: real)
    ensures Times(x + y, k) == Times(x, k) + Times(y, k)
    ensures Times(x - y, k) == Times(x, k) - Times(y, k)
  {
  }

  lemma TimesSign(x: real, k: real)
    requires k > 0.0
    ensures Times(x, k) > 0.0 <==> x > 0.0
    ensures Times(x, k) == 0.0 <==> x == 0.0
  {
    if x > 0.0 {
      assert x * k > 0.0;
    } else if x < 0.0 {
      assert x * k < 0.0;
    }
  }

  /**
    The frame sum against the exact total: it is zero exactly when the total is, and otherwise
    the total has the sign of the larger operand and the magnitude the frame stands for.
   */
  lemma SumStandsForTotal(pn: int, pe: int, mc: int, ec: int, signP: bool, signC: bool)
    requires TWO47 <= pn < TWO48 && MIN_SIG <= mc < SIG_LIMIT
    ensures var al := Align(pn, pe, mc, ec);
            var subtract := signP != signC;
            var T := FrameSum(al, subtract);
            var total := Signed(signP, Times(pn as real, Exp2(pe - 47))) + Signed(signC, Magnitude(ec, mc));
            var sign := if al.addendIsBig then signC else signP;
            0 <= al.shift &&
            var v := Times(ExactSum(al, subtract), Exp2(al.exp - 111));
            total == Signed(sign, v) && (T == 0 <==> total == 0.0) && (T > 0 <==> v > 0.0)
  {
    hide Exp2, Pow2, Times, Magnitude, Shifted, Jammed, WellAligned, FrameSum, Align;
    var al := Align(pn, pe, mc, ec);
    var subtract := signP != signC;
    var k := Exp2(al.exp - 111);
    AlignWellFormed(pn, pe, mc, ec);
    AlignedValues(pn, pe, mc, ec);
    FrameSumJams(al, subtract);
    TimesDistributes(al.big as real, Shifted(al.small, al.shift), k);
    var S := ExactSum(al, subtract);
    TimesSign(S, k);
    JammedSign(FrameSum(al, subtract), S);
  }

  lemma JammedSign(T: int, S: real)
    requires 0 <= T && Jammed(T, S) && (T as real != S ==> T >= Pow2(110))
    ensures (T == 0 <==> S == 0.0) && (T > 0 <==> S > 0.0)
  {
    assert Pow2(110) == 2 * Pow2(109);
  }

  // ---- renormalization ----

  lemma TopBit(x: int, k: nat)
    requires 0 <= x < Pow2(k + 1)
    ensures BitSet(x, k) <==> x >= Pow2(k)
  {
    var P := Pow2(k);
    assert Pow2(k + 1) == 2 * P;
    hide Pow2;
    if x >= P {
      DivModUnique(x, P, 1, x - P);
    } else {
      DivModUnique(x, P, 0, x);
    }
  }

  lemma DoubledScale(x: int, n: nat)
    ensures x * Pow2(n) * 2 == x * Pow2(n + 1)
  {
  }

  /** The source's left-shift loop on a nonzero sum. */
  method Renormalize(sum: int) returns (renorm: int, shl: nat)
    requires 0 < sum < Pow2(113)
    ensures renorm == sum * Pow2(shl) && Pow2(111) <= renorm < Pow2(113)
    ensures shl <= 111 && (sum >= Pow2(110) ==> shl <= 1)
  {
    hide Pow2, BitSet;
    FrameLimits();
    renorm, shl := sum, 0;
    Pow2Zero();
    TopBit(sum, 112);
    if !BitSet(sum, 112) {
      TopBit(sum, 111);
      while !BitSet(renorm, 111) && shl < FRAME - 1
        invariant 0 <= shl <= FRAME - 1 && renorm == sum * Pow2(shl)
        invariant sum <= renorm < Pow2(112)
        invariant BitSet(renorm, 111) <==> renorm >= Pow2(111)
        invariant shl > 0 ==> renorm >= 2 * sum
        invariant shl > 1 ==> 2 * sum < Pow2(111)
        invariant shl == FRAME - 1 ==> renorm >= Pow2(111)
      {
        DoubledScale(sum, shl);
        renorm, shl := renorm * 2, shl + 1;
        TopBit(renorm, 111);
        if shl == FRAME - 1 {
          ProductMono(1, sum, Pow2(111));
        }
      }
    }
  }

  lemma Pow2Zero()
    ensures Pow2(0) == 1
  {
  }

  // ---- the unit ----

  predicate FiniteOrZero(f: Float) {
    f.Finite? || f.Zero?
  }

  function ProductSign(a: int, b: int, negProd: bool): bool {
    (SignOf(a) != SignOf(b)) != negProd
  }

  /** The exact value being rounded, in the cases where rounding happens. */
  function ExactTotal(a: int, b: int, c: int, negProd: bool, negAddend: bool): real
    requires Decode(a).Finite? && Decode(b).Finite? && FiniteOrZero(Decode(c))
  {
    DecodedOnGrid(a);
    DecodedOnGrid(b);
    var product := Signed(ProductSign(a, b, negProd), Times(Mag(Decode(a)), Mag(Decode(b))));
    if Decode(c).Zero? then product
    else
      DecodedOnGrid(c);
      product + Signed(SignOf(c) != negAddend, Mag(Decode(c)))
  }

  /** The magnitude is itself a 24-bit float, below the normal range. */
  ghost predicate TinyOnGrid(m: real) {
    exists e, sig :: OnGrid(e, sig) && e < -126 && m == Magnitude(e, sig)
  }

  ghost predicate TinyExactTotal(a: int, b: int, c: int, negProd: bool, negAddend: bool) {
    Decode(a).Finite? && Decode(b).Finite? && FiniteOrZero(Decode(c)) &&
    var total := ExactTotal(a, b, c, negProd, negAddend);
    TinyOnGrid(if total < 0.0 then -total else total)
  }

  lemma TinyMeans(m: real)
    requires m > 0.0
    ensures TinyOnGrid(m) <==> ExactUnderflow(Normalize(m))
  {
    hide Exp2, Normalize, Magnitude;
    if TinyOnGrid(m) {
      var e, sig :| OnGrid(e, sig) && e < -126 && m == Magnitude(e, sig);
      ExactNorm(e, sig);
    }
    if ExactUnderflow(Normalize(m)) {
      Placement(m);
      LowerIs(m);
      assert OnGrid(Normalize(m).e, Normalize(m).sig);
    }
  }

  /** The answer for an exact total agrees with the reference except for the tiny exact case. */
  ghost predicate AnswersTotal(total: real, rm: int, result: int, flags: Flags) {
    var p := RoundTotal(total, rm);
    var tiny := TinyOnGrid(if total < 0.0 then -total else total);
    result == p.bits && (flags == p.flags <==> !tiny) && (tiny ==> p.flags == flags.(nx := true))
  }

  /** Rounding a hand-over that reads as |total|, with total's sign, answers it. */
  lemma RoundingAnswers(total: real, sign: bool, v: real, h: HandOver, rm: int)
    requires v > 0.0 && total == Signed(sign, v) && Reading(h) == Normalize(v)
    requires MIN_SIG <= h.sig < 2 * SIG_LIMIT && -500 <= h.exp <= 500
    ensures var p := RoundAndPack(sign, h.exp, h.sig, h.guard, h.round, h.sticky, rm);
            AnswersTotal(total, rm, p.bits, p.flags)
  {
    hide Normalize, PackRounded, RoundAndPack, TinyOnGrid, HandedOver, ExactUnderflow;
    TinyMeans(v);
    RoundAndPackInRange(sign, h.exp, h.sig, h.guard, h.round, h.sticky, rm);
  }

  lemma ZeroAnswers(rm: int)
    ensures AnswersTotal(0.0, rm, PackZero(rm == RM_RDN), NO_FLAGS)
  {
    if TinyOnGrid(0.0) {
      var e, sig :| OnGrid(e, sig) && e < -126 && 0.0 == Magnitude(e, sig);
      MagnitudePositive(e, sig);
    }
  }

  // ---- product alone ----

  function ProductSlices(pe: int, pn: int): HandOver {
    HandOver(pe, pn / 0x100_0000, pn / 0x80_0000 % 2 == 1, pn / 0x40_0000 % 2 == 1, pn % 0x40_0000 != 0)
  }

  lemma ProductSlicesRead(pe: int, pn: int)
    requires TWO47 <= pn < TWO48
    ensures var n := Reading(ProductSlices(pe, pn));
            n == Norm(pe, pn / MIN_SIG / 2, ClassOf(pn / MIN_SIG % 2 == 1, pn % MIN_SIG != 0)) &&
            MIN_SIG <= n.sig < SIG_LIMIT && n.sig == ProductSlices(pe, pn).sig
  {
  }

  lemma ProductReading(pe: int, pn: int, v: real)
    requires TWO47 <= pn < TWO48 && v == Times(pn as real, Exp2(pe - 47)) && v > 0.0
    ensures Reading(ProductSlices(pe, pn)) == Normalize(v)
  {
    ProductSlicesRead(pe, pn);
    Exp2Nat(24);
    Exp2Nat(0);
    Pow2Literals();
    Pow2Zero();
    assert Times(pn as real, 1.0) == pn as real;
    hide Exp2, Pow2, Times, ProductSlices, Reading, ClassOf, InClass, Normalize;
    var y := Times(v, Exp2(23 - pe));
    Exp2Split(pe - 47, 23 - pe, -24);
    Exp2Split(-24, 24, 0);
    RegroupFrame(v, pn as real, Exp2(pe - 47), Exp2(23 - pe), Exp2(-24), Exp2(24), Exp2(0), y);
    GuardReading(pn as real, y, pn, MIN_SIG);
    NormByTimes(v, Reading(ProductSlices(pe, pn)));
  }

  // ---- special cases ----

  predicate Rounds(a: int, b: int, c: int) {
    !IsNan(a) && !IsNan(b) && !IsNan(c) && !IsInf(a) && !IsInf(b) && !IsInf(c) && !IsZero(a) && !IsZero(b)
  }

  /** The cascade ahead of the finite datapath, in the source's order. */
  function SpecialCase(a: int, b: int, c: int, rm: int, signP: bool, signC: bool): Packed {
    if IsNan(a) || IsNan(b) || IsNan(c) then
      Packed(CANONICAL_NAN, NO_FLAGS.(nv := IsSnan(a) || IsSnan(b) || IsSnan(c)))
    else if (IsInf(a) && IsZero(b)) || (IsZero(a) && IsInf(b)) then Packed(CANONICAL_NAN, INVALID)
    else if (IsInf(a) || IsInf(b)) && IsInf(c) && signP != signC then Packed(CANONICAL_NAN, INVALID)
    else if IsInf(a) || IsInf(b) then Packed(SignBit(signP) + 0xFF * MIN_SIG, NO_FLAGS)
    else if IsInf(c) then Packed(SignBit(signC) + 0xFF * MIN_SIG, NO_FLAGS)
    else if IsZero(c) then
      if signP == signC then Packed(SignBit(signP), NO_FLAGS) else Packed(SignBit(rm == RM_RDN), NO_FLAGS)
    else Packed(SignBit(signC) + ExpOf(c) * MIN_SIG + FracOf(c), NO_FLAGS)
  }

  /** The answer agrees with the reference: bits always, flags except for a tiny exact total. */
  ghost predicate Answers(a: int, b: int, c: int, rm: int, negProd: bool, negAddend: bool, result: int, flags: Flags) {
    var p := MaddSpec(a, b, c, rm, negProd, negAddend);
    var tiny := TinyExactTotal(a, b, c, negProd, negAddend);
    result == p.bits && (flags == p.flags <==> !tiny) && (tiny ==> p.flags == flags.(nx := true))
  }

  lemma SpecialAnswers(a: int, b: int, c: int, rm: int, negProd: bool, negAddend: bool)
    requires IsBits(c) && !Rounds(a, b, c)
    ensures var p := SpecialCase(a, b, c, rm, ProductSign(a, b, negProd), SignOf(c) != negAddend);
            Answers(a, b, c, rm, negProd, negAddend, p.bits, p.flags)
  {
    ClassifiersDecode(a);
    ClassifiersDecode(b);
    ClassifiersDecode(c);
    assert c % 0x8000_0000 == ExpOf(c) * MIN_SIG + FracOf(c);
    hide Decode, IsNan, IsInf, IsZero, IsSnan, ExpOf, FracOf, SignOf, ExactTotal, TinyOnGrid;
    assert MaddSpec(a, b, c, rm, negProd, negAddend)
        == SpecialCase(a, b, c, rm, ProductSign(a, b, negProd), SignOf(c) != negAddend);
  }

  lemma MaddSpecRounds(a: int, b: int, c: int, rm: int, negProd: bool, negAddend: bool)
    requires Rounds(a, b, c)
    ensures Decode(a).Finite? && Decode(b).Finite? && FiniteOrZero(Decode(c))
    ensures MaddSpec(a, b, c, rm, negProd, negAddend) == RoundTotal(ExactTotal(a, b, c, negProd, negAddend), rm)
  {
    ClassifiersDecode(a);
    ClassifiersDecode(b);
    ClassifiersDecode(c);
    hide Decode, IsNan, IsInf, IsZero, IsSnan, ExpOf, FracOf, SignOf, RoundTotal, Mag;
  }

  lemma TotalAnswers(a: int, b: int, c: int, rm: int, negProd: bool, negAddend: bool, result: int, flags: Flags)
    requires Rounds(a, b, c)
    requires Decode(a).Finite? && Decode(b).Finite? && FiniteOrZero(Decode(c))
    requires AnswersTotal(ExactTotal(a, b, c, negProd, negAddend), rm, result, flags)
    ensures Answers(a, b, c, rm, negProd, negAddend, result, flags)
  {
    MaddSpecRounds(a, b, c, rm, negProd, negAddend);
    hide Decode, ExactTotal, RoundTotal, MaddSpec, TinyOnGrid, Rounds;
  }

  /** The exact total in the datapath's own terms. */
  lemma TotalByParts(a: int, b: int, c: int, negProd: bool, negAddend: bool)
    requires Decode(a).Finite? && Decode(b).Finite? && FiniteOrZero(Decode(c))
    ensures var fa, fb, fc := Decode(a), Decode(b), Decode(c);
            var P := Times(ProdNorm(fa.mant, fb.mant) as real, Exp2(ProdLead(fa.e, fa.mant, fb.e, fb.mant) - 47));
            P > 0.0 &&
            ExactTotal(a, b, c, negProd, negAddend) ==
              Signed(ProductSign(a, b, negProd), P) +
              (if fc.Zero? then 0.0 else Signed(SignOf(c) != negAddend, Magnitude(fc.e, fc.mant)))
  {
    ClassifiersDecode(a);
    ClassifiersDecode(b);
    ClassifiersDecode(c);
    hide Decode, Exp2, ProdNorm, ProdLead, Magnitude, SignOf, Times, IsNan, IsInf, IsZero, IsSnan, ExpOf, FracOf;
    var fa, fb := Decode(a), Decode(b);
    ProductValue(fa.e, fa.mant, fb.e, fb.mant);
    TimesSign(Mag(fa), Mag(fb));
  }

  lemma LeadRange(fa: Float, fb: Float)
    requires fa.Finite? && fb.Finite? && -126 <= fa.e <= 127 && -126 <= fb.e <= 127
    ensures -252 <= ProdLead(fa.e, fa.mant, fb.e, fb.mant) <= 255
  {
  }

  /** Rounding the product alone answers a request whose addend is zero. */
  lemma ProductAnswers(a: int, b: int, c: int, rm: int, negProd: bool, negAddend: bool, h: HandOver)
    requires Rounds(a, b, c) && IsZero(c)
    requires Decode(a).Finite? && Decode(b).Finite?
    requires var fa, fb := Decode(a), Decode(b);
             h == ProductSlices(ProdLead(fa.e, fa.mant, fb.e, fb.mant), ProdNorm(fa.mant, fb.mant))
    ensures var p := RoundAndPack(ProductSign(a, b, negProd), h.exp, h.sig, h.guard, h.round, h.sticky, rm);
            Answers(a, b, c, rm, negProd, negAddend, p.bits, p.flags)
  {
    ClassifiersDecode(a);
    ClassifiersDecode(b);
    ClassifiersDecode(c);
    hide Decode, Rounds, IsZero, IsNan, IsInf, IsSnan, SignOf, ExpOf, FracOf, ProdNorm, ProdLead, ProductSlices, Exp2, Times,
         RoundAndPack, Answers, AnswersTotal, Magnitude, ExactTotal, Reading, Normalize;
    var fa, fb := Decode(a), Decode(b);
    var pn, pe := ProdNorm(fa.mant, fb.mant), ProdLead(fa.e, fa.mant, fb.e, fb.mant);
    ProdNormBounds(fa.mant, fb.mant);
    LeadRange(fa, fb);
    TotalByParts(a, b, c, negProd, negAddend);
    var v := Times(pn as real, Exp2(pe - 47));
    ProductReading(pe, pn, v);
    ProductSlicesRead(pe, pn);
    ProductSlicesExp(pe, pn);
    RoundingAnswers(ExactTotal(a, b, c, negProd, negAddend), ProductSign(a, b, negProd), v, h, rm);
    var p := RoundAndPack(ProductSign(a, b, negProd), h.exp, h.sig, h.guard, h.round, h.sticky, rm);
    TotalAnswers(a, b, c, rm, negProd, negAddend, p.bits, p.flags);
  }

  lemma ProductSlicesExp(pe: int, pn: int)
    ensures ProductSlices(pe, pn).exp == pe
  {
  }

  /** The aligned operands of a request. */
  function RequestAligned(a: int, b: int, c: int): Aligned
    requires Decode(a).Finite? && Decode(b).Finite? && Decode(c).Finite?
  {
    var fa, fb, fc := Decode(a), Decode(b), Decode(c);
    Align(ProdNorm(fa.mant, fb.mant), ProdLead(fa.e, fa.mant, fb.e, fb.mant), fc.mant, fc.e)
  }

  /** Rounding the renormalized frame sum answers a request with a nonzero addend. */
  lemma SumAnswers(a: int, b: int, c: int, rm: int, negProd: bool, negAddend: bool, Z: int, shl: nat)
    requires Rounds(a, b, c) && Decode(a).Finite? && Decode(b).Finite? && Decode(c).Finite?
    requires var T := FrameSum(RequestAligned(a, b, c), ProductSign(a, b, negProd) != (SignOf(c) != negAddend));
             T > 0 && Z == T * Pow2(shl) && Pow2(111) <= Z < Pow2(113) && shl <= 111 && (T >= Pow2(110) ==> shl <= 1)
    ensures var al := RequestAligned(a, b, c);
            var h := SumSlices(al.exp - shl, Z);
            var sign := if al.addendIsBig then SignOf(c) != negAddend else ProductSign(a, b, negProd);
            var p := RoundAndPack(sign, h.exp, h.sig, h.guard, h.round, h.sticky, rm);
            Answers(a, b, c, rm, negProd, negAddend, p.bits, p.flags)
  {
    ClassifiersDecode(a);
    ClassifiersDecode(b);
    ClassifiersDecode(c);
    hide Decode, Rounds, IsZero, IsNan, IsInf, IsSnan, SignOf, ExpOf, FracOf, ProdNorm, ProdLead, SumSlices, Exp2, Times, Pow2,
         RoundAndPack, Answers, AnswersTotal, Magnitude, ExactTotal, Reading, Normalize, Jammed, FrameSum, ExactSum, WellAligned;
    var fa, fb, fc := Decode(a), Decode(b), Decode(c);
    var pn, pe := ProdNorm(fa.mant, fb.mant), ProdLead(fa.e, fa.mant, fb.e, fb.mant);
    var al := RequestAligned(a, b, c);
    var signP, signC := ProductSign(a, b, negProd), SignOf(c) != negAddend;
    var subtract := signP != signC;
    ProdNormBounds(fa.mant, fb.mant);
    LeadRange(fa, fb);
    TotalByParts(a, b, c, negProd, negAddend);
    SumStandsForTotal(pn, pe, fc.mant, fc.e, signP, signC);
    AlignWellFormed(pn, pe, fc.mant, fc.e);
    FrameSumJams(al, subtract);
    var v := Times(ExactSum(al, subtract), Exp2(al.exp - 111));
    FrameReading(FrameSum(al, subtract), ExactSum(al, subtract), shl, Z, al.exp, v);
    SumSlicesRead(al.exp - shl, Z);
    SumSlicesExp(al.exp - shl, Z);
    var h := SumSlices(al.exp - shl, Z);
    var sign := if al.addendIsBig then signC else signP;
    RoundingAnswers(ExactTotal(a, b, c, negProd, negAddend), sign, v, h, rm);
    var p := RoundAndPack(sign, h.exp, h.sig, h.guard, h.round, h.sticky, rm);
    TotalAnswers(a, b, c, rm, negProd, negAddend, p.bits, p.flags);
  }

  lemma SumSlicesExp(exp: int, Z: int)
    ensures SumSlices(exp, Z).exp == exp
  {
  }

  /** A zero frame sum means a zero total. */
  lemma CancelledAnswers(a: int, b: int, c: int, rm: int, negProd: bool, negAddend: bool)
    requires Rounds(a, b, c) && Decode(a).Finite? && Decode(b).Finite? && Decode(c).Finite?
    requires FrameSum(RequestAligned(a, b, c), ProductSign(a, b, negProd) != (SignOf(c) != negAddend)) == 0
    ensures Answers(a, b, c, rm, negProd, negAddend, SignBit(rm == RM_RDN), NO_FLAGS)
  {
    ClassifiersDecode(a);
    ClassifiersDecode(b);
    ClassifiersDecode(c);
    hide Decode, Rounds, IsZero, IsNan, IsInf, IsSnan, SignOf, ExpOf, FracOf, ProdNorm, ProdLead, Exp2, Times, Pow2,
         Answers, AnswersTotal, Magnitude, ExactTotal, FrameSum, ExactSum, SignBit;
    var fa, fb, fc := Decode(a), Decode(b), Decode(c);
    ProdNormBounds(fa.mant, fb.mant);
    TotalByParts(a, b, c, negProd, negAddend);
    SumStandsForTotal(ProdNorm(fa.mant, fb.mant), ProdLead(fa.e, fa.mant, fb.e, fb.mant), fc.mant, fc.e,
                      ProductSign(a, b, negProd), SignOf(c) != negAddend);
    ZeroAnswers(rm);
    TotalAnswers(a, b, c, rm, negProd, negAddend, SignBit(rm == RM_RDN), NO_FLAGS);
  }

  /**
    The unit.  For all operands, modes and the four op codes the bits are the reference's; the
    flags are too, except that an exact total below 2^-126 is reported without inexact.
   */
  method FusedMultiplyAddUnit(a: int, b: int, c: int, rm: int, negProd: bool, negAddend: bool)
    returns (result: int, flags: Flags)
    requires IsBits(a) && IsBits(b) && IsBits(c)
    ensures result == MaddSpec(a, b, c, rm, negProd, negAddend).bits
    ensures flags == MaddSpec(a, b, c, rm, negProd, negAddend).flags
       <==> !TinyExactTotal(a, b, c, negProd, negAddend)
  {
    hide Decode, MaddSpec, SpecialCase, TinyExactTotal, ProdNorm, ProdLead, ProductSlices, RoundAndPack, FrameSum,
         IsZero, IsNan, IsInf, IsSnan, SignOf, ExpOf, FracOf, SumSlices, Pow2, SignBit, Jam, ProductSign, Rounds, WellAligned;
    var signP, signC := ProductSign(a, b, negProd), SignOf(c) != negAddend;
    var p;
    if !Rounds(a, b, c) {
      SpecialAnswers(a, b, c, rm, negProd, negAddend);
      p := SpecialCase(a, b, c, rm, signP, signC);
    } else {
      RoundsDecoded(a, b, c);
      var ma, mb, mc := MIN_SIG + FracOf(a), MIN_SIG + FracOf(b), MIN_SIG + FracOf(c);
      var pn, pe := ProdNorm(ma, mb), ProdLead(ExpOf(a) - 127, ma, ExpOf(b) - 127, mb);
      if IsZero(c) {
        var h := ProductSlices(pe, pn);
        p := RoundAndPack(signP, h.exp, h.sig, h.guard, h.round, h.sticky, rm);
        ProductAnswers(a, b, c, rm, negProd, negAddend, h);
      } else {
        ProdNormBounds(ma, mb);
        AlignWellFormed(pn, pe, mc, ExpOf(c) - 127);
        var al := Align(pn, pe, mc, ExpOf(c) - 127);
        p := SumAndRound(a, b, c, rm, negProd, negAddend, al);
      }
    }
    result, flags := p.bits, p.flags;
  }

  lemma RoundsDecoded(a: int, b: int, c: int)
    requires Rounds(a, b, c)
    ensures Decode(a) == Finite(SignOf(a), ExpOf(a) - 127, MIN_SIG + FracOf(a)) && OnGrid(Decode(a).e, Decode(a).mant)
    ensures Decode(b) == Finite(SignOf(b), ExpOf(b) - 127, MIN_SIG + FracOf(b)) && OnGrid(Decode(b).e, Decode(b).mant)
    ensures !IsZero(c) ==>
      Decode(c) == Finite(SignOf(c), ExpOf(c) - 127, MIN_SIG + FracOf(c)) && OnGrid(Decode(c).e, Decode(c).mant)
  {
    ClassifiersDecode(a);
    ClassifiersDecode(b);
    ClassifiersDecode(c);
  }

  lemma FrameShift(al: Aligned)
    requires WellAligned(al)
    ensures al.shift >= 0 && 0 <= al.small < Pow2(113)
  {
    hide Pow2;
    FrameLimits();
  }

  /** The align, add and renormalize part of the datapath. */
  method SumAndRound(a: int, b: int, c: int, rm: int, negProd: bool, negAddend: bool, al: Aligned) returns (p: Packed)
    requires Rounds(a, b, c) && Decode(a).Finite? && Decode(b).Finite? && Decode(c).Finite?
    requires al == RequestAligned(a, b, c) && WellAligned(al)
    ensures Answers(a, b, c, rm, negProd, negAddend, p.bits, p.flags)
  {
    hide Decode, Rounds, Answers, RoundAndPack, SumSlices, SignOf, SignBit, Jam, Jammed, ExactSum, ProductSign,
         RequestAligned, Pow2;
    FrameShift(al);
    FrameSumJams(al, ProductSign(a, b, negProd) != (SignOf(c) != negAddend));
    hide WellAligned;
    var signP, signC := ProductSign(a, b, negProd), SignOf(c) != negAddend;
    var small := WideShiftRightSticky(al.small, al.shift);
    var sum := if signP == signC then al.big + small else al.big - small;
    if sum == 0 {
      p := Packed(SignBit(rm == RM_RDN), NO_FLAGS);
      CancelledAnswers(a, b, c, rm, negProd, negAddend);
    } else {
      var renorm, shl := Renormalize(sum);
      var h := SumSlices(al.exp - shl, renorm);
      p := RoundAndPack(if al.addendIsBig then signC else signP, h.exp, h.sig, h.guard, h.round, h.sticky, rm);
      SumAnswers(a, b, c, rm, negProd, negAddend, renorm, shl);
    }
  }

  lemma MagnitudeOfPower(e: int)
    ensures Magnitude(e, MIN_SIG) == Exp2(e)
  {
    hide Exp2;
    Exp2Add(23, e - 23);
    Exp2Nat(23);
    Pow2Literals();
  }

  lemma ExampleDecodes()
    ensures Decode(0x0D80_0000) == Finite(false, -100, MIN_SIG) && Decode(0) == Zero(false) && !SignOf(0x0D80_0000)
  {
  }

  /** 2^-100 * 2^-100 + 0 is exact and tiny: the unit omits the inexact flag there. */
  lemma TinyExactExample()
    ensures TinyExactTotal(0x0D80_0000, 0x0D80_0000, 0, false, false)
  {
    hide Decode, Exp2, SignOf;
    var a := 0x0D80_0000;
    ExampleDecodes();
    MagnitudeOfPower(-100);
    MagnitudeOfPower(-200);
    Exp2Add(-100, -100);
    hide Magnitude;
    assert OnGrid(-200, MIN_SIG);
    assert TinyOnGrid(Magnitude(-200, MIN_SIG));
  }
}
