/**
  design/FDivider.v: the 51-step single-precision divider, against f_div of sim/tools/iss.py.
 */
module FloatDivider {
  import opened Arithmetic
  import opened PowersOfTwo
  import opened RestoringDivision
  import opened F32
  import opened F32Normalize
  import opened FpRound

  const QW := 51
  const QW_LIMIT := 0x8_0000_0000_0000
  const PAD_SCALE := 0x800_0000

  lemma WidthLiterals()
    ensures Pow2(27) == PAD_SCALE && Pow2(51) == QW_LIMIT && Pow2(24) == SIG_LIMIT && Pow2(23) == MIN_SIG
  {
    Pow2Literals();
    Pow2Add(24, 27);
  }

  function Bit(Q: int, k: nat): bool {
    Q / Pow2(k) % 2 == 1
  }

  /** The two positions of the quotient's leading bit, as the source slices them. */
  function FinalSlices(expDiff: int, Q: int, R: int): HandOver {
    if Bit(Q, 27) then
      HandOver(expDiff, Q / 16 % SIG_LIMIT, Bit(Q, 3), Bit(Q, 2), Bit(Q, 1) || Bit(Q, 0) || R != 0)
    else
      HandOver(expDiff - 1, Q / 8 % SIG_LIMIT, Bit(Q, 2), Bit(Q, 1), Bit(Q, 0) || R != 0)
  }

  /** The final quotient has its leading bit at position 26 or 27. */
  lemma QuotientWindow(ma: int, mb: int)
    requires MIN_SIG <= ma < SIG_LIMIT && MIN_SIG <= mb < SIG_LIMIT
    ensures 0x400_0000 <= ma * PAD_SCALE / mb < 0x1000_0000
  {
    var N, q, r := ma * PAD_SCALE, ma * PAD_SCALE / mb, ma * PAD_SCALE % mb;
    assert N == q * mb + r;
    if q < 0x400_0000 {
      ProductMono(q, 0x3FF_FFFF, mb);
    }
    if q >= 0x1000_0000 {
      ProductMono(0x1000_0000, q, mb);
    }
  }

  lemma SliceBits(Q: int)
    requires 0x400_0000 <= Q < 0x1000_0000
    ensures Bit(Q, 27) <==> Q >= 0x800_0000
    ensures Bit(Q, 3) <==> Q / 8 % 2 == 1
    ensures Bit(Q, 2) <==> Q / 4 % 2 == 1
    ensures Bit(Q, 2) || Bit(Q, 1) || Bit(Q, 0) <==> Q % 8 != 0
    ensures Bit(Q, 1) || Bit(Q, 0) <==> Q % 4 != 0
  {
    Pow2Literals();
    assert Pow2(0) == 1 && Pow2(1) == 2 && Pow2(2) == 4 && Pow2(3) == 8;
    hide Pow2;
    LowDigits(Q);
  }

  lemma LowDigits(Q: nat)
    ensures Q / 4 % 2 == 1 || Q / 2 % 2 == 1 || Q % 2 == 1 <==> Q % 8 != 0
    ensures Q / 2 % 2 == 1 || Q % 2 == 1 <==> Q % 4 != 0
  {
    var b0, h1 := Q % 2, Q / 2;
    var b1, h2 := h1 % 2, h1 / 2;
    LowDigitsOf(Q, h2 / 2, h2 % 2, b1, b0);
  }

  lemma LowDigitsOf(Q: nat, h: nat, b2: nat, b1: nat, b0: nat)
    requires b2 < 2 && b1 < 2 && b0 < 2 && Q == 8 * h + 4 * b2 + 2 * b1 + b0
    ensures Q / 4 % 2 == 1 || Q / 2 % 2 == 1 || Q % 2 == 1 <==> Q % 8 != 0
    ensures Q / 2 % 2 == 1 || Q % 2 == 1 <==> Q % 4 != 0
  {
    DivModUnique(Q, 8, h, 4 * b2 + 2 * b1 + b0);
    DivModUnique(Q, 4, 2 * h + b2, 2 * b1 + b0);
    DivModUnique(Q, 2, 4 * h + 2 * b2 + b1, b0);
    DivModUnique(2 * h + b2, 2, h, b2);
    DivModUnique(4 * h + 2 * b2 + b1, 2, 2 * h + b2, b1);
  }

  lemma SlicesRead(expDiff: int, Q: int, R: int)
    requires 0x400_0000 <= Q < 0x1000_0000
    ensures var n := Reading(FinalSlices(expDiff, Q, R));
            if Q >= 0x800_0000
            then n == Norm(expDiff, Q / 8 / 2, ClassOf(Q / 8 % 2 == 1, Q % 8 != 0 || R != 0))
            else n == Norm(expDiff - 1, Q / 4 / 2, ClassOf(Q / 4 % 2 == 1, Q % 4 != 0 || R != 0))
  {
    SliceBits(Q);
    hide Bit, ClassOf;
    if Q >= 0x800_0000 {
      HalfAgain(Q, 8);
    } else {
      HalfAgain(Q, 4);
    }
  }

  lemma HalfAgain(Q: int, M: int)
    requires (M == 8 && 0x800_0000 <= Q < 0x1000_0000) || (M == 4 && 0x400_0000 <= Q < 0x800_0000)
    ensures Q / M / 2 == Q / (2 * M) && Q / (2 * M) % SIG_LIMIT == Q / (2 * M)
  {
  }

  lemma RegroupScale(m: real, A: real, B: real, a: real, b: real, s: real, v: real, u: real, t: real, w: real)
    requires B == Times(b, s) && A == Times(a, v) && t == Times(s, u) && w == Times(v, u) && Times(m, B) == A
    ensures Times(Times(m, t), b) == Times(a, w)
  {
    calc {
      m * t * b;
      m * (s * u) * b;
      m * (b * s) * u;
      a * v * u;
      a * (v * u);
    }
  }

  /** Scaling the exact quotient `m` by 2^(s - (ea - eb)) leaves ma * 2^s / mb. */
  lemma ScaledQuotient(m: real, ea: int, ma: int, eb: int, mb: int, s: int)
    requires Times(m, Magnitude(eb, mb)) == Magnitude(ea, ma)
    ensures Times(Times(m, Exp2(s - (ea - eb))), mb as real) == Times(ma as real, Exp2(s))
  {
    hide *;
    var u := s - ea + 23;
    MagnitudeProduct(ea, ma);
    MagnitudeProduct(eb, mb);
    Exp2Split(eb - 23, u, s - (ea - eb));
    Exp2Split(ea - 23, u, s);
    RegroupScale(m, Magnitude(ea, ma), Magnitude(eb, mb), ma as real, mb as real,
                 Exp2(eb - 23), Exp2(ea - 23), Exp2(u), Exp2(s - (ea - eb)), Exp2(s));
  }

  lemma ExactQuotient(N: int, D: int) returns (x: real)
    requires 0 <= N && D > 0
    ensures Times(x, D as real) == N as real
    ensures (N / D) as real <= x < (N / D) as real + 1.0
    ensures x == (N / D) as real <==> N % D == 0
  {
    x := N as real / D as real;
    var Q, R := N / D, N % D;
    assert N == Q * D + R;
    assert N as real == Q as real * D as real + R as real by {
      assert (Q * D) as real == Q as real * D as real;
    }
    QuotientSplits(N as real, D as real, Q as real, R as real, x);
  }

  lemma QuotientSplits(n: real, d: real, q: real, r: real, x: real)
    requires d > 0.0 && 0.0 <= r < d && n == q * d + r && x * d == n
    ensures q <= x < q + 1.0 && (x == q <==> r == 0.0)
  {
    ScaledCompare(x - q, 0.0, d, r);
    ScaledCompare(x - q, 1.0, d, r);
  }

  lemma QuotientScales(x: real, y: real, ma: int, mb: real, S: real, M: int)
    requires mb > 0.0 && Times(x, mb) == (ma * PAD_SCALE) as real && Times(y, mb) == Times(ma as real, S)
    requires PAD_SCALE as real == 2.0 * M as real * S
    ensures Times(y, 2.0 * M as real) == x
  {
    var W := 2.0 * M as real;
    assert (y * W) * mb == (y * mb) * W;
    assert (ma as real * S) * W == ma as real * PAD_SCALE as real;
    ScaledCompare(y * W, x, mb, (y * W) * mb);
  }

  /** One leading-bit case: exponent `e`, kept bits from weight 2M up. */
  lemma DivReadingAt(m: real, ea: int, ma: int, eb: int, mb: int, e: int, M: int)
    requires OnGrid(ea, ma) && OnGrid(eb, mb) && Times(m, Magnitude(eb, mb)) == Magnitude(ea, ma)
    requires (e == ea - eb && M == 8) || (e == ea - eb - 1 && M == 4)
    ensures var N := ma * PAD_SCALE;
            var Q, R := N / mb, N % mb;
            InClass(Times(m, Exp2(23 - e)) - (Q / M / 2) as real, ClassOf(Q / M % 2 == 1, Q % M != 0 || R != 0))
  {
    hide Exp2, Magnitude, InClass, ClassOf, Times;
    var N := ma * PAD_SCALE;
    var x := ExactQuotient(N, mb);
    var y := Times(m, Exp2(23 - e));
    var s := if M == 8 then 23 else 24;
    ScaledQuotient(m, ea, ma, eb, mb, s);
    assert s - (ea - eb) == 23 - e;
    Exp2Nat(s);
    Pow2Literals();
    hide Pow2;
    QuotientWindow(ma, mb);
    QuotientScales(x, y, ma, mb as real, Exp2(s), M);
    GuardReading(x, y, N / mb, M);
  }

  lemma LeadingBitCase(ma: int, mb: int)
    requires MIN_SIG <= ma < SIG_LIMIT && MIN_SIG <= mb < SIG_LIMIT
    ensures ma * PAD_SCALE / mb >= 0x800_0000 <==> ma >= mb
  {
    var N, q, r := ma * PAD_SCALE, ma * PAD_SCALE / mb, ma * PAD_SCALE % mb;
    assert N == q * mb + r;
    if q >= 0x800_0000 {
      ProductMono(0x800_0000, q, mb);
    } else {
      ProductMono(q, 0x7FF_FFFF, mb);
    }
  }

  lemma SlicesInWindow(Q: int)
    requires 0x400_0000 <= Q < 0x1000_0000
    ensures Q >= 0x800_0000 ==> MIN_SIG <= Q / 8 / 2 < SIG_LIMIT
    ensures Q < 0x800_0000 ==> MIN_SIG <= Q / 4 / 2 < SIG_LIMIT
  {
  }

  /** The quotient registers hand over exactly the normalized exact quotient. */
  lemma DivReading(m: real, ea: int, ma: int, eb: int, mb: int)
    requires OnGrid(ea, ma) && OnGrid(eb, mb) && Times(m, Magnitude(eb, mb)) == Magnitude(ea, ma) && m > 0.0
    ensures var N := ma * PAD_SCALE;
            Normalize(m) == Reading(FinalSlices(ea - eb, N / mb, N % mb))
  {
    hide Exp2, Magnitude, InClass, ClassOf, Normalize, FinalSlices, Reading;
    var N := ma * PAD_SCALE;
    var Q, R := N / mb, N % mb;
    QuotientWindow(ma, mb);
    SlicesRead(ea - eb, Q, R);
    SlicesInWindow(Q);
    if Q >= 0x800_0000 {
      DivReadingAt(m, ea, ma, eb, mb, ea - eb, 8);
      NormFrom(m, ea - eb, Q / 8 / 2, ClassOf(Q / 8 % 2 == 1, Q % 8 != 0 || R != 0));
    } else {
      DivReadingAt(m, ea, ma, eb, mb, ea - eb - 1, 4);
      NormFrom(m, ea - eb - 1, Q / 4 / 2, ClassOf(Q / 4 % 2 == 1, Q % 4 != 0 || R != 0));
    }
  }

  lemma NormFrom(m: real, e: int, sig: int, cls: Class)
    requires m > 0.0 && MIN_SIG <= sig < SIG_LIMIT && InClass(Times(m, Exp2(23 - e)) - sig as real, cls)
    ensures Normalize(m) == Norm(e, sig, cls)
  {
    NormUnique(m, Norm(e, sig, cls));
  }

  // ---- exactly representable quotients below the normal range ----

  /** The exponent of a / b and the divisibility that makes it exact, read off the operands. */
  function QuotientExponent(fa: Float, fb: Float): int
    requires fa.Finite? && fb.Finite?
  {
    fa.e - fb.e - (if fa.mant < fb.mant then 1 else 0)
  }

  predicate DividesExactly(fa: Float, fb: Float)
    requires fa.Finite? && fb.Finite? && fb.mant > 0
  {
    fa.mant * (if fa.mant < fb.mant then SIG_LIMIT else MIN_SIG) % fb.mant == 0
  }

  predicate TinyExactQuotient(a: int, b: int) {
    var fa, fb := Decode(a), Decode(b);
    fa.Finite? && fb.Finite? && QuotientExponent(fa, fb) < -126 && DividesExactly(fa, fb)
  }

  lemma ExactByDivisibility(n: int, k: int, d: int)
    requires 0 <= n && d > 0 && k > 0
    ensures n % d == 0 <==> (n * k / d % k == 0 && n * k % d == 0)
  {
    ScaledDivision(n, n / d, n % d, k, d);
  }

  /** Scaling the dividend by k puts the scaled remainder's digits below the quotient's. */
  lemma ScaledDivision(n: int, q: int, r: int, k: int, d: int)
    requires 0 <= r < d && k > 0 && n == q * d + r
    ensures r == 0 <==> (n * k / d % k == 0 && n * k % d == 0)
  {
    ScaledRest(r, k, d);
    var s, t := r * k / d, r * k % d;
    ScaledSum(n, q, r, k, d, s, t);
    DivModUnique(n * k, d, q * k + s, t);
    DivModUnique(q * k + s, k, q, s);
  }

  lemma ScaledSum(n: int, q: int, r: int, k: int, d: int, s: int, t: int)
    requires n == q * d + r && r * k == s * d + t
    ensures n * k == (q * k + s) * d + t
  {
    assert (q * d + r) * k == (q * k) * d + r * k;
  }

  lemma ScaledRest(r: int, k: int, d: int)
    requires 0 <= r < d && k > 0
    ensures 0 <= r * k / d < k && r * k == r * k / d * d + r * k % d
    ensures r == 0 <==> (r * k / d == 0 && r * k % d == 0)
  {
    ProductMono(0, r, k);
    ProductMono(r + 1, d, k);
    if r > 0 {
      ProductMono(1, r, k);
    }
    QuotientInRange(r * k, d, k);
    ZeroQuotient(r * k, d);
  }

  lemma ZeroQuotient(n: int, d: int)
    requires d > 0
    ensures n == n / d * d + n % d
    ensures n == 0 <==> (n / d == 0 && n % d == 0)
  {
  }

  lemma ClassExact(Q: int, K: int, R: int)
    requires K == 8 || K == 4
    ensures ClassOf(Q / K % 2 == 1, Q % K != 0 || R != 0) == Exact <==> Q % (2 * K) == 0 && R == 0
  {
    var h, l := Q / K, Q % K;
    var g, b := h / 2, h % 2;
    DivModUnique(Q, 2 * K, g, b * K + l);
  }

  lemma ReadingExactness(expDiff: int, ma: int, mb: int)
    requires MIN_SIG <= ma < SIG_LIMIT && MIN_SIG <= mb < SIG_LIMIT
    ensures var N := ma * PAD_SCALE;
            var n := Reading(FinalSlices(expDiff, N / mb, N % mb));
            n.e == expDiff - (if ma < mb then 1 else 0) &&
            MIN_SIG <= n.sig < SIG_LIMIT &&
            (n.cls == Exact <==> ma * (if ma < mb then SIG_LIMIT else MIN_SIG) % mb == 0)
  {
    hide FinalSlices, Reading, ClassOf;
    var N := ma * PAD_SCALE;
    var Q, R := N / mb, N % mb;
    ClassExact(Q, 8, R);
    ClassExact(Q, 4, R);
    QuotientWindow(ma, mb);
    LeadingBitCase(ma, mb);
    SlicesRead(expDiff, Q, R);
    SlicesInWindow(Q);
    if ma < mb {
      assert ma * SIG_LIMIT * 8 == N;
      ExactByDivisibility(ma * SIG_LIMIT, 8, mb);
    } else {
      assert ma * MIN_SIG * 16 == N;
      ExactByDivisibility(ma * MIN_SIG, 16, mb);
    }
  }

  // ---- the unit ----

  predicate NeedsIteration(a: int, b: int) {
    Decode(a).Finite? && Decode(b).Finite?
  }

  /** The answer agrees with the reference: bits always, flags except for a tiny exact quotient. */
  ghost predicate Answers(a: int, b: int, rm: int, result: int, flags: Flags) {
    var p := DivSpec(a, b, rm);
    result == p.bits &&
    (flags == p.flags <==> !TinyExactQuotient(a, b)) &&
    (TinyExactQuotient(a, b) ==> p.flags == flags.(nx := true))
  }

  /** What the last step of a division of `a` by `b` passes to the rounder. */
  function FinalHandOver(a: int, b: int): HandOver
    requires NeedsIteration(a, b)
  {
    ClassifiersDecode(b);
    var fa, fb := Decode(a), Decode(b);
    var N := fa.mant * PAD_SCALE;
    FinalSlices(fa.e - fb.e, N / fb.mant, N % fb.mant)
  }

  lemma FinalHandOverShape(a: int, b: int)
    requires NeedsIteration(a, b)
    ensures var h := FinalHandOver(a, b);
            MIN_SIG <= h.sig < SIG_LIMIT && -500 <= h.exp <= 500 &&
            (ExactUnderflow(Reading(h)) <==> TinyExactQuotient(a, b))
  {
    DecodedOnGrid(a);
    DecodedOnGrid(b);
    hide Decode, FinalSlices, HandedOver;
    var fa, fb := Decode(a), Decode(b);
    var N := fa.mant * PAD_SCALE;
    ReadingExactness(fa.e - fb.e, fa.mant, fb.mant);
    QuotientWindow(fa.mant, fb.mant);
    SlicesShape(fa.e - fb.e, N / fb.mant, N % fb.mant);
  }

  /** Rounding what the last step hands over answers the division. */
  lemma FinalAnswers(a: int, b: int, rm: int)
    requires NeedsIteration(a, b)
    ensures var h := FinalHandOver(a, b);
            var p := RoundAndPack(SignOf(a) != SignOf(b), h.exp, h.sig, h.guard, h.round, h.sticky, rm);
            Answers(a, b, rm, p.bits, p.flags) && !p.flags.nv && !p.flags.dz
  {
    hide *;
    DivSpecReading(a, b, rm);
    FinalHandOverShape(a, b);
    AnswersByRounding(a, b, rm, FinalHandOver(a, b));
  }

  lemma AnswersByRounding(a: int, b: int, rm: int, h: HandOver)
    requires DivSpec(a, b, rm) == PackRounded(SignOf(a) != SignOf(b), Reading(h), rm)
    requires MIN_SIG <= h.sig < SIG_LIMIT && -500 <= h.exp <= 500
    requires ExactUnderflow(Reading(h)) <==> TinyExactQuotient(a, b)
    ensures var p := RoundAndPack(SignOf(a) != SignOf(b), h.exp, h.sig, h.guard, h.round, h.sticky, rm);
            Answers(a, b, rm, p.bits, p.flags) && !p.flags.nv && !p.flags.dz
  {
    hide HandedOver, RoundAndPack, PackRounded, DivSpec, TinyExactQuotient, SignOf;
    RoundAndPackInRange(SignOf(a) != SignOf(b), h.exp, h.sig, h.guard, h.round, h.sticky, rm);
    RoundAndPackFlags(SignOf(a) != SignOf(b), h.exp, h.sig, h.guard, h.round, h.sticky, rm);
  }

  /** In the general case the reference rounds what the registers hand over. */
  lemma DivSpecReading(a: int, b: int, rm: int)
    requires NeedsIteration(a, b)
    ensures DivSpec(a, b, rm) == PackRounded(SignOf(a) != SignOf(b), Reading(FinalHandOver(a, b)), rm)
  {
    DecodedOnGrid(a);
    DecodedOnGrid(b);
    var fa, fb := Decode(a), Decode(b);
    var m := Mag(fa) / Mag(fb);
    QuotientPositive(Mag(fa), Mag(fb));
    DivReading(m, fa.e, fa.mant, fb.e, fb.mant);
    assert DivSpec(a, b, rm) == RoundFromFraction(SignOf(a) != SignOf(b), m, rm) by {
      hide Exp2, Magnitude, Normalize, FinalSlices, HandedOver, PackRounded;
    }
    hide Exp2, Magnitude, Normalize, FinalSlices, HandedOver, PackRounded, Decode, Mag, DivSpec;
  }

  lemma QuotientPositive(x: real, y: real)
    requires x > 0.0 && y > 0.0
    ensures x / y > 0.0 && Times(x / y, y) == x
  {
  }

  lemma SlicesShape(expDiff: int, Q: int, R: int)
    requires 0x400_0000 <= Q < 0x1000_0000
    ensures var h := FinalSlices(expDiff, Q, R);
            MIN_SIG <= h.sig < SIG_LIMIT && expDiff - 1 <= h.exp <= expDiff
  {
    hide Bit, Pow2;
    SliceBits(Q);
    if Q >= 0x800_0000 {
      assert Q / 16 % SIG_LIMIT == Q / 16;
    } else {
      assert Q / 8 % SIG_LIMIT == Q / 8;
    }
  }

  /** The start cycle's cascade of special cases, in the source's order. */
  function SpecialCase(x: int, y: int): Packed {
    var sign := SignOf(x) != SignOf(y);
    if IsNan(x) || IsNan(y) then Packed(CANONICAL_NAN, NO_FLAGS.(nv := IsSnan(x) || IsSnan(y)))
    else if IsInf(x) && IsInf(y) then Packed(CANONICAL_NAN, INVALID)
    else if IsZero(x) && IsZero(y) then Packed(CANONICAL_NAN, INVALID)
    else if IsInf(x) then Packed(SignBit(sign) + 0xFF * MIN_SIG, NO_FLAGS)
    else if IsInf(y) then Packed(SignBit(sign), NO_FLAGS)
    else if IsZero(y) then Packed(SignBit(sign) + 0xFF * MIN_SIG, NO_FLAGS.(dz := true))
    else Packed(SignBit(sign), NO_FLAGS)
  }

  predicate Iterates(x: int, y: int) {
    !IsNan(x) && !IsNan(y) && !IsInf(x) && !IsInf(y) && !IsZero(x) && !IsZero(y)
  }

  lemma SpecialAnswers(a: int, b: int, rm: int)
    ensures Iterates(a, b) <==> NeedsIteration(a, b)
    ensures !Iterates(a, b) ==> Answers(a, b, rm, SpecialCase(a, b).bits, SpecialCase(a, b).flags)
  {
    ClassifiersDecode(a);
    ClassifiersDecode(b);
    hide Decode, IsNan, IsInf, IsZero, IsSnan, SignOf;
    if !Iterates(a, b) {
      assert DivSpec(a, b, rm) == SpecialCase(a, b);
    }
  }

  lemma IteratesDecodes(x: int, y: int)
    requires Iterates(x, y)
    ensures var fx, fy := Decode(x), Decode(y);
            fx == Finite(SignOf(x), ExpOf(x) - 127, MIN_SIG + FracOf(x)) && OnGrid(fx.e, fx.mant) &&
            fy == Finite(SignOf(y), ExpOf(y) - 127, MIN_SIG + FracOf(y)) && OnGrid(fy.e, fy.mant)
    ensures 0 < MIN_SIG + FracOf(y) < SIG_LIMIT && 0 < MIN_SIG + FracOf(x) < SIG_LIMIT
  {
    ClassifiersDecode(x);
    ClassifiersDecode(y);
    hide Decode, IsNan, IsInf, IsZero, SignOf, ExpOf, FracOf;
  }

  class FDivider {
    var busy: bool
    var done: bool
    var result: int
    var flags: Flags
    var R: int
    var Q: int
    var D: int
    var count: int
    var resultSign: bool
    var expA: int
    var expB: int

    // The request being worked on or just answered, and the rounding mode it was answered in.
    ghost var a: int
    ghost var b: int
    ghost var rm: int

    ghost predicate Valid()
      reads this
    {
      !(busy && done) && (busy ==> InFlight()) && (done ==> Answers(a, b, rm, result, flags))
    }

    ghost predicate InFlight()
      reads this
    {
      var fa, fb := Decode(a), Decode(b);
      NeedsIteration(a, b) && 0 <= count < QW && flags == NO_FLAGS &&
      OnGrid(fa.e, fa.mant) && OnGrid(fb.e, fb.mant) &&
      D == fb.mant && expA == fa.e && expB == fb.e && resultSign == (SignOf(a) != SignOf(b)) &&
      Regs(R, Q) == DivRegs(fa.mant * PAD_SCALE, D, QW, count)
    }

    /** Reset. */
    constructor ()
      ensures Valid() && !busy && !done
    {
      busy, done, result, flags := false, false, 0, NO_FLAGS;
      R, Q, D, count, resultSign, expA, expB := 0, 0, 0, 0, false, 0, 0;
      a, b, rm := 0, 0, 0;
    }

    /**
      One clock edge.  The rounding mode is sampled on the edge that produces the answer;
      `Valid` says that whenever `done` is up the outputs answer the request.
     */
    method Clock(start: bool, rmIn: int, x: int, y: int)
      requires Valid()
      modifies this
      ensures Valid()
      ensures old(busy) ==>
        (a, b) == old((a, b)) && done == !busy && busy == (old(count) != QW - 1) &&
        (busy ==> count == old(count) + 1) && (done ==> rm == rmIn)
      ensures !old(busy) && start && !old(done) ==>
        (a, b) == (x, y) && busy == NeedsIteration(x, y) && done == !busy &&
        (busy ==> count == 0) && (done ==> rm == rmIn)
      ensures !old(busy) && !(start && !old(done)) ==>
        !busy && !done && result == old(result) && flags == old(flags)
    {
      if start && !busy && !done {
        Take(rmIn, x, y);
      } else if busy {
        Advance(rmIn);
      } else {
        done := false;
      }
    }

    method Take(rmIn: int, x: int, y: int)
      requires Valid() && !busy && !done
      modifies this
      ensures Valid() && (a, b) == (x, y) && busy == NeedsIteration(x, y) && done == !busy
      ensures (busy ==> count == 0) && (done ==> rm == rmIn)
    {
      ClassifiersDecode(x);
      ClassifiersDecode(y);
      SpecialAnswers(x, y, rmIn);
      WidthLiterals();
      hide Decode, DivRegs, SpecialCase, Answers, Iterates, IsNan, IsInf, IsZero, IsSnan, SignOf, ExpOf, FracOf, Pow2;
      a, b, rm := x, y, rmIn;
      if !Iterates(x, y) {
        var p := SpecialCase(x, y);
        done, result, flags := true, p.bits, p.flags;
      } else {
        Begin(x, y);
      }
    }

    /** The registers at the first step of the recurrence. */
    method Begin(x: int, y: int)
      requires !busy && !done && Iterates(x, y) && (a, b) == (x, y)
      modifies this
      ensures Valid() && (a, b) == old((a, b)) && busy && !done && count == 0
    {
      hide Decode, DivRegs, Answers, Iterates, OnGrid, SignOf, ExpOf, FracOf, Pow2;
      IteratesDecodes(x, y);
      WidthLiterals();
      flags, busy, count := NO_FLAGS, true, 0;
      resultSign, expA, expB := SignOf(x) != SignOf(y), ExpOf(x) - 127, ExpOf(y) - 127;
      R, Q, D := 0, (MIN_SIG + FracOf(x)) * PAD_SCALE, MIN_SIG + FracOf(y);
      DivRegsInitial(Q, D, QW);
    }

    method Advance(rmIn: int)
      requires Valid() && busy
      modifies this
      ensures Valid() && (a, b) == old((a, b)) && done == !busy && busy == (old(count) != QW - 1)
      ensures (busy ==> count == old(count) + 1) && (done ==> rm == rmIn)
    {
      hide Decode, DivRegs, DivStep, FinalSlices, RoundAndPack, Answers, Pow2;
      ghost var N := Decode(a).mant * PAD_SCALE;
      WidthLiterals();
      DivStepAdvances(N, D, QW, count, 25);
      var next := DivStep(Regs(R, Q), D, QW, 25);
      R, Q := next.R, next.Q;
      if count == QW - 1 {
        busy, done, rm := false, true, rmIn;
        DivRegsFinal(N, D, QW);
        FinalAnswers(a, b, rmIn);
        var h := FinalSlices(expA - expB, next.Q, next.R);
        var p := RoundAndPack(resultSign, h.exp, h.sig, h.guard, h.round, h.sticky, rmIn);
        result, flags := p.bits, flags.(nv := false, ov := p.flags.ov, uf := p.flags.uf, nx := p.flags.nx);
      }
      count := (count + 1) % 64;
    }
  }

  /**
    The caller's view: operands and mode are held until `done`.  A division of two finite
    nonzero values takes exactly 51 busy steps, anything else answers in the start cycle, and
    holding `start` through the `done` cycle starts nothing.
   */
  method DivideFloat(u: FDivider, a: int, b: int, rm: int) returns (result: int, flags: Flags, cycles: nat)
    requires u.Valid() && !u.busy && !u.done
    modifies u
    ensures u.Valid() && !u.busy && !u.done
    ensures result == DivSpec(a, b, rm).bits
    ensures flags == DivSpec(a, b, rm).flags <==> !TinyExactQuotient(a, b)
    ensures cycles == if NeedsIteration(a, b) then QW + 1 else 1
  {
    hide DivSpec, TinyExactQuotient, NeedsIteration;
    u.Clock(true, rm, a, b);
    cycles := 1;
    while !u.done
      invariant u.Valid() && (u.a, u.b) == (a, b) && u.busy == !u.done
      invariant u.busy ==> cycles == u.count + 1 && NeedsIteration(a, b)
      invariant u.done ==> u.rm == rm && cycles == if NeedsIteration(a, b) then QW + 1 else 1
      decreases if u.done then 0 else QW - u.count
    {
      u.Clock(true, rm, a, b);
      cycles := cycles + 1;
    }
    result, flags := u.result, u.flags;
    u.Clock(true, rm, a, b);
  }

  /** 2^-100 / 2^100 is exact and tiny: the unit reports underflow without inexact. */
  lemma TinyExactExample()
    ensures TinyExactQuotient(0x0D80_0000, 0x7180_0000)
    ensures DivSpec(0x0D80_0000, 0x7180_0000, RM_RNE).flags == Flags(false, false, false, true, true)
  {
    var a, b := 0x0D80_0000, 0x7180_0000;
    assert Decode(a) == Finite(false, -100, MIN_SIG) && Decode(b) == Finite(false, 100, MIN_SIG);
    assert SignOf(a) == SignOf(b);
    hide Decode, SignOf, DivSpec, FinalHandOver, Reading, Pow2, Exp2;
    assert TinyExactQuotient(a, b);
    DivSpecReading(a, b, RM_RNE);
    FinalHandOverShape(a, b);
    assert ExactUnderflow(Reading(FinalHandOver(a, b)));
    hide TinyExactQuotient;
  }
}
