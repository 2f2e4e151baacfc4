/**
  design/FSqrt.v: the 26-step digit-recurrence square root, against f_sqrt of sim/tools/iss.py.
 */
module FloatSqrt {
  import opened Arithmetic
  import opened PowersOfTwo
  import opened RestoringDivision
  import opened F32
  import opened F32Normalize
  import opened FpRound

  const ROOT_BITS := 26
  const RAD_LIMIT := 0x10_0000_0000_0000
  const RAD_TOP := 0x4_0000_0000_0000

  function SqrtSpec(a: int, rm: int): Packed {
    var fa := Decode(a);
    if fa.Nan? then NanResult(fa.signaling)
    else if fa.Zero? then Packed(a, NO_FLAGS)
    else if SignOf(a) then NanResult(true)
    else if fa.Inf? then Packed(a, NO_FLAGS)
    else
      DecodedOnGrid(a);
      PackRounded(false, SqrtNormalize(Mag(fa)), rm)
  }

  // ---- the recurrence ----

  datatype SqrtState = SqrtState(R: int, Q: int, rad: int)

  /** One clock: bring down two radicand bits and try the next root bit. */
  function SqrtStep(s: SqrtState): SqrtState {
    var shifted := s.R % 0x400_0000 * 4 + s.rad / RAD_TOP;
    var trial := s.Q * 4 + 1;
    var kept := s.Q % 0x200_0000 * 2;
    var rad := s.rad * 4 % RAD_LIMIT;
    if shifted >= trial then SqrtState(shifted - trial, kept + 1, rad) else SqrtState(shifted, kept, rad)
  }

  function Pow4(n: nat): int {
    Pow2(2 * n)
  }

  function Square(q: int): int {
    q * q
  }

  /** The state whose top digits are `top` and whose pending digits are `rad`. */
  function At(top: nat, rad: int): SqrtState {
    SqrtState(top - Square(ISqrt(top)), ISqrt(top), rad)
  }

  /** The digits of X above weight W on top, the rest pending at scale P. */
  function AtWeight(X: int, W: int, P: int): SqrtState
    requires 0 <= X && W > 0
  {
    var top := X / W;
    At(if top < 0 then 0 else top, X % W * P)
  }

  /**
    The registers after k steps: Q is the integer square root of the top 2k bits of the
    radicand, R is what is left of them, and rad holds the remaining bits at the top.
   */
  function SqrtRegs(X: int, k: nat): SqrtState
    requires 0 <= X && k <= ROOT_BITS
  {
    AtWeight(X, Pow4(ROOT_BITS - k), Pow4(k))
  }

  lemma SplitFour(n: int, W: int)
    requires W > 0 && 0 <= n
    ensures var lo := n % (4 * W);
            0 <= lo / W <= 3 && n / W == 4 * (n / (4 * W)) + lo / W && n % W == lo % W
  {
    var hi, lo := n / (4 * W), n % (4 * W);
    assert n == hi * (4 * W) + lo;
    var d, l := lo / W, lo % W;
    assert lo == d * W + l;
    QuotientInRange(lo, W, 4);
    assert (4 * hi + d) * W == hi * (4 * W) + d * W;
    DivModUnique(n, W, 4 * hi + d, l);
  }

  lemma NextSquares(q: int)
    ensures (q + 1) * (q + 1) == Square(q) + 2 * q + 1
  {
  }

  lemma DoubleSquares(q: int)
    ensures Square(2 * q) == 4 * Square(q) && Square(2 * q + 1) == 4 * Square(q) + 4 * q + 1
  {
  }

  lemma RootDigit(t: int, d: int)
    requires 0 <= t && 0 <= d <= 3
    ensures var q := ISqrt(t);
            var R := t - Square(q);
            var s := 4 * R + d;
            0 <= R <= 2 * q &&
            (if s >= 4 * q + 1
             then ISqrt(4 * t + d) == 2 * q + 1 && 4 * t + d - Square(2 * q + 1) == s - (4 * q + 1)
             else ISqrt(4 * t + d) == 2 * q && 4 * t + d - Square(2 * q) == s)
  {
    hide ISqrt, Square;
    ISqrtSquare(t);
    var q := ISqrt(t);
    DoubleSquares(q);
    SquareRootIs(4 * t + d, 2 * q + 1);
    SquareRootIs(4 * t + d, 2 * q);
  }

  lemma ISqrtSquare(t: nat)
    ensures Square(ISqrt(t)) <= t <= Square(ISqrt(t)) + 2 * ISqrt(t)
  {
    ISqrtBounds(t);
    hide ISqrt;
    NextSquares(ISqrt(t));
  }

  lemma SquareRootIs(t: int, r: int)
    requires 0 <= r && 0 <= t
    ensures Square(r) <= t <= Square(r) + 2 * r ==> ISqrt(t) == r
  {
    if Square(r) <= t <= Square(r) + 2 * r {
      NextSquares(r);
      ISqrtUnique(t, r);
    }
  }

  lemma RootBelow(t: int, B: int)
    requires 0 <= t < B * B && B > 0
    ensures 0 <= ISqrt(t) < B
  {
    ISqrtBounds(t);
    hide ISqrt;
    if ISqrt(t) >= B {
      SquareMono(B, ISqrt(t));
    }
  }

  lemma StepValues(top: nat, d: int, rad: int)
    requires top < 0x4_0000_0000_0000 && 0 <= d <= 3 && rad / RAD_TOP == d
    ensures SqrtStep(At(top, rad)) == At(4 * top + d, rad * 4 % RAD_LIMIT)
  {
    hide ISqrt, Square, SqrtStep;
    RootDigit(top, d);
    RootBelow(top, 0x200_0000);
    StepCombines(top, ISqrt(top), d, rad);
  }

  lemma PendingDigits(X: int, W: int, P: int)
    requires 0 <= X && W > 0 && P > 0 && W * P == RAD_TOP
    ensures var d := X % (4 * W) / W;
            0 <= d <= 3 && X / W == 4 * (X / (4 * W)) + d &&
            X % (4 * W) * P / RAD_TOP == d && X % (4 * W) * P * 4 % RAD_LIMIT == X % W * (4 * P)
  {
    SplitFour(X, W);
    SplitQuotient(X % (4 * W), P, 0, W);
    RadShift(X % (4 * W), W, P);
  }

  lemma StepCombines(top: int, q: int, d: int, rad: int)
    requires 0 <= q < 0x200_0000 && 0 <= top - Square(q) <= 2 * q && rad / RAD_TOP == d
    ensures var s := 4 * (top - Square(q)) + d;
            SqrtStep(SqrtState(top - Square(q), q, rad))
              == if s >= 4 * q + 1 then SqrtState(s - (4 * q + 1), 2 * q + 1, rad * 4 % RAD_LIMIT)
                 else SqrtState(s, 2 * q, rad * 4 % RAD_LIMIT)
  {
    hide Square;
  }

  lemma RadShift(lo: int, W: int, P: int)
    requires W > 0 && P > 0 && W * P == RAD_TOP && 0 <= lo < 4 * W
    ensures lo * P * 4 % RAD_LIMIT == lo % W * (4 * P)
  {
    var d, l := lo / W, lo % W;
    assert lo == d * W + l;
    assert lo * P * 4 == d * (4 * (W * P)) + l * (4 * P) by {
      assert (d * W + l) * P == d * (W * P) + l * P;
    }
    assert 0 <= l * (4 * P) < 4 * (W * P) by {
      ProductMono(l + 1, W, P);
      assert (l + 1) * P == l * P + P;
      assert l * (4 * P) == 4 * (l * P);
      ProductMono(0, l, P);
    }
    DivModUnique(lo * P * 4, RAD_LIMIT, d, l * (4 * P));
  }

  lemma Pow4Succ(n: nat)
    ensures Pow4(n + 1) == 4 * Pow4(n)
  {
    assert Pow2(2 * n + 2) == 2 * Pow2(2 * n + 1);
  }

  lemma Pow4Literals()
    ensures Pow4(25) == RAD_TOP && Pow4(26) == RAD_LIMIT && Pow4(0) == 1
  {
    Pow2Literals();
    Pow2Add(25, 25);
    Pow2Add(26, 26);
  }

  /** The recurrence invariant; no bit of R or Q is lost in a shift. */
  lemma SqrtStepAdvances(X: int, k: nat)
    requires k < ROOT_BITS && 0 <= X < RAD_LIMIT
    ensures SqrtStep(SqrtRegs(X, k)) == SqrtRegs(X, k + 1)
  {
    hide At, SqrtStep, SqrtRegs;
    hide Weighed, AtWeight;
    var W, P := Weights(X, k);
    StepAtWeight(X, W, P);
  }

  /** Weights of a step: that of the digit produced and the shift of what is pending. */
  predicate Weighed(X: int, W: int, P: int) {
    W > 0 && P > 0 && W * P == RAD_TOP && TopFits(X, 4 * W)
  }

  predicate TopFits(X: int, A: int) {
    A > 0 && 0 <= X / A < 0x4_0000_0000_0000
  }

  lemma Weights(X: int, k: nat) returns (W: int, P: int)
    requires k < ROOT_BITS && 0 <= X < RAD_LIMIT
    ensures Weighed(X, W, P) && W > 0
    ensures SqrtRegs(X, k) == AtWeight(X, 4 * W, P) && SqrtRegs(X, k + 1) == AtWeight(X, W, 4 * P)
  {
    hide AtWeight, Pow2, Pow4, TopFits;
    W, P := Pow4(25 - k), Pow4(k);
    WeightFacts(k);
    TopDigitsFit(X, k);
  }

  lemma WeightFacts(k: nat)
    requires k < ROOT_BITS
    ensures Pow4(25 - k) > 0 && Pow4(k) > 0 && Pow4(25 - k) * Pow4(k) == RAD_TOP
    ensures Pow4(26 - k) == 4 * Pow4(25 - k) && Pow4(k + 1) == 4 * Pow4(k)
  {
    hide Pow2;
    Pow4Succ(25 - k);
    Pow4Succ(k);
    Pow2Add(2 * (25 - k), 2 * k);
    Pow4Literals();
  }

  lemma TopDigitsFit(X: int, k: nat)
    requires k < ROOT_BITS && 0 <= X < RAD_LIMIT
    ensures TopFits(X, Pow4(26 - k))
  {
    hide Pow2;
    Pow4Literals();
    TopBelow(X, 2 * (26 - k), 2 * k);
    Pow2Mono(2 * k, 50);
  }

  /** A digit step between two weights. */
  lemma StepAtWeight(X: int, W: int, P: int)
    requires 0 <= X && W > 0 && Weighed(X, W, P)
    ensures SqrtStep(AtWeight(X, 4 * W, P)) == AtWeight(X, W, 4 * P)
  {
    hide At, SqrtStep;
    PendingDigits(X, W, P);
    StepValues(X / (4 * W), X % (4 * W) / W, X % (4 * W) * P);
  }

  lemma SqrtRegsEnds(X: int)
    requires 0 <= X < RAD_LIMIT
    ensures SqrtRegs(X, 0) == SqrtState(0, 0, X)
    ensures SqrtRegs(X, ROOT_BITS) == At(X, 0)
  {
    Pow4Literals();
    assert ISqrt(0) == 0 && Square(0) == 0;
    hide Pow4, ISqrt, Square;
    DivModUnique(X, RAD_LIMIT, 0, X);
  }

  // ---- what the last step hands over ----

  /** The initial radicand: twice the significand or four times it, above 26 zero bits. */
  function InitialRadicand(e: int, mant: int): int {
    if e % 2 == 0 then mant * 0x800_0000 else mant * 0x1000_0000
  }

  lemma InitialRadicandIs(e: int, mant: int)
    requires OnGrid(e, mant)
    ensures InitialRadicand(e, mant) == 16 * SqrtRadicand(e, mant)
    ensures 0x4_0000_0000_0000 <= InitialRadicand(e, mant) < RAD_LIMIT
  {
  }

  /** Two root bits below the significand locate the root of n against sig + 1/2. */
  lemma RootOfSixteenfold(n: nat, Q: int)
    requires Q == ISqrt(16 * n)
    ensures Q >= 0 && ISqrt(n) == Q / 4
    ensures SqrtClass(n, Q / 4) == ClassOf(Q / 2 % 2 == 1, Q % 2 == 1 || 16 * n != Square(Q))
    ensures SqrtClass(n, Q / 4) != Tie
  {
    ISqrtSquare(16 * n);
    hide ISqrt, Square, SqrtClass, ClassOf;
    var s, l := LowDigits(Q);
    RootQuarter(n, s, l);
    SquareRootIs(n, s);
  }

  lemma LowDigits(Q: int) returns (s: int, l: int)
    ensures s == Q / 4 && 0 <= l <= 3 && Q == 4 * s + l
    ensures Q / 2 % 2 == 1 <==> l >= 2
    ensures Q % 2 == 1 <==> l % 2 == 1
  {
    s, l := Q / 4, Q % 4;
  }

  /** All the squares involved, over z = s * s. */
  lemma RootQuarter(n: int, s: int, l: int)
    requires 0 <= s && 0 <= l <= 3
    requires Square(4 * s + l) <= 16 * n <= Square(4 * s + l) + 2 * (4 * s + l)
    ensures Square(s) <= n <= Square(s) + 2 * s
    ensures SqrtClass(n, s) == ClassOf(l >= 2, l % 2 == 1 || 16 * n != Square(4 * s + l))
    ensures SqrtClass(n, s) != Tie
  {
    var z := s * s;
    assert Square(4 * s + l) == 16 * z + 8 * (s * l) + l * l by { QuarterSquare(s, l); }
    assert (2 * s + 1) * (2 * s + 1) == 4 * z + 4 * s + 1;
    if l == 0 {
      assert s * l == 0 && l * l == 0;
    } else if l == 1 {
      assert s * l == s && l * l == 1;
    } else if l == 2 {
      assert s * l == 2 * s && l * l == 4;
    } else {
      assert s * l == 3 * s && l * l == 9;
    }
  }

  lemma QuarterSquare(s: int, l: int)
    ensures Square(4 * s + l) == 16 * (s * s) + 8 * (s * l) + l * l
  {
  }

  lemma RootWindow(X: int)
    requires 0x4_0000_0000_0000 <= X < RAD_LIMIT
    ensures 0x200_0000 <= ISqrt(X) < 0x400_0000
  {
    RootBelow(X, 0x400_0000);
    ISqrtBounds(X);
    hide ISqrt;
    if ISqrt(X) < 0x200_0000 {
      SquareMono(ISqrt(X) + 1, 0x200_0000);
    }
  }

  /** The reading of the final root and remainder. */
  function FinalReading(exp: int, Q: int, R: int): Norm {
    HandedOver(exp, Q / 4 % SIG_LIMIT, Q / 2 % 2 == 1, Q % 2 == 1, R != 0)
  }

  /** The root registers hand over exactly what the reference normalization computes; never a tie. */
  lemma SqrtReading(e: int, mant: int)
    requires OnGrid(e, mant)
    ensures Magnitude(e, mant) > 0.0
    ensures var X := InitialRadicand(e, mant);
            X >= 0 &&
            var Q := ISqrt(X);
            0x200_0000 <= Q < 0x400_0000 &&
            SqrtNormalize(Magnitude(e, mant)) == FinalReading(e / 2, Q, X - Square(Q)) &&
            FinalReading(e / 2, Q, X - Square(Q)).cls != Tie
  {
    InitialRadicandIs(e, mant);
    var X, n := InitialRadicand(e, mant), SqrtRadicand(e, mant);
    SqrtScaledIntegral(e, mant);
    RootOfSixteenfold(n, ISqrt(X));
    RootWindow(X);
    hide ISqrt, Magnitude, Exp2, SqrtScaled, LeadingExponent, SqrtClass, Square, InitialRadicand, SqrtRadicand;
    var Q := ISqrt(X);
    assert Q / 4 % SIG_LIMIT == Q / 4;
    assert SqrtScaled(Magnitude(e, mant), e / 2).Floor == n;
  }

  // ---- the unit ----

  predicate Iterates(a: int) {
    Decode(a).Finite? && !SignOf(a)
  }

  /** The start cycle's cascade of special cases. */
  function SpecialCase(a: int): Packed {
    if ExpOf(a) == 255 && FracOf(a) != 0 then
      Packed(CANONICAL_NAN, NO_FLAGS.(nv := FracOf(a) / 0x40_0000 % 2 == 0))
    else if ExpOf(a) == 0 then Packed(a, NO_FLAGS)
    else if SignOf(a) then Packed(CANONICAL_NAN, INVALID)
    else Packed(a, NO_FLAGS)
  }

  lemma SpecialAnswers(a: int, rm: int)
    ensures Iterates(a) <==> ExpOf(a) != 255 && ExpOf(a) != 0 && !SignOf(a)
    ensures Iterates(a) ==>
      Decode(a) == Finite(false, ExpOf(a) - 127, MIN_SIG + FracOf(a)) && OnGrid(Decode(a).e, Decode(a).mant) &&
      -126 <= Decode(a).e <= 127
    ensures !Iterates(a) ==> SqrtSpec(a, rm) == SpecialCase(a)
  {
  }

  /** Rounding the final reading answers the request, flags included. */
  lemma FinalAnswers(a: int, rm: int)
    requires Iterates(a)
    ensures var X := InitialRadicand(Decode(a).e, Decode(a).mant);
            X >= 0 &&
            var Q := ISqrt(X);
            RoundAndPack(false, Decode(a).e / 2, Q / 4 % SIG_LIMIT, Q / 2 % 2 == 1, Q % 2 == 1, X != Square(Q), rm)
              == SqrtSpec(a, rm)
  {
    hide PackRounded, SqrtNormalize, Magnitude, ISqrt, Square, RoundAndPack, InitialRadicand;
    SpecialAnswers(a, rm);
    var fa := Decode(a);
    SqrtReading(fa.e, fa.mant);
    var X := InitialRadicand(fa.e, fa.mant);
    var Q := ISqrt(X);
    assert SqrtSpec(a, rm) == PackRounded(false, SqrtNormalize(Magnitude(fa.e, fa.mant)), rm);
    hide Decode, SqrtSpec;
    assert Q / 4 % SIG_LIMIT == Q / 4;
    RoundAndPackInRange(false, fa.e / 2, Q / 4 % SIG_LIMIT, Q / 2 % 2 == 1, Q % 2 == 1, X != Square(Q), rm);
  }

  class FSqrt {
    var busy: bool
    var done: bool
    var result: int
    var flags: Flags
    var rad: int
    var R: int
    var Qroot: int
    var count: int
    var resultExp: int

    // The request being worked on or just answered, and the rounding mode it was answered in.
    ghost var a: int
    ghost var rm: int

    ghost predicate Valid()
      reads this
    {
      !(busy && done) && (busy ==> InFlight()) && (done ==> Packed(result, flags) == SqrtSpec(a, rm))
    }

    ghost predicate InFlight()
      reads this
    {
      Iterates(a) && 0 <= count < ROOT_BITS && flags == NO_FLAGS && resultExp == Decode(a).e / 2 &&
      var X := InitialRadicand(Decode(a).e, Decode(a).mant);
      0 <= X < RAD_LIMIT && SqrtState(R, Qroot, rad) == SqrtRegs(X, count)
    }

    /** Reset. */
    constructor ()
      ensures Valid() && !busy && !done
    {
      busy, done, result, flags := false, false, 0, NO_FLAGS;
      rad, R, Qroot, count, resultExp := 0, 0, 0, 0, 0;
      a, rm := 0, 0;
    }

    /**
      One clock edge.  The rounding mode is sampled on the edge that produces the answer;
      `Valid` says that whenever `done` is up the outputs are the reference's bits and flags.
     */
    method Clock(start: bool, rmIn: int, x: int)
      requires Valid()
      modifies this
      ensures Valid()
      ensures old(busy) ==>
        a == old(a) && done == !busy && busy == (old(count) != ROOT_BITS - 1) &&
        (busy ==> count == old(count) + 1) && (done ==> rm == rmIn)
      ensures !old(busy) && start && !old(done) ==>
        a == x && busy == Iterates(x) && done == !busy && (busy ==> count == 0) && (done ==> rm == rmIn)
      ensures !old(busy) && !(start && !old(done)) ==>
        !busy && !done && result == old(result) && flags == old(flags)
    {
      if start && !busy && !done {
        Take(rmIn, x);
      } else if busy {
        Advance(rmIn);
      } else {
        done := false;
      }
    }

    method Take(rmIn: int, x: int)
      requires Valid() && !busy && !done
      modifies this
      ensures Valid() && a == x && busy == Iterates(x) && done == !busy
      ensures (busy ==> count == 0) && (done ==> rm == rmIn)
    {
      SpecialAnswers(x, rmIn);
      hide Decode, SqrtSpec, SpecialCase, SqrtRegs, Iterates, ExpOf, FracOf, SignOf;
      a, rm := x, rmIn;
      if !(ExpOf(x) != 255 && ExpOf(x) != 0 && !SignOf(x)) {
        var p := SpecialCase(x);
        done, result, flags := true, p.bits, p.flags;
      } else {
        flags, busy, count := NO_FLAGS, true, 0;
        var e := ExpOf(x) - 127;
        if e % 2 == 0 {
          rad, resultExp := (MIN_SIG + FracOf(x)) * 2 * 0x400_0000, e / 2;
        } else {
          rad, resultExp := (MIN_SIG + FracOf(x)) * 4 * 0x400_0000, (e - 1) / 2;
        }
        R, Qroot := 0, 0;
        InitialRadicandIs(e, MIN_SIG + FracOf(x));
        SqrtRegsEnds(rad);
      }
    }

    method Advance(rmIn: int)
      requires Valid() && busy
      modifies this
      ensures Valid() && a == old(a) && done == !busy && busy == (old(count) != ROOT_BITS - 1)
      ensures (busy ==> count == old(count) + 1) && (done ==> rm == rmIn)
    {
      hide Decode, SqrtSpec, SqrtRegs, SqrtStep, RoundAndPack, InitialRadicand, ISqrt, Square;
      ghost var X := InitialRadicand(Decode(a).e, Decode(a).mant);
      SqrtStepAdvances(X, count);
      var next := SqrtStep(SqrtState(R, Qroot, rad));
      R, Qroot, rad := next.R, next.Q, next.rad;
      if count == ROOT_BITS - 1 {
        busy, done, rm := false, true, rmIn;
        SqrtRegsEnds(X);
        FinalAnswers(a, rmIn);
        var p := RoundAndPack(false, resultExp, Qroot / 4 % SIG_LIMIT, Qroot / 2 % 2 == 1, Qroot % 2 == 1, R != 0, rmIn);
        RoundAndPackFlags(false, resultExp, Qroot / 4 % SIG_LIMIT, Qroot / 2 % 2 == 1, Qroot % 2 == 1, R != 0, rmIn);
        result, flags := p.bits, flags.(ov := p.flags.ov, uf := p.flags.uf, nx := p.flags.nx);
      }
      count := (count + 1) % 32;
    }
  }

  /** The caller's view: operand and mode held until `done`; 26 busy steps for a positive finite operand. */
  method SquareRoot(u: FSqrt, a: int, rm: int) returns (result: int, flags: Flags, cycles: nat)
    requires u.Valid() && !u.busy && !u.done
    modifies u
    ensures u.Valid() && !u.busy && !u.done
    ensures Packed(result, flags) == SqrtSpec(a, rm)
    ensures cycles == if Iterates(a) then ROOT_BITS + 1 else 1
  {
    hide SqrtSpec, Iterates;
    u.Clock(true, rm, a);
    cycles := 1;
    while !u.done
      invariant u.Valid() && u.a == a && u.busy == !u.done
      invariant u.busy ==> cycles == u.count + 1 && Iterates(a)
      invariant u.done ==> u.rm == rm && cycles == if Iterates(a) then ROOT_BITS + 1 else 1
      decreases if u.done then 0 else ROOT_BITS - u.count
    {
      u.Clock(true, rm, a);
      cycles := cycles + 1;
    }
    result, flags := u.result, u.flags;
    u.Clock(true, rm, a);
  }
}
