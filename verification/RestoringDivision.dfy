/**
  The shift-subtract recurrence shared by design/Divider.v and design/FDivider.v.
  A w-bit register Q starts as the dividend N; each step shifts {R, Q} left by one and
  subtracts the divisor from R when it fits, recording a quotient bit in Q's low end.
 */
module RestoringDivision {
  import opened Arithmetic
  import opened PowersOfTwo

  datatype Regs = Regs(R: int, Q: int)

  /** One clock of the recurrence; R keeps only its low `rBits - 1` bits across the shift. */
  function DivStep(s: Regs, D: int, w: nat, rBits: nat): Regs
    requires w > 0 && rBits > 0
  {
    var shifted := s.R % Pow2(rBits - 1) * 2 + s.Q / Pow2(w - 1);
    var kept := s.Q % Pow2(w - 1) * 2;
    if shifted >= D then Regs(shifted - D, kept + 1) else Regs(shifted, kept)
  }

  /**
    The registers after k steps: R and the low k bits of Q are the remainder and quotient of
    the top k bits of N, and the other bits of Q are the low bits of N still to come.
   */
  function DivRegs(N: int, D: int, w: nat, k: nat): Regs
    requires D > 0 && k <= w
  {
    var hi, lo := N / Pow2(w - k), N % Pow2(w - k);
    Regs(hi % D, lo * Pow2(k) + hi / D)
  }

  lemma SplitTop(n: int, W: int)
    requires W > 0 && 0 <= n
    ensures var lo := n % (2 * W);
            0 <= lo / W <= 1 && n / W == 2 * (n / (2 * W)) + lo / W && n % W == lo % W
  {
    var hi, lo := n / (2 * W), n % (2 * W);
    assert n == hi * (2 * W) + lo;
    if lo < W {
      DivModUnique(lo, W, 0, lo);
      DivModUnique(n, W, 2 * hi, lo);
    } else {
      DivModUnique(lo, W, 1, lo - W);
      assert (2 * hi + 1) * W == hi * (2 * W) + W;
      DivModUnique(n, W, 2 * hi + 1, lo - W);
    }
  }

  lemma SplitQuotient(lo: int, P: int, q: int, W: int)
    requires W > 0 && P > 0 && 0 <= q < P && 0 <= lo
    ensures W * P > 0
    ensures (lo * P + q) / (W * P) == lo / W
    ensures (lo * P + q) % (W * P) == lo % W * P + q
  {
    var b, l := lo / W, lo % W;
    assert lo == b * W + l;
    assert lo * P == b * (W * P) + l * P by {
      assert (b * W) * P == b * (W * P);
    }
    assert l * P + q < W * P by {
      assert (l + 1) * P <= W * P;
    }
    assert 0 <= l * P;
    DivModUnique(lo * P + q, W * P, b, l * P + q);
  }

  lemma QuotientStep(hi: int, b: int, D: int)
    requires D > 0 && 0 <= b <= 1
    ensures var s := 2 * (hi % D) + b;
            if s >= D then (2 * hi + b) / D == 2 * (hi / D) + 1 && (2 * hi + b) % D == s - D
            else (2 * hi + b) / D == 2 * (hi / D) && (2 * hi + b) % D == s
  {
    var q, r := hi / D, hi % D;
    assert hi == q * D + r;
    var s := 2 * r + b;
    if s >= D {
      assert (2 * q + 1) * D == 2 * (q * D) + D;
      DivModUnique(2 * hi + b, D, 2 * q + 1, s - D);
    } else {
      assert (2 * q) * D == 2 * (q * D);
      DivModUnique(2 * hi + b, D, 2 * q, s);
    }
  }

  lemma QuotientBelow(hi: int, D: int, P: int)
    requires D > 0 && 0 <= hi < P
    ensures 0 <= hi / D < P && 0 <= hi % D <= hi && hi % D < D
  {
    var q, r := hi / D, hi % D;
    assert hi == q * D + r;
    if q < 0 {
      ProductMono(q, -1, D);
    } else {
      ProductMono(1, D, q);
    }
  }

  lemma TopBelow(N: int, a: nat, k: nat)
    requires 0 <= N < Pow2(a + k)
    ensures 0 <= N / Pow2(a) < Pow2(k)
  {
    Pow2Add(a, k);
    var A, K := Pow2(a), Pow2(k);
    hide Pow2;
    QuotientInRange(N, A, K);
  }

  /**
    The recurrence invariant.  No bit of R is lost in the shift as long as the register is
    wide enough for the divisor or for the k bits brought down so far.
   */
  lemma DivStepAdvances(N: int, D: int, w: nat, k: nat, rBits: nat)
    requires D > 0 && k < w && rBits > 0 && 0 <= N < Pow2(w)
    requires D <= Pow2(rBits - 1) || k <= rBits - 1
    ensures DivStep(DivRegs(N, D, w, k), D, w, rBits) == DivRegs(N, D, w, k + 1)
  {
    var W, P := Pow2(w - k - 1), Pow2(k);
    assert Pow2(w - k) == 2 * W && Pow2(k + 1) == 2 * P;
    assert N / (2 * W) < P && 0 <= N / (2 * W) by { TopBelow(N, w - k, k); }
    assert Pow2(w - 1) == W * P by { Pow2Add(w - k - 1, k); }
    if k <= rBits - 1 {
      Pow2Mono(k, rBits - 1);
    }
    hide Pow2;
    StepArithmetic(N, D, W, P, Pow2(rBits - 1));
  }

  lemma StepArithmetic(N: int, D: int, W: int, P: int, M: int)
    requires D > 0 && W > 0 && P > 0 && M > 0 && 0 <= N
    requires 0 <= N / (2 * W) < P
    requires D <= M || P <= M
    ensures W * P > 0
    ensures var hi, lo := N / (2 * W), N % (2 * W);
            var R, Q := hi % D, lo * P + hi / D;
            var shifted := R % M * 2 + Q / (W * P);
            var kept := Q % (W * P) * 2;
            var hi', lo' := N / W, N % W;
            (if shifted >= D then Regs(shifted - D, kept + 1) else Regs(shifted, kept))
              == Regs(hi' % D, lo' * (2 * P) + hi' / D)
  {
    var hi, lo := N / (2 * W), N % (2 * W);
    QuotientBelow(hi, D, P);
    DivModUnique(hi % D, M, 0, hi % D);
    SplitTop(N, W);
    SplitQuotient(lo, P, hi / D, W);
    QuotientStep(hi, lo / W, D);
    StepFinishes(lo % W, P, hi / D);
  }

  lemma StepFinishes(l: int, P: int, q: int)
    ensures (l * P + q) * 2 == l * (2 * P) + 2 * q
  {
  }

  /** After w steps the registers hold the quotient and the remainder. */
  lemma DivRegsFinal(N: int, D: int, w: nat)
    requires D > 0
    ensures DivRegs(N, D, w, w) == Regs(N % D, N / D)
  {
    assert Pow2(0) == 1;
    assert N / 1 == N && N % 1 == 0;
  }

  lemma DivRegsInitial(N: int, D: int, w: nat)
    requires D > 0 && 0 <= N < Pow2(w)
    ensures DivRegs(N, D, w, 0) == Regs(0, N)
  {
    assert N / Pow2(w) == 0 && N % Pow2(w) == N by { DivModUnique(N, Pow2(w), 0, N); }
    DivModUnique(0, D, 0, 0);
  }
}
