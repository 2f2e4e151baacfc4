/**
  design/fp_round.vh: the rounding function shared by the floating-point units, at its
  register widths, against the rounding of the reference model.
 */
module FpRound {
  import opened PowersOfTwo
  import opened F32

  /** A value kept in a 10-bit signed register. */
  function Wrap10(x: int): int {
    (x + 512) % 1024 - 512
  }

  /** The rounding decision on guard, round and sticky bits. */
  predicate RtlRoundsUp(sign: bool, lsb: bool, g: bool, r: bool, st: bool, rm: int) {
    if rm == RM_RTZ then false
    else if rm == RM_RDN then sign && (g || r || st)
    else if rm == RM_RUP then !sign && (g || r || st)
    else if rm == RM_RMM then g
    else g && (r || st || lsb)
  }

  /** The packing tail: the 25-bit significand `s` has been rounded, `nx` is the inexact bit. */
  function RtlPack(sign: bool, e: int, s: int, nx: bool, rm: int): Packed {
    if e > 127 then
      Packed(if rm == RM_RTZ || (rm == RM_RDN && !sign) || (rm == RM_RUP && sign)
             then SignBit(sign) + 0xFE * MIN_SIG + 0x7F_FFFF
             else SignBit(sign) + 0xFF * MIN_SIG,
             Flags(false, false, true, false, true))
    else if e < -126 || s % SIG_LIMIT == 0 then
      Packed(SignBit(sign), Flags(false, false, false, e < -126 && s % SIG_LIMIT != 0, nx))
    else
      Packed(SignBit(sign) + (e % 256 + 127) % 256 * MIN_SIG + s % MIN_SIG,
             Flags(false, false, false, false, nx))
  }

  /** Rounding and packing once the carry has been shifted in. */
  function RoundTail(sign: bool, e: int, s: int, g: bool, r: bool, st: bool, rm: int): Packed {
    var up := RtlRoundsUp(sign, s % 2 == 1, g, r, st, rm);
    var s1 := if up then (s + 1) % 0x200_0000 else s;
    var carry1 := up && s1 / SIG_LIMIT % 2 == 1;
    RtlPack(sign, if carry1 then Wrap10(e + 1) else e, if carry1 then s1 / 2 else s1, g || r || st, rm)
  }

  /** round_and_pack: `sig` is {carry, leading one, 23 fraction bits}. */
  function RoundAndPack(sign: bool, exp: int, sig: int, guard: bool, round: bool, sticky: bool, rm: int): Packed {
    var carry := sig / SIG_LIMIT % 2 == 1;
    var st := if carry then sticky || round else sticky;
    var r := if carry then guard else round;
    var g := if carry then sig % 2 == 1 else guard;
    RoundTail(sign, if carry then Wrap10(exp + 1) else exp, if carry then sig / 2 else sig, g, r, st, rm)
  }

  /** Guard, round and sticky name the class of the discarded part. */
  function ClassOf(g: bool, rest: bool): Class {
    if g then (if rest then Above else Tie) else if rest then Below else Exact
  }

  /** What the unit hands over, read as a normalized magnitude. */
  function HandedOver(exp: int, sig: int, guard: bool, round: bool, sticky: bool): Norm {
    if sig >= SIG_LIMIT then Norm(exp + 1, sig / 2, ClassOf(sig % 2 == 1, guard || round || sticky))
    else Norm(exp, sig, ClassOf(guard, round || sticky))
  }

  /** What a unit passes to round_and_pack. */
  datatype HandOver = HandOver(exp: int, sig: int, guard: bool, round: bool, sticky: bool)

  function Reading(h: HandOver): Norm {
    HandedOver(h.exp, h.sig, h.guard, h.round, h.sticky)
  }

  predicate ExactUnderflow(n: Norm) {
    n.cls == Exact && n.e < -126
  }

  /** The reference's rounded result before packing. */
  function Rounded(sign: bool, n: Norm, rm: int): Norm {
    Incremented(n, RoundsUp(n.cls, n.sig, sign, rm))
  }

  /** The exponent still fits the register, and a significand that rounded to zero is not packed as a number. */
  predicate Packable(n: Norm) {
    n.e <= 511 && (n.sig != 0 || n.e > 127)
  }

  /** The bits are the reference's, and so are the flags unless the exact result lies below 2^-126. */
  predicate Matches(p: Packed, sign: bool, n: Norm, rm: int) {
    var q := PackRounded(sign, n, rm);
    p.bits == q.bits &&
    (p.flags == q.flags <==> !ExactUnderflow(n)) &&
    (ExactUnderflow(n) ==> q.flags == p.flags.(nx := true))
  }

  /**
    For all register contents, the unit agrees with the reference if and only if the rounded
    exponent still fits the register and the rounded significand is not zero short of overflow:
    past the register's end the unit flushes where the reference overflows, and on a zero, which
    normalized significands never give, it packs zero where the reference packs a power of two.
    The flags agree except in one case: when the exact result lies below 2^-126 the reference
    reports inexact with underflow and the hardware reports underflow alone.
   */
  lemma RoundAndPackMatches(sign: bool, exp: int, sig: int, guard: bool, round: bool, sticky: bool, rm: int)
    requires -512 <= exp <= 511 && 0 <= sig < 2 * SIG_LIMIT
    ensures Matches(RoundAndPack(sign, exp, sig, guard, round, sticky, rm), sign,
                    HandedOver(exp, sig, guard, round, sticky), rm)
        <==> Packable(Rounded(sign, HandedOver(exp, sig, guard, round, sticky), rm))
  {
    hide RoundTail, PackRounded, Matches, Wrap10;
    var carry := sig >= SIG_LIMIT;
    assert carry <==> sig / SIG_LIMIT % 2 == 1;
    var n := HandedOver(exp, sig, guard, round, sticky);
    var g, r, st := if carry then sig % 2 == 1 else guard, if carry then guard else round,
                    if carry then sticky || round else sticky;
    Wrap10Values();
    if Rounded(sign, n, rm).e <= 511 {
      RoundTailMatches(sign, n, g, r, st, rm);
    } else {
      RoundTailFlushes(sign, n, g, r, st, rm);
    }
  }

  /** What the units hand over is far from the register's ends. */
  lemma RoundAndPackInRange(sign: bool, exp: int, sig: int, guard: bool, round: bool, sticky: bool, rm: int)
    requires -512 <= exp <= 509 && 0 < sig < 2 * SIG_LIMIT
    ensures Matches(RoundAndPack(sign, exp, sig, guard, round, sticky, rm), sign,
                    HandedOver(exp, sig, guard, round, sticky), rm)
  {
    hide Matches, RoundAndPack;
    RoundAndPackMatches(sign, exp, sig, guard, round, sticky, rm);
  }

  lemma Wrap10Values()
    ensures forall x :: -512 <= x <= 511 ==> Wrap10(x) == x
    ensures Wrap10(512) == -512
  {
  }

  lemma RoundAndPackFlags(sign: bool, exp: int, sig: int, guard: bool, round: bool, sticky: bool, rm: int)
    ensures var p := RoundAndPack(sign, exp, sig, guard, round, sticky, rm);
            !p.flags.nv && !p.flags.dz
  {
  }

  /** The packing tail alone. */
  lemma PackMatches(sign: bool, e: int, sig: int, nx: bool, rm: int)
    requires -512 <= e <= 511 && 0 < sig < SIG_LIMIT
    ensures var p := RtlPack(sign, e, sig, nx, rm);
            var q := PackGrid(sign, e, sig, nx, rm);
            p.bits == q.bits &&
            p.flags == if !nx && e < -126 then q.flags.(nx := false) else q.flags
  {
    if -126 <= e <= 127 {
      assert (e % 256 + 127) % 256 == e + 127;
    }
  }

  /** The tail packs the incremented significand, its exponent moved on when the increment carried. */
  lemma RoundTailIs(sign: bool, e: int, n: Norm, g: bool, r: bool, st: bool, rm: int)
    requires 0 <= n.sig < SIG_LIMIT && n.cls == ClassOf(g, r || st)
    ensures var k := Incremented(n, RoundsUp(n.cls, n.sig, sign, rm));
            RoundTail(sign, e, n.sig, g, r, st, rm)
              == RtlPack(sign, if k.e == n.e then e else Wrap10(e + 1), k.sig, n.cls != Exact, rm)
  {
    hide RtlPack, Wrap10;
    var up := RtlRoundsUp(sign, n.sig % 2 == 1, g, r, st, rm);
    assert up == RoundsUp(n.cls, n.sig, sign, rm);
    hide RtlRoundsUp, RoundsUp;
    CarryOut(n.sig);
  }

  lemma CarryOut(sig: int)
    requires 0 <= sig < SIG_LIMIT
    ensures (sig + 1) % 0x200_0000 == sig + 1
    ensures (sig + 1) / SIG_LIMIT % 2 == (if sig + 1 == SIG_LIMIT then 1 else 0)
  {
  }

  lemma IncrementedShape(n: Norm, up: bool)
    requires 0 <= n.sig < SIG_LIMIT
    ensures var k := Incremented(n, up);
            0 <= k.sig < SIG_LIMIT && n.e <= k.e <= n.e + 1 && k.cls == n.cls
  {
  }

  lemma RoundTailMatches(sign: bool, n: Norm, g: bool, r: bool, st: bool, rm: int)
    requires -512 <= n.e && Rounded(sign, n, rm).e <= 511
    requires 0 <= n.sig < SIG_LIMIT && n.cls == ClassOf(g, r || st)
    ensures Matches(RoundTail(sign, n.e, n.sig, g, r, st, rm), sign, n, rm) <==> Packable(Rounded(sign, n, rm))
  {
    hide RoundTail, RtlPack, RoundsUp, SignBit, PackInf, PackMaxFinite, PackZero, Wrap10, ClassOf;
    var up := RoundsUp(n.cls, n.sig, sign, rm);
    var k := Incremented(n, up);
    RoundTailIs(sign, n.e, n, g, r, st, rm);
    IncrementedShape(n, up);
    Wrap10Values();
    if n.cls == Exact {
      ExactStays(sign, n, rm);
    }
    hide Incremented;
    if k.sig > 0 {
      PackMatches(sign, k.e, k.sig, n.cls != Exact, rm);
    } else {
      ZeroPacks(sign, k.e, n.cls != Exact, rm);
    }
  }

  /** A zero significand is packed alike only when it overflows. */
  lemma ZeroPacks(sign: bool, e: int, nx: bool, rm: int)
    requires -512 <= e <= 511
    ensures e > 127 ==> RtlPack(sign, e, 0, nx, rm) == PackGrid(sign, e, 0, nx, rm)
    ensures -126 <= e <= 127 ==> RtlPack(sign, e, 0, nx, rm).bits != PackGrid(sign, e, 0, nx, rm).bits
    ensures e < -126 ==> !RtlPack(sign, e, 0, nx, rm).flags.uf && PackGrid(sign, e, 0, nx, rm).flags.uf
  {
  }

  lemma ExactStays(sign: bool, n: Norm, rm: int)
    requires n.cls == Exact
    ensures !RoundsUp(n.cls, n.sig, sign, rm)
  {
  }

  /** A rounded exponent of 512 or 513 wraps to the register's low end. */
  lemma RoundTailFlushes(sign: bool, n: Norm, g: bool, r: bool, st: bool, rm: int)
    requires n.e <= 512 && Rounded(sign, n, rm).e > 511
    requires 0 <= n.sig < SIG_LIMIT && n.cls == ClassOf(g, r || st)
    ensures !Matches(RoundTail(sign, Wrap10(n.e), n.sig, g, r, st, rm), sign, n, rm)
  {
    hide RoundTail, RoundsUp, ClassOf, Wrap10;
    RoundTailIs(sign, Wrap10(n.e), n, g, r, st, rm);
    IncrementedShape(n, RoundsUp(n.cls, n.sig, sign, rm));
    hide Incremented;
    Wrap10Values();
  }

  // ---- reading a truncated value through guard, round and sticky ----

  lemma ScaledCompare(t: real, c: real, W: real, p: real)
    requires W > 0.0 && p == t * W
    ensures p < c * W <==> t < c
    ensures p == c * W <==> t == c
  {
    if t < c {
      assert (c - t) * W > 0.0;
    } else if t > c {
      assert (t - c) * W > 0.0;
    }
  }

  lemma PartClass(t: real, p: real, M: real)
    requires M > 0.0 && t * (2.0 * M) == p
    ensures p == 0.0 <==> t == 0.0
    ensures p < M <==> t < 0.5
    ensures p == M <==> t == 0.5
    ensures p < 2.0 * M <==> t < 1.0
    ensures p > 0.0 <==> t > 0.0
  {
    var W := 2.0 * M;
    ScaledCompare(t, 0.5, W, p);
    ScaledCompare(t, 1.0, W, p);
    ScaledCompare(t, 0.0, W, p);
  }

  /**
    `Q` is the integer part of `x` and `y` is `x` scaled down by 2M.  Keeping the bits of Q
    from weight 2M up and one guard bit of weight M, with everything below (and the fraction
    of x) in `rest`, names exactly the class of what was dropped from y.
   */
  lemma GuardReading(x: real, y: real, Q: int, M: int)
    requires M >= 1 && 0 <= Q && Q as real <= x < Q as real + 1.0
    requires Times(y, 2.0 * M as real) == x
    ensures var guard := Q / M % 2 == 1;
            var rest := Q % M != 0 || x != Q as real;
            InClass(y - (Q / M / 2) as real, ClassOf(guard, rest))
  {
    var h, l := Q / M, Q % M;
    var sig, g := h / 2, h % 2;
    assert Q == h * M + l;
    GuardSplit(Q, M, h, l, sig, g);
    hide InClass, ClassOf;
    var f := x - Q as real;
    var low := (if g == 1 then M else 0) + l;
    PartRemains(x, y, sig as real, M as real, low as real + f);
    PartClass(y - sig as real, low as real + f, M as real);
    GuardClass(y - sig as real, M, g == 1, l, f);
  }

  lemma GuardSplit(Q: int, M: int, h: int, l: int, sig: int, g: int)
    requires Q == h * M + l && h == 2 * sig + g && (g == 0 || g == 1)
    ensures Q as real == sig as real * (2.0 * M as real) + ((if g == 1 then M else 0) + l) as real
  {
    assert h * M == 2 * (sig * M) + g * M;
    assert (sig * M) as real == sig as real * M as real;
  }

  lemma PartRemains(x: real, y: real, s: real, M: real, p: real)
    requires y * (2.0 * M) == x && x == s * (2.0 * M) + p
    ensures (y - s) * (2.0 * M) == p
  {
  }

  lemma GuardClass(t: real, M: int, g: bool, l: int, f: real)
    requires 0 <= l < M && 0.0 <= f < 1.0
    requires var p := ((if g then M else 0) + l) as real + f;
             (p == 0.0 <==> t == 0.0) && (p < M as real <==> t < 0.5) && (p == M as real <==> t == 0.5) &&
             (p < 2.0 * M as real <==> t < 1.0) && (p > 0.0 <==> t > 0.0)
    ensures InClass(t, ClassOf(g, l != 0 || f != 0.0))
  {
    assert l as real + f < M as real;
  }

  // ---- the operand classifiers every unit carries ----

  predicate IsInf(x: int) {
    ExpOf(x) == 255 && FracOf(x) == 0
  }

  predicate IsNan(x: int) {
    ExpOf(x) == 255 && FracOf(x) != 0
  }

  predicate IsSnan(x: int) {
    IsNan(x) && FracOf(x) / 0x40_0000 % 2 == 0
  }

  /** Zero test on the exponent field alone, so a subnormal encoding counts as zero. */
  predicate IsZero(x: int) {
    ExpOf(x) == 0
  }

  /** The classifiers split bit patterns exactly as the reference decoder does. */
  lemma ClassifiersDecode(x: int)
    ensures IsNan(x) <==> Decode(x).Nan?
    ensures IsSnan(x) <==> Signaling(Decode(x))
    ensures IsInf(x) <==> Decode(x).Inf?
    ensures IsZero(x) <==> Decode(x).Zero?
    ensures !IsNan(x) && !IsInf(x) && !IsZero(x) <==> Decode(x).Finite?
    ensures Decode(x).Finite? ==>
      Decode(x) == Finite(SignOf(x), ExpOf(x) - 127, MIN_SIG + FracOf(x)) && OnGrid(Decode(x).e, Decode(x).mant) &&
      -126 <= Decode(x).e <= 127
  {
  }
}
