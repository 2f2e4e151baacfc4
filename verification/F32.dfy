/**
  Single-precision values and the one rounding step of the reference model
  (sim/tools/iss.py).  A magnitude is an exact real; `Normalize` splits it into
  an exponent, a 24-bit kept significand and the class of the discarded part,
  and `PackRounded` turns that triple into bits and flags.
 */
module F32 {
  import opened PowersOfTwo

  const RM_RNE := 0
  const RM_RTZ := 1
  const RM_RDN := 2
  const RM_RUP := 3
  const RM_RMM := 4

  const CANONICAL_NAN := 0x7FC0_0000
  const MIN_SIG := 0x80_0000
  const SIG_LIMIT := 0x100_0000

  /** Where the discarded part of a significand lies relative to one half. */
  datatype Class = Exact | Below | Tie | Above

  datatype Norm = Norm(e: int, sig: int, cls: Class)

  /** The exception flags, most significant first as in fcsr. */
  datatype Flags = Flags(nv: bool, dz: bool, ov: bool, uf: bool, nx: bool)

  datatype Packed = Packed(bits: int, flags: Flags)

  const NO_FLAGS := Flags(false, false, false, false, false)
  const INVALID := Flags(true, false, false, false, false)

  function SignBit(sign: bool): int {
    if sign then 0x8000_0000 else 0
  }

  // ---- rounding a normalized magnitude ----

  predicate RoundsUp(cls: Class, sig: int, sign: bool, rm: int) {
    if cls == Exact then false
    else if rm == RM_RTZ then false
    else if rm == RM_RDN then sign
    else if rm == RM_RUP then !sign
    else if rm == RM_RMM then cls != Below
    else if cls == Above then true
    else if cls == Below then false
    else sig % 2 == 1
  }

  predicate OverflowsToMaxFinite(sign: bool, rm: int) {
    rm == RM_RTZ || (rm == RM_RDN && !sign) || (rm == RM_RUP && sign)
  }

  function PackZero(sign: bool): int {
    SignBit(sign)
  }

  function PackInf(sign: bool): int {
    SignBit(sign) + 0x7F80_0000
  }

  function PackMaxFinite(sign: bool): int {
    SignBit(sign) + 0x7F7F_FFFF
  }

  /** The significand and exponent after the increment, renormalized. */
  function Incremented(n: Norm, up: bool): Norm {
    if !up then n
    else if n.sig + 1 == SIG_LIMIT then Norm(n.e + 1, MIN_SIG, n.cls)
    else n.(sig := n.sig + 1)
  }

  /** The bits of a rounded grid point, with overflow and flush applied. */
  function PackGrid(sign: bool, e: int, sig: int, inexact: bool, rm: int): Packed {
    if e > 127 then
      Packed(if OverflowsToMaxFinite(sign, rm) then PackMaxFinite(sign) else PackInf(sign),
             Flags(false, false, true, false, true))
    else if e < -126 then
      Packed(PackZero(sign), Flags(false, false, false, true, true))
    else
      Packed(SignBit(sign) + (e + 127) * MIN_SIG + sig % MIN_SIG,
             Flags(false, false, false, false, inexact))
  }

  function PackRounded(sign: bool, n: Norm, rm: int): Packed {
    var r := Incremented(n, RoundsUp(n.cls, n.sig, sign, rm));
    PackGrid(sign, r.e, r.sig, n.cls != Exact, rm)
  }

  // ---- normalizing an exact magnitude ----

  predicate InClass(r: real, cls: Class) {
    match cls
    case Exact => r == 0.0
    case Below => 0.0 < r < 0.5
    case Tie => r == 0.5
    case Above => 0.5 < r < 1.0
  }

  /** `n` is the reading of `m` as (sig + r) * 2^(e - 23) with a 24-bit sig and 0 <= r < 1. */
  ghost predicate IsNorm(m: real, n: Norm) {
    MIN_SIG <= n.sig < SIG_LIMIT &&
    InClass(m * Exp2(23 - n.e) - n.sig as real, n.cls)
  }

  function Classify(r: real): (cls: Class)
    requires 0.0 <= r < 1.0
    ensures InClass(r, cls)
  {
    if r == 0.0 then Exact else if r < 0.5 then Below else if r > 0.5 then Above else Tie
  }

  function FloorLog2Up(m: real): (e: nat)
    requires m >= 1.0
    ensures Exp2(e) <= m < Exp2(e + 1)
    decreases m.Floor
  {
    if m < 2.0 then 0 else FloorLog2Up(m / 2.0) + 1
  }

  function FloorLog2Down(m: real): (e: int)
    requires 0.0 < m < 1.0
    ensures e < 0 && Exp2(e) <= m < Exp2(e + 1)
    decreases (1.0 / m).Floor
  {
    if m >= 0.5 then -1 else HalvedReciprocal(m); FloorLog2Down(m * 2.0) - 1
  }

  lemma HalvedReciprocal(m: real)
    requires 0.0 < m < 0.5
    ensures (1.0 / (m * 2.0)).Floor < (1.0 / m).Floor
    ensures (1.0 / (m * 2.0)).Floor >= 0
  {
    var x := 1.0 / m;
    assert x * m == 1.0;
    assert x > 2.0;
    var y := 1.0 / (m * 2.0);
    assert y * (m * 2.0) == 1.0;
    assert (y * 2.0) * m == 1.0;
    assert y * 2.0 == x;
  }

  /** The exponent of the binade that holds `m`. */
  function FloorLog2(m: real): (e: int)
    requires m > 0.0
    ensures Exp2(e) <= m < Exp2(e + 1)
  {
    if m >= 1.0 then FloorLog2Up(m) else FloorLog2Down(m)
  }

  lemma ScaleBounds(lo: real, m: real, hi: real, k: real)
    requires k > 0.0
    ensures lo <= m < hi <==> lo * k <= m * k < hi * k
  {
  }

  /** A window times a positive factor, with the scaled ends already known. */
  lemma BinadeArithmetic(lo: real, m: real, hi: real, k: real, a: real, b: real)
    requires k > 0.0 && lo * k == a && hi * k == b
    ensures lo <= m < hi <==> a <= m * k < b
  {
    ScaleBounds(lo, m, hi, k);
  }

  lemma WindowEnds(e: int)
    ensures Exp2(e) * Exp2(23 - e) == MIN_SIG as real
    ensures Exp2(e + 1) * Exp2(23 - e) == SIG_LIMIT as real
  {
    hide Exp2, Pow2;
    Exp2Add(e, 23 - e);
    Exp2Add(e + 1, 23 - e);
    Exp2Nat(23);
    Exp2Nat(24);
    Pow2Literals();
    assert e + 1 + (23 - e) == 24 && e + (23 - e) == 23;
  }

  /** Scaling by 2^(23 - e) maps the binade of exponent e onto the 24-bit significands. */
  lemma BinadeScales(m: real, e: int)
    ensures Exp2(e) <= m < Exp2(e + 1) <==> MIN_SIG as real <= m * Exp2(23 - e) < SIG_LIMIT as real
  {
    hide *;
    WindowEnds(e);
    BinadeArithmetic(Exp2(e), m, Exp2(e + 1), Exp2(23 - e), MIN_SIG as real, SIG_LIMIT as real);
  }

  /** The exact reading of a positive magnitude. */
  function Normalize(m: real): (n: Norm)
    requires m > 0.0
  {
    var e := FloorLog2(m);
    var x := m * Exp2(23 - e);
    Norm(e, x.Floor, Classify(x - x.Floor as real))
  }

  lemma NormalizeReads(m: real)
    requires m > 0.0
    ensures IsNorm(m, Normalize(m))
    ensures Exp2(Normalize(m).e) <= m < Exp2(Normalize(m).e + 1)
  {
    hide Exp2, FloorLog2;
    BinadeScales(m, FloorLog2(m));
  }

  lemma NormFixesBinade(m: real, n: Norm)
    requires IsNorm(m, n)
    ensures Exp2(n.e) <= m < Exp2(n.e + 1)
  {
    hide Exp2;
    BinadeScales(m, n.e);
  }

  lemma BinadeUnique(m: real, e: int, e': int)
    requires Exp2(e) <= m < Exp2(e + 1)
    requires Exp2(e') <= m < Exp2(e' + 1)
    ensures e == e'
  {
    if e < e' {
      Exp2Mono(e + 1, e');
    } else if e' < e {
      Exp2Mono(e' + 1, e);
    }
  }

  /** A magnitude has only one reading, so any way of computing one computes `Normalize`. */
  lemma NormUnique(m: real, n: Norm)
    requires m > 0.0 && IsNorm(m, n)
    ensures n == Normalize(m)
  {
    hide Exp2, FloorLog2;
    NormFixesBinade(m, n);
    NormalizeReads(m);
    var n' := Normalize(m);
    BinadeUnique(m, n.e, n'.e);
    var x := m * Exp2(23 - n.e);
    assert IsNorm(m, n') && InClass(x - n'.sig as real, n'.cls);
    assert -1.0 < n.sig as real - n'.sig as real < 1.0;
    assert n.sig == n'.sig;
  }

  // ---- decoding ----

  /**
    What a bit pattern denotes to the arithmetic: subnormal encodings are read as
    zero, and a finite nonzero value is mant * 2^(e - 23) with 2^23 <= mant < 2^24.
   */
  datatype Float =
    | Nan(signaling: bool)
    | Inf(sign: bool)
    | Zero(sign: bool)
    | Finite(sign: bool, e: int, mant: int)

  predicate IsBits(bits: int) {
    0 <= bits < 0x1_0000_0000
  }

  function SignOf(bits: int): bool {
    bits / 0x8000_0000 % 2 == 1
  }

  function ExpOf(bits: int): int {
    bits / MIN_SIG % 256
  }

  function FracOf(bits: int): int {
    bits % MIN_SIG
  }

  function Decode(bits: int): Float {
    if ExpOf(bits) == 255 then
      if FracOf(bits) == 0 then Inf(SignOf(bits)) else Nan(FracOf(bits) / 0x40_0000 % 2 == 0)
    else if ExpOf(bits) == 0 then Zero(SignOf(bits))
    else Finite(SignOf(bits), ExpOf(bits) - 127, MIN_SIG + FracOf(bits))
  }

  /** A 24-bit significand at any exponent: the grid that rounding lands on. */
  predicate OnGrid(e: int, sig: int) {
    MIN_SIG <= sig < SIG_LIMIT
  }

  function Magnitude(e: int, sig: int): real {
    sig as real * Exp2(e - 23)
  }

  lemma MagnitudeProduct(e: int, sig: int)
    ensures Magnitude(e, sig) == Times(sig as real, Exp2(e - 23))
  {
  }

  lemma MagnitudePositive(e: int, sig: int)
    requires OnGrid(e, sig)
    ensures Magnitude(e, sig) > 0.0
  {
    hide Exp2;
  }

  function Mag(f: Float): (m: real)
    requires f.Finite? && OnGrid(f.e, f.mant)
    ensures m > 0.0
  {
    MagnitudePositive(f.e, f.mant);
    Magnitude(f.e, f.mant)
  }

  lemma DecodedOnGrid(bits: int)
    requires Decode(bits).Finite?
    ensures OnGrid(Decode(bits).e, Decode(bits).mant)
    ensures -126 <= Decode(bits).e <= 127
  {
  }

  // ---- operations of the reference model ----

  function RoundFromFraction(sign: bool, m: real, rm: int): Packed
    requires m > 0.0
  {
    PackRounded(sign, Normalize(m), rm)
  }

  function Signaling(f: Float): bool {
    f.Nan? && f.signaling
  }

  function NanResult(signaling: bool): Packed {
    Packed(CANONICAL_NAN, NO_FLAGS.(nv := signaling))
  }

  function DivSpec(a: int, b: int, rm: int): Packed {
    var fa, fb := Decode(a), Decode(b);
    var sign := SignOf(a) != SignOf(b);
    if fa.Nan? || fb.Nan? then NanResult(Signaling(fa) || Signaling(fb))
    else if fa.Inf? && fb.Inf? then NanResult(true)
    else if fa.Zero? && fb.Zero? then NanResult(true)
    else if fa.Inf? then Packed(PackInf(sign), NO_FLAGS)
    else if fb.Inf? then Packed(PackZero(sign), NO_FLAGS)
    else if fb.Zero? then Packed(PackInf(sign), NO_FLAGS.(dz := true))
    else if fa.Zero? then Packed(PackZero(sign), NO_FLAGS)
    else
      DecodedOnGrid(a);
      DecodedOnGrid(b);
      RoundFromFraction(sign, Mag(fa) / Mag(fb), rm)
  }

  function Signed(sign: bool, m: real): real {
    if sign then -m else m
  }

  /** The sign and rounding of an exact signed total. */
  function RoundTotal(total: real, rm: int): Packed {
    if total == 0.0 then Packed(PackZero(rm == RM_RDN), NO_FLAGS)
    else if total < 0.0 then RoundFromFraction(true, -total, rm)
    else RoundFromFraction(false, total, rm)
  }

  function MaddSpec(a: int, b: int, c: int, rm: int, negProd: bool, negAddend: bool): Packed {
    var fa, fb, fc := Decode(a), Decode(b), Decode(c);
    var signP := (SignOf(a) != SignOf(b)) != negProd;
    var signC := SignOf(c) != negAddend;
    if fa.Nan? || fb.Nan? || fc.Nan? then
      NanResult(Signaling(fa) || Signaling(fb) || Signaling(fc))
    else if (fa.Inf? && fb.Zero?) || (fa.Zero? && fb.Inf?) then NanResult(true)
    else if (fa.Inf? || fb.Inf?) && fc.Inf? && signP != signC then NanResult(true)
    else if fa.Inf? || fb.Inf? then Packed(PackInf(signP), NO_FLAGS)
    else if fc.Inf? then Packed(PackInf(signC), NO_FLAGS)
    else if fa.Zero? || fb.Zero? then
      if !fc.Zero? then Packed(SignBit(signC) + c % 0x8000_0000, NO_FLAGS)
      else if signP == signC then Packed(PackZero(signP), NO_FLAGS)
      else Packed(PackZero(rm == RM_RDN), NO_FLAGS)
    else
      DecodedOnGrid(a);
      DecodedOnGrid(b);
      var product := Signed(signP, Times(Mag(fa), Mag(fb)));
      if fc.Zero? then RoundTotal(product, rm)
      else
        DecodedOnGrid(c);
        RoundTotal(product + Signed(signC, Mag(fc)), rm)
  }
}
