/**
  What the reference rounding means: section 4.3 of IEEE 754-2019 for the five modes, with
  the core's flush of results below 2^-126 and the directed overflow rule; monotonicity in
  the magnitude; and exactness on every normal float.
 */
module F32Rounding {
  import opened PowersOfTwo
  import opened F32
  import opened F32Normalize

  // ---- the grid around a magnitude ----

  /** The magnitude just below (or at) `m` on the 24-bit grid, and the one just above. */
  function Lower(m: real): real
    requires m > 0.0
  {
    Magnitude(Normalize(m).e, Normalize(m).sig)
  }

  function Upper(m: real): real
    requires m > 0.0
  {
    Magnitude(Normalize(m).e, Normalize(m).sig + 1)
  }

  lemma Recompose(m: real, k: real, u: real, s: real, r: real)
    requires k * u == 1.0 && r == m * k - s
    ensures m == s * u + r * u
    ensures (s + 1.0) * u == s * u + u
  {
    CancelFactor(m, k, u);
  }

  lemma ClassPlaces(lo: real, r: real, u: real)
    requires u > 0.0 && 0.0 <= r < 1.0
    ensures lo <= lo + r * u < lo + u
    ensures r == 0.0 <==> r * u == 0.0
    ensures r < 0.5 <==> r * u < u - r * u
    ensures r == 0.5 <==> r * u == u - r * u
  {
    FactorMono(r, 1.0, u);
    if r < 0.5 {
      FactorMono(r + r, 1.0, u);
    } else {
      FactorMono(1.0, r + r, u);
    }
  }

  /** The distances from `m` to its two neighbours, as its class says. */
  predicate Placed(m: real, lo: real, hi: real, cls: Class) {
    lo <= m < hi &&
    match cls
    case Exact => m == lo
    case Below => lo < m && m - lo < hi - m
    case Tie => m - lo == hi - m
    case Above => m - lo > hi - m
  }

  lemma PlacedByArithmetic(m: real, k: real, u: real, s: real, cls: Class)
    requires k * u == 1.0 && u > 0.0 && InClass(m * k - s, cls)
    ensures Placed(m, s * u, (s + 1.0) * u, cls)
  {
    var r := m * k - s;
    Recompose(m, k, u, s, r);
    ClassPlaces(s * u, r, u);
    var lo, ru := s * u, r * u;
    assert m == lo + ru;
  }

  lemma PlacedAt(m: real, n: Norm)
    requires IsNorm(m, n)
    ensures Placed(m, Magnitude(n.e, n.sig), Magnitude(n.e, n.sig + 1), n.cls)
  {
    hide Exp2;
    var k, u, s := Exp2(23 - n.e), Exp2(n.e - 23), n.sig as real;
    assert k * u == 1.0 by {
      Exp2Inverse(23 - n.e);
      assert -(23 - n.e) == n.e - 23;
    }
    PlacedByArithmetic(m, k, u, s, n.cls);
    assert Magnitude(n.e, n.sig) == s * u;
    assert Magnitude(n.e, n.sig + 1) == (s + 1.0) * u;
  }

  lemma Placement(m: real)
    requires m > 0.0
    ensures Placed(m, Lower(m), Upper(m), Normalize(m).cls)
    ensures OnGrid(Normalize(m).e, Normalize(m).sig)
  {
    NormalizeReads(m);
    PlacedAt(m, Normalize(m));
    hide Exp2, Normalize, Magnitude, InClass, Placed;
  }

  lemma MagnitudeMono(e: int, s: int, t: int)
    requires s <= t
    ensures Magnitude(e, s) <= Magnitude(e, t)
  {
    hide Exp2;
    FactorMono(s as real, t as real, Exp2(e - 23));
  }

  lemma FactorMono(s: real, t: real, u: real)
    requires s <= t && u > 0.0
    ensures s * u <= t * u
  {
  }

  lemma TopOfBinade(e: int)
    ensures Magnitude(e, SIG_LIMIT) == Exp2(e + 1)
    ensures Magnitude(e, MIN_SIG) == Exp2(e)
  {
    hide Exp2, Pow2;
    Exp2Add(24, e - 23);
    Exp2Add(23, e - 23);
    Exp2Nat(24);
    Exp2Nat(23);
    Pow2Literals();
    assert 24 + (e - 23) == e + 1 && 23 + (e - 23) == e;
  }

  /** No grid point lies strictly between the two neighbours of `m`. */
  lemma NeighboursAdjacent(m: real, e: int, sig: int)
    requires m > 0.0 && OnGrid(e, sig)
    ensures Magnitude(e, sig) <= Lower(m) || Upper(m) <= Magnitude(e, sig)
  {
    hide Exp2, Normalize, Magnitude;
    var n := Normalize(m);
    Placement(m);
    MagnitudeBinade(e, sig);
    TopOfBinade(n.e);
    if e < n.e {
      Exp2Mono(e + 1, n.e);
      MagnitudeMono(n.e, MIN_SIG, n.sig);
    } else if e > n.e {
      Exp2Mono(n.e + 1, e);
      MagnitudeMono(n.e, n.sig + 1, SIG_LIMIT);
    } else if sig <= n.sig {
      MagnitudeMono(e, sig, n.sig);
    } else {
      MagnitudeMono(e, n.sig + 1, sig);
    }
  }

  // ---- section 4.3 of IEEE 754-2019 ----

  predicate TowardZero(sign: bool, rm: int) {
    rm == RM_RTZ || (rm == RM_RDN && !sign) || (rm == RM_RUP && sign)
  }

  predicate AwayFromZero(sign: bool, rm: int) {
    (rm == RM_RDN && sign) || (rm == RM_RUP && !sign)
  }

  function Distance(x: real, y: real): real {
    if x < y then y - x else x - y
  }

  ghost predicate GreatestBelow(v: real, m: real) {
    v <= m && forall e, s :: OnGrid(e, s) && Magnitude(e, s) <= m ==> Magnitude(e, s) <= v
  }

  ghost predicate LeastAbove(v: real, m: real) {
    m <= v && forall e, s :: OnGrid(e, s) && m <= Magnitude(e, s) ==> v <= Magnitude(e, s)
  }

  ghost predicate Nearest(v: real, m: real) {
    forall e, s :: OnGrid(e, s) ==> Distance(v, m) <= Distance(Magnitude(e, s), m)
  }

  /** Another grid point is exactly as close to `m` as `v` is. */
  ghost predicate HasRival(v: real, m: real) {
    exists e, s :: OnGrid(e, s) && Magnitude(e, s) != v && Distance(Magnitude(e, s), m) == Distance(v, m)
  }

  /** The grid point (e, sig) is what the mode demands for the magnitude `m`. */
  ghost predicate RoundsAsIeee(sign: bool, m: real, rm: int, e: int, sig: int) {
    var v := Magnitude(e, sig);
    OnGrid(e, sig) &&
    if TowardZero(sign, rm) then GreatestBelow(v, m)
    else if AwayFromZero(sign, rm) then LeastAbove(v, m)
    else Nearest(v, m) && (HasRival(v, m) ==> if rm == RM_RMM then v > m else sig % 2 == 0)
  }

  lemma IncrementedMagnitude(m: real, up: bool)
    requires m > 0.0
    ensures var r := Incremented(Normalize(m), up);
            OnGrid(r.e, r.sig) && Magnitude(r.e, r.sig) == if up then Upper(m) else Lower(m)
    ensures up ==> Incremented(Normalize(m), up).sig % 2 != Normalize(m).sig % 2
  {
    Placement(m);
    hide Exp2, Normalize, Magnitude, Placed;
    TopOfBinade(Normalize(m).e);
    TopOfBinade(Normalize(m).e + 1);
  }

  lemma LowerIsGreatest(m: real)
    requires m > 0.0
    ensures GreatestBelow(Lower(m), m)
  {
    Placement(m);
    forall e, s | OnGrid(e, s) && Magnitude(e, s) <= m
      ensures Magnitude(e, s) <= Lower(m)
    {
      hide Exp2, Normalize, Magnitude, Lower, Upper;
      NeighboursAdjacent(m, e, s);
    }
  }

  lemma UpperIsLeast(m: real)
    requires m > 0.0 && Normalize(m).cls != Exact
    ensures LeastAbove(Upper(m), m)
  {
    Placement(m);
    forall e, s | OnGrid(e, s) && m <= Magnitude(e, s)
      ensures Upper(m) <= Magnitude(e, s)
    {
      hide Exp2, Normalize, Magnitude, Lower, Upper;
      NeighboursAdjacent(m, e, s);
    }
  }

  lemma ExactIsLeast(m: real)
    requires m > 0.0 && Normalize(m).cls == Exact
    ensures LeastAbove(Lower(m), m)
  {
    Placement(m);
  }

  /** The nearer neighbour is nearest overall, and a rival exists only for a tie. */
  lemma NeighbourNearest(m: real, up: bool)
    requires m > 0.0
    requires up ==> Normalize(m).cls == Tie || Normalize(m).cls == Above
    requires !up ==> Normalize(m).cls != Above
    ensures var v := if up then Upper(m) else Lower(m);
            Nearest(v, m) && (HasRival(v, m) ==> Normalize(m).cls == Tie)
  {
    Placement(m);
    var v := if up then Upper(m) else Lower(m);
    forall e, s | OnGrid(e, s)
      ensures Distance(v, m) <= Distance(Magnitude(e, s), m)
      ensures Normalize(m).cls != Tie && Magnitude(e, s) != v ==> Distance(v, m) != Distance(Magnitude(e, s), m)
    {
      hide Exp2, Normalize, Magnitude, Lower, Upper;
      NeighboursAdjacent(m, e, s);
    }
  }

  /** Before the exponent range is applied, every mode rounds as the standard says. */
  lemma IncrementRoundsAsIeee(sign: bool, m: real, rm: int)
    requires m > 0.0
    ensures var n := Normalize(m);
            var r := Incremented(n, RoundsUp(n.cls, n.sig, sign, rm));
            RoundsAsIeee(sign, m, rm, r.e, r.sig) && (Magnitude(r.e, r.sig) == m <==> n.cls == Exact)
  {
    hide Exp2, Normalize, Magnitude, Lower, Upper, GreatestBelow, LeastAbove, Nearest, HasRival;
    var n := Normalize(m);
    var up := RoundsUp(n.cls, n.sig, sign, rm);
    Placement(m);
    IncrementedMagnitude(m, up);
    if TowardZero(sign, rm) {
      LowerIsGreatest(m);
    } else if AwayFromZero(sign, rm) {
      if n.cls == Exact {
        ExactIsLeast(m);
      } else {
        UpperIsLeast(m);
      }
    } else {
      NeighbourNearest(m, up);
    }
  }

  /** Grid points with the same value are the same grid point. */
  lemma GridUnique(e: int, s: int, e': int, s': int)
    requires OnGrid(e, s) && OnGrid(e', s') && Magnitude(e, s) == Magnitude(e', s')
    ensures e == e' && s == s'
  {
    hide Magnitude;
    ExactNorm(e, s);
    ExactNorm(e', s');
  }

  /** Two nearest grid points on either side of `m` have significands of different parity. */
  lemma TiedParity(m: real, e: int, s: int, e': int, s': int)
    requires m > 0.0 && OnGrid(e, s) && OnGrid(e', s') && Magnitude(e, s) < m < Magnitude(e', s')
    requires Nearest(Magnitude(e, s), m) && Nearest(Magnitude(e', s'), m)
    ensures s % 2 != s' % 2
  {
    hide Magnitude, Normalize, Lower, Upper, Incremented;
    Placement(m);
    NeighboursAdjacent(m, e, s);
    NeighboursAdjacent(m, e', s');
    IncrementedMagnitude(m, true);
    IncrementedMagnitude(m, false);
    var n, up := Normalize(m), Incremented(Normalize(m), true);
    LowerIs(m);
    assert Distance(Magnitude(e, s), m) <= Distance(Lower(m), m);
    assert Distance(Magnitude(e', s'), m) <= Distance(Magnitude(up.e, up.sig), m);
    GridUnique(e, s, n.e, n.sig);
    GridUnique(e', s', up.e, up.sig);
  }

  /** The standard leaves no choice: at most one grid point is what the mode demands. */
  lemma RoundsUniquely(sign: bool, m: real, rm: int, e: int, s: int, e': int, s': int)
    requires m > 0.0 && RoundsAsIeee(sign, m, rm, e, s) && RoundsAsIeee(sign, m, rm, e', s')
    ensures e == e' && s == s'
  {
    hide Magnitude;
    var v, v' := Magnitude(e, s), Magnitude(e', s');
    if TowardZero(sign, rm) || AwayFromZero(sign, rm) {
      assert v == v';
    } else {
      NearestAlike(m, rm, e, s, e', s');
    }
    GridUnique(e, s, e', s');
  }

  lemma NearestAlike(m: real, rm: int, e: int, s: int, e': int, s': int)
    requires m > 0.0 && OnGrid(e, s) && OnGrid(e', s')
    requires Nearest(Magnitude(e, s), m) && Nearest(Magnitude(e', s'), m)
    requires HasRival(Magnitude(e, s), m) ==> if rm == RM_RMM then Magnitude(e, s) > m else s % 2 == 0
    requires HasRival(Magnitude(e', s'), m) ==> if rm == RM_RMM then Magnitude(e', s') > m else s' % 2 == 0
    ensures Magnitude(e, s) == Magnitude(e', s')
  {
    hide Magnitude;
    var v, v' := Magnitude(e, s), Magnitude(e', s');
    assert Distance(v, m) == Distance(v', m);
    hide Nearest;
    assert v != v' ==> HasRival(v, m) && HasRival(v', m);
    hide HasRival;
    if v < m < v' {
      TiedParity(m, e, s, e', s');
    } else if v' < m < v {
      TiedParity(m, e', s', e, s);
    }
  }

  lemma PackDecodes(sign: bool, e: int, sig: int)
    requires OnGrid(e, sig) && -126 <= e <= 127
    ensures var bits := SignBit(sign) + (e + 127) * MIN_SIG + sig % MIN_SIG;
            IsBits(bits) && Decode(bits) == Finite(sign, e, sig)
  {
  }

  /** Rounding is choosing the mode's grid point with no bound on the exponent, then packing it. */
  lemma RoundedThenPacked(sign: bool, m: real, rm: int)
    requires m > 0.0
    ensures exists e, s :: RoundsAsIeee(sign, m, rm, e, s)
    ensures forall e, s :: RoundsAsIeee(sign, m, rm, e, s) ==>
              RoundFromFraction(sign, m, rm) == PackGrid(sign, e, s, Magnitude(e, s) != m, rm)
  {
    hide Normalize, Magnitude, RoundsAsIeee, Incremented, RoundsUp, PackGrid;
    IncrementRoundsAsIeee(sign, m, rm);
    var n := Normalize(m);
    var r := Incremented(n, RoundsUp(n.cls, n.sig, sign, rm));
    forall e, s | RoundsAsIeee(sign, m, rm, e, s)
      ensures e == r.e && s == r.sig
    {
      RoundsUniquely(sign, m, rm, e, s, r.e, r.sig);
    }
  }

  /**
    What the packed result says of `m`.  A result that neither overflows nor is flushed decodes to
    the float the mode demands; nx reports exactly whether it differs from `m`.  Below 2^-126 a
    result that does not round up to 2^-126 is flushed; above the largest finite value overflow
    gives infinity or that value by the direction of the mode.
   */
  ghost predicate ResultSays(sign: bool, m: real, rm: int, p: Packed) {
    var f := Decode(p.bits);
    IsBits(p.bits) && !p.flags.nv && !p.flags.dz && !(p.flags.ov && p.flags.uf) &&
    (!p.flags.ov && !p.flags.uf ==>
       f.Finite? && f.sign == sign && RoundsAsIeee(sign, m, rm, f.e, f.mant) &&
       (p.flags.nx <==> Magnitude(f.e, f.mant) != m)) &&
    (p.flags.uf ==> m < Exp2(-126) && p.flags.nx && p.bits == PackZero(sign)) &&
    (p.flags.ov ==>
       m > Magnitude(127, 0xFF_FFFF) && p.flags.nx &&
       p.bits == if TowardZero(sign, rm) then PackMaxFinite(sign) else PackInf(sign))
  }

  lemma ResultHolds(sign: bool, m: real, rm: int)
    requires m > 0.0
    ensures ResultSays(sign, m, rm, RoundFromFraction(sign, m, rm))
  {
    hide Exp2, Normalize, Magnitude, RoundsAsIeee, Lower, Upper, IsBits, Decode;
    var n := Normalize(m);
    var up := RoundsUp(n.cls, n.sig, sign, rm);
    var r := Incremented(n, up);
    IncrementRoundsAsIeee(sign, m, rm);
    IncrementedMagnitude(m, up);
    if r.e > 127 {
      OverflowMeans(m, up);
      SpecialBits(sign);
    } else if r.e < -126 {
      UnderflowMeans(m, up);
      SpecialBits(sign);
    } else {
      PackDecodes(sign, r.e, r.sig);
    }
  }

  /**
    The rounding contract of the reference model.  With no bound on the exponent the standard
    demands exactly one grid point for the mode; the result, flags included, is that point packed,
    which also fixes where overflow and flush begin.
   */
  lemma RoundingCorrect(sign: bool, m: real, rm: int)
    requires m > 0.0
    ensures ResultSays(sign, m, rm, RoundFromFraction(sign, m, rm))
    ensures exists e, s :: RoundsAsIeee(sign, m, rm, e, s)
    ensures forall e, s :: RoundsAsIeee(sign, m, rm, e, s) ==>
              RoundFromFraction(sign, m, rm) == PackGrid(sign, e, s, Magnitude(e, s) != m, rm)
  {
    hide *;
    ResultHolds(sign, m, rm);
    RoundedThenPacked(sign, m, rm);
  }

  lemma SpecialBits(sign: bool)
    ensures IsBits(PackZero(sign)) && IsBits(PackInf(sign)) && IsBits(PackMaxFinite(sign))
  {
  }

  lemma OverflowMeans(m: real, up: bool)
    requires m > 0.0 && Incremented(Normalize(m), up).e > 127
    requires up ==> Normalize(m).cls != Exact
    ensures m > Magnitude(127, 0xFF_FFFF)
  {
    hide Exp2, Normalize, Magnitude, Lower, Upper;
    var n := Normalize(m);
    Placement(m);
    NeighboursAdjacent(m, 127, 0xFF_FFFF);
    if n.e > 127 {
      NormalizeReads(m);
      Exp2Mono(128, n.e);
      MagnitudeBinade(127, 0xFF_FFFF);
    } else {
      assert Lower(m) == Magnitude(127, 0xFF_FFFF) by { LowerIs(m); }
    }
  }

  lemma LowerIs(m: real)
    requires m > 0.0
    ensures Lower(m) == Magnitude(Normalize(m).e, Normalize(m).sig)
  {
  }

  lemma UnderflowMeans(m: real, up: bool)
    requires m > 0.0 && Incremented(Normalize(m), up).e < -126
    ensures m < Exp2(-126)
  {
    hide Exp2;
    NormalizeReads(m);
    Exp2Mono(Normalize(m).e + 1, -126);
  }

  // ---- exactness and monotonicity ----

  /** Rounding the value of a normal float gives back its own bits and raises nothing. */
  lemma DecodeRoundTrip(bits: int, rm: int)
    requires IsBits(bits) && Decode(bits).Finite?
    ensures OnGrid(Decode(bits).e, Decode(bits).mant)
    ensures RoundFromFraction(SignOf(bits), Mag(Decode(bits)), rm) == Packed(bits, NO_FLAGS)
  {
    DecodedOnGrid(bits);
    var f := Decode(bits);
    ExactNorm(f.e, f.mant);
    hide Exp2, Normalize, Magnitude;
    FieldsRebuild(bits);
  }

  lemma ExactNorm(e: int, sig: int)
    requires OnGrid(e, sig)
    ensures Magnitude(e, sig) > 0.0 && Normalize(Magnitude(e, sig)) == Norm(e, sig, Exact)
  {
    hide Exp2, Normalize, Magnitude;
    MagnitudeBinade(e, sig);
    NormUnique(Magnitude(e, sig), Norm(e, sig, Exact));
  }

  lemma FieldsRebuild(bits: int)
    requires IsBits(bits)
    ensures bits == SignBit(SignOf(bits)) + ExpOf(bits) * MIN_SIG + FracOf(bits)
  {
  }

  function Rank(cls: Class): int {
    match cls case Exact => 0 case Below => 1 case Tie => 2 case Above => 3
  }

  predicate NormLeq(n: Norm, n': Norm) {
    n.e < n'.e || (n.e == n'.e && (n.sig < n'.sig || (n.sig == n'.sig && Rank(n.cls) <= Rank(n'.cls))))
  }

  lemma ReadingMonotone(x: real, x': real, n: Norm, n': Norm)
    requires x <= x' && n.e == n'.e
    requires InClass(x - n.sig as real, n.cls) && InClass(x' - n'.sig as real, n'.cls)
    ensures NormLeq(n, n')
  {
    var r, r' := x - n.sig as real, x' - n'.sig as real;
    assert 0.0 <= r < 1.0 && 0.0 <= r' < 1.0;
    assert n.sig <= n'.sig;
  }

  lemma SameBinadeMonotone(m: real, m': real, n: Norm, n': Norm)
    requires m <= m' && IsNorm(m, n) && IsNorm(m', n') && n.e == n'.e
    ensures NormLeq(n, n')
  {
    hide Exp2, NormLeq;
    var k := Exp2(23 - n.e);
    var x, x' := m * k, m' * k;
    assert x <= x' by { FactorMono(m, m', k); }
    ReadingMonotone(x, x', n, n');
  }

  lemma NormalizeMonotone(m: real, m': real)
    requires 0.0 < m <= m'
    ensures NormLeq(Normalize(m), Normalize(m'))
  {
    NormalizeReads(m);
    NormalizeReads(m');
    hide Exp2, Normalize, IsNorm;
    var n, n' := Normalize(m), Normalize(m');
    if n'.e < n.e {
      Exp2Mono(n'.e + 1, n.e);
    } else if n.e == n'.e {
      SameBinadeMonotone(m, m', n, n');
    }
  }

  lemma IncrementMonotone(n: Norm, n': Norm, sign: bool, rm: int)
    requires OnGrid(n.e, n.sig) && OnGrid(n'.e, n'.sig) && NormLeq(n, n')
    ensures var r := Incremented(n, RoundsUp(n.cls, n.sig, sign, rm));
            var r' := Incremented(n', RoundsUp(n'.cls, n'.sig, sign, rm));
            OnGrid(r.e, r.sig) && OnGrid(r'.e, r'.sig) &&
            (r.e < r'.e || (r.e == r'.e && r.sig <= r'.sig))
  {
  }

  /** Packing keeps the order of grid points, flush and overflow included. */
  lemma PackMonotone(sign: bool, e: int, sig: int, nx: bool, e': int, sig': int, nx': bool, rm: int)
    requires OnGrid(e, sig) && OnGrid(e', sig') && (e < e' || (e == e' && sig <= sig'))
    ensures PackGrid(sign, e, sig, nx, rm).bits <= PackGrid(sign, e', sig', nx', rm).bits
  {
  }

  /** A larger magnitude never rounds to a smaller bit pattern, flush and overflow included. */
  lemma RoundingMonotone(sign: bool, m: real, m': real, rm: int)
    requires 0.0 < m <= m'
    ensures RoundFromFraction(sign, m, rm).bits <= RoundFromFraction(sign, m', rm).bits
  {
    hide Exp2, Normalize, PackGrid, Incremented, RoundsUp, NormLeq;
    NormalizeMonotone(m, m');
    NormalizeReads(m);
    NormalizeReads(m');
    var n, n' := Normalize(m), Normalize(m');
    IncrementMonotone(n, n', sign, rm);
    var r, r' := Incremented(n, RoundsUp(n.cls, n.sig, sign, rm)), Incremented(n', RoundsUp(n'.cls, n'.sig, sign, rm));
    PackMonotone(sign, r.e, r.sig, n.cls != Exact, r'.e, r'.sig, n'.cls != Exact, rm);
  }
}
