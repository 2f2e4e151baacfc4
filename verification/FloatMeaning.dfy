/**
  What the floating-point results mean, said of bit patterns and their values alone: mode 2 rounds
  down, mode 3 up, mode 1 toward zero, mode 4 to nearest with ties away and every other to nearest
  with ties to even; where overflow and the flush to zero begin; and what special operands give.
 */
module FloatMeaning {
  import opened PowersOfTwo
  import opened F32
  import opened F32Normalize
  import opened F32Rounding

  // ---- patterns and values ----

  /** A pattern that stands for a nonzero number: its exponent field is neither all zeros nor all ones. */
  predicate IsNumber(b: int) {
    0 <= b < 0x1_0000_0000 && 1 <= b / 0x80_0000 % 256 <= 254
  }

  function Value(b: int): real
    requires IsNumber(b)
  {
    var m := (0x80_0000 + b % 0x80_0000) as real * Exp2(b / 0x80_0000 % 256 - 150);
    if b >= 0x8000_0000 then -m else m
  }

  function Abs(x: real): real {
    if x < 0.0 then -x else x
  }

  predicate SameSide(x: real, y: real) {
    x > 0.0 <==> y > 0.0
  }

  ghost predicate Down(x: real, b: int)
    requires IsNumber(b)
  {
    Value(b) <= x && forall c :: IsNumber(c) && Value(c) <= x ==> Value(c) <= Value(b)
  }

  ghost predicate Up(x: real, b: int)
    requires IsNumber(b)
  {
    x <= Value(b) && forall c :: IsNumber(c) && x <= Value(c) ==> Value(b) <= Value(c)
  }

  ghost predicate Truncated(x: real, b: int)
    requires IsNumber(b)
  {
    SameSide(Value(b), x) && Abs(Value(b)) <= Abs(x) &&
    forall c :: IsNumber(c) && SameSide(Value(c), x) && Abs(Value(c)) <= Abs(x) ==> Abs(Value(c)) <= Abs(Value(b))
  }

  ghost predicate Closest(x: real, b: int)
    requires IsNumber(b)
  {
    forall c :: IsNumber(c) ==> Abs(Value(b) - x) <= Abs(Value(c) - x)
  }

  ghost predicate Tied(x: real, b: int)
    requires IsNumber(b)
  {
    exists c :: IsNumber(c) && c != b && Abs(Value(c) - x) == Abs(Value(b) - x)
  }

  /** The pattern `b` is `x` rounded in mode `rm`. */
  ghost predicate RoundedTo(x: real, rm: int, b: int) {
    IsNumber(b) &&
    if rm == 2 then Down(x, b)
    else if rm == 3 then Up(x, b)
    else if rm == 1 then Truncated(x, b)
    else Closest(x, b) && (Tied(x, b) ==> if rm == 4 then Abs(Value(b)) > Abs(x) else b % 2 == 0)
  }

  /** From the smallest to the largest number, in magnitude. */
  predicate InRange(x: real) {
    Exp2(-126) <= Abs(x) <= 0xFF_FFFF as real * Exp2(104)
  }

  // ---- numbers and the grid ----

  /** A number decodes to a sign and a grid point, and its value is that point's with the sign. */
  lemma NumberDecodes(b: int)
    requires IsNumber(b)
    ensures IsBits(b) && Decode(b).Finite? && Decode(b).sign == SignOf(b) && OnGrid(Decode(b).e, Decode(b).mant)
    ensures Value(b) == Signed(SignOf(b), Magnitude(Decode(b).e, Decode(b).mant))
    ensures b % 2 == Decode(b).mant % 2
  {
    hide Exp2;
    SignAndParity(b);
    hide SignOf;
  }

  lemma SignAndParity(b: int)
    requires IsBits(b)
    ensures SignOf(b) <==> b >= 0x8000_0000
    ensures b % 2 == (0x80_0000 + b % 0x80_0000) % 2
  {
    var q, f := b / 0x80_0000, b % 0x80_0000;
    assert b - (0x80_0000 + f) == 2 * (0x40_0000 * (q - 1));
  }

  lemma FiniteIsNumber(b: int)
    requires IsBits(b) && Decode(b).Finite?
    ensures IsNumber(b)
  {
  }

  lemma FieldsDetermine(b: int, c: int)
    requires IsNumber(b) && IsNumber(c) && SignOf(b) == SignOf(c)
    requires Decode(b).Finite? && Decode(c).Finite?
    ensures Decode(b).e == Decode(c).e && Decode(b).mant == Decode(c).mant ==> b == c
  {
    FieldsRebuild(b);
    FieldsRebuild(c);
    hide SignOf, SignBit;
  }

  /** Different numbers of one sign have different magnitudes. */
  lemma ValuesDiffer(b: int, c: int)
    requires IsNumber(b) && IsNumber(c) && b != c && SignOf(b) == SignOf(c)
    requires Decode(b).Finite? && Decode(c).Finite?
    ensures Magnitude(Decode(b).e, Decode(b).mant) != Magnitude(Decode(c).e, Decode(c).mant)
  {
    hide Magnitude, Value, SignOf, Decode, IsNumber;
    NumberDecodes(b);
    NumberDecodes(c);
    FieldsDetermine(b, c);
    var f, g := Decode(b), Decode(c);
    if Magnitude(f.e, f.mant) == Magnitude(g.e, g.mant) {
      GridUnique(f.e, f.mant, g.e, g.mant);
    }
  }

  // ---- the packed result of a magnitude within range ----

  /** A number's sign, magnitude and value, and where it stands against another number's. */
  lemma NumberParts(b: int) returns (sign: bool, v: real)
    requires IsNumber(b)
    ensures sign == SignOf(b) && v > 0.0 && Value(b) == Signed(sign, v) && IsBits(b) && Decode(b).Finite?
    ensures v == Magnitude(Decode(b).e, Decode(b).mant) && OnGrid(Decode(b).e, Decode(b).mant)
  {
    hide Magnitude, Value, SignOf, Decode;
    NumberDecodes(b);
    MagnitudePositive(Decode(b).e, Decode(b).mant);
    sign, v := SignOf(b), Magnitude(Decode(b).e, Decode(b).mant);
  }

  lemma DirectedMeans(sign: bool, m: real, rm: int, b: int)
    requires m > 0.0 && IsNumber(b) && SignOf(b) == sign && Decode(b).Finite?
    requires RoundsAsIeee(sign, m, rm, Decode(b).e, Decode(b).mant)
    ensures rm == 1 ==> Truncated(Signed(sign, m), b)
    ensures rm == 2 ==> Down(Signed(sign, m), b)
    ensures rm == 3 ==> Up(Signed(sign, m), b)
  {
    hide Magnitude, Value, SignOf, Decode, IsNumber, Nearest, HasRival;
    var s, v := NumberParts(b);
    forall c | IsNumber(c)
      ensures rm == 1 && SameSide(Value(c), Signed(sign, m)) && Abs(Value(c)) <= m ==> Abs(Value(c)) <= v
      ensures rm == 2 && Value(c) <= Signed(sign, m) ==> Value(c) <= Value(b)
      ensures rm == 3 && Signed(sign, m) <= Value(c) ==> Value(b) <= Value(c)
    {
      var t, w := NumberParts(c);
    }
  }

  lemma ClosestMeans(sign: bool, m: real, b: int)
    requires m > 0.0 && IsNumber(b) && SignOf(b) == sign && Decode(b).Finite?
    requires Nearest(Magnitude(Decode(b).e, Decode(b).mant), m)
    ensures Closest(Signed(sign, m), b)
    ensures Tied(Signed(sign, m), b) ==> HasRival(Magnitude(Decode(b).e, Decode(b).mant), m)
  {
    hide Magnitude, Value, SignOf, Decode, IsNumber;
    var x := Signed(sign, m);
    var s, v := NumberParts(b);
    forall c | IsNumber(c)
      ensures Abs(Value(b) - x) <= Abs(Value(c) - x)
      ensures c != b && Abs(Value(c) - x) == Abs(Value(b) - x) ==> HasRival(v, m)
    {
      var t, w := NumberParts(c);
      assert Distance(v, m) <= Distance(w, m);
      if t == sign && c != b {
        ValuesDiffer(b, c);
      }
    }
  }

  lemma NumberParity(b: int)
    requires IsNumber(b) && Decode(b).Finite?
    ensures b % 2 == Decode(b).mant % 2
  {
    hide Value;
    NumberDecodes(b);
  }

  /** What the rounding rules demand of the grid is what the patterns say. */
  lemma PatternRounded(sign: bool, m: real, rm: int, b: int)
    requires m > 0.0 && IsNumber(b) && SignOf(b) == sign && Decode(b).Finite?
    requires RoundsAsIeee(sign, m, rm, Decode(b).e, Decode(b).mant)
    ensures RoundedTo(Signed(sign, m), rm, b)
  {
    hide Magnitude, Value, SignOf, Decode, IsNumber, Nearest, HasRival, GreatestBelow, LeastAbove, Down, Up, Truncated,
         Closest, Tied;
    if rm == 1 || rm == 2 || rm == 3 {
      DirectedMeans(sign, m, rm, b);
    } else {
      ClosestMeans(sign, m, b);
      NumberParity(b);
      var s, v := NumberParts(b);
    }
  }

  /**
    Every magnitude within range, with its sign, is rounded to the number the mode names, raising
    nothing but inexact, and that exactly when the number differs.
   */
  lemma RoundsToNumber(sign: bool, m: real, rm: int)
    requires m > 0.0 && InRange(m)
    ensures var p := RoundFromFraction(sign, m, rm);
            RoundedTo(Signed(sign, m), rm, p.bits) &&
            p.flags == Flags(false, false, false, false, Value(p.bits) != Signed(sign, m))
  {
    hide Magnitude, Exp2, Value, Decode, IsNumber, SignOf, RoundsAsIeee, RoundFromFraction, RoundedTo, TowardZero;
    var p := RoundFromFraction(sign, m, rm);
    RoundingCorrect(sign, m, rm);
    LargestNumber();
    FiniteIsNumber(p.bits);
    NumberDecodes(p.bits);
    PatternRounded(sign, m, rm, p.bits);
  }

  lemma LargestNumber()
    ensures Magnitude(127, 0xFF_FFFF) == 0xFF_FFFF as real * Exp2(104)
  {
    hide Exp2;
  }

  // ---- outside the range ----

  /** Strictly between the last number of a binade and the next binade. */
  lemma LastGap(m: real, e: int)
    requires 0xFF_FFFF as real * Exp2(e - 23) < m < Exp2(e + 1)
    ensures m > 0.0 && Normalize(m).e == e && Normalize(m).sig == 0xFF_FFFF && Normalize(m).cls != Exact
    ensures Normalize(m).cls == Below <==> m + m < 0x1FF_FFFF as real * Exp2(e - 23)
    ensures Normalize(m).cls == Tie <==> m + m == 0x1FF_FFFF as real * Exp2(e - 23)
  {
    hide Exp2, Normalize;
    MagnitudeBinade(e, 0xFF_FFFF);
    NormalizeReads(m);
    BinadeUnique(m, e, Normalize(m).e);
    hide IsNorm;
    LastSignificand(m, e);
    Placement(m);
  }

  lemma LastSignificand(m: real, e: int)
    requires m > 0xFF_FFFF as real * Exp2(e - 23) && m > 0.0 && Normalize(m).e == e
    ensures Normalize(m).sig == 0xFF_FFFF
  {
    hide Exp2, Normalize;
    NormalizeReads(m);
    Placement(m);
    NeighboursAdjacent(m, e, 0xFF_FFFF);
    var u := Exp2(e - 23);
    SigOrder(Normalize(m).sig, 0xFF_FFFF, u);
    SigOrder(Normalize(m).sig + 1, 0xFF_FFFF, u);
  }

  lemma SigOrder(s: int, t: int, u: real)
    requires u > 0.0
    ensures s as real * u >= t as real * u ==> s >= t
    ensures s as real * u <= t as real * u ==> s <= t
  {
  }

  /** Past the largest number: whether the result overflows. */
  predicate Exceeds(sign: bool, m: real, rm: int) {
    if rm == 1 || (rm == 2 && !sign) || (rm == 3 && sign) then m >= Exp2(128)
    else if rm == 2 || rm == 3 then true
    else m + m >= 0x1FF_FFFF as real * Exp2(104)
  }

  /** Overflow gives infinity, or the largest number in a mode that does not round away from zero. */
  lemma OverflowRule(sign: bool, m: real, rm: int)
    requires m > 0xFF_FFFF as real * Exp2(104)
    ensures m > 0.0
    ensures var largest := if rm == 1 || (rm == 2 && !sign) || (rm == 3 && sign) then true else !Exceeds(sign, m, rm);
            RoundFromFraction(sign, m, rm) ==
              Packed((if sign then 0x8000_0000 else 0) + (if largest then 0x7F7F_FFFF else 0x7F80_0000),
                     Flags(false, false, Exceeds(sign, m, rm), false, true))
  {
    hide Exp2, Normalize;
    if m < Exp2(128) {
      LastGap(m, 127);
    } else {
      NormalizeReads(m);
      LargeExponent(m);
      Exp2AtLeast();
      hide IsNorm;
    }
  }

  lemma LargeExponent(m: real)
    requires m >= Exp2(128)
    ensures m > 0.0 && Normalize(m).e >= 128
  {
    hide Exp2, Normalize;
    NormalizeReads(m);
    if Normalize(m).e < 128 {
      Exp2Mono(Normalize(m).e + 1, 128);
    }
  }

  lemma Exp2AtLeast()
    ensures 2.0 * Exp2(128) >= 0x1FF_FFFF as real * Exp2(104)
  {
    Exp2Add(104, 24);
    Exp2Nat(24);
    Pow2Literals();
    hide Exp2;
  }

  /** Below the smallest number: whether the result is that number after all. */
  predicate ReachesLeast(sign: bool, m: real, rm: int) {
    if rm == 1 || (rm == 2 && !sign) || (rm == 3 && sign) then false
    else if rm == 2 || rm == 3 then m > 0xFF_FFFF as real * Exp2(-150)
    else m + m >= 0x1FF_FFFF as real * Exp2(-150)
  }

  /** A magnitude below the smallest number is flushed to zero, with underflow, unless it rounds up to that number. */
  lemma TinyRule(sign: bool, m: real, rm: int)
    requires 0.0 < m < Exp2(-126)
    ensures var least := ReachesLeast(sign, m, rm);
            RoundFromFraction(sign, m, rm) ==
              Packed((if sign then 0x8000_0000 else 0) + (if least then 0x80_0000 else 0),
                     Flags(false, false, false, !least, true))
  {
    hide Exp2, Normalize;
    if 0xFF_FFFF as real * Exp2(-150) < m {
      LastGap(m, -127);
    } else {
      SmallNorm(m);
      Positive150();
    }
  }

  lemma Positive150()
    ensures Exp2(-150) > 0.0
  {
    hide Exp2;
  }

  /** Up to the last point below the smallest number, rounding cannot reach it. */
  lemma SmallNorm(m: real)
    requires 0.0 < m <= 0xFF_FFFF as real * Exp2(-150)
    ensures var n := Normalize(m);
            n.e < -127 || (n.e == -127 && (n.sig < 0xFF_FFFF || n.cls == Exact))
    ensures MIN_SIG <= Normalize(m).sig < SIG_LIMIT
  {
    hide Exp2, Normalize;
    NormalizeReads(m);
    MagnitudeBinade(-127, 0xFF_FFFF);
    Placement(m);
    var n := Normalize(m);
    if n.e > -127 {
      Exp2Mono(-126, n.e);
    } else if n.e == -127 && n.sig == 0xFF_FFFF {
      assert Lower(m) == Magnitude(-127, 0xFF_FFFF) by { LowerIs(m); }
      assert m == Lower(m);
    }
  }
}
