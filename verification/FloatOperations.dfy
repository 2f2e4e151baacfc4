/**
  Division, square root and fused multiply-add of bit patterns: for numbers, the exact quotient,
  root or total of their values rounded in the mode; and what zeros, infinities and NaNs give.  The
  units' results are those of `DivSpec`, `SqrtSpec` and `MaddSpec`, which this is said of.
 */
module FloatOperations {
  import opened Arithmetic
  import opened PowersOfTwo
  import opened F32
  import opened F32Normalize
  import opened F32Rounding
  import opened FloatMeaning
  import FpRound
  import FloatSqrt
  import FusedMultiplyAdd

  // ---- division ----

  lemma SignedQuotient(s: bool, t: bool, v: real, w: real)
    requires v > 0.0 && w > 0.0
    ensures Signed(t, w) != 0.0 && v / w > 0.0 && Signed(s, v) / Signed(t, w) == Signed(s != t, v / w)
  {
    var q := v / w;
    assert q * w == v;
    assert (-v) / w == -q && v / (-w) == -q && (-v) / (-w) == q;
  }

  /** The quotient of two numbers is their values' quotient, rounded; in range, only inexact can be raised. */
  lemma QuotientMeans(a: int, b: int, rm: int)
    requires IsNumber(a) && IsNumber(b)
    ensures Value(b) != 0.0
    ensures InRange(Value(a) / Value(b)) ==>
              var p := DivSpec(a, b, rm);
              RoundedTo(Value(a) / Value(b), rm, p.bits) &&
              p.flags == Flags(false, false, false, false, Value(p.bits) != Value(a) / Value(b))
  {
    hide Magnitude, Exp2, Value, Decode, IsNumber, SignOf, RoundFromFraction, RoundedTo;
    var s, v := NumberParts(a);
    var t, w := NumberParts(b);
    SignedQuotient(s, t, v, w);
    if InRange(Value(a) / Value(b)) {
      RoundsToNumber(s != t, v / w, rm);
    }
  }

  // ---- square root ----

  lemma RootInRange(x: real, y: real)
    requires Exp2(-126) <= x <= 0xFF_FFFF as real * Exp2(104) && y > 0.0 && y * y == x
    ensures InRange(y)
  {
    AroundOne();
    hide Exp2;
    RootBounds(x, y, Exp2(-126), 0xFF_FFFF as real * Exp2(104));
  }

  lemma AroundOne()
    ensures Exp2(-126) <= 1.0 <= Exp2(104)
  {
    assert Exp2(0) == 1.0;
    hide Exp2;
    Exp2Mono(-126, 0);
    Exp2Mono(0, 104);
  }

  lemma SquareAgainst(y: real)
    requires y > 0.0
    ensures y < 1.0 ==> y * y < y
    ensures y > 1.0 ==> y * y > y
  {
  }

  lemma RootBounds(x: real, y: real, lo: real, hi: real)
    requires 0.0 < lo <= 1.0 <= hi && lo <= x <= hi && y > 0.0 && y * y == x
    ensures lo <= y <= hi
  {
    SquareAgainst(y);
  }

  /** The magnitude of a number lies between the smallest and the largest. */
  lemma NumberInRange(b: int)
    requires IsNumber(b)
    ensures InRange(Value(b))
  {
    hide Exp2, Magnitude, Value;
    var s, v := NumberParts(b);
    NumberDecodes(b);
    var f := Decode(b);
    DecodedOnGrid(b);
    MagnitudeBinade(f.e, f.mant);
    Exp2Mono(-126, f.e);
    Largest(f.e, f.mant);
  }

  lemma Largest(e: int, s: int)
    requires OnGrid(e, s) && e <= 127
    ensures Magnitude(e, s) <= 0xFF_FFFF as real * Exp2(104)
  {
    hide Exp2;
    Exp2Mono(e - 23, 104);
    BothGrow(s as real, 0xFF_FFFF as real, Exp2(e - 23), Exp2(104));
  }

  lemma BothGrow(s: real, t: real, u: real, v: real)
    requires 0.0 <= s <= t && 0.0 <= u <= v
    ensures s * u <= t * v
  {
    assert s * u <= s * v;
  }

  /** The square root of a positive number is the real root, rounded; it is always in range. */
  lemma RootMeans(a: int, rm: int, y: real)
    requires IsNumber(a) && a < 0x8000_0000 && y > 0.0 && y * y == Value(a)
    ensures var p := FloatSqrt.SqrtSpec(a, rm);
            RoundedTo(y, rm, p.bits) && p.flags == Flags(false, false, false, false, Value(p.bits) != y)
  {
    hide Magnitude, Exp2, Value, Decode, RoundedTo, Normalize, SqrtNormalize;
    NumberDecodes(a);
    NumberInRange(a);
    RootInRange(Value(a), y);
    var f := Decode(a);
    SqrtIsRoot(f.e, f.mant, y);
    RoundsToNumber(false, y, rm);
  }

  // ---- fused multiply-add ----

  /** A pattern read as zero: its exponent field is all zeros. */
  predicate IsNought(b: int) {
    0 <= b < 0x1_0000_0000 && b / 0x80_0000 % 256 == 0
  }

  function ValueOrZero(b: int): real
    requires IsNumber(b) || IsNought(b)
  {
    if IsNumber(b) then Value(b) else 0.0
  }

  /** The exact total: the product and the addend, each negated or not. */
  function Total(a: int, b: int, c: int, negProd: bool, negAddend: bool): real
    requires IsNumber(a) && IsNumber(b) && (IsNumber(c) || IsNought(c))
  {
    var product, addend := Value(a) * Value(b), ValueOrZero(c);
    (if negProd then -product else product) + (if negAddend then -addend else addend)
  }

  lemma SignedProduct(s: bool, t: bool, n: bool, v: real, w: real)
    ensures Signed((s != t) != n, Times(v, w)) == if n then -(Signed(s, v) * Signed(t, w)) else Signed(s, v) * Signed(t, w)
  {
    assert (-v) * w == -(v * w) && v * (-w) == -(v * w) && (-v) * (-w) == v * w;
  }

  lemma NoughtDecodes(c: int)
    requires IsNought(c)
    ensures Decode(c).Zero? && !IsNumber(c)
  {
  }

  lemma TotalIs(a: int, b: int, c: int, negProd: bool, negAddend: bool)
    requires IsNumber(a) && IsNumber(b) && (IsNumber(c) || IsNought(c))
    ensures Decode(a).Finite? && Decode(b).Finite? && FusedMultiplyAdd.FiniteOrZero(Decode(c))
    ensures FusedMultiplyAdd.Rounds(a, b, c)
    ensures FusedMultiplyAdd.ExactTotal(a, b, c, negProd, negAddend) == Total(a, b, c, negProd, negAddend)
  {
    hide Magnitude, Exp2, Value, Decode, SignOf, IsNumber, IsNought, Times, FpRound.IsNan, FpRound.IsInf, FpRound.IsZero,
         FpRound.IsSnan, ExpOf, FracOf;
    var s, v := NumberParts(a);
    var t, w := NumberParts(b);
    SignedProduct(s, t, negProd, v, w);
    FpRound.ClassifiersDecode(a);
    FpRound.ClassifiersDecode(b);
    FpRound.ClassifiersDecode(c);
    if IsNumber(c) {
      var k, x := NumberParts(c);
    } else {
      NoughtDecodes(c);
    }
  }

  /** The total rounded; an exact cancellation gives negative zero in mode 2 and positive zero in every other. */
  lemma TotalMeans(a: int, b: int, c: int, rm: int, negProd: bool, negAddend: bool)
    requires IsNumber(a) && IsNumber(b) && (IsNumber(c) || IsNought(c))
    ensures var x, p := Total(a, b, c, negProd, negAddend), MaddSpec(a, b, c, rm, negProd, negAddend);
            (x == 0.0 ==> p == Packed(if rm == 2 then 0x8000_0000 else 0, NO_FLAGS)) &&
            (InRange(x) ==>
               RoundedTo(x, rm, p.bits) && p.flags == Flags(false, false, false, false, Value(p.bits) != x))
  {
    hide Magnitude, Exp2, Value, Decode, IsNumber, RoundedTo, Normalize, RoundFromFraction, Total, IsNought,
         FusedMultiplyAdd.ExactTotal, FusedMultiplyAdd.Rounds, MaddSpec, SignOf;
    TotalIs(a, b, c, negProd, negAddend);
    var x := Total(a, b, c, negProd, negAddend);
    FusedMultiplyAdd.MaddSpecRounds(a, b, c, rm, negProd, negAddend);
    if x < 0.0 && InRange(x) {
      RoundsToNumber(true, -x, rm);
    } else if x > 0.0 && InRange(x) {
      RoundsToNumber(false, x, rm);
    }
    Smallest();
  }

  lemma Smallest()
    ensures Exp2(-126) > 0.0
  {
    hide Exp2;
  }

  // ---- special operands ----

  predicate IsInfinite(b: int) {
    0 <= b < 0x1_0000_0000 && b % 0x8000_0000 == 0x7F80_0000
  }

  predicate NotANumber(b: int) {
    0 <= b < 0x1_0000_0000 && b % 0x8000_0000 > 0x7F80_0000
  }

  /** A signaling NaN has the top bit of its fraction clear. */
  predicate Signals(b: int) {
    NotANumber(b) && b / 0x40_0000 % 2 == 0
  }

  function Plus(sign: bool, magnitude: int): int {
    if sign then 0x8000_0000 + magnitude else magnitude
  }

  /** The five kinds of patterns, each read as what it is. */
  lemma Kinds(b: int)
    requires 0 <= b < 0x1_0000_0000
    ensures Decode(b).Nan? <==> NotANumber(b)
    ensures Decode(b).Nan? && Decode(b).signaling <==> Signals(b)
    ensures Decode(b).Inf? <==> IsInfinite(b)
    ensures Decode(b).Zero? <==> IsNought(b)
    ensures Decode(b).Finite? <==> IsNumber(b)
    ensures SignOf(b) <==> b >= 0x8000_0000
  {
    hide Decode, NotANumber, Signals, IsInfinite, IsNought, IsNumber, SignOf;
    var q, f := b / 0x80_0000, b % 0x80_0000;
    PatternFields(b, q / 256, q % 256, f / 0x40_0000, f % 0x40_0000);
    KindsOf(b, q / 256, q % 256, f / 0x40_0000, f % 0x40_0000);
  }

  /** Sign, exponent, top fraction bit and remaining fraction of a pattern. */
  lemma PatternFields(b: int, top: int, x: int, g: int, f: int)
    requires 0 <= top < 2 && 0 <= x < 256 && 0 <= g < 2 && 0 <= f < 0x40_0000
    requires b == ((top * 256 + x) * 2 + g) * 0x40_0000 + f
    ensures b / 0x8000_0000 == top && b % 0x8000_0000 == (x * 2 + g) * 0x40_0000 + f
    ensures b / 0x80_0000 == top * 256 + x && b / 0x80_0000 % 256 == x && b % 0x80_0000 == g * 0x40_0000 + f
    ensures b / 0x40_0000 % 2 == g && b % 0x80_0000 / 0x40_0000 % 2 == g
  {
    DivModUnique(b, 0x8000_0000, top, (x * 2 + g) * 0x40_0000 + f);
    DivModUnique(b, 0x80_0000, top * 256 + x, g * 0x40_0000 + f);
    DivModUnique(top * 256 + x, 256, top, x);
    DivModUnique(b, 0x40_0000, (top * 256 + x) * 2 + g, f);
    DivModUnique((top * 256 + x) * 2 + g, 2, top * 256 + x, g);
    DivModUnique(g * 0x40_0000 + f, 0x40_0000, g, f);
    DivModUnique(g, 2, 0, g);
  }

  lemma KindsOf(b: int, top: int, x: int, g: int, f: int)
    requires 0 <= top < 2 && 0 <= x < 256 && 0 <= g < 2 && 0 <= f < 0x40_0000 && 0 <= b < 0x1_0000_0000
    requires b == top * 0x8000_0000 + (x * 2 + g) * 0x40_0000 + f
    requires b / 0x8000_0000 == top && b % 0x8000_0000 == (x * 2 + g) * 0x40_0000 + f
    requires b / 0x80_0000 % 256 == x && b % 0x80_0000 == g * 0x40_0000 + f
    requires b / 0x40_0000 % 2 == g && b % 0x80_0000 / 0x40_0000 % 2 == g
    ensures Decode(b).Nan? <==> NotANumber(b)
    ensures Decode(b).Nan? && Decode(b).signaling <==> Signals(b)
    ensures Decode(b).Inf? <==> IsInfinite(b)
    ensures Decode(b).Zero? <==> IsNought(b)
    ensures Decode(b).Finite? <==> IsNumber(b)
    ensures SignOf(b) <==> b >= 0x8000_0000
  {
  }

  /** Division with an operand that is no number: invalid, division by zero, and signed infinities and zeros. */
  lemma DivisionSpecials(a: int, b: int, rm: int)
    requires 0 <= a < 0x1_0000_0000 && 0 <= b < 0x1_0000_0000
    ensures var p, sign := DivSpec(a, b, rm), (a >= 0x8000_0000) != (b >= 0x8000_0000);
            if NotANumber(a) || NotANumber(b) then
              p == Packed(0x7FC0_0000, Flags(Signals(a) || Signals(b), false, false, false, false))
            else if (IsInfinite(a) && IsInfinite(b)) || (IsNought(a) && IsNought(b)) then
              p == Packed(0x7FC0_0000, Flags(true, false, false, false, false))
            else if IsInfinite(a) then p == Packed(Plus(sign, 0x7F80_0000), NO_FLAGS)
            else if IsNought(b) then p == Packed(Plus(sign, 0x7F80_0000), Flags(false, true, false, false, false))
            else IsInfinite(b) || IsNought(a) ==> p == Packed(Plus(sign, 0), NO_FLAGS)
  {
    hide Decode, SignOf, NotANumber, Signals, IsInfinite, IsNought, IsNumber, RoundFromFraction;
    Kinds(a);
    Kinds(b);
  }

  /** Square root: zeros and positive infinity stay, anything negative is invalid. */
  lemma RootSpecials(a: int, rm: int)
    requires 0 <= a < 0x1_0000_0000 && (!IsNumber(a) || a >= 0x8000_0000)
    ensures var p := FloatSqrt.SqrtSpec(a, rm);
            if NotANumber(a) then p == Packed(0x7FC0_0000, Flags(Signals(a), false, false, false, false))
            else if IsNought(a) || a == 0x7F80_0000 then p == Packed(a, NO_FLAGS)
            else p == Packed(0x7FC0_0000, Flags(true, false, false, false, false))
  {
    hide Decode, SignOf, SqrtNormalize;
    Kinds(a);
  }

  /** Multiply-add: zero times infinity and opposite infinities are invalid; zero products leave the addend. */
  lemma TotalSpecials(a: int, b: int, c: int, rm: int, negProd: bool, negAddend: bool)
    requires 0 <= a < 0x1_0000_0000 && 0 <= b < 0x1_0000_0000 && 0 <= c < 0x1_0000_0000
    ensures var p := MaddSpec(a, b, c, rm, negProd, negAddend);
            var sp, sc := ((a >= 0x8000_0000) != (b >= 0x8000_0000)) != negProd, (c >= 0x8000_0000) != negAddend;
            if NotANumber(a) || NotANumber(b) || NotANumber(c) then
              p == Packed(0x7FC0_0000, Flags(Signals(a) || Signals(b) || Signals(c), false, false, false, false))
            else if (IsInfinite(a) && IsNought(b)) || (IsNought(a) && IsInfinite(b)) ||
                    ((IsInfinite(a) || IsInfinite(b)) && IsInfinite(c) && sp != sc) then
              p == Packed(0x7FC0_0000, Flags(true, false, false, false, false))
            else if IsInfinite(a) || IsInfinite(b) then p == Packed(Plus(sp, 0x7F80_0000), NO_FLAGS)
            else if IsInfinite(c) then p == Packed(Plus(sc, 0x7F80_0000), NO_FLAGS)
            else IsNought(a) || IsNought(b) ==>
              p == Packed(if IsNumber(c) then Plus(sc, c % 0x8000_0000)
                          else if sp == sc then Plus(sp, 0) else Plus(rm == 2, 0), NO_FLAGS)
  {
    hide Decode, SignOf, NotANumber, Signals, IsInfinite, IsNought, IsNumber, RoundFromFraction, Times;
    Kinds(a);
    Kinds(b);
    Kinds(c);
  }
}
