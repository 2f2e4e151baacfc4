/**
  design/Divider.v: the XLEN-cycle integer divider with its start/busy/done interlock,
  against the div/divu/rem/remu semantics of sim/tools/iss.py.
 */
module IntegerDivider {
  import opened Arithmetic
  import opened PowersOfTwo
  import opened RestoringDivision

  // ---- the reference semantics ----

  function Unsigned(v: int, xlen: nat): int {
    v % Pow2(xlen)
  }

  /** The two's complement reading of an xlen-bit pattern. */
  function AsSigned(v: int, xlen: nat): int
    requires xlen > 0
  {
    if v >= Pow2(xlen - 1) then v - Pow2(xlen) else v
  }

  predicate IsReg(v: int, xlen: nat) {
    0 <= v < Pow2(xlen)
  }

  function Abs(x: int): int {
    if x < 0 then -x else x
  }

  predicate Overflows(a: int, b: int, xlen: nat)
    requires xlen > 0
  {
    AsSigned(a, xlen) == -Pow2(xlen - 1) && AsSigned(b, xlen) == -1
  }

  function QuotientSpec(signed: bool, a: int, b: int, xlen: nat): int
    requires xlen > 0 && IsReg(a, xlen) && IsReg(b, xlen)
  {
    if b == 0 then Unsigned(-1, xlen)
    else if !signed then a / b
    else if Overflows(a, b, xlen) then a
    else
      var sa, sb := AsSigned(a, xlen), AsSigned(b, xlen);
      var q := Abs(sa) / Abs(sb);
      Unsigned(if (sa < 0) != (sb < 0) then -q else q, xlen)
  }

  function RemainderSpec(signed: bool, a: int, b: int, xlen: nat): int
    requires xlen > 0 && IsReg(a, xlen) && IsReg(b, xlen)
  {
    if b == 0 then a
    else if !signed then a % b
    else if Overflows(a, b, xlen) then 0
    else
      var sa, sb := AsSigned(a, xlen), AsSigned(b, xlen);
      var r := Abs(sa) % Abs(sb);
      Unsigned(if sa < 0 then -r else r, xlen)
  }

  lemma RegAbs(v: int, xlen: nat)
    requires xlen > 0 && IsReg(v, xlen)
    ensures 0 <= Abs(AsSigned(v, xlen)) <= Pow2(xlen - 1) < Pow2(xlen)
    ensures AsSigned(v, xlen) == 0 <==> v == 0
    ensures AsSigned(v, xlen) < 0 <==> v >= Pow2(xlen - 1)
    ensures AsSigned(v, xlen) < 0 ==> Unsigned(-v, xlen) == Abs(AsSigned(v, xlen))
  {
    assert Pow2(xlen) == 2 * Pow2(xlen - 1);
    if v >= Pow2(xlen - 1) {
      var m := Pow2(xlen);
      hide Pow2;
      DivModUnique(-v, m, -1, m - v);
    }
  }

  /** In-range signed results read back as themselves. */
  lemma SignedReadback(x: int, xlen: nat)
    requires xlen > 0 && -Pow2(xlen - 1) <= x < Pow2(xlen - 1)
    ensures IsReg(Unsigned(x, xlen), xlen) && AsSigned(Unsigned(x, xlen), xlen) == x
  {
    var h, m := Pow2(xlen - 1), Pow2(xlen);
    assert m == 2 * h;
    hide Pow2;
    if x < 0 {
      DivModUnique(x, m, -1, x + m);
    } else {
      DivModUnique(x, m, 0, x);
    }
  }

  lemma QuotientShrinks(x: int, y: int)
    requires 0 <= x && y > 0
    ensures 0 <= x / y <= x && 0 <= x % y < y && x % y <= x && x == x / y * y + x % y
    ensures y >= 2 && x > 0 ==> x / y < x
  {
    QuotientBelow(x, y, x + 1);
    if y >= 2 && x > 0 {
      var q := x / y;
      assert x == q * y + x % y;
      ProductMono(2, y, q);
    }
  }

  /**
    What the reference results mean: away from a zero divisor and the overflowing pair, the
    signed quotient truncates toward zero and the remainder takes the dividend's sign.
   */
  lemma SignedDivisionLaw(a: int, b: int, xlen: nat)
    requires xlen > 0 && IsReg(a, xlen) && IsReg(b, xlen)
    requires b != 0 && !Overflows(a, b, xlen)
    ensures var q := AsSigned(QuotientSpec(true, a, b, xlen), xlen);
            var r := AsSigned(RemainderSpec(true, a, b, xlen), xlen);
            var sa, sb := AsSigned(a, xlen), AsSigned(b, xlen);
            sa == q * sb + r && Abs(r) < Abs(sb) && (r == 0 || (r < 0 <==> sa < 0))
  {
    var sa, sb := AsSigned(a, xlen), AsSigned(b, xlen);
    RegAbs(a, xlen);
    RegAbs(b, xlen);
    var x, y := Abs(sa), Abs(sb);
    QuotientShrinks(x, y);
    hide Pow2, AsSigned, Unsigned;
    var q := if (sa < 0) != (sb < 0) then -(x / y) else x / y;
    var r := if sa < 0 then -(x % y) else x % y;
    assert -Pow2(xlen - 1) <= q < Pow2(xlen - 1) && -Pow2(xlen - 1) <= r < Pow2(xlen - 1) by {
      InRangeResults(a, b, xlen);
    }
    SignedReadback(q, xlen);
    SignedReadback(r, xlen);
    SignsRecombine(sa, sb, x / y, x % y);
  }

  /** The number an xlen-bit pattern stands for. */
  function Reads(signed: bool, v: int, xlen: nat): int
    requires xlen > 0
  {
    if signed && v >= Pow2(xlen - 1) then v - Pow2(xlen) else v
  }

  /**
    The four instructions in numbers: by zero, all ones and the dividend; the most negative number by
    minus one, itself and zero; otherwise dividend = quotient * divisor + remainder with a remainder
    smaller than the divisor that takes the dividend's sign.
   */
  lemma DivisionMeans(signed: bool, a: int, b: int, xlen: nat)
    requires xlen > 0 && IsReg(a, xlen) && IsReg(b, xlen)
    ensures var q, r := QuotientSpec(signed, a, b, xlen), RemainderSpec(signed, a, b, xlen);
            var x, y := Reads(signed, a, xlen), Reads(signed, b, xlen);
            if b == 0 then q == Pow2(xlen) - 1 && r == a
            else if x == -Pow2(xlen - 1) && y == -1 then q == a && r == 0
            else
              x == Reads(signed, q, xlen) * y + Reads(signed, r, xlen) && Abs(Reads(signed, r, xlen)) < Abs(y) &&
              (Reads(signed, r, xlen) != 0 ==> (Reads(signed, r, xlen) < 0 <==> x < 0))
  {
    if b == 0 {
      MinusOne(xlen);
    } else if !signed {
      UnsignedLaw(a, b);
    } else if !Overflows(a, b, xlen) {
      hide QuotientSpec, RemainderSpec, Pow2;
      SignedDivisionLaw(a, b, xlen);
    }
  }

  lemma MinusOne(xlen: nat)
    ensures Unsigned(-1, xlen) == Pow2(xlen) - 1
  {
    var m := Pow2(xlen);
    hide Pow2;
    DivModUnique(-1, m, -1, m - 1);
  }

  lemma UnsignedLaw(a: int, b: int)
    requires a >= 0 && b > 0
    ensures a == a / b * b + a % b && 0 <= a % b < b
  {
  }

  lemma InRangeResults(a: int, b: int, xlen: nat)
    requires xlen > 0 && IsReg(a, xlen) && IsReg(b, xlen)
    requires b != 0 && !Overflows(a, b, xlen)
    ensures var sa, sb := AsSigned(a, xlen), AsSigned(b, xlen);
            var q := if (sa < 0) != (sb < 0) then -(Abs(sa) / Abs(sb)) else Abs(sa) / Abs(sb);
            -Pow2(xlen - 1) <= q < Pow2(xlen - 1) && Abs(sa) % Abs(sb) < Pow2(xlen - 1)
  {
    RegAbs(a, xlen);
    RegAbs(b, xlen);
    var sa, sb := AsSigned(a, xlen), AsSigned(b, xlen);
    QuotientShrinks(Abs(sa), Abs(sb));
    assert sa < Pow2(xlen - 1) && sb < Pow2(xlen - 1);
  }

  lemma SignsRecombine(sa: int, sb: int, q: int, r: int)
    requires Abs(sa) == q * Abs(sb) + r
    ensures sa == (if (sa < 0) != (sb < 0) then -q else q) * sb + (if sa < 0 then -r else r)
  {
  }

  // ---- the unit ----

  /** The step counter, in its $clog2(XLEN)-bit register. */
  function NextCount(count: int, xlen: nat): int {
    (count + 1) % Pow2(Clog2(xlen))
  }

  lemma NextCountExact(count: int, xlen: nat)
    requires 0 <= count
    ensures count + 1 < xlen ==> NextCount(count, xlen) == count + 1
  {
    Clog2Covers(xlen);
    if count + 1 < xlen {
      DivModUnique(count + 1, Pow2(Clog2(xlen)), 0, count + 1);
    }
  }

  /** The magnitude the unit iterates on. */
  function Operand(signed: bool, v: int, xlen: nat): int
    requires xlen > 0
  {
    if signed && v >= Pow2(xlen - 1) then Unsigned(-v, xlen) else v
  }

  /** The cases answered in the start cycle. */
  predicate Immediate(signed: bool, a: int, b: int, xlen: nat)
    requires xlen > 0
  {
    b == 0 || (signed && a == Pow2(xlen - 1) && b == Pow2(xlen) - 1)
  }

  lemma ImmediateIsSpecial(signed: bool, a: int, b: int, xlen: nat)
    requires xlen > 0 && IsReg(a, xlen) && IsReg(b, xlen)
    ensures Immediate(signed, a, b, xlen) <==> b == 0 || (signed && Overflows(a, b, xlen))
    ensures b == 0 ==>
      QuotientSpec(signed, a, b, xlen) == Pow2(xlen) - 1 && RemainderSpec(signed, a, b, xlen) == a
    ensures b != 0 && Immediate(signed, a, b, xlen) ==>
      QuotientSpec(signed, a, b, xlen) == a && RemainderSpec(signed, a, b, xlen) == 0
  {
    var h, m := Pow2(xlen - 1), Pow2(xlen);
    assert m == 2 * h;
    hide Pow2;
    DivModUnique(-1, m, -1, m - 1);
  }

  lemma OperandBounds(signed: bool, v: int, xlen: nat)
    requires xlen > 0 && IsReg(v, xlen)
    ensures IsReg(Operand(signed, v, xlen), xlen)
    ensures Operand(signed, v, xlen) == if signed then Abs(AsSigned(v, xlen)) else v
    ensures Operand(signed, v, xlen) == 0 <==> v == 0
  {
    RegAbs(v, xlen);
  }

  function Negated(neg: bool, v: int, xlen: nat): int {
    if neg then Unsigned(-v, xlen) else v
  }

  /** Dividing magnitudes and fixing signs gives the reference results. */
  lemma SignFixup(signed: bool, a: int, b: int, xlen: nat)
    requires xlen > 0 && IsReg(a, xlen) && IsReg(b, xlen) && !Immediate(signed, a, b, xlen)
    ensures var x, y := Operand(signed, a, xlen), Operand(signed, b, xlen);
            var negA, negB := signed && a >= Pow2(xlen - 1), signed && b >= Pow2(xlen - 1);
            y > 0 &&
            Negated(negA != negB, x / y, xlen) == QuotientSpec(signed, a, b, xlen) &&
            Negated(negA, x % y, xlen) == RemainderSpec(signed, a, b, xlen)
  {
    OperandBounds(signed, a, xlen);
    OperandBounds(signed, b, xlen);
    ImmediateIsSpecial(signed, a, b, xlen);
    RegAbs(a, xlen);
    RegAbs(b, xlen);
    var x, y := Operand(signed, a, xlen), Operand(signed, b, xlen);
    QuotientShrinks(x, y);
    hide Pow2, AsSigned, Operand;
    if signed {
      DivModUnique(x / y, Pow2(xlen), 0, x / y);
      DivModUnique(x % y, Pow2(xlen), 0, x % y);
    }
  }

  class Divider {
    const xlen: nat
    var busy: bool
    var done: bool
    var quotient: int
    var remainder: int
    var R: int
    var Q: int
    var D: int
    var count: int
    var negQuotient: bool
    var negRemainder: bool

    // The request being worked on or just answered.
    ghost var signed: bool
    ghost var a: int
    ghost var b: int

    ghost predicate Valid()
      reads this
    {
      xlen > 0 && !(busy && done) &&
      IsReg(a, xlen) && IsReg(b, xlen) &&
      (busy ==> InFlight()) &&
      (done ==> quotient == QuotientSpec(signed, a, b, xlen) && remainder == RemainderSpec(signed, a, b, xlen))
    }

    ghost predicate InFlight()
      requires xlen > 0
      reads this
    {
      !Immediate(signed, a, b, xlen) && 0 <= count < xlen &&
      D == Operand(signed, b, xlen) && D > 0 &&
      Regs(R, Q) == DivRegs(Operand(signed, a, xlen), D, xlen, count) &&
      negQuotient == ((signed && a >= Pow2(xlen - 1)) != (signed && b >= Pow2(xlen - 1))) &&
      negRemainder == (signed && a >= Pow2(xlen - 1))
    }

    /** Reset. */
    constructor (xlen: nat)
      requires xlen > 0
      ensures Valid() && this.xlen == xlen && !busy && !done
    {
      this.xlen := xlen;
      busy, done, quotient, remainder := false, false, 0, 0;
      R, Q, D, count, negQuotient, negRemainder := 0, 0, 0, 0, false, false;
      signed, a, b := false, 0, 0;
    }

    /**
      One clock edge.  A request is taken only when the unit is neither busy nor showing a
      result; a busy unit ignores its inputs and finishes on the step that sees count at
      XLEN - 1; `Valid` says that whenever `done` is up the outputs are the reference results.
     */
    method Clock(start: bool, isSigned: bool, dividend: int, divisor: int)
      requires Valid() && IsReg(dividend, xlen) && IsReg(divisor, xlen)
      modifies this
      ensures Valid()
      ensures old(busy) ==>
        (signed, a, b) == old((signed, a, b)) && done == !busy && busy == (old(count) != xlen - 1) &&
        (busy ==> count == old(count) + 1)
      ensures !old(busy) && start && !old(done) ==>
        (signed, a, b) == (isSigned, dividend, divisor) &&
        done == Immediate(isSigned, dividend, divisor, xlen) && busy == !done && (busy ==> count == 0)
      ensures !old(busy) && !(start && !old(done)) ==>
        !busy && !done && quotient == old(quotient) && remainder == old(remainder) &&
        (signed, a, b) == old((signed, a, b))
    {
      if start && !busy && !done {
        Take(isSigned, dividend, divisor);
      } else if busy {
        Advance();
      } else {
        done := false;
      }
    }

    method Take(isSigned: bool, dividend: int, divisor: int)
      requires Valid() && !busy && !done && IsReg(dividend, xlen) && IsReg(divisor, xlen)
      modifies this
      ensures Valid() && (signed, a, b) == (isSigned, dividend, divisor)
      ensures done == Immediate(isSigned, dividend, divisor, xlen) && busy == !done && (busy ==> count == 0)
    {
      hide Pow2, DivRegs, Operand, QuotientSpec, RemainderSpec, Overflows;
      signed, a, b := isSigned, dividend, divisor;
      ImmediateIsSpecial(isSigned, dividend, divisor, xlen);
      if divisor == 0 {
        quotient, remainder, done := Pow2(xlen) - 1, dividend, true;
      } else if isSigned && dividend == Pow2(xlen - 1) && divisor == Pow2(xlen) - 1 {
        quotient, remainder, done := dividend, 0, true;
      } else {
        Begin(isSigned, dividend, divisor);
      }
    }

    /** The registers at the first step of the recurrence. */
    method Begin(isSigned: bool, dividend: int, divisor: int)
      requires xlen > 0 && IsReg(dividend, xlen) && IsReg(divisor, xlen) && !Immediate(isSigned, dividend, divisor, xlen)
      requires !busy && !done && (signed, a, b) == (isSigned, dividend, divisor)
      modifies this
      ensures Valid() && (signed, a, b) == old((signed, a, b)) && busy && !done && count == 0
    {
      hide Pow2, DivRegs, Operand, QuotientSpec, RemainderSpec, Overflows;
      R, Q, D := 0, Operand(isSigned, dividend, xlen), Operand(isSigned, divisor, xlen);
      var negA, negB := isSigned && dividend >= Pow2(xlen - 1), isSigned && divisor >= Pow2(xlen - 1);
      negQuotient, negRemainder := negA != negB, negA;
      count, busy := 0, true;
      ImmediateIsSpecial(isSigned, dividend, divisor, xlen);
      OperandBounds(isSigned, dividend, xlen);
      OperandBounds(isSigned, divisor, xlen);
      DivRegsInitial(Q, D, xlen);
    }

    method Advance()
      requires Valid() && busy
      modifies this
      ensures Valid() && (signed, a, b) == old((signed, a, b))
      ensures done == !busy && busy == (old(count) != xlen - 1) && (busy ==> count == old(count) + 1)
    {
      hide Pow2, DivStep, DivRegs, Operand, QuotientSpec, RemainderSpec, Negated, NextCount;
      var next := DivStep(Regs(R, Q), D, xlen, xlen);
      OperandBounds(signed, a, xlen);
      DivStepAdvances(Operand(signed, a, xlen), D, xlen, count, xlen);
      R, Q := next.R, next.Q;
      if count == xlen - 1 {
        busy, done := false, true;
        quotient, remainder := Negated(negQuotient, next.Q, xlen), Negated(negRemainder, next.R, xlen);
        DivRegsFinal(Operand(signed, a, xlen), D, xlen);
        SignFixup(signed, a, b, xlen);
      }
      NextCountExact(count, xlen);
      count := NextCount(count, xlen);
    }
  }

  /**
    The caller's view: the request is held until `done`.  Every division ends, on the start
    cycle or after exactly XLEN busy steps, with the reference results; holding `start`
    through the cycle that shows `done` starts nothing.
   */
  method Divide(u: Divider, isSigned: bool, dividend: int, divisor: int)
    returns (quotient: int, remainder: int, cycles: nat)
    requires u.Valid() && !u.busy && !u.done
    requires IsReg(dividend, u.xlen) && IsReg(divisor, u.xlen)
    modifies u
    ensures u.Valid() && !u.busy && !u.done
    ensures quotient == QuotientSpec(isSigned, dividend, divisor, u.xlen)
    ensures remainder == RemainderSpec(isSigned, dividend, divisor, u.xlen)
    ensures cycles == if Immediate(isSigned, dividend, divisor, u.xlen) then 1 else u.xlen + 1
  {
    u.Clock(true, isSigned, dividend, divisor);
    cycles := 1;
    while !u.done
      invariant u.Valid() && (u.signed, u.a, u.b) == (isSigned, dividend, divisor)
      invariant u.busy == !u.done
      invariant u.busy ==> cycles == u.count + 1
      invariant u.done ==> cycles == if Immediate(isSigned, dividend, divisor, u.xlen) then 1 else u.xlen + 1
      decreases if u.done then 0 else u.xlen - u.count
    {
      u.Clock(true, isSigned, dividend, divisor);
      cycles := cycles + 1;
    }
    quotient, remainder := u.quotient, u.remainder;
    u.Clock(true, isSigned, dividend, divisor);
  }
}
