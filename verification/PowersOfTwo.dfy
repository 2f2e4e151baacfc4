/**
  Powers of two over the naturals and over the reals.  `Pow2` measures register
  widths and integer scale factors; `Exp2` is the exact scale factor of a float
  with any (possibly negative) exponent.
 */
module PowersOfTwo {

  function Pow2(n: nat): (p: int)
    ensures p > 0
  {
    if n == 0 then 1 else 2 * Pow2(n - 1)
  }

  lemma {:induction false} Pow2Add(a: nat, b: nat)
    ensures Pow2(a + b) == Pow2(a) * Pow2(b)
  {
    if a == 0 {
    } else {
      Pow2Add(a - 1, b);
    }
  }

  lemma {:induction false} Pow2Mono(a: nat, b: nat)
    requires a <= b
    ensures Pow2(a) <= Pow2(b)
  {
    if a == b {
    } else {
      Pow2Mono(a, b - 1);
    }
  }

  /** The real number 2^e. */
  function Exp2(e: int): (r: real)
    ensures r > 0.0
    decreases if e < 0 then -e else e
  {
    if e == 0 then 1.0
    else if e > 0 then 2.0 * Exp2(e - 1)
    else Exp2(e + 1) / 2.0
  }

  lemma Exp2Succ(e: int)
    ensures Exp2(e + 1) == 2.0 * Exp2(e)
  {
  }

  lemma DoubledProduct(x: real, y: real, z: real, y': real, z': real)
    requires y' == 2.0 * y && z' == 2.0 * z
    ensures z == x * y <==> z' == x * y'
  {
  }

  lemma Exp2AddStep(a: int, b: int)
    ensures Exp2(a + b) == Exp2(a) * Exp2(b) <==> Exp2(a + b + 1) == Exp2(a) * Exp2(b + 1)
  {
    hide *;
    Exp2Succ(b);
    Exp2Succ(a + b);
    DoubledProduct(Exp2(a), Exp2(b), Exp2(a + b), Exp2(b + 1), Exp2(a + b + 1));
  }

  lemma Exp2AddZero(a: int)
    ensures Exp2(a + 0) == Exp2(a) * Exp2(0)
  {
    assert Exp2(0) == 1.0;
  }

  lemma {:induction false} Exp2Add(a: int, b: int)
    ensures Exp2(a + b) == Exp2(a) * Exp2(b)
    decreases if b < 0 then -b else b
  {
    hide *;
    if b == 0 {
      Exp2AddZero(a);
    } else if b > 0 {
      Exp2Add(a, b - 1);
      Exp2AddStep(a, b - 1);
      assert a + (b - 1) + 1 == a + b;
    } else {
      Exp2Add(a, b + 1);
      Exp2AddStep(a, b);
      assert a + b + 1 == a + (b + 1);
    }
  }

  /** A product the solver may treat as opaque while exponents are being regrouped. */
  function Times(x: real, y: real): real {
    x * y
  }

  lemma Exp2Split(x: int, y: int, z: int)
    requires x + y == z
    ensures Exp2(z) == Times(Exp2(x), Exp2(y))
  {
    Exp2Add(x, y);
  }

  lemma Exp2Inverse(e: int)
    ensures Exp2(e) * Exp2(-e) == 1.0
  {
    Exp2Add(e, -e);
  }

  lemma {:induction false} Exp2Nat(n: nat)
    ensures Exp2(n) == Pow2(n) as real
  {
    if n == 0 {
    } else {
      Exp2Nat(n - 1);
    }
  }

  lemma {:induction false} Exp2Mono(a: int, b: int)
    requires a <= b
    ensures Exp2(a) <= Exp2(b)
    decreases b - a
  {
    if a == b {
    } else {
      Exp2Mono(a, b - 1);
      Exp2Succ(b - 1);
    }
  }

  /** The widths that occur as literals in the units. */
  lemma Pow2Literals()
    ensures Pow2(1) == 0x2
    ensures Pow2(22) == 0x40_0000
    ensures Pow2(23) == 0x80_0000
    ensures Pow2(24) == 0x100_0000
    ensures Pow2(25) == 0x200_0000
    ensures Pow2(26) == 0x400_0000
    ensures Pow2(27) == 0x800_0000
    ensures Pow2(28) == 0x1000_0000
  {
    assert Pow2(8) == 0x100;
    assert Pow2(16) == 0x10000;
    assert Pow2(22) == 0x40_0000;
  }

  /** $clog2. */
  function Clog2(n: nat): nat
    decreases n
  {
    if n <= 1 then 0 else 1 + Clog2((n + 1) / 2)
  }

  lemma {:induction false} Clog2Covers(n: nat)
    ensures n <= Pow2(Clog2(n))
    ensures n >= 2 ==> Pow2(Clog2(n)) <= 2 * (n - 1)
  {
    if n <= 1 {
    } else {
      Clog2Covers((n + 1) / 2);
    }
  }
}
