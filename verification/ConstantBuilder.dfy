/**
  The constant builders of sim/tools/random_gen.py run on the reference model's integer
  instructions (sim/tools/iss.py) at XLEN=64.
 */
module ConstantBuilder {
  import opened Arithmetic
  import opened PowersOfTwo

  const TWO32: int := 0x1_0000_0000
  const TWO64: int := 0x1_0000_0000_0000_0000

  /** The instructions the builders use; an immediate is the signed value it stands for. */
  datatype Instr = Addi(rd: nat, rs: nat, imm: int) | Lui(rd: nat, imm20: nat)
                 | Slli(rd: nat, rs: nat, sh: nat) | Srli(rd: nat, rs: nat, sh: nat) | Or(rd: nat, rs: nat, rt: nat)

  type Regs = map<nat, nat>

  /** x0 and unwritten registers read zero. */
  function Get(r: Regs, k: nat): nat {
    if k != 0 && k in r then r[k] else 0
  }

  /** wr: writes to x0 are dropped, others keep 64 bits. */
  function Put(r: Regs, k: nat, x: int): (u: Regs)
    ensures forall j: nat :: Get(u, j) == if j == k && k != 0 then x % TWO64 else Get(r, j)
  {
    if k == 0 then r else r[k := x % TWO64]
  }

  /** s32: the low 32 bits as a signed number. */
  function Signed32(x: nat): int {
    if x % TWO32 >= 0x8000_0000 then x % TWO32 - TWO32 else x % TWO32
  }

  function Exec(r: Regs, i: Instr): Regs {
    match i
    case Addi(rd, rs, imm) => Put(r, rd, Get(r, rs) + imm)
    case Lui(rd, imm20) => Put(r, rd, Signed32(imm20 * 4096))
    case Slli(rd, rs, sh) => Put(r, rd, Get(r, rs) * Pow2(sh))
    case Srli(rd, rs, sh) => Put(r, rd, Get(r, rs) / Pow2(sh))
    case Or(rd, rs, rt) => Put(r, rd, BitOr(Get(r, rs), Get(r, rt)))
  }

  /** What each instruction leaves in a destination other than x0, and that nothing else changes. */
  lemma ExecMeans(r: Regs, i: Instr, k: nat)
    ensures k != i.rd || k == 0 ==> Get(Exec(r, i), k) == Get(r, k)
    ensures k == i.rd != 0 ==>
              var x := Get(Exec(r, i), k);
              match i
              case Addi(_, rs, imm) => x == (Get(r, rs) + imm) % 0x1_0000_0000_0000_0000
              case Lui(_, imm20) =>
                imm20 < 0x10_0000 ==> x == imm20 * 0x1000 + if imm20 >= 0x8_0000 then 0xFFFF_FFFF_0000_0000 else 0
              case Slli(_, rs, sh) => x == Get(r, rs) * Pow2(sh) % 0x1_0000_0000_0000_0000
              case Srli(_, rs, sh) => x == Get(r, rs) / Pow2(sh) % 0x1_0000_0000_0000_0000
              case Or(_, rs, rt) => x == BitOr(Get(r, rs), Get(r, rt)) % 0x1_0000_0000_0000_0000
  {
    hide Pow2;
  }

  function Run(r: Regs, code: seq<Instr>): Regs
    decreases |code|
  {
    if code == [] then r else Run(Exec(r, code[0]), code[1..])
  }

  lemma {:induction false} RunAppend(r: Regs, x: seq<Instr>, y: seq<Instr>)
    ensures Run(r, x + y) == Run(Run(r, x), y)
    decreases |x|
  {
    if x == [] {
      assert x + y == y;
    } else {
      RunAppend(Exec(r, x[0]), x[1..], y);
      assert (x + y)[1..] == x[1..] + y;
      hide Exec;
    }
  }

  lemma RunTwo(r: Regs, i: Instr, j: Instr)
    ensures Run(r, [i]) == Exec(r, i) && Run(r, [i, j]) == Exec(Exec(r, i), j)
  {
    hide Exec;
    assert [i][1..] == [] && [i, j][1..] == [j] && [j][1..] == [];
    assert Run(Exec(r, i), [j]) == Run(Exec(Exec(r, i), j), []);
  }

  // ---- the 32-bit builders ----

  function LowSigned(b: nat): int {
    if b % 4096 >= 0x800 then b % 4096 - 0x1000 else b % 4096
  }

  /** The upper immediate, incremented when the low part is negative. */
  function Upper(b: nat): nat {
    var hi := b / 4096 % 0x10_0000;
    if b % 4096 >= 0x800 then (hi + 1) % 0x10_0000 else hi
  }

  /** The three 11-bit chunks, most significant first. */
  function Chunk(b: nat, k: nat): nat {
    (if k == 0 then b / 0x40_0000 else if k == 1 then b / 0x800 else b) % 0x800
  }

  function ChunkStep(rd: nat, b: nat, k: nat): seq<Instr> {
    [Slli(rd, rd, 11)] + (if Chunk(b, k) == 0 then [] else [Addi(rd, rd, Chunk(b, k))])
  }

  function Const(rd: nat, b: nat, noLui: bool): seq<Instr> {
    if noLui then [Addi(rd, 0, Chunk(b, 0))] + ChunkStep(rd, b, 1) + ChunkStep(rd, b, 2)
    else [Lui(rd, Upper(b))] + (if b % 4096 == 0 then [] else [Addi(rd, rd, LowSigned(b))])
  }

  /** const_to_reg_instrs. */
  method BuildConst(rd: nat, b: nat, noLui: bool) returns (lines: seq<Instr>)
    ensures lines == Const(rd, b, noLui)
  {
    if noLui {
      lines := [Addi(rd, 0, Chunk(b, 0))];
      for k := 1 to 3
        invariant lines == [Addi(rd, 0, Chunk(b, 0))] + (if k >= 2 then ChunkStep(rd, b, 1) else []) +
                           (if k >= 3 then ChunkStep(rd, b, 2) else [])
      {
        lines := lines + [Slli(rd, rd, 11)];
        if Chunk(b, k) != 0 {
          lines := lines + [Addi(rd, rd, Chunk(b, k))];
        }
      }
    } else {
      lines := [Lui(rd, Upper(b))];
      if b % 4096 != 0 {
        lines := lines + [Addi(rd, rd, LowSigned(b))];
      }
    }
  }

  /** Two registers agree except at `rd`. */
  ghost predicate OnlyAt(r: Regs, u: Regs, rd: nat) {
    forall j: nat :: j != rd ==> Get(u, j) == Get(r, j)
  }

  /** What the lui form leaves. */
  function LuiValue(b: nat): nat {
    var x := Signed32(Upper(b) * 4096) % TWO64;
    if b % 4096 == 0 then x else (x + LowSigned(b)) % TWO64
  }

  lemma LuiLeaves(r: Regs, rd: nat, b: nat)
    requires rd != 0
    ensures var u := Run(r, Const(rd, b, false)); Get(u, rd) == LuiValue(b) && OnlyAt(r, u, rd)
  {
    hide Get, Put, Signed32, LowSigned, Upper;
    var i, j := Lui(rd, Upper(b)), Addi(rd, rd, LowSigned(b));
    RunTwo(r, i, j);
    assert [i] + [j] == [i, j] && [i] + [] == [i];
  }

  function ChunkAdd(x: nat, c: nat): nat {
    var y := x * 2048 % TWO64;
    if c == 0 then y else (y + c) % TWO64
  }

  lemma ChunkStepLeaves(r: Regs, rd: nat, b: nat, k: nat)
    requires rd != 0
    ensures var u := Run(r, ChunkStep(rd, b, k)); Get(u, rd) == ChunkAdd(Get(r, rd), Chunk(b, k)) && OnlyAt(r, u, rd)
  {
    assert Pow2(11) == 2048;
    hide Get, Put, Chunk, Pow2;
    var i, j := Slli(rd, rd, 11), Addi(rd, rd, Chunk(b, k));
    RunTwo(r, i, j);
    assert [i] + [j] == [i, j] && [i] + [] == [i];
  }

  /** What the form without lui leaves. */
  function ChunkValue(b: nat): nat {
    ChunkAdd(ChunkAdd(Chunk(b, 0) % TWO64, Chunk(b, 1)), Chunk(b, 2))
  }

  lemma ChunksLeave(r: Regs, rd: nat, b: nat)
    requires rd != 0
    ensures var u := Run(r, Const(rd, b, true)); Get(u, rd) == ChunkValue(b) && OnlyAt(r, u, rd)
  {
    var first := [Addi(rd, 0, Chunk(b, 0))];
    var u1 := Run(r, first);
    var u2 := Run(u1, ChunkStep(rd, b, 1));
    RunTwo(r, first[0], first[0]);
    assert Get(r, 0) == 0;
    hide Get, Put, Chunk, ChunkAdd, ChunkStep, Run;
    ChunkStepLeaves(u1, rd, b, 1);
    ChunkStepLeaves(u2, rd, b, 2);
    RunAppend(r, first + ChunkStep(rd, b, 1), ChunkStep(rd, b, 2));
    RunAppend(r, first, ChunkStep(rd, b, 1));
  }

  // ---- the low 32 bits are right in both forms ----

  lemma UpperAndLow(b: nat)
    requires b < TWO32
    ensures Upper(b) * 4096 + LowSigned(b) == if b >= 0xFFFF_F800 then b - TWO32 else b
    ensures Upper(b) * 4096 < TWO32 && (Upper(b) * 4096 >= 0x8000_0000 <==> 0x7FFF_F800 <= b < 0xFFFF_F800)
    ensures b % 4096 == 0 ==> LowSigned(b) == 0
  {
  }

  lemma Wrap64(s: int)
    requires -TWO64 <= s < TWO64
    ensures s % TWO64 == if s < 0 then s + TWO64 else s
  {
  }

  /** The lui form in closed form: from 0x7FFFF800 up, the upper half is all ones. */
  lemma LuiClosed(b: nat)
    requires b < TWO32
    ensures LuiValue(b) == if b < 0x7FFF_F800 then b else b + TWO64 - TWO32
  {
    UpperAndLow(b);
    var u, l := Upper(b) * 4096, LowSigned(b);
    var x := Signed32(u);
    assert x == if u >= 0x8000_0000 then u - TWO32 else u;
    hide Upper, LowSigned, Signed32;
    Wrap64(x);
    assert (x % TWO64 + l) % TWO64 == if x + l < 0 then x + l + TWO64 else x + l by {
      SumWraps(x, l);
    }
  }

  lemma SumWraps(x: int, l: int)
    requires -TWO32 <= x < TWO32 && -4096 <= l < 4096
    ensures (x % TWO64 + l) % TWO64 == if x + l < 0 then x + l + TWO64 else x + l
  {
    Wrap64(x);
    Wrap64(x + l);
    assert (x + TWO64 + l) % TWO64 == (x + l) % TWO64;
  }

  lemma LuiLow(b: nat)
    requires b < TWO32
    ensures LuiValue(b) % TWO32 == b
  {
    LuiClosed(b);
    hide LuiValue;
  }

  lemma ChunkAddIs(x: nat, c: nat)
    requires x < 0x20_0000 && c < 0x800
    ensures ChunkAdd(x, c) == x * 0x800 + c
  {
  }

  lemma ChunkExact(b: nat)
    requires b < TWO32
    ensures ChunkValue(b) == b
  {
    hide Chunk, ChunkAdd;
    ChunkDigits(b);
    ChunkAddIs(Chunk(b, 0), Chunk(b, 1));
    ChunkAddIs(Chunk(b, 0) * 0x800 + Chunk(b, 1), Chunk(b, 2));
  }

  lemma ChunkDigits(b: nat)
    requires b < TWO32
    ensures (Chunk(b, 0) * 0x800 + Chunk(b, 1)) * 0x800 + Chunk(b, 2) == b
    ensures Chunk(b, 0) < 0x400 && Chunk(b, 1) < 0x800 && Chunk(b, 2) < 0x800
  {
    ChunkParts(b / 0x800 / 0x800, b / 0x800 % 0x800, b % 0x800);
  }

  lemma ChunkParts(k: nat, m: nat, l: nat)
    requires m < 0x800 && l < 0x800
    ensures var b := (k * 0x800 + m) * 0x800 + l;
            b / 0x40_0000 == k && b / 0x800 % 0x800 == m && b % 0x800 == l
  {
    var b := (k * 0x800 + m) * 0x800 + l;
    DivModUnique(b, 0x40_0000, k, m * 0x800 + l);
    DivModUnique(b, 0x800, k * 0x800 + m, l);
    DivModUnique(k * 0x800 + m, 0x800, k, m);
  }

  /** The lui form leaves the sign extension of its constant exactly outside one 2048-value window. */
  lemma LuiSignExtends(b: nat)
    requires b < TWO32
    ensures LuiValue(b) == Signed32(b) % TWO64 <==> !(0x7FFF_F800 <= b <= 0x7FFF_FFFF)
  {
    LuiClosed(b);
    hide LuiValue;
    Wrap64(Signed32(b));
  }

  lemma LuiExample()
    ensures LuiValue(0x7FFF_FFFF) == 0xFFFF_FFFF_7FFF_FFFF
  {
  }

  // ---- the 64-bit builder ----

  /** const64_to_reg_instrs. */
  function Const64(rd: nat, scratch: nat, b: nat, noLui: bool): seq<Instr> {
    (Const(rd, b / TWO32 % TWO32, noLui) + [Slli(rd, rd, 32)]) +
    (Const(scratch, b % TWO32, noLui) + [Slli(scratch, scratch, 32), Srli(scratch, scratch, 32)]) +
    [Or(rd, rd, scratch)]
  }

  lemma ConstLow(r: Regs, rd: nat, b: nat, noLui: bool)
    requires rd != 0 && b < TWO32
    ensures var u := Run(r, Const(rd, b, noLui)); Get(u, rd) % TWO32 == b && OnlyAt(r, u, rd)
  {
    hide Run, Const, Get, LuiValue, ChunkValue, OnlyAt;
    if noLui {
      ChunksLeave(r, rd, b);
      ChunkExact(b);
    } else {
      LuiLeaves(r, rd, b);
      LuiLow(b);
    }
  }

  lemma {:induction false} OrDisjoint(h: nat, l: nat, k: nat)
    requires l < Pow2(k)
    ensures BitOr(h * Pow2(k), l) == h * Pow2(k) + l
    decreases k
  {
    if h == 0 || l == 0 || k == 0 {
    } else {
      var p := Pow2(k - 1);
      assert h * Pow2(k) == 2 * (h * p);
      OrDisjoint(h, l / 2, k - 1);
    }
  }

  lemma Pow2At32()
    ensures Pow2(32) == TWO32
  {
    assert Pow2(8) == 0x100;
    Pow2Add(8, 8);
    Pow2Add(16, 16);
  }

  lemma ShiftDrops(x: nat)
    ensures x * TWO32 % TWO64 == x % TWO32 * TWO32
  {
    var q, m := x / TWO32, x % TWO32;
    assert x * TWO32 == q * TWO64 + m * TWO32;
  }

  /** The high half is built and shifted up; what the builder left above bit 31 drops out. */
  lemma HighBuilt(r: Regs, rd: nat, b: nat, noLui: bool)
    requires rd != 0 && b < TWO32
    ensures var u := Run(r, Const(rd, b, noLui) + [Slli(rd, rd, 32)]); Get(u, rd) == b * TWO32 && OnlyAt(r, u, rd)
  {
    Pow2At32();
    hide Get, Put, Run, Const, Pow2;
    var c, s := Const(rd, b, noLui), [Slli(rd, rd, 32)];
    RunAppend(r, c, s);
    ConstLow(r, rd, b, noLui);
    RunTwo(Run(r, c), s[0], s[0]);
    ShiftDrops(Get(Run(r, c), rd));
  }

  /** The low half is built and zero-extended by a shift up and down. */
  lemma LowBuilt(r: Regs, rd: nat, b: nat, noLui: bool)
    requires rd != 0 && b < TWO32
    ensures var u := Run(r, Const(rd, b, noLui) + [Slli(rd, rd, 32), Srli(rd, rd, 32)]); Get(u, rd) == b && OnlyAt(r, u, rd)
  {
    Pow2At32();
    hide Get, Put, Run, Const, Pow2;
    var c, s := Const(rd, b, noLui), [Slli(rd, rd, 32), Srli(rd, rd, 32)];
    RunAppend(r, c, s);
    ConstLow(r, rd, b, noLui);
    RunTwo(Run(r, c), s[0], s[1]);
    ShiftDrops(Get(Run(r, c), rd));
    assert b * TWO32 / TWO32 == b && b % TWO64 == b;
  }

  /** For every 64-bit constant and either 32-bit builder, rd ends up holding the constant. */
  lemma Const64Correct(r: Regs, rd: nat, scratch: nat, b: nat, noLui: bool)
    requires rd != 0 && scratch != 0 && rd != scratch && b < TWO64
    ensures var u := Run(r, Const64(rd, scratch, b, noLui));
            Get(u, rd) == b && forall j: nat :: j != rd && j != scratch ==> Get(u, j) == Get(r, j)
  {
    hide Get, Put, Run, Const, BitOr;
    var h, l := b / TWO32 % TWO32, b % TWO32;
    HalvesOr(b);
    var x := Const(rd, h, noLui) + [Slli(rd, rd, 32)];
    var y := Const(scratch, l, noLui) + [Slli(scratch, scratch, 32), Srli(scratch, scratch, 32)];
    var last := Or(rd, rd, scratch);
    HighBuilt(r, rd, h, noLui);
    LowBuilt(Run(r, x), scratch, l, noLui);
    RunAppend(r, x, y);
    RunAppend(r, x + y, [last]);
    RunTwo(Run(r, x + y), last, last);
  }

  /** The two halves do not overlap, so their bitwise or is the whole constant. */
  lemma HalvesOr(b: nat)
    requires b < TWO64
    ensures BitOr(b / TWO32 % TWO32 * TWO32, b % TWO32) == b
  {
    var h, l := b / TWO32 % TWO32, b % TWO32;
    assert b == h * TWO32 + l;
    Pow2At32();
    OrDisjoint(h, l, 32);
  }
}
