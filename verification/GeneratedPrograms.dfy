/**
  Plain-mode programs of sim/tools/random_gen.py: the layout pass that places forward labels, the
  label resolution of sim/tools/asm.py, and every run of the result on the reference model
  (sim/tools/iss.py).  Random choices are inputs, and the value an instruction computes is left
  open, so the claims hold for all of them.
 */
module GeneratedPrograms {
  import opened Wrappers
  import opened Arithmetic
  import opened JumpEncoding
  import ConstantBuilder

  const BASE_REG: nat := 31

  /** A straight-line instruction: its opcode, the register it may write, the access it may make off the base register. */
  datatype Op = Op(opcode: nat, f3: nat, rd: Option<nat>, access: Option<Access>)

  datatype Access = Access(off: nat, width: nat)

  /** One generated item before its target is chosen. */
  datatype Item = Plain(op: Op) | BranchItem(f3: nat, rs1: nat, rs2: nat) | JalItem(rd: nat)

  datatype Name = L(k: nat) | HaltName

  datatype Stmt = Do(op: Op) | SetBase(addr: nat) | Branch(f3: nat, rs1: nat, rs2: nat, target: Name)
                | Jal(rd: nat, target: Name)

  datatype Line = Code(stmt: Stmt) | LabelLine(name: Name)

  // ---- lines and labels ----

  /** The statements, labels stripped: what the assembler numbers. */
  function Stmts(lines: seq<Line>): seq<Stmt> {
    if lines == [] then []
    else
      var init, last := lines[..|lines| - 1], lines[|lines| - 1];
      if last.Code? then Stmts(init) + [last.stmt] else Stmts(init)
  }

  /** How many statements precede the last definition of a label. */
  function LastDef(lines: seq<Line>, name: Name): Option<nat> {
    if lines == [] then None
    else
      var init, last := lines[..|lines| - 1], lines[|lines| - 1];
      if last == LabelLine(name) then Some(|Stmts(init)|) else LastDef(init, name)
  }

  lemma Snoc(lines: seq<Line>, line: Line, name: Name)
    ensures Stmts(lines + [line]) == if line.Code? then Stmts(lines) + [line.stmt] else Stmts(lines)
    ensures LastDef(lines + [line], name)
         == if line == LabelLine(name) then Some(|Stmts(lines)|) else LastDef(lines, name)
  {
    var all := lines + [line];
    assert all[..|all| - 1] == lines;
  }

  /** The first pass of assemble: a later definition of a label replaces an earlier one. */
  method CollectLabels(lines: seq<Line>) returns (labels: map<Name, nat>, stmts: seq<Stmt>)
    ensures stmts == Stmts(lines)
    ensures forall name :: name in labels <==> LastDef(lines, name).Some?
    ensures forall name :: name in labels ==> labels[name] == 4 * LastDef(lines, name).value
  {
    labels, stmts := map[], [];
    var addr := 0;
    for k := 0 to |lines|
      invariant addr == 4 * |stmts| && stmts == Stmts(lines[..k])
      invariant forall name :: name in labels <==> LastDef(lines[..k], name).Some?
      invariant forall name :: name in labels ==> labels[name] == 4 * LastDef(lines[..k], name).value
    {
      assert lines[..k + 1] == lines[..k] + [lines[k]];
      forall name
        ensures LastDef(lines[..k + 1], name)
             == if lines[k] == LabelLine(name) then Some(|stmts|) else LastDef(lines[..k], name)
      {
        Snoc(lines[..k], lines[k], name);
      }
      Snoc(lines[..k], lines[k], HaltName);
      match lines[k] {
        case LabelLine(name) => labels := labels[name := addr];
        case Code(stmt) =>
          stmts := stmts + [stmt];
          addr := addr + 4;
      }
    }
    assert lines[..|lines|] == lines;
  }

  // ---- the layout pass ----

  /** The range a target is drawn from: strictly forward, or the end. */
  predicate PickOk(n: nat, i: nat, t: nat) {
    (if i + 2 <= n then i + 2 else n) <= t <= n
  }

  predicate Jumps(item: Item) {
    !item.Plain?
  }

  function Resolved(item: Item, t: nat): Stmt {
    match item
    case Plain(op) => Do(op)
    case BranchItem(f3, rs1, rs2) => Branch(f3, rs1, rs2, L(t))
    case JalItem(rd) => Jal(rd, L(t))
  }

  /** The statement a label ends up in front of. */
  function LabelIndex(n: nat, t: nat): int {
    if t == n then n else t - 1
  }

  /** Whatever target is drawn, it lies strictly ahead. */
  lemma Forward(n: nat, i: nat, t: nat)
    requires i < n && PickOk(n, i, t)
    ensures i < LabelIndex(n, t) <= n
  {
  }

  /** Drawn targets whose label the pass has already written after `k` items. */
  ghost predicate Placed(items: seq<Item>, picks: seq<nat>, out: seq<Line>, k: nat)
    requires |items| == |picks| && k <= |items|
  {
    forall j :: 0 <= j < k && Jumps(items[j]) && picks[j] <= k + 1 && picks[j] < |items| ==>
      LastDef(out, L(picks[j])) == Some(LabelIndex(|items|, picks[j]))
  }

  /** One statement per item, and every drawn label defined last where it belongs. */
  ghost predicate LaidOut(items: seq<Item>, picks: seq<nat>, out: seq<Line>)
    requires |items| == |picks|
  {
    |Stmts(out)| == |items| &&
    (forall i :: 0 <= i < |items| ==> Stmts(out)[i] == Resolved(items[i], picks[i])) &&
    (forall i :: 0 <= i < |items| && Jumps(items[i]) ==>
       LastDef(out, L(picks[i])) == Some(LabelIndex(|items|, picks[i])))
  }

  /**
    The second pass of gen_program: one statement per item in order, and every drawn label's last
    definition stands at the statement it names.
   */
  method Layout(items: seq<Item>, picks: seq<nat>) returns (out: seq<Line>)
    requires |picks| == |items| && forall i :: 0 <= i < |items| ==> PickOk(|items|, i, picks[i])
    ensures LaidOut(items, picks, out)
  {
    var n, labels: set<nat> := |items|, {};
    out := [];
    assert Stmts(out) == [] && FirstStmts(items, picks, 0) == [];
    hide Stmts, LastDef, FirstStmts, DrawnBy, Placed;
    assert Placed(items, picks, out, 0) by { NothingPlaced(items, picks, out); }
    assert labels == DrawnBy(items, picks, 0) by { DrawnMeans(items, picks, 0); }
    for idx := 0 to n
      invariant Stmts(out) == FirstStmts(items, picks, idx)
      invariant labels == DrawnBy(items, picks, idx)
      invariant Placed(items, picks, out, idx)
    {
      ghost var before := out;
      FirstStmtsStep(items, picks, idx);
      if Jumps(items[idx]) {
        labels := labels + {picks[idx]};
      }
      var code := Code(Resolved(items[idx], picks[idx]));
      SnocAll(out, code);
      out := out + [code];
      if idx + 2 in labels {
        SnocAll(out, LabelLine(L(idx + 2)));
        out := out + [LabelLine(L(idx + 2))];
      }
      PlacedStep(items, picks, before, out, idx);
    }
    ghost var open := out;
    if n in labels {
      SnocAll(out, LabelLine(L(n)));
      out := out + [LabelLine(L(n))];
    }
    AllPlaced(items, picks, open, out);
  }

  /** The statements of the first `k` items. */
  function FirstStmts(items: seq<Item>, picks: seq<nat>, k: nat): seq<Stmt>
    requires |picks| == |items| && k <= |items|
  {
    seq(k, i requires 0 <= i < k => Resolved(items[i], picks[i]))
  }

  /** The targets the first `k` items draw. */
  function DrawnBy(items: seq<Item>, picks: seq<nat>, k: nat): set<nat>
    requires |picks| == |items| && k <= |items|
  {
    if k == 0 then {} else DrawnBy(items, picks, k - 1) + (if Jumps(items[k - 1]) then {picks[k - 1]} else {})
  }

  lemma FirstStmtsStep(items: seq<Item>, picks: seq<nat>, k: nat)
    requires |picks| == |items| && k < |items|
    ensures FirstStmts(items, picks, k + 1) == FirstStmts(items, picks, k) + [Resolved(items[k], picks[k])]
    ensures |FirstStmts(items, picks, k)| == k
    ensures DrawnBy(items, picks, k + 1) == DrawnBy(items, picks, k) + (if Jumps(items[k]) then {picks[k]} else {})
  {
  }

  lemma {:induction false} DrawnMeans(items: seq<Item>, picks: seq<nat>, k: nat)
    requires |picks| == |items| && k <= |items|
    ensures forall t :: t in DrawnBy(items, picks, k) <==> exists j :: 0 <= j < k && Jumps(items[j]) && picks[j] == t
  {
    if k > 0 {
      DrawnMeans(items, picks, k - 1);
    }
  }

  lemma NothingPlaced(items: seq<Item>, picks: seq<nat>, out: seq<Line>)
    requires |picks| == |items|
    ensures Placed(items, picks, out, 0)
  {
  }

  /** After the closing label everything drawn is in place. */
  lemma AllPlaced(items: seq<Item>, picks: seq<nat>, open: seq<Line>, out: seq<Line>)
    requires |picks| == |items| && (forall i :: 0 <= i < |items| ==> PickOk(|items|, i, picks[i]))
    requires Placed(items, picks, open, |items|) && Stmts(out) == FirstStmts(items, picks, |items|)
    requires forall name ::
      LastDef(out, name) == if |items| in DrawnBy(items, picks, |items|) && name == L(|items|) then Some(|items|)
                            else LastDef(open, name)
    ensures LaidOut(items, picks, out)
  {
    hide Stmts, LastDef, DrawnBy;
    DrawnMeans(items, picks, |items|);
    forall i | 0 <= i < |items| && Jumps(items[i])
      ensures LastDef(out, L(picks[i])) == Some(LabelIndex(|items|, picks[i]))
    {
      assert PickOk(|items|, i, picks[i]);
      if picks[i] == |items| {
        assert |items| in DrawnBy(items, picks, |items|);
      }
    }
  }

  /** One item and, if it was drawn, the label due after it keep the placement. */
  lemma PlacedStep(items: seq<Item>, picks: seq<nat>, before: seq<Line>, after: seq<Line>, idx: nat)
    requires |items| == |picks| && idx < |items| && (forall i :: 0 <= i < |items| ==> PickOk(|items|, i, picks[i]))
    requires Placed(items, picks, before, idx)
    requires forall name ::
      LastDef(after, name) == if idx + 2 in DrawnBy(items, picks, idx + 1) && name == L(idx + 2) then Some(idx + 1)
                              else LastDef(before, name)
    ensures Placed(items, picks, after, idx + 1)
  {
    hide LastDef, DrawnBy;
    DrawnMeans(items, picks, idx + 1);
    forall j | 0 <= j < idx + 1 && Jumps(items[j]) && picks[j] <= idx + 2 && picks[j] < |items|
      ensures LastDef(after, L(picks[j])) == Some(LabelIndex(|items|, picks[j]))
    {
      if picks[j] == idx + 2 {
        assert idx + 2 in DrawnBy(items, picks, idx + 1);
      } else {
        assert PickOk(|items|, j, picks[j]);
        assert j < idx;
      }
    }
  }

  lemma SnocAll(lines: seq<Line>, line: Line)
    ensures Stmts(lines + [line]) == if line.Code? then Stmts(lines) + [line.stmt] else Stmts(lines)
    ensures forall name ::
      LastDef(lines + [line], name) == if line == LabelLine(name) then Some(|Stmts(lines)|) else LastDef(lines, name)
  {
    forall name
      ensures LastDef(lines + [line], name)
           == if line == LabelLine(name) then Some(|Stmts(lines)|) else LastDef(lines, name)
    {
      Snoc(lines, line, name);
    }
    Snoc(lines, line, HaltName);
  }

  // ---- whole programs ----

  /** Parameters and random choices: base register value, memory size, width, items and targets. */
  datatype Gen = Gen(base: nat, space: nat, wide: bool, items: seq<Item>, picks: seq<nat>) {

    function Seeds(): seq<Op> { SeedOps(wide) }
  }

  const FENCE := Op(0x0F, 0, None, None)
  const MOVE_TO_FLOAT := Op(0x53, 0, None, None)

  /** lui, addi and slli and srli, or. */
  function OpcodeOf(i: ConstantBuilder.Instr): nat {
    if i.Lui? then 0x37 else if i.Or? then 0x33 else 0x13
  }

  function FunctOf(i: ConstantBuilder.Instr): nat {
    match i
    case Addi(_, _, _) => 0
    case Lui(_, _) => 0
    case Slli(_, _, _) => 1
    case Srli(_, _, _) => 5
    case Or(_, _, _) => 6
  }

  /** What matters of building a constant: each instruction writes its register. */
  function OpsOf(code: seq<ConstantBuilder.Instr>): seq<Op> {
    seq(|code|, k requires 0 <= k < |code| => Op(OpcodeOf(code[k]), FunctOf(code[k]), Some(code[k].rd), None))
  }

  const FLOAT_SEED_BITS := [0x0000_0000, 0x3F80_0000, 0xBF80_0000, 0x7F80_0000, 0x7FC0_0000, 0x0040_0000]

  /** Each bit pattern is built in x30 and moved to a float register. */
  function FloatSeeds(bits: seq<nat>): seq<Op> {
    if bits == [] then [] else OpsOf(ConstantBuilder.Const(30, bits[0], false)) + [MOVE_TO_FLOAT] + FloatSeeds(bits[1..])
  }

  /** The seeding code; at XLEN=64 a wide constant goes to x29. */
  function SeedOps(wide: bool): seq<Op> {
    FloatSeeds(FLOAT_SEED_BITS) +
    (if wide then OpsOf(ConstantBuilder.Const64(29, 30, 0xDEAD_BEEF_1234_5678, false)) else [])
  }

  /** A seeding instruction touches neither the base register nor memory. */
  predicate Harmless(op: Op) {
    op.rd != Some(BASE_REG) && op.access.None? && op.opcode in {0x13, 0x33, 0x37, 0x53}
  }

  lemma {:induction false} FloatSeedsCount(bits: seq<nat>)
    requires forall k :: 0 <= k < |bits| ==> bits[k] % 4096 == 0
    ensures |FloatSeeds(bits)| == 2 * |bits| && forall k :: 0 <= k < |FloatSeeds(bits)| ==> Harmless(FloatSeeds(bits)[k])
  {
    if bits != [] {
      FloatSeedsCount(bits[1..]);
    }
  }

  /** Twelve seeding instructions, and eight more at XLEN=64. */
  lemma SeedCount(wide: bool)
    ensures |SeedOps(wide)| == (if wide then 20 else 12) && forall k :: 0 <= k < |SeedOps(wide)| ==> Harmless(SeedOps(wide)[k])
  {
    FloatSeedsCount(FLOAT_SEED_BITS);
    if wide {
      WideSeed();
    }
    hide FloatSeeds, OpsOf;
  }

  lemma WideSeed()
    ensures var ops := OpsOf(ConstantBuilder.Const64(29, 30, 0xDEAD_BEEF_1234_5678, false));
            |ops| == 8 && forall k :: 0 <= k < |ops| ==> Harmless(ops[k])
  {
    var hi, lo := ConstantBuilder.Const(29, 0xDEAD_BEEF, false), ConstantBuilder.Const(30, 0x1234_5678, false);
    assert |hi| == 2 && hi[0].rd == 29 && hi[1].rd == 29 && |lo| == 2 && lo[0].rd == 30 && lo[1].rd == 30;
    assert 0xDEAD_BEEF_1234_5678 / ConstantBuilder.TWO32 % ConstantBuilder.TWO32 == 0xDEAD_BEEF;
    assert 0xDEAD_BEEF_1234_5678 % ConstantBuilder.TWO32 == 0x1234_5678;
    hide ConstantBuilder.Const;
  }

  /** The offset drawn for an access: a multiple of its width up to the largest that fits, else zero. */
  predicate Drawn(g: Gen, a: Access) {
    var room := g.space - g.base - a.width;
    var most := if room <= 2047 then room else 2047;
    (a.width == 1 || a.width == 2 || a.width == 4 || (g.wide && a.width == 8)) &&
    if most >= 0 then a.off % a.width == 0 && a.off <= most else a.off == 0
  }

  /** An aligned access inside memory. */
  predicate InMemory(space: nat, addr: nat, width: nat)
    requires width > 0
  {
    addr % width == 0 && addr + width <= space
  }

  /** A drawn access is safe exactly when its width divides the base and one such access fits above it. */
  lemma DrawnIsSafe(g: Gen, a: Access)
    requires Drawn(g, a)
    ensures a.width > 0
    ensures InMemory(g.space, g.base + a.off, a.width) <==> g.base % a.width == 0 && g.base + a.width <= g.space
    ensures a.off <= 2047
  {
    AlignedSum(g.base, a.off, a.width);
  }

  /** Adding a multiple of the width keeps alignment and misalignment. */
  lemma AlignedSum(base: nat, off: nat, width: nat)
    requires width > 0 && off % width == 0
    ensures (base + off) % width == base % width
  {
    var q, b, r := off / width, base / width, base % width;
    assert off == q * width && base == b * width + r;
    assert base + off == (b + q) * width + r;
    DivModUnique(base + off, width, b + q, r);
  }

  /** The straight-line opcodes of the mnemonics that are drawn; the word forms only at XLEN=64. */
  predicate Emitted(wide: bool, op: Op) {
    op.opcode in {0x33, 0x13, 0x37, 0x03, 0x23, 0x07, 0x27, 0x53, 0x43, 0x47, 0x4B, 0x4F} ||
    (op.opcode == 0x73 && op.f3 in {1, 2, 3, 5, 6, 7}) || (op.opcode == 0x0F && op.f3 == 0) ||
    (wide && op.opcode in {0x3B, 0x1B})
  }

  /** Drawn opcodes, only general registers written, and accesses at drawn offsets. */
  predicate SafeOp(g: Gen, op: Op) {
    Emitted(g.wide, op) && op.rd != Some(BASE_REG) && (op.access.Some? ==> Drawn(g, op.access.value))
  }

  predicate SafeItem(g: Gen, item: Item) {
    match item
    case Plain(op) => SafeOp(g, op)
    case BranchItem(f3, rs1, rs2) => f3 < 8 && rs1 < 32 && rs2 < 32
    case JalItem(rd) => rd < 32 && rd != BASE_REG
  }

  predicate GenOk(g: Gen) {
    |g.picks| == |g.items| &&
    (forall i :: 0 <= i < |g.items| ==> SafeItem(g, g.items[i]) && PickOk(|g.items|, i, g.picks[i]))
  }

  /** Everything the generator can draw is covered: opcodes, conditions, registers, widths with their offsets, and targets. */
  lemma ChoicesCovered(g: Gen, f3: nat, rs1: nat, rs2: nat, rd: nat, width: nat, k: nat, n: nat, i: nat, t: nat)
    requires f3 < 8 && rs1 < 32 && rs2 < 32 && rd < 31
    ensures SafeItem(g, BranchItem(f3, rs1, rs2)) && SafeItem(g, JalItem(rd))
    ensures forall c :: c in {0x33, 0x13, 0x37, 0x53, 0x43, 0x47, 0x4B, 0x4F} ==> SafeItem(g, Plain(Op(c, f3, Some(rd), None)))
    ensures g.wide ==> forall c :: c in {0x3B, 0x1B} ==> SafeItem(g, Plain(Op(c, f3, Some(rd), None)))
    ensures f3 % 4 != 0 ==> SafeItem(g, Plain(Op(0x73, f3, Some(rd), None)))
    ensures width == 1 || width == 2 || width == 4 || (g.wide && width == 8) ==>
              (k * width <= 2047 && g.base + k * width + width <= g.space ==> Drawn(g, Access(k * width, width))) &&
              (g.base + width > g.space ==> Drawn(g, Access(0, width)))
    ensures forall c, a :: c in {0x03, 0x23, 0x07, 0x27} && Drawn(g, a) ==> SafeItem(g, Plain(Op(c, f3, Some(rd), Some(a))))
    ensures i < n && t <= n && (i + 2 <= t || t == n) ==> PickOk(n, i, t)
  {
    if width > 0 {
      DivModUnique(k * width, width, k, 0);
    }
  }

  function Prologue(g: Gen): seq<Line> {
    [Code(SetBase(g.base))] + seq(|g.Seeds()|, k requires 0 <= k < |g.Seeds()| => Code(Do(g.Seeds()[k])))
  }

  /** fence, then the halt loop. */
  function Trailer(): seq<Line> {
    [Code(Do(FENCE)), LabelLine(HaltName), Code(Jal(0, HaltName))]
  }

  /** The whole text around a laid-out body. */
  function Text(g: Gen, body: seq<Line>): seq<Line> {
    Prologue(g) + body + Trailer()
  }

  lemma {:induction false} Concat(x: seq<Line>, y: seq<Line>, name: Name)
    ensures Stmts(x + y) == Stmts(x) + Stmts(y)
    ensures LastDef(x + y, name)
         == if LastDef(y, name).Some? then Some(|Stmts(x)| + LastDef(y, name).value) else LastDef(x, name)
    decreases |y|
  {
    if y == [] {
      assert x + y == x && Stmts(x) + [] == Stmts(x);
    } else {
      var init, last := y[..|y| - 1], y[|y| - 1];
      assert y == init + [last] && x + y == (x + init) + [last];
      Concat(x, init, name);
      Snoc(x + init, last, name);
      Snoc(init, last, name);
    }
  }

  lemma {:induction false} PlainLines(lines: seq<Line>, name: Name)
    requires forall k :: 0 <= k < |lines| ==> lines[k].Code?
    ensures |Stmts(lines)| == |lines| && LastDef(lines, name) == None
    ensures forall k :: 0 <= k < |lines| ==> Stmts(lines)[k] == lines[k].stmt
    decreases |lines|
  {
    if lines != [] {
      PlainLines(lines[..|lines| - 1], name);
    }
  }

  lemma TrailerLines(name: Name)
    ensures Stmts(Trailer()) == [Do(FENCE), Jal(0, HaltName)]
    ensures LastDef(Trailer(), name) == if name == HaltName then Some(1) else None
  {
    var a, b := [Code(Do(FENCE))], [Code(Do(FENCE)), LabelLine(HaltName)];
    Snoc([], a[0], name);
    assert [] + [a[0]] == a && a + [b[1]] == b && b + [Code(Jal(0, HaltName))] == Trailer();
    Snoc(a, b[1], name);
    Snoc(b, Code(Jal(0, HaltName)), name);
  }

  lemma PrologueLines(g: Gen, name: Name)
    ensures LastDef(Prologue(g), name) == None && |Stmts(Prologue(g))| == 1 + |g.Seeds()|
    ensures Stmts(Prologue(g))[0] == SetBase(g.base)
    ensures forall k :: 0 < k <= |g.Seeds()| ==> Stmts(Prologue(g))[k] == Do(g.Seeds()[k - 1])
  {
    hide Stmts, LastDef, Gen.Seeds, SeedOps;
    PlainLines(Prologue(g), name);
    assert Prologue(g)[0] == Code(SetBase(g.base));
    assert forall k :: 0 < k <= |g.Seeds()| ==> Prologue(g)[k] == Code(Do(g.Seeds()[k - 1]));
  }

  /** Statements of the whole text. */
  lemma TextStmts(g: Gen, body: seq<Line>)
    ensures Stmts(Text(g, body)) == Stmts(Prologue(g)) + Stmts(body) + [Do(FENCE), Jal(0, HaltName)]
  {
    hide Stmts, LastDef, Prologue, Trailer;
    TrailerLines(HaltName);
    Concat(Prologue(g), body, HaltName);
    Concat(Prologue(g) + body, Trailer(), HaltName);
  }

  /** Labels of the whole text. */
  lemma TextLabels(g: Gen, body: seq<Line>, name: Name)
    ensures LastDef(Text(g, body), name) ==
              if name == HaltName then Some(1 + |g.Seeds()| + |Stmts(body)| + 1)
              else if LastDef(body, name).Some? then Some(1 + |g.Seeds()| + LastDef(body, name).value) else None
  {
    hide Stmts, LastDef, Prologue, Trailer, Gen.Seeds, SeedOps;
    PrologueLines(g, name);
    TrailerLines(name);
    Concat(Prologue(g), body, name);
    Concat(Prologue(g) + body, Trailer(), name);
  }

  // ---- assembled programs ----

  /** An instruction as the reference model decodes it; offsets are in bytes from its own address. */
  datatype Instr = Exec(op: Op) | Base(addr: nat) | Br(f3: nat, rs1: nat, rs2: nat, off: int) | Jump(rd: nat, off: int)

  /** The reference model's decoding of an assembled branch or jal word. */
  function BranchInstr(word: Option<nat>): Option<Instr> {
    if word.Some? && word.value % 128 == 0x63 then
      var w := word.value;
      Some(Br(w / 0x1000 % 8, w / 0x8000 % 32, w / 0x10_0000 % 32, DecodeBranch(w)))
    else None
  }

  function JalInstr(word: Option<nat>): Option<Instr> {
    if word.Some? && word.value % 128 == 0x6F then Some(Jump(JalRd(word.value), DecodeJal(word.value))) else None
  }

  /** Statement `k`, its label resolved, assembled and decoded; None when the label is missing or out of reach. */
  function Linked(lines: seq<Line>, k: nat): Option<Instr>
    requires k < |Stmts(lines)|
  {
    match Stmts(lines)[k]
    case Do(op) => Some(Exec(op))
    case SetBase(addr) => if addr <= 2047 then Some(Base(addr)) else None
    case Branch(f3, rs1, rs2, name) =>
      var d := LastDef(lines, name);
      if d.None? then None else BranchInstr(EncodeBranch(f3, rs1, rs2, 4 * d.value - 4 * k))
    case Jal(rd, name) =>
      var d := LastDef(lines, name);
      if d.None? then None else JalInstr(EncodeJal(rd, 4 * d.value - 4 * k))
  }

  ghost predicate Assembled(lines: seq<Line>, prog: seq<Instr>) {
    |prog| == |Stmts(lines)| && forall k :: 0 <= k < |prog| ==> Linked(lines, k) == Some(prog[k])
  }

  /** A jump from `k` lands on a later instruction of a program of `n`. */
  predicate Ahead(n: nat, k: nat, off: int) {
    off > 0 && off % 4 == 0 && 4 * k + off <= 4 * (n - 1)
  }

  predicate SafeInstr(g: Gen, n: nat, k: nat, i: Instr) {
    match i
    case Exec(op) => SafeOp(g, op)
    case Base(_) => false
    case Br(_, _, _, off) => Ahead(n, k, off)
    case Jump(rd, off) => rd != BASE_REG && Ahead(n, k, off)
  }

  /** Base register first, forward jumps only, and the halt loop last. */
  predicate GoodProgram(g: Gen, prog: seq<Instr>) {
    |prog| >= 2 && prog[0] == Base(g.base) && prog[|prog| - 1] == Jump(0, 0) &&
    forall k :: 0 < k < |prog| - 1 ==> SafeInstr(g, |prog|, k, prog[k])
  }

  /** The label a statement jumps to, if any. */
  function TargetOf(stmt: Stmt): Option<Name> {
    match stmt
    case Branch(_, _, _, name) => Some(name)
    case Jal(_, name) => Some(name)
    case _ => None
  }

  /** The instruction an item stands for when its target is `off` bytes ahead. */
  function Executed(item: Item, off: int): Instr {
    match item
    case Plain(op) => Exec(op)
    case BranchItem(f3, rs1, rs2) => Br(f3, rs1, rs2, off)
    case JalItem(rd) => Jump(rd, off)
  }

  /** What a body item assembles to, at a distance of `off` bytes from its target. */
  lemma AssembledJump(item: Item, t: nat, off: int)
    requires item.BranchItem? ==> item.f3 < 8 && item.rs1 < 32 && item.rs2 < 32
    requires item.JalItem? ==> item.rd < 32
    ensures item.BranchItem? ==>
      var i := BranchInstr(EncodeBranch(item.f3, item.rs1, item.rs2, off));
      (i.Some? ==> i.value == Br(item.f3, item.rs1, item.rs2, off)) && (0 < off < 4096 && off % 2 == 0 ==> i.Some?)
    ensures item.JalItem? ==>
      var i := JalInstr(EncodeJal(item.rd, off));
      (i.Some? ==> i.value == Jump(item.rd, off)) && (0 < off < 4096 && off % 2 == 0 ==> i.Some?)
  {
    if item.BranchItem? {
      BranchRoundTrip(item.f3, item.rs1, item.rs2, off);
    } else if item.JalItem? {
      JalRoundTrip(item.rd, off);
    }
    hide EncodeBranch, EncodeJal, DecodeBranch, DecodeJal, JalRd;
  }

  /**
    Every label of a generated program resolves to a strictly later instruction, and everything
    assembles when the program is within a branch's reach.
   */
  lemma BodyLinks(g: Gen, body: seq<Line>, i: nat)
    requires GenOk(g) && LaidOut(g.items, g.picks, body) && i < |g.items|
    ensures var k, n := 1 + |g.Seeds()| + i, 3 + |g.Seeds()| + |g.items|;
            |Stmts(Text(g, body))| == n &&
            (TargetOf(Stmts(Text(g, body))[k]).Some? ==>
               var d := LastDef(Text(g, body), TargetOf(Stmts(Text(g, body))[k]).value); d.Some? && k < d.value < n) &&
            (4 * n <= 4096 ==> Linked(Text(g, body), k).Some?) &&
            (Linked(Text(g, body), k).Some? ==>
               SafeInstr(g, n, k, Linked(Text(g, body), k).value) &&
               Linked(Text(g, body), k).value == Executed(g.items[i], 4 * (LabelIndex(|g.items|, g.picks[i]) - i)))
  {
    hide Stmts, LastDef, Text, SafeItem, LaidOut, Linked, SafeInstr, TargetOf, PickOk, Gen.Seeds, Jumps, Resolved;
    var k, n, t := 1 + |g.Seeds()| + i, 3 + |g.Seeds()| + |g.items|, g.picks[i];
    BodyPlace(g, body, i);
    Forward(|g.items|, i, t);
    ItemLinks(g, Text(g, body), k, n, g.items[i], t, 1 + |g.Seeds()| + LabelIndex(|g.items|, t));
  }

  /** A statement whose label stands ahead assembles to a safe instruction, or is out of reach. */
  lemma ItemLinks(g: Gen, lines: seq<Line>, k: nat, n: nat, item: Item, t: nat, d: nat)
    requires SafeItem(g, item) && |Stmts(lines)| == n && k < d < n && Stmts(lines)[k] == Resolved(item, t)
    requires Jumps(item) ==> LastDef(lines, L(t)) == Some(d)
    ensures TargetOf(Stmts(lines)[k]).Some? ==> LastDef(lines, TargetOf(Stmts(lines)[k]).value) == Some(d)
    ensures 4 * n <= 4096 ==> Linked(lines, k).Some?
    ensures Linked(lines, k).Some? ==>
      SafeInstr(g, n, k, Linked(lines, k).value) && Linked(lines, k).value == Executed(item, 4 * d - 4 * k)
  {
    hide Stmts, LastDef, SafeOp, BranchInstr, JalInstr, EncodeBranch, EncodeJal, Ahead;
    AheadBy(n, k, d);
    AssembledJump(item, t, 4 * d - 4 * k);
  }

  lemma AheadBy(n: nat, k: nat, d: nat)
    requires k < d < n
    ensures Ahead(n, k, 4 * d - 4 * k) && (4 * d - 4 * k) % 2 == 0 && 0 < 4 * d - 4 * k < 4 * n
  {
    DivModUnique(4 * d - 4 * k, 4, d - k, 0);
    DivModUnique(4 * d - 4 * k, 2, 2 * (d - k), 0);
  }

  /** Where a body item and its label stand in the whole text. */
  lemma BodyPlace(g: Gen, body: seq<Line>, i: nat)
    requires GenOk(g) && LaidOut(g.items, g.picks, body) && i < |g.items|
    ensures |Stmts(Text(g, body))| == 3 + |g.Seeds()| + |g.items|
    ensures Stmts(Text(g, body))[1 + |g.Seeds()| + i] == Resolved(g.items[i], g.picks[i])
    ensures Jumps(g.items[i]) ==>
      LastDef(Text(g, body), L(g.picks[i])) == Some(1 + |g.Seeds()| + LabelIndex(|g.items|, g.picks[i]))
  {
    hide Stmts, LastDef, Text, SafeOp, Prologue, PickOk, SeedOps, Gen.Seeds, Resolved, SafeItem;
    TextStmts(g, body);
    TextLabels(g, body, L(g.picks[i]));
    PrologueLines(g, HaltName);
    assert Stmts(body)[i] == Resolved(g.items[i], g.picks[i]);
  }

  /** What stands before the body and after it. */
  lemma EdgeLinks(g: Gen, body: seq<Line>, k: nat)
    requires |Stmts(body)| == |g.items|
    ensures var lines, n, p := Text(g, body), 3 + |g.Seeds()| + |g.items|, 1 + |g.Seeds()|;
            |Stmts(lines)| == n &&
            Linked(lines, 0) == (if g.base <= 2047 then Some(Base(g.base)) else None) &&
            (0 < k < p ==> Linked(lines, k) == Some(Exec(g.Seeds()[k - 1]))) &&
            Linked(lines, n - 2) == Some(Exec(FENCE)) && Linked(lines, n - 1) == Some(Jump(0, 0))
  {
    hide Stmts, LastDef, Text, Prologue, BranchInstr, SeedOps, EncodeJal, DecodeJal, JalRd, Resolved;
    TextStmts(g, body);
    TextLabels(g, body, HaltName);
    PrologueLines(g, HaltName);
    JalRoundTrip(0, 0);
  }

  lemma GeneratedIsGood(g: Gen, body: seq<Line>, prog: seq<Instr>)
    requires GenOk(g) && LaidOut(g.items, g.picks, body) && Assembled(Text(g, body), prog)
    ensures GoodProgram(g, prog) && |prog| == 3 + |g.Seeds()| + |g.items|
  {
    hide Stmts, LastDef, Text, Drawn, SeedOps, Linked, LaidOut, GenOk;
    var p, n, lines := 1 + |g.Seeds()|, 3 + |g.Seeds()| + |g.items|, Text(g, body);
    BodySize(g, body);
    EdgeLinks(g, body, 0);
    SeedCount(g.wide);
    assert Linked(lines, 0) == Some(prog[0]) && Linked(lines, n - 1) == Some(prog[n - 1]);
    forall k | 0 < k < n - 1
      ensures SafeInstr(g, n, k, prog[k])
    {
      assert Linked(lines, k) == Some(prog[k]);
      EdgeLinks(g, body, k);
      if k < p {
        assert Harmless(g.Seeds()[k - 1]);
      } else if k < p + |g.items| {
        BodyLinks(g, body, k - p);
      }
    }
  }

  lemma BodySize(g: Gen, body: seq<Line>)
    requires GenOk(g) && LaidOut(g.items, g.picks, body)
    ensures |Stmts(body)| == |g.items|
  {
    hide Stmts, LastDef;
  }

  // ---- every run ----

  datatype Mach = Mach(pc: int, x31: nat)

  /** What an instruction's data decides: whether a branch is taken, and the value written. */
  datatype Outcome = Outcome(taken: bool, val: nat)

  predicate At(prog: seq<Instr>, m: Mach, k: nat) {
    k < |prog| && m.pc == 4 * k
  }

  /**
    The arms of the reference model's step that go on to the next instruction in machine mode;
    every other opcode, SYSTEM with funct3 zero and fence.i included, traps or jumps.
   */
  predicate Sequential(op: Op) {
    op.opcode in {0x33, 0x3B, 0x13, 0x1B, 0x03, 0x23, 0x37, 0x17, 0x07, 0x27, 0x53, 0x43, 0x47, 0x4B, 0x4F} ||
    (op.opcode == 0x73 && op.f3 != 0) || (op.opcode == 0x0F && op.f3 == 0)
  }

  /** What leaves the straight line goes where the trap vector or a register says, which is left open. */
  function Step(i: Instr, m: Mach, o: Outcome): Mach {
    match i
    case Exec(op) =>
      if !Sequential(op) then m.(pc := o.val) else Mach(m.pc + 4, if op.rd == Some(BASE_REG) then o.val else m.x31)
    case Base(addr) => Mach(m.pc + 4, addr)
    case Br(_, _, _, off) => m.(pc := if o.taken then m.pc + off else m.pc + 4)
    case Jump(rd, off) => Mach(m.pc + off, if rd == BASE_REG && m.pc + 4 >= 0 then m.pc + 4 else m.x31)
  }

  /** One step of the model's run loop, which stops at a jump to itself. */
  ghost predicate Moves(prog: seq<Instr>, m: Mach, o: Outcome, u: Mach) {
    exists k: nat :: At(prog, m, k) && prog[k] != Jump(0, 0) && u == Step(prog[k], m, o)
  }

  /** A run from reset that has not met the halt loop before its last state. */
  ghost predicate IsRun(prog: seq<Instr>, ms: seq<Mach>, os: seq<Outcome>) {
    |ms| == |os| + 1 && ms[0].pc == 0 && forall j :: 0 <= j < |os| ==> Moves(prog, ms[j], os[j], ms[j + 1])
  }

  /** Where a state of a run may be after `j` steps. */
  predicate Inside(g: Gen, prog: seq<Instr>, m: Mach, j: nat) {
    m.pc % 4 == 0 && 4 * j <= m.pc <= 4 * (|prog| - 1) && (m.pc > 0 ==> m.x31 == g.base)
  }

  lemma StepInside(g: Gen, prog: seq<Instr>, m: Mach, o: Outcome, u: Mach, j: nat)
    requires GoodProgram(g, prog) && Inside(g, prog, m, j) && Moves(prog, m, o, u)
    ensures Inside(g, prog, u, j + 1) && u.pc > m.pc
  {
    var k: nat :| At(prog, m, k) && prog[k] != Jump(0, 0) && u == Step(prog[k], m, o);
    if k > 0 {
      assert SafeInstr(g, |prog|, k, prog[k]);
    }
    hide Drawn;
  }

  /** No instruction a run executes traps. */
  lemma RunNeverTraps(g: Gen, prog: seq<Instr>, ms: seq<Mach>, os: seq<Outcome>, j: nat, k: nat)
    requires GoodProgram(g, prog) && IsRun(prog, ms, os) && j < |ms| && At(prog, ms[j], k) && prog[k].Exec?
    ensures Sequential(prog[k].op)
  {
    hide IsRun, Drawn;
    RunInside(g, prog, ms, os, j);
    assert k > 0 && SafeInstr(g, |prog|, k, prog[k]);
  }

  /** In every run the pc strictly increases inside the program and x31 keeps the base address. */
  lemma {:induction false} RunInside(g: Gen, prog: seq<Instr>, ms: seq<Mach>, os: seq<Outcome>, j: nat)
    requires GoodProgram(g, prog) && IsRun(prog, ms, os) && j < |ms|
    ensures Inside(g, prog, ms[j], j)
    ensures j > 0 ==> ms[j - 1].pc < ms[j].pc
  {
    if j > 0 {
      RunInside(g, prog, ms, os, j - 1);
      assert Moves(prog, ms[j - 1], os[j - 1], ms[j]);
      hide Moves, GoodProgram, Inside;
      StepInside(g, prog, ms[j - 1], os[j - 1], ms[j], j - 1);
    }
  }

  /**
    A load or store a run executes is aligned and inside memory exactly when its width divides the
    base address and fits above it; so all are when the widest access does.
   */
  lemma RunAccesses(g: Gen, prog: seq<Instr>, ms: seq<Mach>, os: seq<Outcome>, j: nat, k: nat)
    requires GoodProgram(g, prog) && IsRun(prog, ms, os) && j < |ms| && At(prog, ms[j], k)
    requires prog[k].Exec? && prog[k].op.access.Some?
    ensures var a := prog[k].op.access.value;
            a.width > 0 &&
            (InMemory(g.space, ms[j].x31 + a.off, a.width) <==> g.base % a.width == 0 && g.base + a.width <= g.space)
    ensures var a, widest := prog[k].op.access.value, if g.wide then 8 else 4;
            g.base % widest == 0 && g.base + widest <= g.space ==> InMemory(g.space, ms[j].x31 + a.off, a.width)
  {
    hide IsRun, InMemory;
    RunInside(g, prog, ms, os, j);
    var a := prog[k].op.access.value;
    assert k > 0 && SafeInstr(g, |prog|, k, prog[k]);
    DrawnIsSafe(g, a);
    WidthDivides(g, a);
    hide Drawn;
  }

  lemma WidthDivides(g: Gen, a: Access)
    requires Drawn(g, a)
    ensures var widest := if g.wide then 8 else 4;
            0 < a.width <= widest && (g.base % widest == 0 ==> g.base % a.width == 0)
  {
    if g.base % 8 == 0 {
      Quarters(2 * (g.base / 8));
    } else if g.base % 4 == 0 {
      Quarters(g.base / 4);
    }
  }

  lemma Quarters(k: nat)
    ensures 4 * k % 4 == 0 && 4 * k % 2 == 0
  {
    DivModUnique(4 * k, 4, k, 0);
    DivModUnique(4 * k, 2, 2 * k, 0);
  }

  /**
    Every run halts: it takes fewer steps than the program has instructions, and where it cannot
    go on it stands at the halt loop.
   */
  lemma RunHalts(g: Gen, prog: seq<Instr>, ms: seq<Mach>, os: seq<Outcome>)
    requires GoodProgram(g, prog) && IsRun(prog, ms, os)
    ensures |os| < |prog|
    ensures exists k: nat :: At(prog, ms[|os|], k)
    ensures (forall o, m :: !IsRun(prog, ms + [m], os + [o])) ==> ms[|os|].pc == 4 * (|prog| - 1)
  {
    RunInside(g, prog, ms, os, |os|);
    var last := ms[|os|];
    var k := last.pc / 4;
    assert At(prog, last, k);
    if k != |prog| - 1 {
      assert prog[k] != Jump(0, 0) by {
        if k > 0 {
          assert SafeInstr(g, |prog|, k, prog[k]);
        }
      }
      var o := Outcome(false, 0);
      var m := Step(prog[k], last, o);
      assert Moves(prog, last, o, m);
      hide GoodProgram, Moves;
      Extends(prog, ms, os, m, o);
    }
  }

  lemma Extends(prog: seq<Instr>, ms: seq<Mach>, os: seq<Outcome>, m: Mach, o: Outcome)
    requires IsRun(prog, ms, os) && Moves(prog, ms[|os|], o, m)
    ensures IsRun(prog, ms + [m], os + [o])
  {
    hide Moves;
    var ms', os' := ms + [m], os + [o];
    forall j | 0 <= j < |os'|
      ensures Moves(prog, ms'[j], os'[j], ms'[j + 1])
    {
      if j < |os| {
        assert Moves(prog, ms[j], os[j], ms[j + 1]);
      }
    }
  }

  // ---- the size check ----

  /** What gen_program counts against the instruction memory. */
  function Budget(wide: bool, items: nat): nat {
    1 + 2 * |FLOAT_SEED_BITS| + (if wide then 8 else 0) + items + 1
  }

  /** The check counts one trailing instruction, the text has two: it fits exactly below the limit. */
  lemma BudgetMissesOne(g: Gen, body: seq<Line>, prog: seq<Instr>, words: nat)
    requires GenOk(g) && LaidOut(g.items, g.picks, body) && Assembled(Text(g, body), prog)
    ensures |prog| <= words <==> Budget(g.wide, |g.items|) < words
  {
    GeneratedIsGood(g, body, prog);
    SeedCount(g.wide);
  }

  /** Eighteen items pass the check for 32 words at XLEN=32 and give 33. */
  lemma BudgetExample(g: Gen, body: seq<Line>, prog: seq<Instr>)
    requires GenOk(g) && LaidOut(g.items, g.picks, body) && Assembled(Text(g, body), prog) && !g.wide && |g.items| == 18
    ensures Budget(false, 18) <= 32 && |prog| == 33
  {
    GeneratedIsGood(g, body, prog);
    SeedCount(g.wide);
  }

  // ---- such programs exist ----

  /** Every statement preceded by its own label, for the first `k` items. */
  function Labelled(items: seq<Item>, picks: seq<nat>, k: nat): seq<Line>
    requires |picks| == |items| && k <= |items|
  {
    if k == 0 then []
    else Labelled(items, picks, k - 1) + [LabelLine(L(k))] + [Code(Resolved(items[k - 1], picks[k - 1]))]
  }

  lemma {:induction false} LabelledDefs(items: seq<Item>, picks: seq<nat>, k: nat, t: nat)
    requires |picks| == |items| && k <= |items|
    ensures Stmts(Labelled(items, picks, k)) == FirstStmts(items, picks, k)
    ensures LastDef(Labelled(items, picks, k), L(t)) == if 1 <= t <= k then Some(t - 1) else None
  {
    hide Stmts, LastDef, Resolved;
    if k == 0 {
      NothingDefined(L(t));
    } else {
      LabelledDefs(items, picks, k - 1, t);
      var init := Labelled(items, picks, k - 1);
      Snoc(init, LabelLine(L(k)), L(t));
      Snoc(init + [LabelLine(L(k))], Code(Resolved(items[k - 1], picks[k - 1])), L(t));
      FirstStmtsStep(items, picks, k - 1);
    }
  }

  lemma NothingDefined(name: Name)
    ensures Stmts([]) == [] && LastDef([], name) == None
  {
  }

  /** Any items with targets drawn from their ranges have a layout. */
  lemma LayoutExists(items: seq<Item>, picks: seq<nat>) returns (out: seq<Line>)
    requires |picks| == |items| && forall i :: 0 <= i < |items| ==> PickOk(|items|, i, picks[i])
    ensures LaidOut(items, picks, out)
  {
    hide Stmts, LastDef, Resolved;
    var n, open := |items|, Labelled(items, picks, |items|);
    out := open + [LabelLine(L(n))];
    LabelledDefs(items, picks, n, 0);
    Snoc(open, LabelLine(L(n)), HaltName);
    forall i | 0 <= i < n && Jumps(items[i])
      ensures LastDef(out, L(picks[i])) == Some(LabelIndex(n, picks[i]))
    {
      LabelledDefs(items, picks, n, picks[i]);
      Snoc(open, LabelLine(L(n)), L(picks[i]));
      Forward(n, i, picks[i]);
      assert PickOk(n, i, picks[i]);
    }
  }

  /** Every choice of items within a branch's reach assembles, whatever targets were drawn. */
  lemma ProgramExists(g: Gen) returns (body: seq<Line>, prog: seq<Instr>)
    requires GenOk(g) && g.base <= 2047 && 4 * (3 + |g.Seeds()| + |g.items|) <= 4096
    ensures LaidOut(g.items, g.picks, body) && Assembled(Text(g, body), prog)
  {
    hide Stmts, LastDef, Text, SafeItem, PickOk, LaidOut, SafeInstr, TargetOf, Linked, Gen.Seeds;
    body := LayoutExists(g.items, g.picks);
    BodySize(g, body);
    var lines, p, n := Text(g, body), 1 + |g.Seeds()|, 3 + |g.Seeds()| + |g.items|;
    EdgeLinks(g, body, 0);
    forall k | 0 <= k < n
      ensures Linked(lines, k).Some?
    {
      EdgeLinks(g, body, k);
      if p <= k < p + |g.items| {
        BodyLinks(g, body, k - p);
      }
    }
    prog := seq(n, k requires 0 <= k < n => if Linked(lines, k).Some? then Linked(lines, k).value else Jump(0, 0));
  }

  /** A program of eighteen additions that the size check lets into 32 words and that needs 33. */
  lemma BudgetWitness() returns (g: Gen, body: seq<Line>, prog: seq<Instr>)
    ensures GenOk(g) && LaidOut(g.items, g.picks, body) && Assembled(Text(g, body), prog) && !g.wide && g.space == 128
    ensures Budget(g.wide, |g.items|) <= g.space / 4 < |prog|
  {
    hide LaidOut, Text, Assembled, SeedOps;
    g := Gen(16, 128, false, seq(18, _ => Plain(Op(0x33, 0, Some(1), None))), seq(18, _ => 18));
    SeedCount(false);
    body, prog := ProgramExists(g);
    BudgetExample(g, body, prog);
  }
}
