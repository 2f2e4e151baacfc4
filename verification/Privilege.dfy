/**
  The privilege machine of the reference model (sim/tools/iss.py, class ISS) at XLEN=32: CSR
  reads and masked writes, traps with delegation, mret, sret and the SYSTEM instructions.
  Every register is a 32-bit vector; the CSR storage is the model's own dictionary.
 */
module Privilege {
  import opened Wrappers

  /** A register value. */
  datatype Bits = Bits(v: bv32)

  const ZERO := Bits(0)

  const FFLAGS: nat := 0x001
  const FRM: nat := 0x002
  const FCSR: nat := 0x003
  const SSTATUS: nat := 0x100
  const SIE: nat := 0x104
  const STVEC: nat := 0x105
  const SSCRATCH: nat := 0x140
  const SEPC: nat := 0x141
  const SCAUSE: nat := 0x142
  const STVAL: nat := 0x143
  const SIP: nat := 0x144
  const SATP: nat := 0x180
  const MSTATUS: nat := 0x300
  const MEDELEG: nat := 0x302
  const MIDELEG: nat := 0x303
  const MIE: nat := 0x304
  const MTVEC: nat := 0x305
  const MSCRATCH: nat := 0x340
  const MEPC: nat := 0x341
  const MCAUSE: nat := 0x342
  const MTVAL: nat := 0x343
  const MIP: nat := 0x344

  const PRIV_U: nat := 0
  const PRIV_S: nat := 1
  const PRIV_M: nat := 3

  const ILLEGAL := Bits(2)
  const BREAKPOINT := Bits(3)
  const ECALL_U := Bits(8)
  const ECALL_S := Bits(9)
  const ECALL_M := Bits(11)

  // Bit masks: MIE, MPIE and MPP are the machine half of mstatus, SIE, SPIE and SPP the
  // supervisor half; bits 1, 5 and 9 of mie and mip are the supervisor's.
  const M_HALF: bv32 := 0x1888
  const S_HALF: bv32 := 0x0122
  const S_INTS: bv32 := 0x0222
  const M_INTS: bv32 := 0x0888
  const MEDELEG_BITS: bv32 := 0xBB0C

  function Bit(v: bv32, i: bv32): bv32
    requires i <= 32
  {
    (v >> i) & 1
  }

  // ---- fields of mstatus and mie ----

  function MHalf(m: Bits): Bits { Bits(m.v & M_HALF) }

  function SHalf(m: Bits): Bits { Bits(m.v & S_HALF) }

  function MInts(e: Bits): Bits { Bits(e.v & M_INTS) }

  function SInts(e: Bits): Bits { Bits(e.v & S_INTS) }

  predicate Sie(m: Bits) { Bit(m.v, 1) != 0 }

  predicate Mie(m: Bits) { Bit(m.v, 3) != 0 }

  predicate Spie(m: Bits) { Bit(m.v, 5) != 0 }

  predicate Mpie(m: Bits) { Bit(m.v, 7) != 0 }

  function Spp(m: Bits): (p: nat)
    ensures p < 2
  {
    if Bit(m.v, 8) != 0 then 1 else 0
  }

  function Mpp(m: Bits): (p: nat)
    ensures p < 4
  {
    var k := (m.v >> 11) & 3;
    if k == 0 then 0 else if k == 1 then 1 else if k == 2 then 2 else 3
  }

  /** A privilege as the two bits it is stored in. */
  function PrivBits(priv: nat): bv32 {
    if priv == 0 then 0 else if priv == 1 then 1 else if priv == 2 then 2 else 3
  }

  /** A write through sstatus. */
  function ViaSstatus(m: Bits, v: Bits): (k: Bits)
    ensures MHalf(k) == MHalf(m) && SHalf(k) == SHalf(v)
  {
    Bits((m.v & !S_HALF) | (v.v & S_HALF))
  }

  /** A write through sie. */
  function ViaSie(e: Bits, v: Bits): (k: Bits)
    ensures MInts(k) == MInts(e) && SInts(k) == SInts(v)
  {
    Bits((e.v & !S_INTS) | (v.v & S_INTS))
  }

  /** mstatus after a trap to S. */
  function EnterS(m: Bits, priv: nat): (k: Bits)
    ensures MHalf(k) == MHalf(m) && (priv < 2 ==> Spp(k) == priv) && Spie(k) == Sie(m) && !Sie(k)
  {
    Bits((m.v & !S_HALF) | (Bit(m.v, 1) << 5) | ((PrivBits(priv) & 1) << 8))
  }

  /** mstatus after a trap to M. */
  function EnterM(m: Bits, priv: nat): (k: Bits)
    ensures SHalf(k) == SHalf(m) && (priv < 4 ==> Mpp(k) == priv) && Mpie(k) == Mie(m) && !Mie(k)
  {
    Bits((m.v & !M_HALF) | (Bit(m.v, 3) << 7) | (PrivBits(priv) << 11))
  }

  /** mstatus after mret. */
  function LeaveM(m: Bits): (k: Bits)
    ensures SHalf(k) == SHalf(m) && Mpp(k) == PRIV_U && Mpie(k) && Mie(k) == Mpie(m)
  {
    Bits((m.v & !M_HALF) | (Bit(m.v, 7) << 3) | (1 << 7) | (PrivBits(PRIV_U) << 11))
  }

  /** mstatus after sret. */
  function LeaveS(m: Bits): (k: Bits)
    ensures MHalf(k) == MHalf(m) && Spp(k) == 0 && Spie(k) && Sie(k) == Spie(m)
  {
    Bits((m.v & !S_HALF) | (Bit(m.v, 5) << 1) | (1 << 5))
  }

  /** The supervisor's view of mstatus, and of mie and mip. */
  function SstatusView(m: Bits): Bits {
    Bits((Bit(m.v, 1) << 1) | (Bit(m.v, 5) << 5) | (Bit(m.v, 8) << 8))
  }

  function SieView(e: Bits): Bits {
    Bits((Bit(e.v, 1) << 1) | (Bit(e.v, 5) << 5) | (Bit(e.v, 9) << 9))
  }

  // ---- floating-point status ----

  function Low5(v: Bits): Bits { Bits(v.v & 0x1F) }

  function Low3(v: Bits): Bits { Bits(v.v & 7) }

  function RoundingField(v: Bits): Bits { Bits((v.v >> 5) & 7) }

  function FcsrWord(frm: Bits, fflags: Bits): Bits { Bits(((frm.v & 7) << 5) | (fflags.v & 0x1F)) }

  function Accrue(fflags: Bits, flags: Bits): Bits { Bits((fflags.v | flags.v) & 0x1F) }

  /** The stored CSRs; sstatus, sie and sip are views and have no entry. */
  const STORED: set<nat> := {MSTATUS, MTVEC, MSCRATCH, MEPC, MCAUSE, SSCRATCH, SEPC, SCAUSE, STVAL, MTVAL,
                              STVEC, SATP, MIDELEG, MEDELEG, MIE, MIP}

  /** dict.get(a, 0). */
  function At(csr: map<nat, Bits>, a: nat): Bits {
    if a in csr then csr[a] else ZERO
  }

  function Store(csr: map<nat, Bits>, a: nat, v: Bits): (r: map<nat, Bits>)
    ensures forall b: nat :: At(r, b) == if b == a then v else At(csr, b)
    ensures r.Keys == csr.Keys + {a}
  {
    csr[a := v]
  }

  datatype Hart = Hart(csr: map<nat, Bits>, priv: nat, pc: Bits, frm: Bits, fflags: Bits) {

    function Get(a: nat): Bits { At(csr, a) }

    function Put(a: nat, v: Bits): Hart { this.(csr := Store(csr, a, v)) }

    predicate Complete() {
      csr.Keys == STORED
    }
  }

  function ResetHart(): Hart {
    Hart(map a | a in STORED :: ZERO, PRIV_M, ZERO, ZERO, ZERO)
  }

  /** The privilege an address demands: its bits 9 and 8. */
  function Level(a: nat): nat {
    a / 0x100 % 4
  }

  /** csr_read. */
  function CsrRead(h: Hart, a: nat): Bits {
    if a == FFLAGS then Low5(h.fflags)
    else if a == FRM then Low3(h.frm)
    else if a == FCSR then FcsrWord(h.frm, h.fflags)
    else if a == SSTATUS then SstatusView(h.Get(MSTATUS))
    else if a == SIE then SieView(h.Get(MIE))
    else if a == SIP then SieView(h.Get(MIP))
    else h.Get(a)
  }

  /** csr_write. */
  function CsrWrite(h: Hart, a: nat, v: Bits): Hart {
    if a == FFLAGS then h.(fflags := Low5(v))
    else if a == FRM then h.(frm := Low3(v))
    else if a == FCSR then h.(frm := RoundingField(v), fflags := Low5(v))
    else if a == SSTATUS then h.Put(MSTATUS, ViaSstatus(h.Get(MSTATUS), v))
    else if a == SIE then h.Put(MIE, ViaSie(h.Get(MIE), v))
    else if a == MIP || a == SIP then h.Put(MIP, SInts(v))
    else if a in h.csr then h.Put(a, Masked(a, v))
    else h
  }

  /** The bits of a written value that the register at `a` has. */
  function Masked(a: nat, v: Bits): Bits {
    if a == MSTATUS then Bits(v.v & (M_HALF | S_HALF))
    else if a == MIE || a == MIDELEG then Bits(v.v & (M_INTS | S_INTS))
    else if a == MEDELEG then Bits(v.v & MEDELEG_BITS)
    else v
  }

  predicate IsInterrupt(cause: Bits) { cause.v & 0x8000_0000 != 0 }

  predicate Delegates(deleg: Bits, cause: Bits) { Bit(deleg.v, cause.v & 0x1F) != 0 }

  /** Whether a trap of this cause goes to S: never from M, else by the delegation bit. */
  predicate ToS(h: Hart, cause: Bits) {
    h.priv != PRIV_M && Delegates(h.Get(if IsInterrupt(cause) then MIDELEG else MEDELEG), cause)
  }

  function TrapS(h: Hart, cause: Bits, tval: Bits): Hart {
    h.Put(SEPC, h.pc).Put(SCAUSE, cause).Put(STVAL, tval).Put(MSTATUS, EnterS(h.Get(MSTATUS), h.priv))
     .(priv := PRIV_S, pc := h.Get(STVEC))
  }

  function TrapM(h: Hart, cause: Bits, tval: Bits): Hart {
    h.Put(MEPC, h.pc).Put(MCAUSE, cause).Put(MTVAL, tval).Put(MSTATUS, EnterM(h.Get(MSTATUS), h.priv))
     .(priv := PRIV_M, pc := h.Get(MTVEC))
  }

  /** trap. */
  function Trap(h: Hart, cause: Bits, tval: Bits): Hart {
    if ToS(h, cause) then TrapS(h, cause, tval) else TrapM(h, cause, tval)
  }

  /** mret. */
  function Mret(h: Hart): Hart {
    var m := h.Get(MSTATUS);
    h.Put(MSTATUS, LeaveM(m)).(priv := Mpp(m), pc := h.Get(MEPC))
  }

  /** sret. */
  function Sret(h: Hart): Hart {
    var m := h.Get(MSTATUS);
    h.Put(MSTATUS, LeaveS(m)).(priv := Spp(m), pc := h.Get(SEPC))
  }

  // ---- instructions ----

  /**
    One event of a run.  `next` is the address of the following instruction and `src` the operand
    of a CSR access; `Fault` is a trap raised by any other instruction or by address translation;
    `Plain` is any other instruction, with the address it continues at and the flags it raises.
   */
  datatype Op = Csr(f3: nat, addr: nat, src: Bits, next: Bits)
              | Ecall | Ebreak | MretInsn | SretInsn | SfenceVma(next: Bits) | UnknownSystem
              | Fault(cause: Bits, tval: Bits) | Interrupt(cause: Bits) | Plain(next: Bits, flags: Bits)

  /** The value a CSR instruction writes; low bits 01 write, 10 set, otherwise clear. */
  function NewValue(f3: nat, old_: Bits, src: Bits): Bits {
    if f3 % 4 == 1 then src
    else if f3 % 4 == 2 then Bits(old_.v | src.v)
    else Bits(old_.v & !src.v)
  }

  /** The SYSTEM arm of step, and the scheduled interrupt of run.  None is the model's KeyError. */
  function Exec(h: Hart, op: Op): Option<Hart> {
    match op
    case Csr(f3, addr, src, next) =>
      if h.priv < Level(addr) then Some(Trap(h, ILLEGAL, ZERO))
      else Some(CsrWrite(h, addr, NewValue(f3, CsrRead(h, addr), src)).(pc := next))
    case Ecall =>
      if h.priv == PRIV_M then Some(Trap(h, ECALL_M, ZERO))
      else if h.priv == PRIV_S then Some(Trap(h, ECALL_S, ZERO))
      else if h.priv == PRIV_U then Some(Trap(h, ECALL_U, ZERO))
      else None
    case Ebreak => Some(Trap(h, BREAKPOINT, ZERO))
    case MretInsn => Some(if h.priv != PRIV_M then Trap(h, ILLEGAL, ZERO) else Mret(h))
    case SretInsn => Some(if h.priv == PRIV_U then Trap(h, ILLEGAL, ZERO) else Sret(h))
    case SfenceVma(next) => Some(if h.priv == PRIV_U then Trap(h, ILLEGAL, ZERO) else h.(pc := next))
    case UnknownSystem => Some(Trap(h, ILLEGAL, ZERO))
    case Fault(cause, tval) => Some(Trap(h, cause, tval))
    case Interrupt(cause) => Some(if Mie(h.Get(MSTATUS)) then Trap(h, cause, ZERO) else h)
    case Plain(next, flags) => Some(h.(pc := next, fflags := Accrue(h.fflags, flags)))
  }

  // ---- machine-state isolation ----

  /** Everything a trap to M relies on is as it was. */
  predicate MachineSame(h: Hart, k: Hart) {
    h.Get(MTVEC) == k.Get(MTVEC) && h.Get(MEPC) == k.Get(MEPC) && h.Get(MCAUSE) == k.Get(MCAUSE) &&
    h.Get(MTVAL) == k.Get(MTVAL) && h.Get(MSCRATCH) == k.Get(MSCRATCH) &&
    h.Get(MEDELEG) == k.Get(MEDELEG) && h.Get(MIDELEG) == k.Get(MIDELEG) &&
    MHalf(h.Get(MSTATUS)) == MHalf(k.Get(MSTATUS)) && MInts(h.Get(MIE)) == MInts(k.Get(MIE))
  }

  /** `k` is where `h` lands when it traps to M. */
  predicate EntersMachine(h: Hart, k: Hart) {
    k.priv == PRIV_M && k.pc == h.Get(MTVEC) && k.Get(MEPC) == h.pc &&
    Mpp(k.Get(MSTATUS)) == h.priv && Mpie(k.Get(MSTATUS)) == Mie(h.Get(MSTATUS)) &&
    !Mie(k.Get(MSTATUS)) && SHalf(k.Get(MSTATUS)) == SHalf(h.Get(MSTATUS)) &&
    k.Get(MTVEC) == h.Get(MTVEC) && k.Get(MSCRATCH) == h.Get(MSCRATCH) &&
    k.Get(MEDELEG) == h.Get(MEDELEG) && k.Get(MIDELEG) == h.Get(MIDELEG) && k.Get(MIE) == h.Get(MIE)
  }

  predicate LowPrivilege(h: Hart) {
    h.priv == PRIV_U || h.priv == PRIV_S
  }

  lemma LowAddress(a: nat)
    requires Level(a) != 3
    ensures a < 0x300 || a > 0x3FF
  {
  }

  /** Storing outside the machine's registers, or only into the supervisor's half of one. */
  lemma PutSame(h: Hart, a: nat, x: Bits)
    requires a < 0x300 || a > 0x3FF || a == MIP
          || (a == MSTATUS && MHalf(x) == MHalf(h.Get(MSTATUS))) || (a == MIE && MInts(x) == MInts(h.Get(MIE)))
    ensures MachineSame(h, h.Put(a, x))
  {
    hide MHalf, MInts, At, Store;
  }

  /** A write to an address outside the machine's block of the address space. */
  lemma LowWriteIsolated(h: Hart, a: nat, v: Bits)
    requires a < 0x300 || a > 0x3FF
    ensures MachineSame(h, CsrWrite(h, a, v)) && CsrWrite(h, a, v).priv == h.priv
  {
    hide MHalf, MInts, SHalf, ViaSstatus, ViaSie, Masked, At, Store, MachineSame;
    if a == SSTATUS {
      PutSame(h, MSTATUS, ViaSstatus(h.Get(MSTATUS), v));
    } else if a == SIE {
      PutSame(h, MIE, ViaSie(h.Get(MIE), v));
    } else if a == SIP {
      PutSame(h, MIP, SInts(v));
    } else if a == FFLAGS || a == FRM || a == FCSR || a !in h.csr {
      SameCsr(h, CsrWrite(h, a, v));
    } else {
      PutSame(h, a, Masked(a, v));
    }
  }

  lemma SameCsr(h: Hart, k: Hart)
    requires h.csr == k.csr
    ensures MachineSame(h, k)
  {
    hide MHalf, MInts, At;
  }

  lemma TrapIsolated(h: Hart, cause: Bits, tval: Bits)
    requires LowPrivilege(h)
    ensures ToS(h, cause) ==> MachineSame(h, Trap(h, cause, tval)) && Trap(h, cause, tval).priv == PRIV_S
    ensures !ToS(h, cause) ==> EntersMachine(h, Trap(h, cause, tval))
  {
    hide MHalf, MInts, SHalf, EnterS, EnterM, ToS, Mpp, Mpie, Mie, Spp, Spie, Sie, At, Store;
  }

  /** From U or S one event either stays there and keeps the machine state, or enters M. */
  lemma StepIsolated(h: Hart, op: Op)
    requires LowPrivilege(h)
    ensures Exec(h, op).Some?
    ensures var k := Exec(h, op).value;
            (LowPrivilege(k) && MachineSame(h, k)) || EntersMachine(h, k)
  {
    hide MachineSame, EntersMachine, ToS, CsrRead, CsrWrite, NewValue, Trap, Sret, Mret, Level, Mie;
    match op {
      case Csr(f3, addr, src, next) =>
        TrapIsolated(h, ILLEGAL, ZERO);
        if h.priv >= Level(addr) {
          var v := NewValue(f3, CsrRead(h, addr), src);
          LowAddress(addr);
          LowWriteIsolated(h, addr, v);
          SamePlain(h, CsrWrite(h, addr, v), next, h.fflags);
        }
      case Ecall => TrapIsolated(h, ECALL_S, ZERO); TrapIsolated(h, ECALL_U, ZERO);
      case Ebreak => TrapIsolated(h, BREAKPOINT, ZERO);
      case Fault(cause, tval) => TrapIsolated(h, cause, tval);
      case Interrupt(cause) => TrapIsolated(h, cause, ZERO); SamePlain(h, h, h.pc, h.fflags);
      case Plain(next, flags) => SamePlain(h, h, next, Accrue(h.fflags, flags));
      case SretInsn => TrapIsolated(h, ILLEGAL, ZERO); SretIsolated(h);
      case SfenceVma(next) => TrapIsolated(h, ILLEGAL, ZERO); SamePlain(h, h, next, h.fflags);
      case _ => TrapIsolated(h, ILLEGAL, ZERO);
    }
  }

  /** The pc and the floating-point flags are no part of the machine state. */
  lemma SamePlain(h: Hart, k: Hart, next: Bits, flags: Bits)
    ensures MachineSame(h, h)
    ensures MachineSame(h, k) ==> MachineSame(h, k.(pc := next)) && MachineSame(h, k.(pc := next, fflags := flags))
  {
    hide MHalf, MInts;
  }

  lemma SretIsolated(h: Hart)
    ensures MachineSame(h, Sret(h)) && LowPrivilege(Sret(h))
  {
    hide MHalf, MInts, LeaveS, Spp, Spie, Sie;
  }

  lemma SameChain(h: Hart, k: Hart, u: Hart)
    requires MachineSame(h, k) && MachineSame(k, u)
    ensures MachineSame(h, u)
  {
    hide MHalf, MInts;
  }

  lemma EntryAfter(h: Hart, k: Hart, u: Hart)
    requires MachineSame(h, k) && EntersMachine(k, u)
    ensures u.pc == h.Get(MTVEC) && u.Get(MTVEC) == h.Get(MTVEC) && u.Get(MSCRATCH) == h.Get(MSCRATCH)
    ensures u.Get(MEDELEG) == h.Get(MEDELEG) && u.Get(MIDELEG) == h.Get(MIDELEG)
    ensures Mpie(u.Get(MSTATUS)) == Mie(h.Get(MSTATUS))
    ensures MInts(u.Get(MIE)) == MInts(h.Get(MIE))
  {
    MieOfHalf(h.Get(MSTATUS), k.Get(MSTATUS));
    hide MHalf, MInts, SHalf, Mie, Mpie, Mpp;
  }

  lemma MieOfHalf(x: Bits, y: Bits)
    requires MHalf(x) == MHalf(y)
    ensures Mie(x) == Mie(y) && Mpie(x) == Mpie(y) && Mpp(x) == Mpp(y)
  {
    assert Mie(x) == Mie(MHalf(x)) && Mie(y) == Mie(MHalf(y));
    assert Mpie(x) == Mpie(MHalf(x)) && Mpie(y) == Mpie(MHalf(y));
    assert Mpp(x) == Mpp(MHalf(x)) && Mpp(y) == Mpp(MHalf(y));
  }

  /** The states a run passes through, the initial one first. */
  ghost predicate IsRun(hs: seq<Hart>, ops: seq<Op>) {
    |hs| == |ops| + 1 && forall j :: 0 <= j < |ops| ==> Exec(hs[j], ops[j]) == Some(hs[j + 1])
  }

  /**
    Machine-state isolation over whole runs: from U or S, as long as no state is in M, whatever
    instructions, delegated traps and returns are executed, privilege stays in {U, S} and the
    machine state never changes.
   */
  lemma {:induction false} RunIsolated(hs: seq<Hart>, ops: seq<Op>, n: nat)
    requires IsRun(hs, ops) && LowPrivilege(hs[0]) && n < |hs|
    requires forall j :: 0 <= j <= n ==> hs[j].priv != PRIV_M
    ensures LowPrivilege(hs[n]) && MachineSame(hs[0], hs[n])
  {
    if n == 0 {
      SamePlain(hs[0], hs[0], ZERO, ZERO);
    } else {
      RunIsolated(hs, ops, n - 1);
      StepIsolated(hs[n - 1], ops[n - 1]);
      assert Exec(hs[n - 1], ops[n - 1]) == Some(hs[n]);
      hide MachineSame, Exec;
      SameChain(hs[0], hs[n - 1], hs[n]);
    }
  }

  /**
    M is only ever entered through the trap vector M itself set up before leaving: at the first
    state in M, control is at the initial mtvec, the delegation registers, mscratch and the
    machine interrupt enables are the initial ones, MPIE holds the initial MIE, and mepc and MPP
    record the interrupted pc and privilege.
   */
  lemma MachineEntry(hs: seq<Hart>, ops: seq<Op>, n: nat)
    requires IsRun(hs, ops) && LowPrivilege(hs[0]) && n + 1 < |hs|
    requires forall j :: 0 <= j <= n ==> hs[j].priv != PRIV_M
    requires hs[n + 1].priv == PRIV_M
    ensures var h, u := hs[0], hs[n + 1];
            u.pc == h.Get(MTVEC) && u.Get(MTVEC) == h.Get(MTVEC) && u.Get(MSCRATCH) == h.Get(MSCRATCH) &&
            u.Get(MEDELEG) == h.Get(MEDELEG) && u.Get(MIDELEG) == h.Get(MIDELEG) &&
            Mpie(u.Get(MSTATUS)) == Mie(h.Get(MSTATUS)) && MInts(u.Get(MIE)) == MInts(h.Get(MIE)) &&
            u.Get(MEPC) == hs[n].pc && Mpp(u.Get(MSTATUS)) == hs[n].priv
  {
    RunIsolated(hs, ops, n);
    StepIsolated(hs[n], ops[n]);
    assert Exec(hs[n], ops[n]) == Some(hs[n + 1]);
    hide MachineSame, Exec, IsRun;
    EntryAfter(hs[0], hs[n], hs[n + 1]);
  }

  // ---- nested trap return ----

  /** What the supervisor's pending return depends on. */
  predicate SavedSame(h: Hart, k: Hart) {
    h.Get(SEPC) == k.Get(SEPC) && h.Get(SCAUSE) == k.Get(SCAUSE) && SHalf(h.Get(MSTATUS)) == SHalf(k.Get(MSTATUS))
  }

  /** The saved state, MPP and the privilege are as they were. */
  predicate Undisturbed(h: Hart, k: Hart) {
    SavedSame(h, k) && Mpp(k.Get(MSTATUS)) == Mpp(h.Get(MSTATUS)) && k.priv == h.priv
  }

  /**
    An event that neither traps nor returns and leaves the saved state alone: any access to a CSR
    that holds none of it, and to one that does if what is written leaves it as it is.
   */
  predicate Quiet(h: Hart, op: Op) {
    op.Plain? || (op.SfenceVma? && h.priv != PRIV_U) ||
    (op.Csr? && h.priv >= Level(op.addr) &&
     ((op.addr != MSTATUS && op.addr != SSTATUS && op.addr != SEPC && op.addr != SCAUSE) ||
      Undisturbed(h, CsrWrite(h, op.addr, NewValue(op.f3, CsrRead(h, op.addr), op.src)))))
  }

  ghost predicate TrapsToM(h: Hart, op: Op) {
    exists cause, tval :: Exec(h, op) == Some(TrapM(h, cause, tval))
  }

  /** Handler code: quiet in either mode; S may trap to M, and M may return. */
  ghost predicate HandlerStep(h: Hart, op: Op) {
    ((h.priv == PRIV_S || h.priv == PRIV_M) && Quiet(h, op)) ||
    (h.priv == PRIV_S && TrapsToM(h, op)) || (h.priv == PRIV_M && op.MretInsn?)
  }

  /** In S, or in M on behalf of S, with the saved state as at `t`. */
  predicate InHandler(t: Hart, h: Hart) {
    SavedSame(t, h) && (h.priv == PRIV_S || (h.priv == PRIV_M && Mpp(h.Get(MSTATUS)) == PRIV_S))
  }

  lemma QuietKeeps(h: Hart, op: Op)
    requires Quiet(h, op)
    ensures Exec(h, op).Some?
    ensures Undisturbed(h, Exec(h, op).value)
  {
    hide SHalf, ViaSstatus, ViaSie, Masked, At, Store, NewValue, CsrRead, CsrWrite, Level, Trap, Sret, Mret, Mie, Mpp;
    if op.Csr? && op.addr != MSTATUS && op.addr != SSTATUS && op.addr != SEPC && op.addr != SCAUSE {
      WriteAside(h, op.addr, NewValue(op.f3, CsrRead(h, op.addr), op.src));
    }
  }

  /** The registers the saved state lives in. */
  predicate SavedCsrs(h: Hart, k: Hart) {
    k.Get(MSTATUS) == h.Get(MSTATUS) && k.Get(SEPC) == h.Get(SEPC) && k.Get(SCAUSE) == h.Get(SCAUSE) && k.priv == h.priv
  }

  lemma PutAside(h: Hart, a: nat, x: Bits)
    requires a != MSTATUS && a != SEPC && a != SCAUSE
    ensures SavedCsrs(h, h.Put(a, x))
  {
    hide At, Store;
  }

  lemma WriteAside(h: Hart, a: nat, v: Bits)
    requires a != MSTATUS && a != SSTATUS && a != SEPC && a != SCAUSE
    ensures SavedCsrs(h, CsrWrite(h, a, v))
  {
    hide SHalf, ViaSstatus, ViaSie, Masked, At, Store, SavedCsrs;
    if a == SIE {
      PutAside(h, MIE, ViaSie(h.Get(MIE), v));
    } else if a == MIP || a == SIP {
      PutAside(h, MIP, SInts(v));
    } else if a == FFLAGS || a == FRM || a == FCSR || a !in h.csr {
      assert SavedCsrs(h, CsrWrite(h, a, v)) by { SavedCsrsSame(h, CsrWrite(h, a, v)); }
    } else {
      PutAside(h, a, Masked(a, v));
    }
  }

  lemma SavedCsrsSame(h: Hart, k: Hart)
    requires h.csr == k.csr && h.priv == k.priv
    ensures SavedCsrs(h, k)
  {
  }

  lemma MachineTrapKeeps(t: Hart, h: Hart, cause: Bits, tval: Bits)
    requires InHandler(t, h) && h.priv == PRIV_S
    ensures InHandler(t, TrapM(h, cause, tval))
  {
    hide SHalf, Mpp, EnterM, Mie, Mpie, At, Store;
  }

  lemma MretKeeps(t: Hart, h: Hart)
    requires InHandler(t, h) && h.priv == PRIV_M
    ensures InHandler(t, Mret(h))
  {
    hide SHalf, Mpp, LeaveM, Mie, Mpie, At, Store;
  }

  lemma HandlerKeeps(t: Hart, h: Hart, op: Op)
    requires InHandler(t, h) && HandlerStep(h, op) && Exec(h, op).Some?
    ensures InHandler(t, Exec(h, op).value)
  {
    hide Quiet, Mret, TrapM, Trap, InHandler, CsrRead, CsrWrite;
    if Quiet(h, op) {
      QuietKeeps(h, op);
      hide Exec;
      assert InHandler(t, Exec(h, op).value) by { QuietStays(t, h, Exec(h, op).value); }
    } else if h.priv == PRIV_S {
      var cause, tval :| Exec(h, op) == Some(TrapM(h, cause, tval));
      hide Exec;
      MachineTrapKeeps(t, h, cause, tval);
    } else {
      assert Exec(h, op) == Some(Mret(h));
      hide Exec;
      MretKeeps(t, h);
    }
  }

  lemma QuietStays(t: Hart, h: Hart, k: Hart)
    requires InHandler(t, h) && Undisturbed(h, k)
    ensures InHandler(t, k)
  {
    hide SHalf, Mpp, At;
  }

  lemma {:induction false} HandlerRun(hs: seq<Hart>, ops: seq<Op>, n: nat)
    requires IsRun(hs, ops) && n < |hs| && hs[0].priv == PRIV_S
    requires forall j :: 0 <= j < |ops| ==> HandlerStep(hs[j], ops[j])
    ensures InHandler(hs[0], hs[n])
  {
    if n > 0 {
      HandlerRun(hs, ops, n - 1);
      HandlerKeeps(hs[0], hs[n - 1], ops[n - 1]);
      assert Exec(hs[n - 1], ops[n - 1]) == Some(hs[n]);
    }
  }

  lemma SieOfHalf(x: Bits, y: Bits)
    requires SHalf(x) == SHalf(y)
    ensures Sie(x) == Sie(y) && Spie(x) == Spie(y) && Spp(x) == Spp(y)
  {
    assert Sie(x) == Sie(SHalf(x)) && Sie(y) == Sie(SHalf(y));
    assert Spie(x) == Spie(SHalf(x)) && Spie(y) == Spie(SHalf(y));
    assert Spp(x) == Spp(SHalf(x)) && Spp(y) == Spp(SHalf(y));
  }

  /**
    Nested trap return: after a delegated trap, whatever the handler does, with any number of
    traps to M each closed by mret, the closing sret resumes the interrupted pc at the interrupted
    privilege with the interrupted SIE.
   */
  lemma NestedReturn(h: Hart, cause: Bits, tval: Bits, hs: seq<Hart>, ops: seq<Op>)
    requires LowPrivilege(h) && ToS(h, cause)
    requires IsRun(hs, ops) && hs[0] == Trap(h, cause, tval) && hs[|ops|].priv == PRIV_S
    requires forall j :: 0 <= j < |ops| ==> HandlerStep(hs[j], ops[j])
    ensures hs[|ops|].Get(SEPC) == h.pc && hs[|ops|].Get(SCAUSE) == cause
    ensures Exec(hs[|ops|], SretInsn).Some?
    ensures var k := Exec(hs[|ops|], SretInsn).value;
            k.pc == h.pc && k.priv == h.priv && Sie(k.Get(MSTATUS)) == Sie(h.Get(MSTATUS))
  {
    HandlerRun(hs, ops, |ops|);
    var e, k := hs[0], hs[|ops|];
    hide IsRun, HandlerStep, ToS, SHalf, Sie, Spie, Spp, EnterS, LeaveS, At, Store, Mpp;
    assert e == TrapS(h, cause, tval);
    SieOfHalf(e.Get(MSTATUS), k.Get(MSTATUS));
  }

  // ---- the reference model's object ----

  class Iss {
    var csr: map<nat, Bits>
    var priv: nat
    var pc: Bits
    var frm: Bits
    var fflags: Bits

    function Snapshot(): Hart
      reads this
    {
      Hart(csr, priv, pc, frm, fflags)
    }

    constructor ()
      ensures Snapshot() == ResetHart()
    {
      csr, priv, pc, frm, fflags := map a | a in STORED :: ZERO, PRIV_M, ZERO, ZERO, ZERO;
    }

    method WriteCsr(a: nat, v: Bits)
      modifies this`csr, this`frm, this`fflags
      ensures Snapshot() == CsrWrite(old(Snapshot()), a, v)
    {
      hide ViaSstatus, ViaSie, At;
      if a == FFLAGS {
        fflags := Low5(v);
      } else if a == FRM {
        frm := Low3(v);
      } else if a == FCSR {
        frm := RoundingField(v);
        fflags := Low5(v);
      } else if a == SSTATUS {
        csr := csr[MSTATUS := ViaSstatus(At(csr, MSTATUS), v)];
      } else if a == SIE {
        csr := csr[MIE := ViaSie(At(csr, MIE), v)];
      } else if a == MIP || a == SIP {
        csr := csr[MIP := SInts(v)];
      } else if a in csr {
        csr := csr[a := Masked(a, v)];
      }
    }

    method TakeTrap(cause: Bits, tval: Bits)
      modifies this
      ensures Snapshot() == Trap(old(Snapshot()), cause, tval)
    {
      hide EnterS, EnterM, ToS;
      var m := At(csr, MSTATUS);
      if ToS(Snapshot(), cause) {
        csr := csr[SEPC := pc][SCAUSE := cause][STVAL := tval];
        csr := csr[MSTATUS := EnterS(m, priv)];
        priv := PRIV_S;
        pc := At(csr, STVEC);
      } else {
        csr := csr[MEPC := pc][MCAUSE := cause][MTVAL := tval];
        csr := csr[MSTATUS := EnterM(m, priv)];
        priv := PRIV_M;
        pc := At(csr, MTVEC);
      }
    }

    method ReturnFromM()
      modifies this
      ensures Snapshot() == Mret(old(Snapshot()))
    {
      hide LeaveM, Mpp;
      var m := At(csr, MSTATUS);
      csr := csr[MSTATUS := LeaveM(m)];
      priv := Mpp(m);
      pc := At(csr, MEPC);
    }

    method ReturnFromS()
      modifies this
      ensures Snapshot() == Sret(old(Snapshot()))
    {
      hide LeaveS, Spp;
      var m := At(csr, MSTATUS);
      csr := csr[MSTATUS := LeaveS(m)];
      priv := Spp(m);
      pc := At(csr, SEPC);
    }

    method AccessCsr(f3: nat, addr: nat, src: Bits, next: Bits)
      modifies this
      ensures Exec(old(Snapshot()), Csr(f3, addr, src, next)) == Some(Snapshot())
    {
      hide CsrRead, CsrWrite, Trap, NewValue, Level;
      if priv < Level(addr) {
        TakeTrap(ILLEGAL, ZERO);
      } else {
        WriteCsr(addr, NewValue(f3, CsrRead(Snapshot(), addr), src));
        pc := next;
      }
    }

    method CallEnvironment() returns (ok: bool)
      modifies this
      ensures Exec(old(Snapshot()), Ecall) == if ok then Some(Snapshot()) else None
      ensures !ok ==> Snapshot() == old(Snapshot())
    {
      hide Trap;
      ok := true;
      if priv == PRIV_M {
        TakeTrap(ECALL_M, ZERO);
      } else if priv == PRIV_S {
        TakeTrap(ECALL_S, ZERO);
      } else if priv == PRIV_U {
        TakeTrap(ECALL_U, ZERO);
      } else {
        ok := false;
      }
    }

    /** One event; false is the model's KeyError on ecall at the reserved privilege 2. */
    method Execute(op: Op) returns (ok: bool)
      modifies this
      ensures ok == Exec(old(Snapshot()), op).Some?
      ensures Snapshot() == if ok then Exec(old(Snapshot()), op).value else old(Snapshot())
    {
      hide CsrRead, CsrWrite, Trap, Mret, Sret, NewValue, Level, Mie, At;
      ok := true;
      match op {
        case Csr(f3, addr, src, next) =>
          AccessCsr(f3, addr, src, next);
        case Ecall =>
          ok := CallEnvironment();
        case Ebreak => TakeTrap(BREAKPOINT, ZERO);
        case MretInsn =>
          if priv != PRIV_M {
            TakeTrap(ILLEGAL, ZERO);
          } else {
            ReturnFromM();
          }
        case SretInsn =>
          if priv == PRIV_U {
            TakeTrap(ILLEGAL, ZERO);
          } else {
            ReturnFromS();
          }
        case SfenceVma(next) =>
          if priv == PRIV_U {
            TakeTrap(ILLEGAL, ZERO);
          } else {
            pc := next;
          }
        case UnknownSystem => TakeTrap(ILLEGAL, ZERO);
        case Fault(cause, tval) => TakeTrap(cause, tval);
        case Interrupt(cause) =>
          if Mie(At(csr, MSTATUS)) {
            TakeTrap(cause, ZERO);
          }
        case Plain(next, flags) =>
          pc := next;
          fflags := Accrue(fflags, flags);
      }
    }
  }
}
