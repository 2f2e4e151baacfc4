/**
  The CSR register file of design/CSR.v at XLEN=32, each register updated by its own if/else chain
  on a clock edge, and its simulation of the reference model's privilege machine.
  The performance counters and the vector CSRs are not part of this model.
 */
module CsrFile {
  import opened Wrappers
  import opened Privilege

  /** The trap registers that M and S each have a set of, and the addresses of a set. */
  datatype Bank = Bank(tvec: Bits, scratch: Bits, epc: Bits, cause: Bits, tval: Bits)

  datatype BankAddrs = BankAddrs(tvec: nat, scratch: nat, epc: nat, cause: nat, tval: nat)

  const AT_M := BankAddrs(MTVEC, MSCRATCH, MEPC, MCAUSE, MTVAL)
  const AT_S := BankAddrs(STVEC, SSCRATCH, SEPC, SCAUSE, STVAL)

  datatype Regs = Regs(mstatus: Bits, mie: Bits, mipSw: Bits, mideleg: Bits, medeleg: Bits, satp: Bits,
                       m: Bank, s: Bank, priv: nat, frm: Bits, fflags: Bits)

  datatype Write = Write(addr: nat, op: nat, wdata: Bits)

  datatype TrapIn = TrapIn(pc: Bits, cause: Bits, interrupt: bool, value: Bits)

  /** Live interrupt lines. */
  datatype Pending = Pending(msip: bool, timer: bool, ext: bool)

  const QUIET := Pending(false, false, false)

  /** The ports sampled by one clock edge. */
  datatype Cycle = Cycle(write: Option<Write>, trap: Option<TrapIn>, mret: bool, sret: bool,
                         flags: Option<Bits>, pending: Pending)

  function Flag(b: bool): bv32 {
    if b then 1 else 0
  }

  /** Bit `i` of `v` put back at position `i`. */
  function Pick(v: bv32, i: bv32): bv32
    requires i <= 32
  {
    Bit(v, i) << i
  }

  function WithBit(v: bv32, i: bv32, b: bv32): bv32
    requires i <= 32
  {
    (v & !(1 << i)) | (b << i)
  }

  // ---- read mux ----

  function Mip(sw: Bits, p: Pending): Bits {
    Bits(sw.v | (Flag(p.msip) << 3) | (Flag(p.timer) << 7) | (Flag(p.ext) << 11))
  }

  function StatusView(m: Bits): Bits {
    Bits(Pick(m.v, 8) | Pick(m.v, 5) | Pick(m.v, 1))
  }

  function EnableView(e: Bits): Bits {
    Bits(Pick(e.v, 9) | Pick(e.v, 5) | Pick(e.v, 1))
  }

  function Fcsr(frm: Bits, fflags: Bits): Bits {
    Bits((frm.v << 5) | fflags.v)
  }

  function Rdata(r: Regs, p: Pending, a: nat): Bits {
    if a == MSTATUS then r.mstatus
    else if a == MIE then r.mie
    else if a == MTVEC then r.m.tvec
    else if a == MSCRATCH then r.m.scratch
    else if a == MEPC then r.m.epc
    else if a == MCAUSE then r.m.cause
    else if a == MIP then Mip(r.mipSw, p)
    else if a == FFLAGS then r.fflags
    else if a == FRM then r.frm
    else if a == FCSR then Fcsr(r.frm, r.fflags)
    else if a == SSTATUS then StatusView(r.mstatus)
    else if a == SIE then EnableView(r.mie)
    else if a == SIP then EnableView(Mip(r.mipSw, p))
    else if a == STVEC then r.s.tvec
    else if a == SSCRATCH then r.s.scratch
    else if a == SEPC then r.s.epc
    else if a == SCAUSE then r.s.cause
    else if a == STVAL then r.s.tval
    else if a == SATP then r.satp
    else if a == MTVAL then r.m.tval
    else if a == MIDELEG then r.mideleg
    else if a == MEDELEG then r.medeleg
    else ZERO
  }

  /** Addresses at which this file has no counter or vector register. */
  predicate Modelled(a: nat) {
    a !in {0x008, 0x009, 0x00A, 0x00F, 0xC20, 0xC21, 0xC22, 0x320, 0xB00, 0xB80, 0xB02, 0xB82} &&
    !(0xB03 <= a < 0xB0C) && !(0xB83 <= a < 0xB8C) && !(0x323 <= a < 0x32C)
  }

  // ---- write masks ----

  function NewVal(op: nat, rdata: Bits, wdata: Bits): Bits {
    if op == 2 then Bits(rdata.v | wdata.v) else if op == 3 then Bits(rdata.v & !wdata.v) else wdata
  }

  function MstatusMasked(v: Bits): (k: Bits)
    ensures k == Masked(MSTATUS, v)
  {
    Bits(Pick(v.v, 3) | Pick(v.v, 7) | Pick(v.v, 1) | Pick(v.v, 5) | Pick(v.v, 8) | (((v.v >> 11) & 3) << 11))
  }

  /** mstatus after a write of `v` through sstatus. */
  function SstatusWritten(m: Bits, v: Bits): (k: Bits)
    ensures k == ViaSstatus(m, v)
  {
    Bits((m.v & !S_HALF) | Pick(v.v, 1) | Pick(v.v, 5) | Pick(v.v, 8))
  }

  function MieMasked(v: Bits): (k: Bits)
    ensures k == Masked(MIE, v)
  {
    Bits(Pick(v.v, 3) | Pick(v.v, 7) | Pick(v.v, 11) | Pick(v.v, 1) | Pick(v.v, 5) | Pick(v.v, 9))
  }

  /** mie after a write of `v` through sie. */
  function SieWritten(e: Bits, v: Bits): (k: Bits)
    ensures k == ViaSie(e, v)
  {
    Bits((e.v & !S_INTS) | Pick(v.v, 1) | Pick(v.v, 5) | Pick(v.v, 9))
  }

  function MipSwMasked(v: Bits): (k: Bits)
    ensures k == SInts(v)
  {
    Bits(Pick(v.v, 1) | Pick(v.v, 5) | Pick(v.v, 9))
  }

  function MidelegMasked(v: Bits): (k: Bits)
    ensures k == Masked(MIDELEG, v)
  {
    Bits(Pick(v.v, 1) | Pick(v.v, 5) | Pick(v.v, 3) | Pick(v.v, 7) | Pick(v.v, 9) | Pick(v.v, 11))
  }

  function MedelegMasked(v: Bits): (k: Bits)
    ensures k == Masked(MEDELEG, v)
  {
    Bits(Pick(v.v, 2) | Pick(v.v, 3) | Pick(v.v, 8) | Pick(v.v, 9) |
         Pick(v.v, 11) | Pick(v.v, 12) | Pick(v.v, 13) | Pick(v.v, 15))
  }

  // ---- trap target and mstatus ----

  /** trap_target_is_s for a trap being taken. */
  predicate TargetS(r: Regs, t: TrapIn) {
    r.priv != PRIV_M && Delegates(if t.interrupt then r.mideleg else r.medeleg, t.cause)
  }

  predicate TakesM(r: Regs, c: Cycle) {
    c.trap.Some? && !TargetS(r, c.trap.value)
  }

  predicate TakesS(r: Regs, c: Cycle) {
    c.trap.Some? && TargetS(r, c.trap.value)
  }

  function CauseWord(t: TrapIn): Bits {
    Bits((Flag(t.interrupt) << 31) | (t.cause.v & 0x7FFF_FFFF))
  }

  /** The bit assignments of an M trap, an S trap, mret and sret. */
  function StatusTrapM(m: Bits, priv: nat): Bits {
    Bits((WithBit(WithBit(m.v, 7, Bit(m.v, 3)), 3, 0) & !(3 << 11)) | (PrivBits(priv) << 11))
  }

  function StatusTrapS(m: Bits, priv: nat): Bits {
    Bits(WithBit(WithBit(WithBit(m.v, 5, Bit(m.v, 1)), 1, 0), 8, Bit(PrivBits(priv), 0)))
  }

  function StatusMret(m: Bits): Bits {
    Bits(WithBit(WithBit(m.v, 3, Bit(m.v, 7)), 7, 1) & !(3 << 11))
  }

  function StatusSret(m: Bits): Bits {
    Bits(WithBit(WithBit(WithBit(m.v, 1, Bit(m.v, 5)), 5, 1), 8, 0))
  }

  lemma TrapStatusAgrees(m: Bits, priv: nat)
    ensures StatusTrapM(m, priv) == EnterM(m, priv)
  {
  }

  lemma DelegatedStatusAgrees(m: Bits, priv: nat)
    ensures StatusTrapS(m, priv) == EnterS(m, priv)
  {
  }

  lemma MretStatusAgrees(m: Bits)
    ensures StatusMret(m) == LeaveM(m)
  {
  }

  lemma SretStatusAgrees(m: Bits)
    ensures StatusSret(m) == LeaveS(m)
  {
  }

  // ---- the clock edge ----

  /** The cycle writes address `a`. */
  predicate Writes(c: Cycle, a: nat) {
    c.write.Some? && c.write.value.addr == a
  }

  function Written(r: Regs, c: Cycle): Bits
    requires c.write.Some?
  {
    var w := c.write.value;
    NewVal(w.op, Rdata(r, c.pending, w.addr), w.wdata)
  }

  function NextStatus(r: Regs, c: Cycle): Bits {
    var m := r.mstatus;
    if TakesM(r, c) then StatusTrapM(m, r.priv)
    else if TakesS(r, c) then StatusTrapS(m, r.priv)
    else if c.mret then StatusMret(m)
    else if c.sret then StatusSret(m)
    else if Writes(c, MSTATUS) then MstatusMasked(Written(r, c))
    else if Writes(c, SSTATUS) then SstatusWritten(m, Written(r, c))
    else m
  }

  function NextPriv(r: Regs, c: Cycle): nat {
    if TakesS(r, c) then PRIV_S
    else if TakesM(r, c) then PRIV_M
    else if c.mret then Mpp(r.mstatus)
    else if c.sret then Spp(r.mstatus)
    else r.priv
  }

  function NextMie(r: Regs, c: Cycle): Bits {
    if Writes(c, MIE) then MieMasked(Written(r, c))
    else if Writes(c, SIE) then SieWritten(r.mie, Written(r, c))
    else r.mie
  }

  function NextMip(r: Regs, c: Cycle): Bits {
    if Writes(c, MIP) || Writes(c, SIP) then MipSwMasked(Written(r, c)) else r.mipSw
  }

  function NextMideleg(r: Regs, c: Cycle): Bits {
    if Writes(c, MIDELEG) then MidelegMasked(Written(r, c)) else r.mideleg
  }

  function NextMedeleg(r: Regs, c: Cycle): Bits {
    if Writes(c, MEDELEG) then MedelegMasked(Written(r, c)) else r.medeleg
  }

  function NextFrm(r: Regs, c: Cycle): Bits {
    if Writes(c, FRM) then Low3(Written(r, c))
    else if Writes(c, FCSR) then RoundingField(Written(r, c))
    else r.frm
  }

  function NextFflags(r: Regs, c: Cycle): Bits {
    if c.flags.Some? then Accrue(r.fflags, c.flags.value)
    else if Writes(c, FFLAGS) || Writes(c, FCSR) then Low5(Written(r, c))
    else r.fflags
  }

  function TrapOf(c: Cycle): TrapIn {
    if c.trap.Some? then c.trap.value else TrapIn(ZERO, ZERO, false, ZERO)
  }

  /** A register a trap may load, and otherwise a write. */
  function Chain(taken: bool, loaded: Bits, r: Regs, c: Cycle, a: nat, old_: Bits): Bits {
    if taken then loaded else if Writes(c, a) then Written(r, c) else old_
  }

  /** A bank's own chains: a trap to its side loads three registers, a write any one. */
  function NextBank(b: Bank, at: BankAddrs, taken: bool, r: Regs, c: Cycle): Bank {
    var t := TrapOf(c);
    Bank(Chain(false, ZERO, r, c, at.tvec, b.tvec), Chain(false, ZERO, r, c, at.scratch, b.scratch),
         Chain(taken, t.pc, r, c, at.epc, b.epc), Chain(taken, CauseWord(t), r, c, at.cause, b.cause),
         Chain(taken, t.value, r, c, at.tval, b.tval))
  }

  function Clocked(r: Regs, c: Cycle): Regs {
    Regs(NextStatus(r, c), NextMie(r, c), NextMip(r, c), NextMideleg(r, c), NextMedeleg(r, c),
         Chain(false, ZERO, r, c, SATP, r.satp),
         NextBank(r.m, AT_M, TakesM(r, c), r, c), NextBank(r.s, AT_S, TakesS(r, c), r, c),
         NextPriv(r, c), NextFrm(r, c), NextFflags(r, c))
  }

  const ZERO_BANK := Bank(ZERO, ZERO, ZERO, ZERO, ZERO)

  function ResetRegs(): Regs {
    Regs(ZERO, ZERO, ZERO, ZERO, ZERO, ZERO, ZERO_BANK, ZERO_BANK, PRIV_M, ZERO, ZERO)
  }

  class CsrUnit {
    var mstatus: Bits
    var mie: Bits
    var mipSw: Bits
    var mideleg: Bits
    var medeleg: Bits
    var satp: Bits
    var m: Bank
    var s: Bank
    var priv: nat
    var frm: Bits
    var fflags: Bits

    function Snapshot(): Regs
      reads this
    {
      Regs(mstatus, mie, mipSw, mideleg, medeleg, satp, m, s, priv, frm, fflags)
    }

    constructor ()
      ensures Snapshot() == ResetRegs()
    {
      mstatus, mie, mipSw, mideleg, medeleg, satp := ZERO, ZERO, ZERO, ZERO, ZERO, ZERO;
      m, s, priv, frm, fflags := ZERO_BANK, ZERO_BANK, PRIV_M, ZERO, ZERO;
    }

    /** One clock edge; every right-hand side reads the registers before it. */
    method Clock(c: Cycle)
      modifies this
      ensures Snapshot() == Clocked(old(Snapshot()), c)
    {
      hide NextBank, NextStatus, NextPriv, TakesM, TakesS, Written, MieMasked, SieWritten, MipSwMasked,
        MidelegMasked, MedelegMasked, Low3, Low5, RoundingField, Accrue;
      var r := Snapshot();
      if c.flags.Some? {
        fflags := Accrue(fflags, c.flags.value);
      } else if Writes(c, FFLAGS) || Writes(c, FCSR) {
        fflags := Low5(Written(r, c));
      }
      if Writes(c, FRM) {
        frm := Low3(Written(r, c));
      } else if Writes(c, FCSR) {
        frm := RoundingField(Written(r, c));
      }
      m, s := NextBank(m, AT_M, TakesM(r, c), r, c), NextBank(s, AT_S, TakesS(r, c), r, c);
      mstatus, priv := NextStatus(r, c), NextPriv(r, c);
      if Writes(c, MIE) {
        mie := MieMasked(Written(r, c));
      } else if Writes(c, SIE) {
        mie := SieWritten(mie, Written(r, c));
      }
      if Writes(c, MIP) || Writes(c, SIP) {
        mipSw := MipSwMasked(Written(r, c));
      }
      if Writes(c, SATP) {
        satp := Written(r, c);
      }
      if Writes(c, MIDELEG) {
        mideleg := MidelegMasked(Written(r, c));
      }
      if Writes(c, MEDELEG) {
        medeleg := MedelegMasked(Written(r, c));
      }
    }
  }

  // ---- a trap and a write in the same cycle ----

  /** The registers a trap, mret or sret of this cycle loads, by the addresses that reach them. */
  predicate Touched(r: Regs, c: Cycle, a: nat) {
    ((a == MSTATUS || a == SSTATUS) && (c.trap.Some? || c.mret || c.sret)) ||
    (TakesM(r, c) && (a == MEPC || a == MCAUSE || a == MTVAL)) ||
    (TakesS(r, c) && (a == SEPC || a == SCAUSE || a == STVAL))
  }

  /** The cycle without its write, and the write alone. */
  function ControlOnly(c: Cycle): Cycle {
    c.(write := None)
  }

  function WriteOnly(c: Cycle): Cycle {
    c.(trap := None, mret := false, sret := false, flags := None)
  }

  /** A trap or return leaves every register it does not touch readable as before. */
  lemma UntouchedRead(r: Regs, c: Cycle, a: nat)
    requires c.write.None? && c.flags.None? && !Touched(r, c, a)
    ensures Rdata(Clocked(r, c), c.pending, a) == Rdata(r, c.pending, a)
  {
    hide NextPriv, TargetS, CauseWord, Mip, StatusView, EnableView, Fcsr, StatusTrapM, StatusTrapS, StatusMret,
      StatusSret, TrapOf;
  }

  function NoFlags(c: Cycle): Cycle {
    c.(flags := None)
  }

  /** Flag accrual decides fflags alone, whatever else the cycle does. */
  function Accrued(r: Regs, c: Cycle, u: Regs): Regs {
    if c.flags.Some? then u.(fflags := Accrue(r.fflags, c.flags.value)) else u
  }

  lemma FlagsAside(r: Regs, c: Cycle)
    ensures Clocked(r, c) == Accrued(r, c, Clocked(r, NoFlags(c)))
  {
    hide TargetS, CauseWord, StatusTrapM, StatusTrapS, StatusMret, StatusSret, Rdata, NewVal, MstatusMasked,
      SstatusWritten, MieMasked, SieWritten, MipSwMasked, MidelegMasked, MedelegMasked, Mpp, Spp, Low3, Low5,
      RoundingField, Accrue;
  }

  lemma WriteAfter(r: Regs, c: Cycle)
    requires c.write.Some? && c.flags.None?
    ensures Clocked(r, c) == if Touched(r, c, c.write.value.addr) then Clocked(r, ControlOnly(c))
                             else Clocked(Clocked(r, ControlOnly(c)), WriteOnly(c))
  {
    hide TargetS, CauseWord, StatusTrapM, StatusTrapS, StatusMret, StatusSret, Rdata, NewVal, MstatusMasked,
      SstatusWritten, MieMasked, SieWritten, MipSwMasked, MidelegMasked, MedelegMasked, Mpp, Spp, Low3, Low5,
      RoundingField;
    if !Touched(r, c, c.write.value.addr) {
      UntouchedRead(r, ControlOnly(c), c.write.value.addr);
    }
  }

  /**
    A write to a register this cycle's trap or return does not touch takes effect as if it came
    just after it; a write to one it does touch is lost.  Flags accrued in the same cycle win
    over a write to fflags and over nothing else.
   */
  lemma SameCycleWrite(r: Regs, c: Cycle)
    requires c.write.Some?
    ensures var k := NoFlags(c);
            Clocked(r, c) == Accrued(r, c, if Touched(r, c, c.write.value.addr) then Clocked(r, ControlOnly(k))
                                           else Clocked(Clocked(r, ControlOnly(k)), WriteOnly(k)))
  {
    FlagsAside(r, c);
    WriteAfter(r, NoFlags(c));
    hide Clocked, TargetS;
  }

  // ---- simulation of the reference model ----

  /** The stored register at an address. */
  function Field(r: Regs, a: nat): Bits {
    if a == MSTATUS then r.mstatus
    else if a == MIE then r.mie
    else if a == MIP then r.mipSw
    else if a == MIDELEG then r.mideleg
    else if a == MEDELEG then r.medeleg
    else if a == SATP then r.satp
    else if a < 0x200 then BankField(r.s, AT_S, a)
    else BankField(r.m, AT_M, a)
  }

  function BankField(b: Bank, at: BankAddrs, a: nat): Bits {
    if a == at.tvec then b.tvec
    else if a == at.scratch then b.scratch
    else if a == at.epc then b.epc
    else if a == at.cause then b.cause
    else if a == at.tval then b.tval
    else ZERO
  }

  /** Register for register the same values, at the same privilege. */
  ghost predicate Agrees(h: Hart, r: Regs) {
    h.Complete() && h.priv == r.priv && h.frm == r.frm == Low3(r.frm) && h.fflags == r.fflags == Low5(r.fflags) &&
    forall a: nat :: At(h.csr, a) == Field(r, a)
  }

  /** A cycle the pipeline can present while no interrupt line is up. */
  predicate Legal(c: Cycle) {
    c.pending == QUIET &&
    (c.trap.Some? ==> !c.mret && !c.sret) && !(c.mret && c.sret) &&
    (c.write.Some? ==> Modelled(c.write.value.addr) && c.write.value.op in {1, 2, 3})
  }

  /** The reference model's trap or return for the cycle. */
  function IssControl(h: Hart, c: Cycle): Hart {
    if c.trap.Some? then Trap(h.(pc := c.trap.value.pc), CauseWord(c.trap.value), c.trap.value.value)
    else if c.mret then Mret(h)
    else if c.sret then Sret(h)
    else h
  }

  function IssWrite(h: Hart, w: Write): Hart {
    CsrWrite(h, w.addr, NewValue(w.op, CsrRead(h, w.addr), w.wdata))
  }

  /** The registers the reference model's trap or return loads, by the addresses that reach them. */
  predicate IssTouched(h: Hart, c: Cycle, a: nat) {
    ((a == MSTATUS || a == SSTATUS) && (c.trap.Some? || c.mret || c.sret)) ||
    (c.trap.Some? &&
     if ToS(h, CauseWord(c.trap.value)) then a == SEPC || a == SCAUSE || a == STVAL
     else a == MEPC || a == MCAUSE || a == MTVAL)
  }

  /**
    A whole cycle in the reference model's operations.  iss.py runs one operation at a time and so
    has no such cycle; where several meet, the order here is ours: the trap or return first, then
    the write unless it targets a register they load, and flags accrue to what fflags was before.
   */
  function IssCycle(h: Hart, c: Cycle): Hart {
    var k := IssControl(h, c);
    var u := if c.write.Some? && !IssTouched(h, c, c.write.value.addr) then IssWrite(k, c.write.value) else k;
    if c.flags.Some? then u.(fflags := Accrue(h.fflags, c.flags.value)) else u
  }

  lemma ViewsAgree(m: Bits)
    ensures StatusView(m) == SstatusView(m) && EnableView(m) == SieView(m) && Mip(m, QUIET) == m
  {
    hide StatusView, SstatusView, EnableView, SieView, Mip;
    StatusViewsAgree(m);
    EnableViewsAgree(m);
    QuietPending(m);
  }

  lemma StatusViewsAgree(m: Bits)
    ensures StatusView(m) == SstatusView(m)
  {
  }

  lemma EnableViewsAgree(m: Bits)
    ensures EnableView(m) == SieView(m)
  {
  }

  /** mip as read: the written bits, with software, timer and external lines at bits 3, 7 and 11. */
  lemma PendingLines(sw: Bits, p: Pending)
    ensures Mip(sw, p).v & 0xFFFF_F777 == sw.v & 0xFFFF_F777
    ensures sw.v & 0x888 == 0 ==>
              (Mip(sw, p).v & 0x8 != 0 <==> p.msip) && (Mip(sw, p).v & 0x80 != 0 <==> p.timer) &&
              (Mip(sw, p).v & 0x800 != 0 <==> p.ext)
  {
  }

  lemma QuietPending(m: Bits)
    ensures Mip(m, QUIET) == m
  {
  }

  // ---- cycles with more than one cause ----

  /** A trap outranks both returns, and mret outranks sret. */
  lemma TrapOutranks(r: Regs, c: Cycle)
    ensures c.trap.Some? ==> Clocked(r, c) == Clocked(r, c.(mret := false, sret := false))
    ensures c.mret ==> Clocked(r, c) == Clocked(r, c.(sret := false))
  {
    hide StatusTrapM, StatusTrapS, StatusMret, StatusSret, Written, Mpp, Spp, CauseWord;
    WrittenAlike(r, c, c.(mret := false, sret := false));
    WrittenAlike(r, c, c.(sret := false));
  }

  lemma WrittenAlike(r: Regs, c: Cycle, d: Cycle)
    requires c.write == d.write && c.pending == d.pending
    ensures c.write.Some? ==> Written(r, c) == Written(r, d)
  {
  }

  /** Live interrupt lines are seen by reads of mip and sip and stored nowhere. */
  lemma LinesNotStored(r: Regs, c: Cycle)
    ensures Clocked(r, c) == Clocked(r, c.(pending := QUIET))
  {
    hide StatusTrapM, StatusTrapS, StatusMret, StatusSret, MipSwMasked, NewVal, Rdata, CauseWord, Mpp, Spp, MstatusMasked,
         SstatusWritten, MieMasked, SieWritten, MidelegMasked, MedelegMasked, Low3, Low5, RoundingField, Accrue, TargetS,
         Masked, SInts;
    if c.write.Some? {
      var w := c.write.value;
      if w.addr == MIP || w.addr == SIP {
        LinesMasked(r, c.pending, w);
      } else {
        LinesElsewhere(r, c.pending, w.addr);
      }
    }
  }

  lemma LinesElsewhere(r: Regs, p: Pending, a: nat)
    requires a != MIP && a != SIP
    ensures Rdata(r, p, a) == Rdata(r, QUIET, a)
  {
    hide Mip, StatusView, EnableView, Fcsr;
  }

  /** The lines lie outside the writable bits. */
  lemma LinesMasked(r: Regs, p: Pending, w: Write)
    requires w.addr == MIP || w.addr == SIP
    ensures MipSwMasked(NewVal(w.op, Rdata(r, p, w.addr), w.wdata))
         == MipSwMasked(NewVal(w.op, Rdata(r, QUIET, w.addr), w.wdata))
  {
    hide MipSwMasked, SInts, Masked, Mip, EnableView;
    MaskedAlike(r.mipSw, p);
    MaskedWrite(w.op, Rdata(r, p, w.addr), Rdata(r, QUIET, w.addr), w.wdata);
  }

  lemma MaskedAlike(sw: Bits, p: Pending)
    ensures SInts(Mip(sw, p)) == SInts(Mip(sw, QUIET))
    ensures EnableView(Mip(sw, p)) == EnableView(Mip(sw, QUIET))
  {
    hide MipSwMasked, Masked;
  }

  /** A masked write depends on the masked bits of the old value alone. */
  lemma MaskedWrite(op: nat, x: Bits, y: Bits, w: Bits)
    requires SInts(x) == SInts(y)
    ensures MipSwMasked(NewVal(op, x, w)) == MipSwMasked(NewVal(op, y, w))
  {
    hide MipSwMasked, Masked, SInts, NewVal;
    if op == 2 {
      SetMasked(x, y, w);
    } else if op == 3 {
      ClearMasked(x, y, w);
    } else {
      PlainWrite(op, x, w);
      PlainWrite(op, y, w);
    }
  }

  lemma SetMasked(x: Bits, y: Bits, w: Bits)
    requires SInts(x) == SInts(y)
    ensures SInts(NewVal(2, x, w)) == SInts(NewVal(2, y, w))
  {
  }

  lemma ClearMasked(x: Bits, y: Bits, w: Bits)
    requires SInts(x) == SInts(y)
    ensures SInts(NewVal(3, x, w)) == SInts(NewVal(3, y, w))
  {
  }

  lemma PlainWrite(op: nat, x: Bits, w: Bits)
    requires op != 2 && op != 3
    ensures NewVal(op, x, w) == w
  {
  }

  lemma FcsrAgrees(frm: Bits, fflags: Bits)
    requires frm == Low3(frm) && fflags == Low5(fflags)
    ensures Fcsr(frm, fflags) == FcsrWord(frm, fflags)
  {
  }

  /** Every modelled address reads the same. */
  lemma ReadAgrees(h: Hart, r: Regs, a: nat)
    requires Agrees(h, r) && Modelled(a)
    ensures CsrRead(h, a) == Rdata(r, QUIET, a)
  {
    ViewsAgree(r.mstatus);
    ViewsAgree(r.mie);
    ViewsAgree(r.mipSw);
    FcsrAgrees(r.frm, r.fflags);
    hide StatusView, SstatusView, EnableView, SieView, Mip, Fcsr, FcsrWord, Low3, Low5, Modelled, At, Hart.Complete;
    assert h.Get(MSTATUS) == r.mstatus && h.Get(MIE) == r.mie && h.Get(MIP) == r.mipSw;
    if a in {FFLAGS, FRM, FCSR, SSTATUS, SIE, SIP} {
      hide Field;
    } else {
      PlainRead(r, a);
      hide Field, Rdata;
      assert CsrRead(h, a) == Field(r, a);
    }
  }

  /** Addresses that are not views read their own register. */
  lemma PlainRead(r: Regs, a: nat)
    requires a !in {FFLAGS, FRM, FCSR, SSTATUS, SIE, SIP}
    ensures Rdata(r, QUIET, a) == Field(r, a)
  {
    ViewsAgree(r.mipSw);
    hide StatusView, SstatusView, EnableView, SieView, Mip, Fcsr;
  }

  lemma LowFields(v: Bits, w: Bits)
    ensures Low5(Low5(v)) == Low5(v) && Low3(Low3(v)) == Low3(v)
    ensures Low3(RoundingField(v)) == RoundingField(v) && Low5(Accrue(v, w)) == Accrue(v, w)
  {
  }

  lemma NewValueAgrees(op: nat, old_: Bits, w: Bits)
    requires op in {1, 2, 3}
    ensures NewValue(op, old_, w) == NewVal(op, old_, w)
  {
  }

  /** On the reserved operation 00 the two differ: the file writes, the reference model clears. */
  lemma ReservedOperation(op: nat)
    requires op < 4
    ensures (forall x, y :: NewValue(op, x, y) == NewVal(op, x, y)) <==> op != 0
  {
    if op == 0 {
      assert NewValue(0, ZERO, Bits(1)) != NewVal(0, ZERO, Bits(1));
    } else {
      forall x, y ensures NewValue(op, x, y) == NewVal(op, x, y) {
        NewValueAgrees(op, x, y);
      }
    }
  }

  lemma CauseAgrees(t: TrapIn, d: Bits)
    ensures IsInterrupt(CauseWord(t)) == t.interrupt && Delegates(d, CauseWord(t)) == Delegates(d, t.cause)
  {
    var c := t.cause.v;
    assert ((Flag(t.interrupt) << 31) | (c & 0x7FFF_FFFF)) & 0x1F == c & 0x1F;
  }

  /** Both pick the same trap target. */
  lemma TargetAgrees(h: Hart, r: Regs, t: TrapIn)
    requires Agrees(h, r)
    ensures TargetS(r, t) == ToS(h, CauseWord(t))
  {
    CauseAgrees(t, r.mideleg);
    CauseAgrees(t, r.medeleg);
    hide CauseWord, Delegates, IsInterrupt, At, Low3, Low5, Hart.Complete;
    assert h.Get(MIDELEG) == Field(r, MIDELEG) && h.Get(MEDELEG) == Field(r, MEDELEG);
  }

  /** The address the redirect mux selects. */
  function Redirect(r: Regs, c: Cycle): Bits {
    if TakesS(r, c) then r.s.tvec
    else if TakesM(r, c) then r.m.tvec
    else if c.mret then r.m.epc
    else r.s.epc
  }

  /** A return, or a cycle without one. */
  lemma ReturnAgrees(h: Hart, r: Regs, c: Cycle)
    requires Agrees(h, r) && Legal(c) && c.write.None? && c.trap.None? && c.flags.None?
    ensures Agrees(IssControl(h, c), Clocked(r, c))
    ensures c.mret || c.sret ==> IssControl(h, c).pc == Redirect(r, c)
  {
    var m := r.mstatus;
    assert h.Get(MSTATUS) == Field(r, MSTATUS) && h.Get(MEPC) == Field(r, MEPC) && h.Get(SEPC) == Field(r, SEPC);
    MretStatusAgrees(m);
    SretStatusAgrees(m);
    hide At, Store, LeaveM, LeaveS, Mpp, Spp, StatusMret, StatusSret, Low3, Low5, Accrue;
    assert Clocked(r, c) == if c.mret then SetReg(r, MSTATUS, LeaveM(m)).(priv := Mpp(m))
                            else if c.sret then SetReg(r, MSTATUS, LeaveS(m)).(priv := Spp(m)) else r;
    hide Agrees, Clocked, SetReg, Field;
    if c.mret {
      PutAgrees(h, r, MSTATUS, LeaveM(m));
      PrivAside(h.Put(MSTATUS, LeaveM(m)), SetReg(r, MSTATUS, LeaveM(m)), Mpp(m), h.Get(MEPC));
    } else if c.sret {
      PutAgrees(h, r, MSTATUS, LeaveS(m));
      PrivAside(h.Put(MSTATUS, LeaveS(m)), SetReg(r, MSTATUS, LeaveS(m)), Spp(m), h.Get(SEPC));
    }
  }

  /** Accruing the same flags to the same old value keeps agreement. */
  lemma FlagsAgree(h: Hart, r: Regs, was: Bits, f: Bits)
    requires Agrees(h, r)
    ensures Agrees(h.(fflags := Accrue(was, f)), r.(fflags := Accrue(was, f)))
  {
    LowFields(was, f);
    hide At, Low3, Low5, Accrue, BankField;
  }

  /** Agreement does not look at the pc, and privilege moves on both sides together. */
  lemma PrivAside(h: Hart, r: Regs, priv: nat, pc: Bits)
    requires Agrees(h, r)
    ensures Agrees(h.(priv := priv, pc := pc), r.(priv := priv))
  {
    hide At, Low3, Low5, BankField;
  }

  lemma ControlAgrees(h: Hart, r: Regs, c: Cycle)
    requires Agrees(h, r) && Legal(c) && c.write.None? && c.flags.None?
    ensures Agrees(IssControl(h, c), Clocked(r, c))
    ensures c.trap.Some? || c.mret || c.sret ==> IssControl(h, c).pc == Redirect(r, c)
  {
    hide Agrees, IssControl, Clocked, Redirect;
    if c.trap.Some? {
      TrapAgrees(h, r, c);
    } else {
      ReturnAgrees(h, r, c);
    }
  }

  /** A trap, as stores to four registers and the privilege. */
  lemma ClockedTrap(r: Regs, c: Cycle)
    requires Legal(c) && c.write.None? && c.trap.Some? && c.flags.None?
    ensures var t := c.trap.value;
            Clocked(r, c) ==
              if TargetS(r, t)
              then FourSet(r, SEPC, t.pc, SCAUSE, CauseWord(t), STVAL, t.value, EnterS(r.mstatus, r.priv)).(priv := PRIV_S)
              else FourSet(r, MEPC, t.pc, MCAUSE, CauseWord(t), MTVAL, t.value, EnterM(r.mstatus, r.priv)).(priv := PRIV_M)
  {
    TrapStatusAgrees(r.mstatus, r.priv);
    DelegatedStatusAgrees(r.mstatus, r.priv);
    hide EnterS, EnterM, StatusTrapM, StatusTrapS, TargetS, CauseWord, Modelled;
  }

  lemma TrapAgrees(h: Hart, r: Regs, c: Cycle)
    requires Agrees(h, r) && Legal(c) && c.write.None? && c.trap.Some? && c.flags.None?
    ensures Agrees(IssControl(h, c), Clocked(r, c))
    ensures IssControl(h, c).pc == Redirect(r, c)
  {
    var t := c.trap.value;
    PcAside(h, r, t.pc);
    TargetAgrees(h.(pc := t.pc), r, t);
    ClockedTrap(r, c);
    hide Agrees, TargetS, ToS, CauseWord, Clocked, FourSet, TrapM, TrapS, EnterS, EnterM;
    if TargetS(r, t) {
      TrapSAgrees(h.(pc := t.pc), r, CauseWord(t), t.value);
    } else {
      TrapMAgrees(h.(pc := t.pc), r, CauseWord(t), t.value);
    }
  }

  lemma TrapSAgrees(h: Hart, r: Regs, cause: Bits, tval: Bits)
    requires Agrees(h, r)
    ensures Agrees(TrapS(h, cause, tval),
                   FourSet(r, SEPC, h.pc, SCAUSE, cause, STVAL, tval, EnterS(r.mstatus, r.priv)).(priv := PRIV_S))
    ensures TrapS(h, cause, tval).pc == r.s.tvec
  {
    var m := EnterS(r.mstatus, r.priv);
    assert h.Get(MSTATUS) == r.mstatus && h.Get(STVEC) == r.s.tvec && h.priv == r.priv;
    hide Agrees, FourSet, EnterS, At, Store, Field;
    FourPuts(h, r, SEPC, h.pc, SCAUSE, cause, STVAL, tval, m);
    PrivAside(FourPut(h, SEPC, h.pc, SCAUSE, cause, STVAL, tval, m),
              FourSet(r, SEPC, h.pc, SCAUSE, cause, STVAL, tval, m), PRIV_S, h.Get(STVEC));
  }

  lemma TrapMAgrees(h: Hart, r: Regs, cause: Bits, tval: Bits)
    requires Agrees(h, r)
    ensures Agrees(TrapM(h, cause, tval),
                   FourSet(r, MEPC, h.pc, MCAUSE, cause, MTVAL, tval, EnterM(r.mstatus, r.priv)).(priv := PRIV_M))
    ensures TrapM(h, cause, tval).pc == r.m.tvec
  {
    var m := EnterM(r.mstatus, r.priv);
    assert h.Get(MSTATUS) == r.mstatus && h.Get(MTVEC) == r.m.tvec && h.priv == r.priv;
    hide Agrees, FourSet, EnterM, At, Store, Field;
    FourPuts(h, r, MEPC, h.pc, MCAUSE, cause, MTVAL, tval, m);
    PrivAside(FourPut(h, MEPC, h.pc, MCAUSE, cause, MTVAL, tval, m),
              FourSet(r, MEPC, h.pc, MCAUSE, cause, MTVAL, tval, m), PRIV_M, h.Get(MTVEC));
  }

  lemma PcAside(h: Hart, r: Regs, pc: Bits)
    requires Agrees(h, r)
    ensures Agrees(h.(pc := pc), r)
  {
    hide At, Low3, Low5, Field;
  }

  function FourPut(h: Hart, a: nat, x: Bits, b: nat, y: Bits, d: nat, z: Bits, m: Bits): Hart {
    h.Put(a, x).Put(b, y).Put(d, z).Put(MSTATUS, m)
  }

  function FourSet(r: Regs, a: nat, x: Bits, b: nat, y: Bits, d: nat, z: Bits, m: Bits): Regs {
    SetReg(SetReg(SetReg(SetReg(r, a, x), b, y), d, z), MSTATUS, m)
  }

  lemma FourPuts(h: Hart, r: Regs, a: nat, x: Bits, b: nat, y: Bits, d: nat, z: Bits, m: Bits)
    requires Agrees(h, r) && a in STORED && b in STORED && d in STORED
    ensures Agrees(FourPut(h, a, x, b, y, d, z, m), FourSet(r, a, x, b, y, d, z, m))
  {
    hide Agrees, SetReg, Store;
    PutAgrees(h, r, a, x);
    PutAgrees(h.Put(a, x), SetReg(r, a, x), b, y);
    PutAgrees(h.Put(a, x).Put(b, y), SetReg(SetReg(r, a, x), b, y), d, z);
    PutAgrees(h.Put(a, x).Put(b, y).Put(d, z), SetReg(SetReg(SetReg(r, a, x), b, y), d, z), MSTATUS, m);
  }

  /** The file with the stored register at `a` replaced. */
  function SetReg(r: Regs, a: nat, v: Bits): Regs {
    if a == MSTATUS then r.(mstatus := v)
    else if a == MIE then r.(mie := v)
    else if a == MIP then r.(mipSw := v)
    else if a == MIDELEG then r.(mideleg := v)
    else if a == MEDELEG then r.(medeleg := v)
    else if a == SATP then r.(satp := v)
    else r.(m := SetBank(r.m, AT_M, a, v), s := SetBank(r.s, AT_S, a, v))
  }

  function SetBank(b: Bank, at: BankAddrs, a: nat, v: Bits): Bank {
    Bank(if a == at.tvec then v else b.tvec, if a == at.scratch then v else b.scratch,
         if a == at.epc then v else b.epc, if a == at.cause then v else b.cause, if a == at.tval then v else b.tval)
  }

  /** The effect of a write, by address instead of by register. */
  function WriteRegs(r: Regs, a: nat, v: Bits): Regs {
    if a == FFLAGS then r.(fflags := Low5(v))
    else if a == FRM then r.(frm := Low3(v))
    else if a == FCSR then r.(frm := RoundingField(v), fflags := Low5(v))
    else if a == SSTATUS then r.(mstatus := ViaSstatus(r.mstatus, v))
    else if a == SIE then r.(mie := ViaSie(r.mie, v))
    else if a == MIP || a == SIP then r.(mipSw := SInts(v))
    else SetReg(r, a, Masked(a, v))
  }

  lemma WriteByAddress(r: Regs, c: Cycle)
    requires c.write.Some? && WriteOnly(c) == c
    ensures Clocked(r, c) == WriteRegs(r, c.write.value.addr, Written(r, c))
  {
    hide Written, MstatusMasked, SstatusWritten, MieMasked, SieWritten, MipSwMasked, MidelegMasked, MedelegMasked,
      Low3, Low5, RoundingField, ViaSstatus, ViaSie, SInts, TargetS, CauseWord, TrapOf;
    var a := c.write.value.addr;
    if a == MSTATUS || a == MIE || a == MIDELEG || a == MEDELEG {
      hide Masked;
    } else {
      assert Masked(a, Written(r, c)) == Written(r, c);
      hide Masked;
    }
  }

  lemma FieldSet(r: Regs, a: nat, v: Bits, b: nat)
    requires a in STORED
    ensures Field(SetReg(r, a, v), b) == if b == a then v else Field(r, b)
  {
  }

  lemma PutAgrees(h: Hart, r: Regs, a: nat, v: Bits)
    requires Agrees(h, r) && a in STORED
    ensures Agrees(h.Put(a, v), SetReg(r, a, v))
  {
    assert h.Put(a, v).Complete();
    SetKeeps(r, a, v);
    hide At, Store, Low3, Low5, Field, SetReg, Hart.Complete;
    forall b: nat
      ensures h.Put(a, v).Get(b) == Field(SetReg(r, a, v), b)
    {
      FieldSet(r, a, v, b);
    }
  }

  lemma SetKeeps(r: Regs, a: nat, v: Bits)
    ensures var u := SetReg(r, a, v); u.priv == r.priv && u.frm == r.frm && u.fflags == r.fflags
  {
  }

  lemma WriteAgrees(h: Hart, r: Regs, c: Cycle)
    requires Agrees(h, r) && Legal(c) && c.write.Some? && WriteOnly(c) == c
    ensures Agrees(IssWrite(h, c.write.value), Clocked(r, c))
  {
    var w := c.write.value;
    ReadAgrees(h, r, w.addr);
    NewValueAgrees(w.op, CsrRead(h, w.addr), w.wdata);
    var v := Written(r, c);
    WriteByAddress(r, c);
    assert IssWrite(h, w) == CsrWrite(h, w.addr, v);
    hide CsrRead, Rdata, Written, Clocked, IssWrite;
    WrittenAgrees(h, r, w.addr, v);
  }

  lemma WrittenAgrees(h: Hart, r: Regs, a: nat, v: Bits)
    requires Agrees(h, r)
    ensures Agrees(CsrWrite(h, a, v), WriteRegs(r, a, v))
  {
    hide At, Store, Low3, Low5, RoundingField, ViaSstatus, ViaSie, SInts, Masked, Agrees, SetReg;
    if a == FFLAGS || a == FRM || a == FCSR {
      FloatWriteAgrees(h, r, a, v);
    } else if a == SSTATUS {
      SupervisorAgrees(h, r);
      PutAgrees(h, r, MSTATUS, ViaSstatus(r.mstatus, v));
      assert SetReg(r, MSTATUS, ViaSstatus(r.mstatus, v)) == WriteRegs(r, a, v) by { SetSpecial(r, ViaSstatus(r.mstatus, v)); }
    } else if a == SIE {
      SupervisorAgrees(h, r);
      PutAgrees(h, r, MIE, ViaSie(r.mie, v));
      SetSpecial(r, ViaSie(r.mie, v));
    } else if a == MIP || a == SIP {
      PutAgrees(h, r, MIP, SInts(v));
      SetSpecial(r, SInts(v));
    } else {
      SupervisorAgrees(h, r);
      if a in STORED {
        PutAgrees(h, r, a, Masked(a, v));
      } else {
        Unstored(r, a, Masked(a, v));
      }
    }
  }

  lemma SupervisorAgrees(h: Hart, r: Regs)
    requires Agrees(h, r)
    ensures h.Get(MSTATUS) == r.mstatus && h.Get(MIE) == r.mie && h.csr.Keys == STORED
  {
    assert h.Get(MSTATUS) == Field(r, MSTATUS) && h.Get(MIE) == Field(r, MIE);
    hide At, Low3, Low5;
  }

  lemma SetSpecial(r: Regs, v: Bits)
    ensures SetReg(r, MSTATUS, v) == r.(mstatus := v) && SetReg(r, MIE, v) == r.(mie := v)
    ensures SetReg(r, MIP, v) == r.(mipSw := v)
  {
  }

  lemma Unstored(r: Regs, a: nat, v: Bits)
    requires a !in STORED
    ensures SetReg(r, a, v) == r
  {
  }

  lemma FloatWriteAgrees(h: Hart, r: Regs, a: nat, v: Bits)
    requires Agrees(h, r) && (a == FFLAGS || a == FRM || a == FCSR)
    ensures Agrees(CsrWrite(h, a, v), WriteRegs(r, a, v))
  {
    LowFields(v, v);
    hide At, Low3, Low5, RoundingField, BankField;
    var k, u := CsrWrite(h, a, v), WriteRegs(r, a, v);
    assert k.csr == h.csr && u == r.(frm := u.frm, fflags := u.fflags);
    forall b: nat
      ensures k.Get(b) == Field(u, b)
    {
      assert h.Get(b) == Field(r, b);
    }
  }

  /** Both lose the same writes. */
  lemma TouchedAgrees(h: Hart, r: Regs, c: Cycle, a: nat)
    requires Agrees(h, r)
    ensures IssTouched(h, c, a) == Touched(r, c, a)
  {
    hide Agrees, ToS, TargetS, CauseWord;
    if c.trap.Some? {
      TargetAgrees(h, r, c.trap.value);
    }
  }

  lemma SameControl(h: Hart, r: Regs, c: Cycle)
    ensures IssControl(h, ControlOnly(NoFlags(c))) == IssControl(h, c)
    ensures Redirect(r, ControlOnly(NoFlags(c))) == Redirect(r, c)
  {
    hide Trap, Mret, Sret, TargetS;
  }

  lemma SameFflags(h: Hart, r: Regs)
    requires Agrees(h, r)
    ensures h.fflags == r.fflags
  {
    hide At, Low3, Low5, Field;
  }

  /** One cycle of the file is the reference model's cycle. */
  lemma CycleStates(h: Hart, r: Regs, c: Cycle)
    requires Agrees(h, r) && Legal(c)
    ensures Agrees(IssCycle(h, c), Clocked(r, c))
    ensures c.trap.Some? || c.mret || c.sret ==> IssControl(h, c).pc == Redirect(r, c)
  {
    hide Agrees, Clocked, IssControl, IssWrite, Modelled, IssTouched, Touched, Redirect, Accrue;
    var k := NoFlags(c);
    var h1, r1 := IssControl(h, c), Clocked(r, ControlOnly(k));
    ControlAgrees(h, r, ControlOnly(k));
    SameControl(h, r, c);
    FlagsAside(r, c);
    SameFflags(h, r);
    if c.write.Some? {
      SameCycleWrite(r, c);
      TouchedAgrees(h, r, c, c.write.value.addr);
      WriteAgrees(h1, r1, WriteOnly(k));
      if c.flags.Some? {
        FlagsAgree(IssWrite(h1, c.write.value), Clocked(r1, WriteOnly(k)), h.fflags, c.flags.value);
      }
    } else {
      assert ControlOnly(k) == k;
    }
    if c.flags.Some? {
      FlagsAgree(h1, r1, h.fflags, c.flags.value);
    }
  }

  /** What software and the pipeline see of a cycle: the value read, the trap's target, the new pc. */
  datatype Seen = Seen(read: Option<Bits>, toS: Option<bool>, pc: Option<Bits>)

  function FileSees(r: Regs, c: Cycle): Seen {
    Seen(if c.write.Some? then Some(Rdata(r, c.pending, c.write.value.addr)) else None,
         if c.trap.Some? then Some(TargetS(r, c.trap.value)) else None,
         if c.trap.Some? || c.mret || c.sret then Some(Redirect(r, c)) else None)
  }

  function IssSees(h: Hart, c: Cycle): Seen {
    Seen(if c.write.Some? then Some(CsrRead(h, c.write.value.addr)) else None,
         if c.trap.Some? then Some(ToS(h, CauseWord(c.trap.value))) else None,
         if c.trap.Some? || c.mret || c.sret then Some(IssControl(h, c).pc) else None)
  }

  /** A cycle keeps agreement, and shows the same on both sides. */
  lemma CycleAgrees(h: Hart, r: Regs, c: Cycle)
    requires Agrees(h, r) && Legal(c)
    ensures Agrees(IssCycle(h, c), Clocked(r, c)) && IssSees(h, c) == FileSees(r, c)
  {
    hide Agrees, Clocked, IssControl, IssCycle, TargetS, ToS, CauseWord, Rdata, CsrRead, Modelled, Redirect;
    CycleStates(h, r, c);
    if c.trap.Some? {
      TargetAgrees(h, r, c.trap.value);
    }
    if c.write.Some? {
      ReadAgrees(h, r, c.write.value.addr);
    }
  }

  // ---- runs ----

  /** The file's registers after a sequence of cycles, and what it showed on the way. */
  function RunRegs(r: Regs, cs: seq<Cycle>): Regs
    decreases |cs|
  {
    if cs == [] then r else RunRegs(Clocked(r, cs[0]), cs[1..])
  }

  function FileShows(r: Regs, cs: seq<Cycle>): seq<Seen>
    decreases |cs|
  {
    if cs == [] then [] else [FileSees(r, cs[0])] + FileShows(Clocked(r, cs[0]), cs[1..])
  }

  function RunIss(h: Hart, cs: seq<Cycle>): Hart
    decreases |cs|
  {
    if cs == [] then h else RunIss(IssCycle(h, cs[0]), cs[1..])
  }

  function IssShows(h: Hart, cs: seq<Cycle>): seq<Seen>
    decreases |cs|
  {
    if cs == [] then [] else [IssSees(h, cs[0])] + IssShows(IssCycle(h, cs[0]), cs[1..])
  }

  /** The register file simulates the reference model's operations, in the order `IssCycle` gives them, over every run. */
  lemma {:induction false} RunAgrees(h: Hart, r: Regs, cs: seq<Cycle>)
    requires Agrees(h, r) && forall k :: 0 <= k < |cs| ==> Legal(cs[k])
    ensures Agrees(RunIss(h, cs), RunRegs(r, cs)) && IssShows(h, cs) == FileShows(r, cs)
    decreases |cs|
  {
    if cs != [] {
      hide Agrees, Clocked, IssCycle, Legal, IssSees, FileSees;
      CycleAgrees(h, r, cs[0]);
      RunAgrees(IssCycle(h, cs[0]), Clocked(r, cs[0]), cs[1..]);
    }
  }

  lemma ResetAgrees()
    ensures Agrees(ResetHart(), ResetRegs())
  {
  }
}
