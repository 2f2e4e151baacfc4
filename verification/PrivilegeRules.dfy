/**
  The privilege rules of the trap and CSR machinery with addresses, causes and bit positions written
  out: what a trap saves and where it goes, what the returns restore, what a CSR write reaches, which
  instructions trap at which privilege, and that user code cannot touch supervisor state.
 */
module PrivilegeRules {
  import opened Wrappers
  import opened Privilege

  // ---- traps ----

  /** mstatus across a trap to S: SPP and SPIE record the privilege and SIE, SIE is off, the rest stays. */
  predicate SavedInS(m: Bits, k: Bits, priv: nat) {
    (k.v & 0x100 != 0 <==> priv == 1) && (k.v & 0x20 != 0 <==> m.v & 0x2 != 0) && k.v & 0x2 == 0 &&
    k.v & 0xFFFF_FEDD == m.v & 0xFFFF_FEDD
  }

  /** And to M: MPP and MPIE record the privilege and MIE, MIE is off. */
  predicate SavedInM(m: Bits, k: Bits, priv: nat) {
    MppHolds(k, priv) && EnableStacked(m, k) && OutsideMHalf(m, k)
  }

  /** Bits 12 and 11 hold a privilege. */
  predicate MppHolds(k: Bits, priv: nat) {
    priv == (if k.v & 0x800 != 0 then 1 else 0) + (if k.v & 0x1000 != 0 then 2 else 0)
  }

  /** Bit 7 holds what bit 3 was, and bit 3 is off. */
  predicate EnableStacked(m: Bits, k: Bits) {
    (k.v & 0x80 != 0 <==> m.v & 0x8 != 0) && k.v & 0x8 == 0
  }

  /** Bit 3 is what bit 7 was, and bit 7 is on. */
  predicate EnableUnstacked(m: Bits, k: Bits) {
    (k.v & 0x8 != 0 <==> m.v & 0x80 != 0) && k.v & 0x80 != 0
  }

  /** All bits but 3, 7, 11 and 12 are as they were. */
  predicate OutsideMHalf(m: Bits, k: Bits) {
    k.v & 0xFFFF_E777 == m.v & 0xFFFF_E777
  }

  /** Every register but those at the given addresses is as it was. */
  ghost predicate OthersSame(h: Hart, k: Hart, changed: set<nat>) {
    forall a: nat :: a !in changed ==> k.Get(a) == h.Get(a)
  }

  /** A trap taken in S saves pc, cause and value in sepc, scause and stval and goes to stvec. */
  ghost predicate LandsInS(h: Hart, k: Hart, cause: Bits, tval: Bits) {
    k.priv == 1 && k.pc == h.Get(0x105) && k.frm == h.frm && k.fflags == h.fflags &&
    k.Get(0x141) == h.pc && k.Get(0x142) == cause && k.Get(0x143) == tval &&
    SavedInS(h.Get(0x300), k.Get(0x300), h.priv) && OthersSame(h, k, {0x141, 0x142, 0x143, 0x300})
  }

  /** One taken in M saves them in mepc, mcause and mtval and goes to mtvec. */
  ghost predicate LandsInM(h: Hart, k: Hart, cause: Bits, tval: Bits) {
    k.priv == 3 && k.pc == h.Get(0x305) && k.frm == h.frm && k.fflags == h.fflags &&
    k.Get(0x341) == h.pc && k.Get(0x342) == cause && k.Get(0x343) == tval &&
    SavedInM(h.Get(0x300), k.Get(0x300), h.priv) && OthersSame(h, k, {0x341, 0x342, 0x343, 0x300})
  }

  /** The bit of a delegation register that a cause selects. */
  predicate Selected(deleg: Bits, cause: Bits) {
    (deleg.v >> (cause.v & 0x1F)) & 1 == 1
  }

  predicate TopBit(cause: Bits) {
    cause.v & 0x8000_0000 != 0
  }

  /** Delegated: below M, with the cause's bit set in medeleg, or in mideleg for an interrupt. */
  predicate Delegated(h: Hart, cause: Bits) {
    h.priv != 3 && Selected(h.Get(if TopBit(cause) then 0x303 else 0x302), cause)
  }

  ghost predicate Lands(h: Hart, k: Hart, cause: Bits, tval: Bits) {
    if Delegated(h, cause) then LandsInS(h, k, cause, tval) else LandsInM(h, k, cause, tval)
  }

  lemma EnterSBits(m: Bits, priv: nat)
    requires priv < 3
    ensures SavedInS(m, EnterS(m, priv), priv)
  {
  }

  lemma EnterMBits(m: Bits, priv: nat)
    requires priv < 4
    ensures SavedInM(m, EnterM(m, priv), priv)
  {
    hide EnterM, PrivBits, SHalf, Mie, Mpie, Mpp, MppHolds, EnableStacked, OutsideMHalf;
    EnterMPrivilege(m, priv);
    EnterMEnable(m, priv);
    EnterMRest(m, priv);
  }

  lemma EnterMPrivilege(m: Bits, priv: nat)
    requires priv < 4
    ensures MppHolds(EnterM(m, priv), priv)
  {
    hide SHalf, Mie, Mpie, Mpp, Bit;
    StackedWord(m.v & !M_HALF, Bit(m.v, 3) & 1, PrivBits(priv));
    OneBit(m.v);
  }

  lemma OneBit(m: bv32)
    ensures Bit(m, 3) & 1 == Bit(m, 3)
  {
  }

  /** The fields of the stacked word do not overlap. */
  lemma StackedWord(rest: bv32, e: bv32, p: bv32)
    requires rest & 0x1888 == 0 && e <= 1 && p <= 3
    ensures var k := rest | (e << 7) | (p << 11);
            k & 0x800 == (p & 1) << 11 && k & 0x1000 == (p & 2) << 11 && k & 0xFFFF_E777 == rest
  {
  }

  lemma EnterMEnable(m: Bits, priv: nat)
    requires priv < 4
    ensures EnableStacked(m, EnterM(m, priv))
  {
    hide SHalf, Mie, Mpie, Mpp;
  }

  lemma EnterMRest(m: Bits, priv: nat)
    requires priv < 4
    ensures OutsideMHalf(m, EnterM(m, priv))
  {
    hide SHalf, Mie, Mpie, Mpp, Bit;
    StackedWord(m.v & !M_HALF, Bit(m.v, 3) & 1, PrivBits(priv));
    OneBit(m.v);
  }

  lemma SelectedIs(deleg: Bits, cause: Bits)
    ensures Delegates(deleg, cause) <==> Selected(deleg, cause)
    ensures IsInterrupt(cause) <==> TopBit(cause)
  {
  }

  lemma DelegatedIs(h: Hart, cause: Bits)
    ensures ToS(h, cause) <==> Delegated(h, cause)
  {
    hide At, Selected, Delegates, IsInterrupt, TopBit;
    SelectedIs(h.Get(0x302), cause);
    SelectedIs(h.Get(0x303), cause);
  }

  lemma TrapLands(h: Hart, cause: Bits, tval: Bits)
    requires h.priv < 4
    ensures Lands(h, Trap(h, cause, tval), cause, tval)
  {
    hide TrapS, TrapM, ToS, Delegated, LandsInS, LandsInM;
    DelegatedIs(h, cause);
    TrapMLands(h, cause, tval);
    if Delegated(h, cause) {
      NeverFromM(h, cause);
      TrapSLands(h, cause, tval);
    }
  }

  lemma TrapSLands(h: Hart, cause: Bits, tval: Bits)
    requires h.priv < 3
    ensures LandsInS(h, TrapS(h, cause, tval), cause, tval)
  {
    hide EnterS, SavedInS, At, Store, SHalf, MHalf, Sie, Spie, Spp;
    EnterSBits(h.Get(MSTATUS), h.priv);
  }

  lemma TrapMLands(h: Hart, cause: Bits, tval: Bits)
    requires h.priv < 4
    ensures LandsInM(h, TrapM(h, cause, tval), cause, tval)
  {
    hide EnterM, SavedInM, At, Store, SHalf, MHalf, Mie, Mpie, Mpp;
    EnterMBits(h.Get(MSTATUS), h.priv);
  }

  lemma NeverFromM(h: Hart, cause: Bits)
    requires Delegated(h, cause) && h.priv < 4
    ensures h.priv < 3
  {
  }

  // ---- returns ----

  /** mstatus across mret: MIE from MPIE, MPIE set, MPP cleared, and the privilege it held. */
  predicate RestoredM(m: Bits, k: Bits, priv: nat) {
    EnableUnstacked(m, k) && OutsideMHalf(m, k) && MppHolds(m, priv) && MppHolds(k, 0)
  }

  /** And across sret: SIE from SPIE, SPIE set, SPP cleared. */
  predicate RestoredS(m: Bits, k: Bits, priv: nat) {
    (k.v & 0x2 != 0 <==> m.v & 0x20 != 0) && k.v & 0x20 != 0 && k.v & 0x100 == 0 &&
    k.v & 0xFFFF_FEDD == m.v & 0xFFFF_FEDD && priv == if m.v & 0x100 != 0 then 1 else 0
  }

  ghost predicate ReturnedFromM(h: Hart, k: Hart) {
    RestoredM(h.Get(0x300), k.Get(0x300), k.priv) && k.pc == h.Get(0x341) && k.frm == h.frm && k.fflags == h.fflags &&
    OthersSame(h, k, {0x300})
  }

  ghost predicate ReturnedFromS(h: Hart, k: Hart) {
    RestoredS(h.Get(0x300), k.Get(0x300), k.priv) && k.pc == h.Get(0x141) && k.frm == h.frm && k.fflags == h.fflags &&
    OthersSame(h, k, {0x300})
  }

  lemma LeaveMBits(m: Bits)
    ensures RestoredM(m, LeaveM(m), Mpp(m))
  {
    hide LeaveM, Mpp, SHalf, Mie, Mpie, EnableUnstacked, OutsideMHalf, MppHolds;
    LeaveMWord(m);
    LeaveMRest(m);
    MppValue(m);
  }

  lemma LeaveMWord(m: Bits)
    ensures EnableUnstacked(m, LeaveM(m)) && MppHolds(LeaveM(m), 0)
  {
    hide Mpp, SHalf, Mie, Mpie;
  }

  lemma LeaveMRest(m: Bits)
    ensures OutsideMHalf(m, LeaveM(m))
  {
    hide Mpp, SHalf, Mie, Mpie;
  }

  lemma MppValue(m: Bits)
    ensures MppHolds(m, Mpp(m))
  {
    var k := (m.v >> 11) & 3;
    assert k & 1 != 0 <==> m.v & 0x800 != 0;
    assert k & 2 != 0 <==> m.v & 0x1000 != 0;
    assert k == 0 || k == 1 || k == 2 || k == 3;
  }

  lemma LeaveSBits(m: Bits)
    ensures RestoredS(m, LeaveS(m), Spp(m))
  {
  }

  lemma MretReturns(h: Hart)
    ensures ReturnedFromM(h, Mret(h))
  {
    hide LeaveM, Mpp, RestoredM, At, Store, SHalf, Mie, Mpie;
    LeaveMBits(h.Get(MSTATUS));
  }

  lemma SretReturns(h: Hart)
    ensures ReturnedFromS(h, Sret(h))
  {
    hide LeaveS, Spp, RestoredS, At, Store, MHalf, Sie, Spie;
    LeaveSBits(h.Get(MSTATUS));
  }

  // ---- instructions ----

  /** What one event does, by privilege and instruction; None is the error of ecall at the reserved privilege 2. */
  ghost predicate Follows(h: Hart, op: Op, r: Option<Hart>) {
    if r.None? then op.Ecall? && h.priv == 2
    else
      var k := r.value;
      match op
      case Csr(f3, addr, src, next) =>
        if h.priv < addr / 0x100 % 4 then Lands(h, k, Bits(2), Bits(0))
        else k == CsrWrite(h, addr, Written(f3, CsrRead(h, addr), src)).(pc := next)
      case Ecall => h.priv != 2 && Lands(h, k, Bits(if h.priv == 0 then 8 else if h.priv == 1 then 9 else 11), Bits(0))
      case Ebreak => Lands(h, k, Bits(3), Bits(0))
      case MretInsn => if h.priv == 3 then ReturnedFromM(h, k) else Lands(h, k, Bits(2), Bits(0))
      case SretInsn => if h.priv == 0 then Lands(h, k, Bits(2), Bits(0)) else ReturnedFromS(h, k)
      case SfenceVma(next) => if h.priv == 0 then Lands(h, k, Bits(2), Bits(0)) else k == h.(pc := next)
      case UnknownSystem => Lands(h, k, Bits(2), Bits(0))
      case Fault(cause, tval) => Lands(h, k, cause, tval)
      case Interrupt(cause) => if h.Get(0x300).v & 0x8 != 0 then Lands(h, k, cause, Bits(0)) else k == h
      case Plain(next, flags) => k == h.(pc := next, fflags := Bits((h.fflags.v | flags.v) & 0x1F))
  }

  /** csrrw writes the operand, csrrs sets its bits, csrrc clears them; the immediate forms likewise. */
  function Written(f3: nat, was: Bits, src: Bits): Bits {
    if f3 == 1 || f3 == 5 then src
    else if f3 == 2 || f3 == 6 then Bits(was.v | src.v)
    else Bits(was.v & !src.v)
  }

  lemma NewValueIs(f3: nat, was: Bits, src: Bits)
    requires f3 < 8
    ensures NewValue(f3, was, src) == Written(f3, was, src)
  {
  }

  lemma InterruptsOn(m: Bits)
    ensures Mie(m) <==> m.v & 0x8 != 0
  {
  }

  /** Every event of the machine does what its privilege allows, and raises the cause of what it does not. */
  lemma ExecFollows(h: Hart, op: Op)
    requires h.priv < 4 && (op.Csr? ==> op.f3 < 8)
    ensures Follows(h, op, Exec(h, op))
  {
    hide Trap, Mret, Sret, Lands, ReturnedFromM, ReturnedFromS, CsrRead, CsrWrite, NewValue, Written, Mie, At;
    match op {
      case Csr(f3, addr, src, next) =>
        TrapLands(h, Bits(2), Bits(0));
        NewValueIs(f3, CsrRead(h, addr), src);
      case Ecall => TrapLands(h, Bits(8), Bits(0)); TrapLands(h, Bits(9), Bits(0)); TrapLands(h, Bits(11), Bits(0));
      case Ebreak => TrapLands(h, Bits(3), Bits(0));
      case MretInsn => TrapLands(h, Bits(2), Bits(0)); MretReturns(h);
      case SretInsn => TrapLands(h, Bits(2), Bits(0)); SretReturns(h);
      case SfenceVma(next) => TrapLands(h, Bits(2), Bits(0));
      case UnknownSystem => TrapLands(h, Bits(2), Bits(0));
      case Fault(cause, tval) => TrapLands(h, cause, tval);
      case Interrupt(cause) => TrapLands(h, cause, Bits(0)); InterruptsOn(h.Get(0x300));
      case Plain(next, flags) =>
    }
  }

  // ---- CSR writes ----

  /** Where an access at an address goes: the register behind it, and the bits of it that can be written. */
  datatype Reach = Reach(register: nat, mask: bv32)

  function ReachOf(a: nat): Reach {
    if a == 0x300 then Reach(0x300, 0x19AA)
    else if a == 0x100 then Reach(0x300, 0x0122)
    else if a == 0x304 then Reach(0x304, 0x0AAA)
    else if a == 0x104 then Reach(0x304, 0x0222)
    else if a == 0x344 || a == 0x144 then Reach(0x344, 0x0222)
    else if a == 0x302 then Reach(0x302, 0xBB0C)
    else if a == 0x303 then Reach(0x303, 0x0AAA)
    else Reach(a, 0xFFFF_FFFF)
  }

  /** The bits a write leaves: those of sstatus and sie keep the rest of the register, the others clear it. */
  function Kept(a: nat): bv32 {
    if a == 0x100 then 0xFFFF_FEDD else if a == 0x104 then 0xFFFF_FDDD else 0
  }

  /** The value written, in the bits that exist, over what is kept. */
  function Combined(v: Bits, mask: bv32, m: Bits, keep: bv32): Bits {
    Bits((v.v & mask) | (m.v & keep))
  }

  /** A write to a stored CSR changes the register behind its address, in the bits that exist, and nothing else. */
  lemma WriteReaches(h: Hart, a: nat, v: Bits)
    requires h.Complete() && (a in h.csr || a == 0x100 || a == 0x104 || a == 0x144)
    ensures var k, r := CsrWrite(h, a, v), ReachOf(a);
            k.Get(r.register) == Combined(v, r.mask, h.Get(r.register), Kept(a)) &&
            k.priv == h.priv && k.pc == h.pc && k.frm == h.frm && k.fflags == h.fflags && OthersSame(h, k, {r.register})
  {
    hide ViaSstatus, ViaSie, SInts, MInts, MHalf, SHalf, Masked, At, Store, Combined;
    if a == 0x100 {
      ViaSstatusBits(h.Get(0x300), v);
    } else if a == 0x104 {
      ViaSieBits(h.Get(0x304), v);
    } else if a == 0x344 || a == 0x144 {
      PendingBits(h.Get(0x344), v);
    } else {
      MaskBits(h.Get(a), a, v);
    }
  }

  lemma ViaSstatusBits(m: Bits, v: Bits)
    ensures ViaSstatus(m, v) == Combined(v, 0x0122, m, 0xFFFF_FEDD)
  {
  }

  lemma ViaSieBits(m: Bits, v: Bits)
    ensures ViaSie(m, v) == Combined(v, 0x0222, m, 0xFFFF_FDDD)
  {
  }

  lemma PendingBits(m: Bits, v: Bits)
    ensures SInts(v) == Combined(v, 0x0222, m, 0)
  {
  }

  lemma MaskBits(m: Bits, a: nat, v: Bits)
    ensures a != 0x100 && a != 0x104 && a != 0x344 && a != 0x144 ==> Masked(a, v) == Combined(v, ReachOf(a).mask, m, 0)
  {
    StatusMask(m, v);
    InterruptMask(m, v);
    DelegationMask(m, v);
    FullMask(m, v);
    hide Combined;
  }

  lemma StatusMask(m: Bits, v: Bits)
    ensures Masked(0x300, v) == Combined(v, 0x19AA, m, 0)
  {
  }

  lemma InterruptMask(m: Bits, v: Bits)
    ensures Masked(0x304, v) == Masked(0x303, v) == Combined(v, 0x0AAA, m, 0)
  {
  }

  lemma DelegationMask(m: Bits, v: Bits)
    ensures Masked(0x302, v) == Combined(v, 0xBB0C, m, 0)
  {
  }

  lemma FullMask(m: Bits, v: Bits)
    ensures v == Combined(v, 0xFFFF_FFFF, m, 0)
  {
  }

  /** The floating-point status registers, and addresses behind which there is nothing. */
  lemma StatusReaches(h: Hart, a: nat, v: Bits)
    requires h.Complete() && a !in h.csr && a != 0x100 && a != 0x104 && a != 0x144
    ensures CsrWrite(h, a, v) ==
              if a == 1 then h.(fflags := Bits(v.v & 0x1F))
              else if a == 2 then h.(frm := Bits(v.v & 0x7))
              else if a == 3 then h.(frm := Bits((v.v >> 5) & 0x7), fflags := Bits(v.v & 0x1F))
              else h
  {
  }

  /** A read shows the register behind the address, sstatus, sie and sip only the supervisor's bits of it. */
  lemma ReadShows(h: Hart, a: nat)
    ensures CsrRead(h, a) ==
              if a == 1 then Bits(h.fflags.v & 0x1F)
              else if a == 2 then Bits(h.frm.v & 0x7)
              else if a == 3 then Bits(((h.frm.v & 0x7) << 5) | (h.fflags.v & 0x1F))
              else if a == 0x100 then Bits(h.Get(0x300).v & 0x0122)
              else if a == 0x104 then Bits(h.Get(0x304).v & 0x0222)
              else if a == 0x144 then Bits(h.Get(0x344).v & 0x0222)
              else h.Get(a)
  {
    hide SstatusView, SieView, At;
    StatusViewBits(h.Get(0x300));
    EnableViewBits(h.Get(0x304));
    EnableViewBits(h.Get(0x344));
  }

  lemma StatusViewBits(m: Bits)
    ensures SstatusView(m) == Bits(m.v & 0x0122)
  {
  }

  lemma EnableViewBits(m: Bits)
    ensures SieView(m) == Bits(m.v & 0x0222)
  {
  }

  // ---- user isolation ----

  /** Every register of the supervisor and the machine. */
  ghost predicate PrivilegedSame(h: Hart, k: Hart) {
    forall a: nat :: a / 0x100 % 4 != 0 ==> k.Get(a) == h.Get(a)
  }

  /** An event in U either stays in U and leaves every privileged register alone, or is a trap. */
  lemma UserStep(h: Hart, op: Op)
    requires h.priv == 0 && (op.Csr? ==> op.f3 < 8)
    ensures Exec(h, op).Some?
    ensures var k := Exec(h, op).value;
            (k.priv == 0 && PrivilegedSame(h, k)) || exists cause, tval :: Lands(h, k, cause, tval)
  {
    ExecFollows(h, op);
    if op.Csr? && op.addr / 0x100 % 4 == 0 {
      UserWrite(h, op.addr, Written(op.f3, CsrRead(h, op.addr), op.src));
    }
    hide Lands, CsrWrite, CsrRead, Exec, At;
  }

  /** A write to a user-level address stores only at that address. */
  lemma UserWrite(h: Hart, a: nat, v: Bits)
    requires a / 0x100 % 4 == 0
    ensures CsrWrite(h, a, v).priv == h.priv && PrivilegedSame(h, CsrWrite(h, a, v))
  {
    hide Masked, At, Store;
  }

  /**
    User isolation over whole runs: as long as the hart has stayed in U, whatever it executed, sepc,
    scause, stval, stvec, sscratch, satp, mstatus, mie, mip and all other registers above the user
    level are what they were.
   */
  lemma {:induction false} UserIsolated(hs: seq<Hart>, ops: seq<Op>, n: nat)
    requires IsRun(hs, ops) && n < |hs| && forall j :: 0 <= j < |ops| && ops[j].Csr? ==> ops[j].f3 < 8
    requires forall j :: 0 <= j <= n ==> hs[j].priv == 0
    ensures PrivilegedSame(hs[0], hs[n])
    ensures forall a: nat :: a in {0x141, 0x142, 0x143, 0x105, 0x140, 0x180, 0x300, 0x304, 0x344} ==>
              hs[n].Get(a) == hs[0].Get(a)
  {
    hide Exec, Lands, At, Hart.Get;
    if n > 0 {
      UserIsolated(hs, ops, n - 1);
      UserStep(hs[n - 1], ops[n - 1]);
      assert Exec(hs[n - 1], ops[n - 1]) == Some(hs[n]);
      LeavesUser(hs[n - 1], hs[n]);
    }
  }

  /** A trap from U does not stay in U. */
  lemma LeavesUser(h: Hart, k: Hart)
    requires k.priv == 0
    ensures forall cause, tval :: !Lands(h, k, cause, tval)
  {
  }
}
