/**
  The page-table walkers of sim/tools/iss.py (Sv32 and Sv39), the one walk they are both instances
  of, and the expansion of a superpage leaf into a table of smaller leaves, which leaves every
  translation unchanged.
 */
module PageWalk {
  import opened Wrappers
  import opened Arithmetic

  datatype Access = Fetch | Load | Store

  /** What a translation gives: an address, or the cause and tval of the page fault it raises. */
  datatype Outcome = Physical(addr: nat) | PageFault(cause: nat, tval: nat)

  newtype byte = x: int | 0 <= x < 256

  const MMIO_BASE: nat := 0x1000_0000
  const PAGE: nat := 4096
  const PPNS: nat := 0x10_0000
  const PRIV_U: nat := 0

  function FaultCause(access: Access): nat {
    match access
    case Fetch => 12
    case Load => 13
    case Store => 15
  }

  // ---- memory ----

  function LoadByte(mem: seq<byte>, addr: nat): nat
    requires |mem| > 0
  {
    if addr >= MMIO_BASE then 0 else mem[addr % |mem|] as int
  }

  /** `n` bytes at `addr`, least significant first. */
  function LoadLe(mem: seq<byte>, addr: nat, n: nat): nat
    requires |mem| > 0
    decreases n
  {
    if n == 0 then 0 else LoadByte(mem, addr) + 256 * LoadLe(mem, addr + 1, n - 1)
  }

  function Power(b: nat, n: nat): (r: nat)
    ensures b > 0 ==> r > 0
  {
    if n == 0 then 1 else b * Power(b, n - 1)
  }

  const WORD_SPACE: nat := 0x1_0000_0000

  /** A page-table entry of `n` bytes; its address is cut to 32 bits first. */
  function ReadEntry(mem: seq<byte>, addr: nat, n: nat): nat
    requires |mem| > 0
  {
    LoadLe(mem, addr % WORD_SPACE, n)
  }

  /** _read_pte64, for an entry of `n` bytes. */
  method ReadPte(mem: seq<byte>, addr: nat, n: nat) returns (val: nat)
    requires |mem| > 0
    ensures val == ReadEntry(mem, addr, n)
  {
    val := Accumulate(mem, addr % WORD_SPACE, n);
  }

  /** Its byte-accumulating loop. */
  method Accumulate(mem: seq<byte>, addr: nat, n: nat) returns (val: nat)
    requires |mem| > 0
    ensures val == LoadLe(mem, addr, n)
  {
    hide LoadByte;
    val := 0;
    var scale := 1;
    for i := 0 to n
      invariant val + scale * LoadLe(mem, addr + i, n - i) == LoadLe(mem, addr, n)
    {
      var b := LoadByte(mem, addr + i);
      ghost var rest := LoadLe(mem, addr + i + 1, n - i - 1);
      Distribute(scale, b, rest, LoadLe(mem, addr + i, n - i));
      val := val + b * scale;
      scale := 256 * scale;
    }
  }

  lemma Distribute(s: int, b: int, r: int, whole: int)
    requires whole == b + 256 * r
    ensures s * whole == b * s + (256 * s) * r
  {
  }

  // ---- page-table entries ----

  predicate Bit(pte: nat, scale: nat)
    requires scale > 0
  {
    pte / scale % 2 == 1
  }

  predicate Valid(pte: nat) { Bit(pte, 1) }

  predicate Leaf(pte: nat) { Bit(pte, 2) || Bit(pte, 4) || Bit(pte, 8) }

  /** The twenty page-number bits the walkers keep. */
  function Ppn(pte: nat): (p: nat)
    ensures p < PPNS
  {
    pte / 1024 % PPNS
  }

  /** _pte_perm_ok. */
  predicate PermOk(pte: nat, access: Access, priv: nat) {
    Bit(pte, if access == Fetch then 8 else if access == Store then 4 else 2) &&
    (if priv == PRIV_U then Bit(pte, 16) else !Bit(pte, 16))
  }

  // ---- the walkers as written ----

  /** _translate_sv32. */
  function TranslateSv32(mem: seq<byte>, satp: nat, vaddr: nat, access: Access, priv: nat): Outcome
    requires |mem| > 0
  {
    var v := vaddr % WORD_SPACE;
    var vpn1, vpn0, offset := v / 0x40_0000 % 1024, v / PAGE % 1024, v % PAGE;
    var fault := PageFault(FaultCause(access), v);
    var pte1 := ReadEntry(mem, satp % PPNS * PAGE + vpn1 * 4, 4);
    if !Valid(pte1) then fault
    else if Leaf(pte1) then
      if Ppn(pte1) % 1024 != 0 then fault
      else if !PermOk(pte1, access, priv) then fault
      else Physical((Ppn(pte1) / 1024 * 1024 + vpn0) * PAGE + offset)
    else
      var pte0 := ReadEntry(mem, Ppn(pte1) * PAGE + vpn0 * 4, 4);
      if !Valid(pte0) then fault
      else if !Leaf(pte0) then fault
      else if !PermOk(pte0, access, priv) then fault
      else Physical(Ppn(pte0) * PAGE + offset)
  }

  /** _translate_sv39. */
  function TranslateSv39(mem: seq<byte>, satp: nat, vaddr: nat, access: Access, priv: nat): Outcome
    requires |mem| > 0
  {
    var vpn2, vpn1, vpn0, offset := vaddr / 0x4000_0000 % 512, vaddr / 0x20_0000 % 512, vaddr / PAGE % 512, vaddr % PAGE;
    var fault := PageFault(FaultCause(access), vaddr);
    var pte2 := ReadEntry(mem, satp % PPNS * PAGE + vpn2 * 8, 8);
    if !Valid(pte2) then fault
    else if Leaf(pte2) then
      if Ppn(pte2) % 0x4_0000 != 0 then fault
      else if !PermOk(pte2, access, priv) then fault
      else Physical((Ppn(pte2) / 0x4_0000 * 0x4_0000 + vpn1 * 512 + vpn0) * PAGE + offset)
    else
      var pte1 := ReadEntry(mem, Ppn(pte2) * PAGE + vpn1 * 8, 8);
      if !Valid(pte1) then fault
      else if Leaf(pte1) then
        if Ppn(pte1) % 512 != 0 then fault
        else if !PermOk(pte1, access, priv) then fault
        else Physical((Ppn(pte1) / 512 * 512 + vpn0) * PAGE + offset)
      else
        var pte0 := ReadEntry(mem, Ppn(pte1) * PAGE + vpn0 * 8, 8);
        if !Valid(pte0) then fault
        else if !Leaf(pte0) then fault
        else if !PermOk(pte0, access, priv) then fault
        else Physical(Ppn(pte0) * PAGE + offset)
  }

  // ---- one walk for both ----

  /** Entries per table and bytes per entry; a table fills a page. */
  datatype Format = Format(radix: nat, bytes: nat) {
    predicate WellFormed() {
      radix > 0 && bytes > 0 && radix * bytes == PAGE
    }
  }

  const SV32 := Format(1024, 4)
  const SV39 := Format(512, 8)

  /** Where entry `index` of the table in page `table` is. */
  function Slot(f: Format, table: nat, index: nat): nat {
    table * PAGE + index * f.bytes
  }

  /** The physical page number for a virtual one, or None on a fault. */
  function Walk(f: Format, rd: nat -> nat, table: nat, level: nat, vpn: nat, access: Access, priv: nat): Option<nat>
    requires f.WellFormed()
    decreases level
  {
    var span := Power(f.radix, level);
    var pte := rd(Slot(f, table, vpn / span));
    if !Valid(pte) then None
    else if Leaf(pte) then
      if Ppn(pte) % span != 0 || !PermOk(pte, access, priv) then None else Some(Ppn(pte) + vpn % span)
    else if level == 0 then None
    else Walk(f, rd, Ppn(pte), level - 1, vpn % span, access, priv)
  }

  function Finish(r: Option<nat>, access: Access, vaddr: nat): Outcome {
    if r.Some? then Physical(r.value * PAGE + vaddr % PAGE) else PageFault(FaultCause(access), vaddr)
  }

  function Reader(mem: seq<byte>, n: nat): nat -> nat
    requires |mem| > 0
  {
    (addr: nat) => LoadLe(mem, addr, n)
  }

  lemma SpanSteps()
    ensures Power(1024, 0) == 1 && Power(1024, 1) == 1024
    ensures Power(512, 0) == 1 && Power(512, 1) == 512 && Power(512, 2) == 0x4_0000
  {
    assert Power(1024, 1) == 1024 * Power(1024, 0);
    assert Power(512, 1) == 512 * Power(512, 0);
    assert Power(512, 2) == 512 * Power(512, 1);
  }

  /** A walk's addresses fit in 32 bits, so cutting them changes nothing. */
  lemma EntryRead(f: Format, mem: seq<byte>, table: nat, index: nat)
    requires f.WellFormed() && |mem| > 0 && table < PPNS && index < f.radix
    ensures ReadEntry(mem, Slot(f, table, index), f.bytes) == Reader(mem, f.bytes)(Slot(f, table, index))
  {
    hide LoadLe;
    Below(index, f.radix, f.bytes);
    DivModUnique(Slot(f, table, index), WORD_SPACE, 0, Slot(f, table, index));
  }

  /** One level of a walk, its index and the rest of the page number named. */
  lemma WalkStep(f: Format, mem: seq<byte>, table: nat, level: nat, span: nat, index: nat, rest: nat, access: Access, priv: nat)
    requires f.WellFormed() && |mem| > 0 && table < PPNS && index < f.radix
    requires span == Power(f.radix, level) && rest < span
    ensures Walk(f, Reader(mem, f.bytes), table, level, index * span + rest, access, priv)
         == var pte := ReadEntry(mem, table * PAGE + index * f.bytes, f.bytes);
            if !Valid(pte) then None
            else if Leaf(pte) then
              if Ppn(pte) % span != 0 || !PermOk(pte, access, priv) then None else Some(Ppn(pte) + rest)
            else if level == 0 then None
            else Walk(f, Reader(mem, f.bytes), Ppn(pte), level - 1, rest, access, priv)
  {
    hide Power, ReadEntry, Reader, Valid, Leaf, PermOk, Ppn;
    EntryRead(f, mem, table, index);
    DivModUnique(index * span + rest, span, index, rest);
  }

  /** _translate_sv32 is the two-level walk of radix 1024. */
  lemma Sv32IsWalk(mem: seq<byte>, satp: nat, vaddr: nat, access: Access, priv: nat)
    requires |mem| > 0
    ensures TranslateSv32(mem, satp, vaddr, access, priv)
         == Finish(Walk(SV32, Reader(mem, 4), satp % PPNS, 1, vaddr % WORD_SPACE / PAGE, access, priv),
                   access, vaddr % WORD_SPACE)
  {
    hide Power, LoadLe, ReadEntry, Reader, Valid, Leaf, PermOk, Ppn, Walk;
    SpanSteps();
    var v := vaddr % WORD_SPACE;
    var vpn1, vpn0 := v / 0x40_0000 % 1024, v / PAGE % 1024;
    Sv32Fields(v);
    WalkStep(SV32, mem, satp % PPNS, 1, 1024, vpn1, vpn0, access, priv);
    var pte1 := ReadEntry(mem, satp % PPNS * PAGE + vpn1 * 4, 4);
    WalkStep(SV32, mem, Ppn(pte1), 0, 1, vpn0, 0, access, priv);
  }

  lemma Sv32Fields(v: nat)
    requires v < WORD_SPACE
    ensures v / PAGE == v / 0x40_0000 % 1024 * 1024 + v / PAGE % 1024
  {
  }

  /** _translate_sv39 is the three-level walk of radix 512. */
  lemma Sv39IsWalk(mem: seq<byte>, satp: nat, vaddr: nat, access: Access, priv: nat)
    requires |mem| > 0
    ensures TranslateSv39(mem, satp, vaddr, access, priv)
         == Finish(Walk(SV39, Reader(mem, 8), satp % PPNS, 2, vaddr / PAGE % 0x800_0000, access, priv), access, vaddr)
  {
    hide Power, LoadLe, ReadEntry, Reader, Valid, Leaf, PermOk, Ppn, Walk, Sv39Walk;
    VpnFields(vaddr);
    Sv39Levels(mem, satp % PPNS, vaddr / 0x4000_0000 % 512, vaddr / 0x20_0000 % 512, vaddr / PAGE % 512, access, priv);
    Sv39Composes(mem, satp, vaddr, access, priv);
  }

  /** The walk of three levels over its index fields. */
  function Sv39Walk(mem: seq<byte>, root: nat, vpn2: nat, vpn1: nat, vpn0: nat, access: Access, priv: nat): Option<nat>
    requires |mem| > 0
  {
    var pte2 := ReadEntry(mem, root * PAGE + vpn2 * 8, 8);
    if !Valid(pte2) then None
    else if Leaf(pte2) then
      if Ppn(pte2) % 0x4_0000 != 0 || !PermOk(pte2, access, priv) then None
      else Some(Ppn(pte2) + (vpn1 * 512 + vpn0))
    else
      var pte1 := ReadEntry(mem, Ppn(pte2) * PAGE + vpn1 * 8, 8);
      if !Valid(pte1) then None
      else if Leaf(pte1) then
        if Ppn(pte1) % 512 != 0 || !PermOk(pte1, access, priv) then None else Some(Ppn(pte1) + vpn0)
      else
        var pte0 := ReadEntry(mem, Ppn(pte1) * PAGE + vpn0 * 8, 8);
        if !Valid(pte0) || !Leaf(pte0) || !PermOk(pte0, access, priv) then None else Some(Ppn(pte0))
  }

  lemma Sv39Levels(mem: seq<byte>, root: nat, vpn2: nat, vpn1: nat, vpn0: nat, access: Access, priv: nat)
    requires |mem| > 0 && root < PPNS && vpn2 < 512 && vpn1 < 512 && vpn0 < 512
    ensures Walk(SV39, Reader(mem, 8), root, 2, vpn2 * 0x4_0000 + (vpn1 * 512 + vpn0), access, priv)
         == Sv39Walk(mem, root, vpn2, vpn1, vpn0, access, priv)
  {
    hide Power, ReadEntry, Reader, Valid, Leaf, PermOk, Ppn, Walk;
    SpanSteps();
    WalkStep(SV39, mem, root, 2, 0x4_0000, vpn2, vpn1 * 512 + vpn0, access, priv);
    var pte2 := ReadEntry(mem, root * PAGE + vpn2 * 8, 8);
    WalkStep(SV39, mem, Ppn(pte2), 1, 512, vpn1, vpn0, access, priv);
    var pte1 := ReadEntry(mem, Ppn(pte2) * PAGE + vpn1 * 8, 8);
    WalkStep(SV39, mem, Ppn(pte1), 0, 1, vpn0, 0, access, priv);
  }

  /** An aligned leaf's page number with the index bits put in is the sum. */
  lemma Sv39Composes(mem: seq<byte>, satp: nat, vaddr: nat, access: Access, priv: nat)
    requires |mem| > 0
    ensures TranslateSv39(mem, satp, vaddr, access, priv)
         == Finish(Sv39Walk(mem, satp % PPNS, vaddr / 0x4000_0000 % 512, vaddr / 0x20_0000 % 512, vaddr / PAGE % 512,
                            access, priv), access, vaddr)
  {
    hide ReadEntry, Valid, Leaf, PermOk, Ppn;
  }

  /** The walker's shifts and masks pick the fields of the 27-bit virtual page number. */
  lemma VpnFields(vaddr: nat)
    ensures vaddr / PAGE % 0x800_0000
         == vaddr / 0x4000_0000 % 512 * 0x4_0000 + (vaddr / 0x20_0000 % 512 * 512 + vaddr / PAGE % 512)
  {
    var n := vaddr / PAGE;
    var c, m := n % 512, n / 512;
    var b, k := m % 512, m / 512;
    assert vaddr / 0x4000_0000 == k && vaddr / 0x20_0000 == m;
    DivModUnique(n, 0x800_0000, k / 512, k % 512 * 0x4_0000 + (b * 512 + c));
  }

  // ---- what a walk reads ----

  datatype Visit = Visit(addr: nat, level: nat)

  /** The entries a walk reads, with the level each is read at. */
  function Trail(f: Format, rd: nat -> nat, table: nat, level: nat, vpn: nat): seq<Visit>
    requires f.WellFormed()
    decreases level
  {
    var span := Power(f.radix, level);
    var addr := Slot(f, table, vpn / span);
    [Visit(addr, level)] +
    (if level == 0 || !Valid(rd(addr)) || Leaf(rd(addr)) then []
     else Trail(f, rd, Ppn(rd(addr)), level - 1, vpn % span))
  }

  // ---- expansion of a leaf ----

  /** The `i`-th of the leaves that together map what `leaf` maps at `level`. */
  function Piece(f: Format, leaf: nat, level: nat, i: nat): nat
    requires level > 0
  {
    leaf + i * Power(f.radix, level - 1) * 1024
  }

  /** A leaf that may stand at `level`: valid, aligned, its pages within the twenty bits. */
  predicate Superpage(f: Format, leaf: nat, level: nat)
    requires f.WellFormed()
  {
    level > 0 && Valid(leaf) && Leaf(leaf) &&
    Ppn(leaf) % Power(f.radix, level) == 0 && Ppn(leaf) + Power(f.radix, level) <= PPNS
  }

  predicate Pointer(pte: nat, table: nat) {
    Valid(pte) && !Leaf(pte) && Ppn(pte) == table
  }

  /** `rd'` is `rd` after the leaf was replaced, as far as a walk over `rd` can see. */
  ghost predicate Expanded(f: Format, rd: nat -> nat, rd': nat -> nat, trail: seq<Visit>, level: nat, leaf: nat,
                           pointer: nat, at: nat -> bool) {
    forall k :: 0 <= k < |trail| ==>
      if at(trail[k].addr) then trail[k].level == level && rd(trail[k].addr) == leaf && rd'(trail[k].addr) == pointer
      else rd'(trail[k].addr) == rd(trail[k].addr)
  }

  /** The new table holds the pieces. */
  ghost predicate HoldsPieces(f: Format, rd': nat -> nat, table: nat, level: nat, leaf: nat)
    requires level > 0
  {
    forall i :: 0 <= i < f.radix ==> rd'(Slot(f, table, i)) == Piece(f, leaf, level, i)
  }

  /** Adding pages to an entry changes nothing but its page number. */
  lemma PieceFields(f: Format, leaf: nat, level: nat, i: nat, access: Access, priv: nat)
    requires f.WellFormed() && Superpage(f, leaf, level) && i < f.radix
    ensures var q := Piece(f, leaf, level, i);
            Valid(q) && Leaf(q) && PermOk(q, access, priv) == PermOk(leaf, access, priv) &&
            Ppn(q) == Ppn(leaf) + i * Power(f.radix, level - 1)
  {
    var step := Power(f.radix, level - 1);
    var k := i * step;
    assert k < Power(f.radix, level) by { Below(i, f.radix, step); }
    AddPages(leaf, k);
  }

  lemma Below(i: nat, n: nat, s: nat)
    requires i < n && s > 0
    ensures i * s < n * s
  {
  }

  lemma AddPages(leaf: nat, k: nat)
    requires Ppn(leaf) + k < PPNS
    ensures Ppn(leaf + k * 1024) == Ppn(leaf) + k
    ensures Bit(leaf + k * 1024, 1) == Bit(leaf, 1) && Bit(leaf + k * 1024, 2) == Bit(leaf, 2)
    ensures Bit(leaf + k * 1024, 4) == Bit(leaf, 4) && Bit(leaf + k * 1024, 8) == Bit(leaf, 8)
    ensures Bit(leaf + k * 1024, 16) == Bit(leaf, 16)
  {
    var x := leaf + k * 1024;
    assert x / 1024 == leaf / 1024 + k;
    assert (leaf / 1024 + k) % PPNS == leaf / 1024 % PPNS + k by { AddBelow(leaf / 1024, k); }
    LowBits(leaf);
    LowBits(x);
    assert x % 1024 == leaf % 1024;
  }

  lemma AddBelow(h: nat, k: nat)
    requires h % PPNS + k < PPNS
    ensures (h + k) % PPNS == h % PPNS + k
  {
    var q := h / PPNS;
    assert h + k == q * PPNS + (h % PPNS + k);
  }

  /** The flag bits are those of the low ten bits. */
  lemma LowBits(x: nat)
    ensures Bit(x, 1) == Bit(x % 1024, 1) && Bit(x, 2) == Bit(x % 1024, 2) && Bit(x, 4) == Bit(x % 1024, 4)
    ensures Bit(x, 8) == Bit(x % 1024, 8) && Bit(x, 16) == Bit(x % 1024, 16)
  {
    hide Bit;
    LowBit(x, 1, 512);
    LowBit(x, 2, 256);
    LowBit(x, 4, 128);
    LowBit(x, 8, 64);
    LowBit(x, 16, 32);
  }

  lemma LowBit(x: nat, s: nat, t: nat)
    requires s > 0 && s * t * 2 == 1024
    ensures Bit(x, s) == Bit(x % 1024, s)
  {
    var h, l := x / 1024, x % 1024;
    var q := l / s;
    LowBitDigits(x, h, l, s, t, q, l % s);
    DivModUnique(x, s, 2 * (h * t) + q, l % s);
  }

  lemma LowBitDigits(x: nat, h: nat, l: nat, s: nat, t: nat, q: nat, r: nat)
    requires x == 1024 * h + l && s * t * 2 == 1024 && l == q * s + r
    ensures x == s * (2 * (h * t) + q) + r
  {
    assert s * (2 * (h * t) + q) == h * (s * t * 2) + q * s;
  }

  /** The walk that enters the new table ends where the leaf would have. */
  lemma PieceWalk(f: Format, rd': nat -> nat, table: nat, level: nat, leaf: nat, rest: nat, access: Access, priv: nat)
    requires f.WellFormed() && Superpage(f, leaf, level) && HoldsPieces(f, rd', table, level, leaf)
    requires rest < Power(f.radix, level)
    ensures Walk(f, rd', table, level - 1, rest, access, priv)
         == if PermOk(leaf, access, priv) then Some(Ppn(leaf) + rest) else None
  {
    var step := Power(f.radix, level - 1);
    var i := rest / step;
    SplitBelow(rest, f.radix, step);
    PieceFields(f, leaf, level, i, access, priv);
    AlignedSteps(Ppn(leaf), f.radix, step, i);
    assert rd'(Slot(f, table, i)) == Piece(f, leaf, level, i);
    hide Valid, Leaf, PermOk, Ppn, Power, Piece;
  }

  lemma SplitBelow(rest: nat, n: nat, s: nat)
    requires s > 0 && rest < n * s
    ensures rest / s < n && rest == rest / s * s + rest % s
  {
    if rest / s >= n {
      assert rest / s * s >= n * s by { ProductMono(n, rest / s, s); }
    }
  }

  lemma AlignedSteps(p: nat, n: nat, s: nat, i: nat)
    requires n > 0 && s > 0 && p % (n * s) == 0
    ensures (p + i * s) % s == 0
  {
    var k := p / (n * s);
    assert p == n * s * k;
    assert p + i * s == (n * k + i) * s;
    ModMul(n * k + i, s);
  }

  lemma ModMul(a: nat, s: nat)
    requires s > 0
    ensures a * s % s == 0
  {
    var k, m := a * s / s, a * s % s;
    assert a * s == k * s + m;
    if k < a {
      ProductMono(k + 1, a, s);
    } else {
      ProductMono(a, k, s);
    }
  }

  /** Replacing a leaf by a table of its pieces changes no walk. */
  lemma {:induction false} WalkExpanded(f: Format, rd: nat -> nat, rd': nat -> nat, table: nat, level: nat, vpn: nat,
                                        at: nat -> bool, leafLevel: nat, leaf: nat, pointer: nat, fresh_: nat,
                                        access: Access, priv: nat)
    requires f.WellFormed() && Superpage(f, leaf, leafLevel) && Pointer(pointer, fresh_)
    requires HoldsPieces(f, rd', fresh_, leafLevel, leaf)
    requires Expanded(f, rd, rd', Trail(f, rd, table, level, vpn), leafLevel, leaf, pointer, at)
    ensures Walk(f, rd', table, level, vpn, access, priv) == Walk(f, rd, table, level, vpn, access, priv)
    decreases level
  {
    hide Valid, Leaf, PermOk, Ppn, Power, Piece, HoldsPieces, Slot, Superpage, Pointer;
    var addr, rest := Slot(f, table, vpn / Power(f.radix, level)), vpn % Power(f.radix, level);
    ExpandedHead(f, rd, rd', table, level, vpn, at, leafLevel, leaf, pointer);
    hide Trail, Expanded;
    if at(addr) {
      PointerWalk(f, rd, rd', table, level, vpn, leaf, pointer, fresh_, access, priv);
    } else if level > 0 && Valid(rd(addr)) && !Leaf(rd(addr)) {
      WalkExpanded(f, rd, rd', Ppn(rd(addr)), level - 1, rest, at, leafLevel, leaf, pointer, fresh_, access, priv);
    }
  }

  /** A walk that meets the slot goes on into the new table. */
  lemma PointerWalk(f: Format, rd: nat -> nat, rd': nat -> nat, table: nat, level: nat, vpn: nat,
                    leaf: nat, pointer: nat, fresh_: nat, access: Access, priv: nat)
    requires f.WellFormed() && Superpage(f, leaf, level) && Pointer(pointer, fresh_)
    requires HoldsPieces(f, rd', fresh_, level, leaf)
    requires var addr := Slot(f, table, vpn / Power(f.radix, level)); rd(addr) == leaf && rd'(addr) == pointer
    ensures Walk(f, rd', table, level, vpn, access, priv) == Walk(f, rd, table, level, vpn, access, priv)
  {
    hide Valid, Leaf, PermOk, Ppn, Power, Piece, HoldsPieces, Slot;
    PieceWalk(f, rd', fresh_, level, leaf, vpn % Power(f.radix, level), access, priv);
  }

  /** What the hypothesis says of the first entry read, and of the rest of the walk. */
  lemma ExpandedHead(f: Format, rd: nat -> nat, rd': nat -> nat, table: nat, level: nat, vpn: nat,
                     at: nat -> bool, leafLevel: nat, leaf: nat, pointer: nat)
    requires f.WellFormed() && Expanded(f, rd, rd', Trail(f, rd, table, level, vpn), leafLevel, leaf, pointer, at)
    ensures var addr := Slot(f, table, vpn / Power(f.radix, level));
            if at(addr) then level == leafLevel && rd(addr) == leaf && rd'(addr) == pointer else rd'(addr) == rd(addr)
    ensures var addr := Slot(f, table, vpn / Power(f.radix, level));
            level > 0 && Valid(rd(addr)) && !Leaf(rd(addr)) ==>
              Expanded(f, rd, rd', Trail(f, rd, Ppn(rd(addr)), level - 1, vpn % Power(f.radix, level)),
                       leafLevel, leaf, pointer, at)
  {
    hide Valid, Leaf, Ppn, Power, Slot;
    var addr, rest := Slot(f, table, vpn / Power(f.radix, level)), vpn % Power(f.radix, level);
    var trail := Trail(f, rd, table, level, vpn);
    assert trail[0] == Visit(addr, level);
    if level > 0 && Valid(rd(addr)) && !Leaf(rd(addr)) {
      ExpandedTail(f, rd, rd', trail, Trail(f, rd, Ppn(rd(addr)), level - 1, rest), leafLevel, leaf, pointer, at);
    }
  }

  lemma ExpandedTail(f: Format, rd: nat -> nat, rd': nat -> nat, trail: seq<Visit>, rest: seq<Visit>, level: nat,
                     leaf: nat, pointer: nat, at: nat -> bool)
    requires Expanded(f, rd, rd', trail, level, leaf, pointer, at)
    requires |trail| == |rest| + 1 && trail[1..] == rest
    ensures Expanded(f, rd, rd', rest, level, leaf, pointer, at)
  {
    assert forall k :: 0 <= k < |rest| ==> rest[k] == trail[k + 1];
  }
}
