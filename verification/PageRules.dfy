/**
  What the two page-table walkers promise, said of the entry values: which bits a mapping needs for
  each kind of access, where it leads, and which fault is raised otherwise.
 */
module PageRules {
  import opened Arithmetic
  import opened PageWalk

  /** An entry that names the next table: valid, and neither readable, writable nor executable. */
  predicate Points(e: nat) {
    e % 2 == 1 && e / 2 % 2 == 0 && e / 4 % 2 == 0 && e / 8 % 2 == 0
  }

  /** The bit an access needs: R for a load, W for a store, X for a fetch. */
  predicate Grants(e: nat, access: Access) {
    match access
    case Load => e / 2 % 2 == 1
    case Store => e / 4 % 2 == 1
    case Fetch => e / 8 % 2 == 1
  }

  /** A valid leaf, aligned to its span of pages, that grants the access and belongs to the privilege. */
  predicate Maps(e: nat, access: Access, priv: nat, span: nat)
    requires span > 0
  {
    e % 2 == 1 && Grants(e, access) && (e / 16 % 2 == 1 <==> priv == 0) && e / 1024 % 0x10_0000 % span == 0
  }

  /** Where the page an entry names begins. */
  function PageOf(e: nat): nat {
    e / 1024 % 0x10_0000 * 4096
  }

  function Fault(access: Access, vaddr: nat): Outcome {
    match access
    case Load => PageFault(13, vaddr)
    case Store => PageFault(15, vaddr)
    case Fetch => PageFault(12, vaddr)
  }

  // ---- entries ----

  /** A byte of RAM, which repeats at its size; device space reads as zero. */
  function RamByte(mem: seq<byte>, addr: nat): nat
    requires |mem| > 0
  {
    if addr < 0x1000_0000 then mem[addr % |mem|] as nat else 0
  }

  /** An entry's bytes, least significant first. */
  lemma EntryBytes(mem: seq<byte>, addr: nat)
    requires |mem| > 0 && addr < 0x1_0000_0000
    ensures ReadEntry(mem, addr, 4) ==
              RamByte(mem, addr) + 0x100 * RamByte(mem, addr + 1) + 0x1_0000 * RamByte(mem, addr + 2) +
              0x100_0000 * RamByte(mem, addr + 3)
    ensures ReadEntry(mem, addr, 8) == ReadEntry(mem, addr, 4) + 0x1_0000_0000 * LoadLe(mem, addr + 4, 4)
    ensures LoadLe(mem, addr + 4, 4) ==
              RamByte(mem, addr + 4) + 0x100 * RamByte(mem, addr + 5) + 0x1_0000 * RamByte(mem, addr + 6) +
              0x100_0000 * RamByte(mem, addr + 7)
  {
    DivModUnique(addr, WORD_SPACE, 0, addr);
    FourBytes(mem, addr);
    FourBytes(mem, addr + 4);
    LowHalf(mem, addr);
    hide LoadLe;
  }

  lemma FourBytes(mem: seq<byte>, a: nat)
    requires |mem| > 0
    ensures LoadLe(mem, a, 4)
         == LoadByte(mem, a) + 256 * (LoadByte(mem, a + 1) + 256 * (LoadByte(mem, a + 2) + 256 * LoadByte(mem, a + 3)))
  {
    hide LoadByte;
    assert LoadLe(mem, a + 4, 0) == 0;
    assert LoadLe(mem, a + 3, 1) == LoadByte(mem, a + 3);
    assert LoadLe(mem, a + 2, 2) == LoadByte(mem, a + 2) + 256 * LoadLe(mem, a + 3, 1);
    assert LoadLe(mem, a + 1, 3) == LoadByte(mem, a + 1) + 256 * LoadLe(mem, a + 2, 2);
  }

  lemma LowHalf(mem: seq<byte>, a: nat)
    requires |mem| > 0
    ensures LoadLe(mem, a, 8) == LoadLe(mem, a, 4) + 0x1_0000_0000 * LoadLe(mem, a + 4, 4)
  {
    hide LoadByte;
    FourBytes(mem, a);
    assert LoadLe(mem, a + 3, 5) == LoadByte(mem, a + 3) + 256 * LoadLe(mem, a + 4, 4);
    assert LoadLe(mem, a + 2, 6) == LoadByte(mem, a + 2) + 256 * LoadLe(mem, a + 3, 5);
    assert LoadLe(mem, a + 1, 7) == LoadByte(mem, a + 1) + 256 * LoadLe(mem, a + 2, 6);
    assert LoadLe(mem, a, 8) == LoadByte(mem, a) + 256 * LoadLe(mem, a + 1, 7);
  }

  // ---- the walkers' tests in these terms ----

  lemma EntryTests(e: nat, access: Access, priv: nat, span: nat)
    requires span > 0
    ensures Valid(e) && !Leaf(e) <==> Points(e)
    ensures Valid(e) && Leaf(e) && PermOk(e, access, priv) && Ppn(e) % span == 0 <==> Maps(e, access, priv, span)
    ensures PageOf(e) == Ppn(e) * PAGE
  {
    EntryBits(e, access, priv);
    hide Valid, Leaf, PermOk, Points, Grants;
  }

  lemma EntryBits(e: nat, access: Access, priv: nat)
    ensures Valid(e) && !Leaf(e) <==> Points(e)
    ensures Valid(e) && Leaf(e) && PermOk(e, access, priv) <==>
            e % 2 == 1 && Grants(e, access) && (e / 16 % 2 == 1 <==> priv == 0)
  {
  }

  lemma Causes(access: Access, vaddr: nat)
    ensures PageFault(FaultCause(access), vaddr) == Fault(access, vaddr)
  {
  }

  /** Entry `index` of the table in page `table`. */
  function EntryAt(mem: seq<byte>, table: nat, index: nat, bytes: nat): nat
    requires |mem| > 0
  {
    ReadEntry(mem, table + index * bytes, bytes)
  }

  /**
    Sv32.  An address is mapped through an aligned megapage entry, or through a page entry of the
    table such an entry points to, and through nothing else; every other access faults.
   */
  function Sv32(mem: seq<byte>, satp: nat, v: nat, access: Access, priv: nat): Outcome
    requires |mem| > 0
  {
    var e1 := EntryAt(mem, satp % 0x10_0000 * 4096, v / 0x40_0000, 4);
    var e0 := EntryAt(mem, PageOf(e1), v / 4096 % 1024, 4);
    if Maps(e1, access, priv, 1024) then Physical(PageOf(e1) + v % 0x40_0000)
    else if Points(e1) && Maps(e0, access, priv, 1) then Physical(PageOf(e0) + v % 4096)
    else Fault(access, v)
  }

  /** Sv39, through an aligned gigapage, megapage or page entry. */
  function Sv39(mem: seq<byte>, satp: nat, v: nat, access: Access, priv: nat): Outcome
    requires |mem| > 0
  {
    var e2 := EntryAt(mem, satp % 0x10_0000 * 4096, v / 0x4000_0000 % 512, 8);
    var e1 := EntryAt(mem, PageOf(e2), v / 0x20_0000 % 512, 8);
    var e0 := EntryAt(mem, PageOf(e1), v / 4096 % 512, 8);
    if Maps(e2, access, priv, 0x4_0000) then Physical(PageOf(e2) + v % 0x4000_0000)
    else if Points(e2) && Maps(e1, access, priv, 512) then Physical(PageOf(e1) + v % 0x20_0000)
    else if Points(e2) && Points(e1) && Maps(e0, access, priv, 1) then Physical(PageOf(e0) + v % 4096)
    else Fault(access, v)
  }

  lemma Sv32Rule(mem: seq<byte>, satp: nat, vaddr: nat, access: Access, priv: nat)
    requires |mem| > 0
    ensures TranslateSv32(mem, satp, vaddr, access, priv) == Sv32(mem, satp, vaddr % 0x1_0000_0000, access, priv)
  {
    hide ReadEntry, Valid, Leaf, PermOk, Points, Maps, PageOf, Ppn, FaultCause, Fault;
    var v := vaddr % 0x1_0000_0000;
    var e1 := EntryAt(mem, satp % 0x10_0000 * 4096, v / 0x40_0000, 4);
    var e0 := EntryAt(mem, PageOf(e1), v / 4096 % 1024, 4);
    EntryTests(e1, access, priv, 1024);
    EntryTests(e0, access, priv, 1);
    Causes(access, v);
    Sv32Indices(v);
    MegapageAddress(Ppn(e1), v);
    AnyAligned(Ppn(e0));
  }

  lemma Sv39Rule(mem: seq<byte>, satp: nat, vaddr: nat, access: Access, priv: nat)
    requires |mem| > 0
    ensures TranslateSv39(mem, satp, vaddr, access, priv) == Sv39(mem, satp, vaddr, access, priv)
  {
    hide ReadEntry, Valid, Leaf, PermOk, Points, Maps, PageOf, Ppn, FaultCause, Fault;
    var e2 := EntryAt(mem, satp % 0x10_0000 * 4096, vaddr / 0x4000_0000 % 512, 8);
    var e1 := EntryAt(mem, PageOf(e2), vaddr / 0x20_0000 % 512, 8);
    var e0 := EntryAt(mem, PageOf(e1), vaddr / 4096 % 512, 8);
    EntryTests(e2, access, priv, 0x4_0000);
    EntryTests(e1, access, priv, 512);
    EntryTests(e0, access, priv, 1);
    Causes(access, vaddr);
    LargePageAddresses(Ppn(e2), Ppn(e1), vaddr);
    AnyAligned(Ppn(e0));
  }

  lemma AnyAligned(p: nat)
    ensures p % 1 == 0
  {
  }

  lemma Sv32Indices(v: nat)
    requires v < 0x1_0000_0000
    ensures v / 0x40_0000 % 1024 == v / 0x40_0000
  {
  }

  lemma MegapageAddress(p: nat, v: nat)
    ensures p % 1024 == 0 ==> (p / 1024 * 1024 + v / 4096 % 1024) * 4096 + v % 4096 == p * 4096 + v % 0x40_0000
  {
    DivModUnique(v, 0x40_0000, v / 4096 / 1024, v / 4096 % 1024 * 4096 + v % 4096);
  }

  lemma LargePageAddresses(p: nat, q: nat, v: nat)
    ensures p % 0x4_0000 == 0 ==>
      (p / 0x4_0000 * 0x4_0000 + v / 0x20_0000 % 512 * 512 + v / 4096 % 512) * 4096 + v % 4096 == p * 4096 + v % 0x4000_0000
    ensures q % 512 == 0 ==> (q / 512 * 512 + v / 4096 % 512) * 4096 + v % 4096 == q * 4096 + v % 0x20_0000
  {
    var m := v / 4096;
    assert v / 0x20_0000 == m / 512;
    DivModUnique(v, 0x20_0000, m / 512, m % 512 * 4096 + v % 4096);
    DivModUnique(v, 0x4000_0000, m / 512 / 512, m / 512 % 512 * 0x20_0000 + m % 512 * 4096 + v % 4096);
  }
}
