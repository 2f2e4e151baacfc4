/**
  Expanding a superpage in the reference model's byte memory: the leaf is overwritten by a pointer
  to a page filled with the leaves that together map the same range.  Every translation, of every
  address, access kind and privilege, is unchanged, fault causes and tval included.
 */
module SuperpageExpansion {
  import opened Arithmetic
  import opened PageWalk

  /** The `k`-th least significant byte. */
  function ByteOf(v: nat, k: nat): byte
    decreases k
  {
    if k == 0 then (v % 256) as byte else ByteOf(v / 256, k - 1)
  }

  /** Where the leaf is, the level it stands at, the page for the new table and the entry naming it. */
  datatype Plan = Plan(slot: nat, level: nat, table: nat, pointer: nat)

  /** The new table's page as it lies in a memory of this size; addresses wrap at the size. */
  function PageAt(size: nat, x: Plan): nat
    requires size > 0
  {
    x.table * PAGE % size
  }

  function LeafOf(f: Format, mem: seq<byte>, x: Plan): nat
    requires |mem| > 0
  {
    LoadLe(mem, x.slot, f.bytes)
  }

  /** Memory after the rewrite. */
  function ExpandMem(f: Format, mem: seq<byte>, x: Plan): (m: seq<byte>)
    requires f.WellFormed() && |mem| > 0 && x.level > 0
    ensures |m| == |mem|
  {
    var page, leaf := PageAt(|mem|, x), LeafOf(f, mem, x);
    seq(|mem|, j requires 0 <= j < |mem| =>
      if x.slot <= j < x.slot + f.bytes then ByteOf(x.pointer, j - x.slot)
      else if page <= j < page + PAGE then ByteOf(Piece(f, leaf, x.level, (j - page) / f.bytes), (j - page) % f.bytes)
      else mem[j])
  }

  /** The formats and the levels above the last that a leaf can stand at. */
  predicate Upper(f: Format, level: nat) {
    (f == SV32 && level == 1) || (f == SV39 && (level == 1 || level == 2))
  }

  /** The rewrite makes sense: an aligned leaf in RAM, a page in RAM that does not hold it, a pointer to the page. */
  predicate Sensible(f: Format, mem: seq<byte>, x: Plan) {
    Upper(f, x.level) && |mem| > 0 && |mem| % PAGE == 0 &&
    x.slot < |mem| && x.slot < MMIO_BASE && x.slot % f.bytes == 0 && x.table * PAGE < MMIO_BASE &&
    !(PageAt(|mem|, x) <= x.slot < PageAt(|mem|, x) + PAGE) &&
    Valid(LeafOf(f, mem, x)) && Leaf(LeafOf(f, mem, x)) && Ppn(LeafOf(f, mem, x)) % Power(f.radix, x.level) == 0 &&
    Pointer(x.pointer, x.table) && x.pointer < Power(256, f.bytes)
  }

  /** A walk's reads stay out of the new page, and meet the slot only at its level. */
  predicate Avoids(trail: seq<Visit>, size: nat, x: Plan)
    requires size > 0
  {
    forall k :: 0 <= k < |trail| && trail[k].addr < MMIO_BASE ==>
      !(PageAt(size, x) <= trail[k].addr % size < PageAt(size, x) + PAGE) &&
      (trail[k].addr % size == x.slot ==> trail[k].level == x.level)
  }

  /** The page is fresh and the slot unshared, for every virtual page. */
  ghost predicate Fresh(f: Format, mem: seq<byte>, root: nat, top: nat, x: Plan)
    requires f.WellFormed() && |mem| > 0
  {
    forall vpn: nat :: vpn < Power(f.radix, top + 1) ==> Avoids(Trail(f, Reader(mem, f.bytes), root, top, vpn), |mem|, x)
  }

  // ---- bytes ----

  /** The value of bytes, least significant first. */
  function LeOf(s: seq<byte>): nat {
    if s == [] then 0 else s[0] as int + 256 * LeOf(s[1..])
  }

  /** A load that neither wraps nor reaches the devices is a slice of memory. */
  lemma {:induction false} LoadSlice(mem: seq<byte>, addr: nat, n: nat)
    requires |mem| > 0 && addr + n <= MMIO_BASE && addr % |mem| + n <= |mem|
    ensures LoadLe(mem, addr, n) == LeOf(mem[addr % |mem|..addr % |mem| + n])
    decreases n
  {
    var c := addr % |mem|;
    if n > 0 {
      var s := mem[c..c + n];
      if n > 1 {
        DivModUnique(addr + 1, |mem|, addr / |mem|, c + 1);
        LoadSlice(mem, addr + 1, n - 1);
        assert s[1..] == mem[c + 1..c + 1 + (n - 1)];
      } else {
        assert s[1..] == [];
      }
    }
  }

  lemma {:induction false} LoadMmio(mem: seq<byte>, addr: nat, n: nat)
    requires |mem| > 0 && addr >= MMIO_BASE
    ensures LoadLe(mem, addr, n) == 0
    decreases n
  {
    if n > 0 {
      LoadMmio(mem, addr + 1, n - 1);
    }
  }

  /** Bytes that spell a value load as it. */
  lemma {:induction false} Spelled(s: seq<byte>, v: nat)
    requires v < Power(256, |s|)
    requires forall k :: 0 <= k < |s| ==> s[k] == ByteOf(v, k)
    ensures LeOf(s) == v
    decreases |s|
  {
    if s != [] {
      assert s[0] == ByteOf(v, 0);
      forall k | 0 <= k < |s| - 1
        ensures s[1..][k] == ByteOf(v / 256, k)
      {
        assert s[k + 1] == ByteOf(v, k + 1);
      }
      Spelled(s[1..], v / 256);
    }
  }

  /** An aligned entry lies in one piece in the memory it wraps into. */
  lemma EntryInPlace(size: nat, addr: nat, bytes: nat)
    requires (bytes == 4 || bytes == 8) && size > 0 && size % PAGE == 0 && addr % bytes == 0
    ensures addr % size % bytes == 0 && addr % size + bytes <= size
    ensures addr < MMIO_BASE ==> addr + bytes <= MMIO_BASE
  {
    var z, pages := WrapSplit(size, addr);
    Divides(z, pages, addr % size, addr, bytes);
  }

  lemma WrapSplit(size: nat, addr: nat) returns (z: nat, pages: nat)
    requires size > 0 && size % PAGE == 0
    ensures size == pages * PAGE && addr == z * PAGE + addr % size
  {
    var q := Quotient(addr, size);
    pages := size / PAGE;
    z := q * pages;
    WrapArith(addr, q, size, addr % size, pages);
  }

  lemma Quotient(addr: nat, size: nat) returns (q: nat)
    requires size > 0
    ensures addr == q * size + addr % size
  {
    q := addr / size;
  }

  lemma WrapArith(addr: nat, q: nat, size: nat, r: nat, pages: nat)
    requires addr == q * size + r && size == pages * PAGE
    ensures addr == q * pages * PAGE + r
  {
    Assoc(q, pages);
  }

  lemma Assoc(q: nat, pages: nat)
    ensures q * (pages * PAGE) == (q * pages) * PAGE
  {
  }

  lemma Divides(z: nat, pages: nat, r: nat, addr: nat, bytes: nat)
    requires bytes == 4 || bytes == 8
    requires addr == z * PAGE + r && addr % bytes == 0 && r < pages * PAGE
    ensures r % bytes == 0 && r + bytes <= pages * PAGE
    ensures addr < MMIO_BASE ==> addr + bytes <= MMIO_BASE
  {
    if bytes == 4 {
      var u := addr / 4;
      assert r == 4 * (u - 1024 * z);
    } else {
      var u := addr / 8;
      assert r == 8 * (u - 512 * z);
    }
  }

  /** What an entry reads depends only on where it wraps to. */
  lemma EntryIsSlice(f: Format, mem: seq<byte>, addr: nat)
    requires (f.bytes == 4 || f.bytes == 8) && |mem| > 0 && |mem| % PAGE == 0 && addr % f.bytes == 0 && addr < MMIO_BASE
    ensures addr % |mem| + f.bytes <= |mem| && addr % |mem| % f.bytes == 0
    ensures LoadLe(mem, addr, f.bytes) == LeOf(mem[addr % |mem|..addr % |mem| + f.bytes])
  {
    EntryInPlace(|mem|, addr, f.bytes);
    LoadSlice(mem, addr, f.bytes);
  }

  // ---- what the rewritten memory reads ----

  /** The rewritten memory byte by byte. */
  lemma ExpandAt(f: Format, mem: seq<byte>, x: Plan, j: nat)
    requires f.WellFormed() && |mem| > 0 && x.level > 0 && j < |mem|
    ensures var page, m := PageAt(|mem|, x), ExpandMem(f, mem, x);
            (x.slot <= j < x.slot + f.bytes ==> m[j] == ByteOf(x.pointer, j - x.slot)) &&
            (!(x.slot <= j < x.slot + f.bytes) && !(page <= j < page + PAGE) ==> m[j] == mem[j])
    ensures var page, leaf := PageAt(|mem|, x), LeafOf(f, mem, x);
            !(x.slot <= j < x.slot + f.bytes) && page <= j < page + PAGE ==>
              ExpandMem(f, mem, x)[j] == ByteOf(Piece(f, leaf, x.level, (j - page) / f.bytes), (j - page) % f.bytes)
  {
    hide ByteOf, Piece, LeafOf, PageAt;
  }

  lemma SlotReads(f: Format, mem: seq<byte>, x: Plan, addr: nat)
    requires f.WellFormed() && Sensible(f, mem, x) && addr % f.bytes == 0 && addr < MMIO_BASE && addr % |mem| == x.slot
    ensures LoadLe(mem, addr, f.bytes) == LeafOf(f, mem, x)
    ensures LoadLe(ExpandMem(f, mem, x), addr, f.bytes) == x.pointer
  {
    hide Valid, Leaf, Ppn, Power, Pointer, LoadLe, Piece, ByteOf, LeOf, ExpandMem, PageAt;
    var m := ExpandMem(f, mem, x);
    EntryIsSlice(f, mem, addr);
    EntryIsSlice(f, m, addr);
    DivModUnique(x.slot, |mem|, 0, x.slot);
    EntryIsSlice(f, mem, x.slot);
    var s := m[x.slot..x.slot + f.bytes];
    forall k | 0 <= k < |s|
      ensures s[k] == ByteOf(x.pointer, k)
    {
      ExpandAt(f, mem, x, x.slot + k);
    }
    Spelled(s, x.pointer);
  }

  lemma ElsewhereReads(f: Format, mem: seq<byte>, x: Plan, addr: nat)
    requires f.WellFormed() && Sensible(f, mem, x) && addr % f.bytes == 0
    requires addr < MMIO_BASE ==> addr % |mem| != x.slot && !(PageAt(|mem|, x) <= addr % |mem| < PageAt(|mem|, x) + PAGE)
    ensures LoadLe(ExpandMem(f, mem, x), addr, f.bytes) == LoadLe(mem, addr, f.bytes)
  {
    hide Valid, Leaf, Ppn, Power, Pointer, LoadLe, Piece, ByteOf, LeOf, LeafOf, ExpandMem;
    var m := ExpandMem(f, mem, x);
    if addr >= MMIO_BASE {
      LoadMmio(mem, addr, f.bytes);
      LoadMmio(m, addr, f.bytes);
    } else {
      EntryIsSlice(f, mem, addr);
      EntryIsSlice(f, m, addr);
      ElsewhereSlice(f, mem, x, addr % |mem|);
    }
  }

  lemma ElsewhereSlice(f: Format, mem: seq<byte>, x: Plan, c: nat)
    requires f.WellFormed() && Sensible(f, mem, x) && c % f.bytes == 0 && c + f.bytes <= |mem|
    requires c != x.slot && !(PageAt(|mem|, x) <= c < PageAt(|mem|, x) + PAGE)
    ensures ExpandMem(f, mem, x)[c..c + f.bytes] == mem[c..c + f.bytes]
  {
    hide Valid, Leaf, Ppn, Power, Pointer, LeafOf, ExpandMem;
    PageAligned(f, |mem|, x);
    hide PageAt;
    Apart(c, x.slot, f.bytes);
    Apart2(c, PageAt(|mem|, x), f.bytes);
    var m := ExpandMem(f, mem, x);
    forall j | c <= j < c + f.bytes
      ensures m[j] == mem[j]
    {
      ExpandAt(f, mem, x, j);
    }
    hide Sensible;
  }

  lemma PageAligned(f: Format, size: nat, x: Plan)
    requires size > 0 && size % PAGE == 0
    ensures PageAt(size, x) % PAGE == 0 && PageAt(size, x) + PAGE <= size
  {
    var z, pages := WrapSplit(size, x.table * PAGE);
    assert x.table * PAGE % size == (x.table - z) * PAGE;
  }

  lemma Apart(c: nat, s: nat, bytes: nat)
    requires (bytes == 4 || bytes == 8) && c % bytes == 0 && s % bytes == 0 && c != s
    ensures c + bytes <= s || s + bytes <= c
  {
    if bytes == 4 {
      assert c == 4 * (c / 4) && s == 4 * (s / 4);
    } else {
      assert c == 8 * (c / 8) && s == 8 * (s / 8);
    }
  }

  lemma Apart2(c: nat, p: nat, bytes: nat)
    requires (bytes == 4 || bytes == 8) && c % bytes == 0 && p % PAGE == 0 && !(p <= c < p + PAGE)
    ensures c + bytes <= p || p + PAGE <= c
  {
    if bytes == 4 {
      OutsideWords(c / 4, p / PAGE);
    } else {
      OutsideDoubles(c / 8, p / PAGE);
    }
  }

  lemma OutsideWords(c: nat, p: nat)
    ensures 4 * c < 4096 * p ==> 4 * c + 4 <= 4096 * p
  {
  }

  lemma OutsideDoubles(c: nat, p: nat)
    ensures 8 * c < 4096 * p ==> 8 * c + 8 <= 4096 * p
  {
  }

  lemma {:induction false} TwoFiveSixPowers()
    ensures Power(256, 4) == 0x1_0000_0000 && Power(256, 8) == 0x1_0000_0000_0000_0000
  {
    assert Power(256, 1) == 256 * Power(256, 0);
    assert Power(256, 2) == 256 * Power(256, 1);
    assert Power(256, 3) == 256 * Power(256, 2);
    assert Power(256, 4) == 256 * Power(256, 3);
    assert Power(256, 5) == 256 * Power(256, 4);
    assert Power(256, 6) == 256 * Power(256, 5);
    assert Power(256, 7) == 256 * Power(256, 6);
  }

  /** A loaded entry is below the width's limit. */
  lemma {:induction false} LoadBound(mem: seq<byte>, addr: nat, n: nat)
    requires |mem| > 0
    ensures LoadLe(mem, addr, n) < Power(256, n)
    decreases n
  {
    if n > 0 {
      LoadBound(mem, addr + 1, n - 1);
    }
  }

  /** The levels' spans divide the page numbers, so an aligned leaf's pages fit. */
  lemma LeafIsSuperpage(f: Format, mem: seq<byte>, x: Plan)
    requires f.WellFormed() && Sensible(f, mem, x)
    ensures Superpage(f, LeafOf(f, mem, x), x.level)
  {
    SpanSteps();
    hide Valid, Leaf, Power, LeafOf, Pointer, PageAt;
    var p := Ppn(LeafOf(f, mem, x));
    hide Ppn;
    if f == SV32 {
      AlignedFits(p, 1024, 1024);
    } else if x.level == 1 {
      AlignedFits(p, 512, 2048);
    } else {
      AlignedFits(p, 0x4_0000, 4);
    }
  }

  lemma AlignedFits(p: nat, span: nat, n: nat)
    requires span > 0 && span * n == PPNS && p < PPNS && p % span == 0
    ensures p + span <= PPNS
  {
    var k := p / span;
    assert p == k * span;
    if k >= n {
      ProductMono(n, k, span);
    } else {
      ProductMono(k + 1, n, span);
    }
  }

  /** The pieces stay below the width's limit: adding pages never carries out of the field. */
  lemma PieceBound(f: Format, mem: seq<byte>, x: Plan, i: nat)
    requires f.WellFormed() && Sensible(f, mem, x) && i < f.radix
    ensures Piece(f, LeafOf(f, mem, x), x.level, i) < Power(256, f.bytes)
  {
    var leaf := LeafOf(f, mem, x);
    LeafIsSuperpage(f, mem, x);
    LoadBound(mem, x.slot, f.bytes);
    TwoFiveSixPowers();
    var step := Power(f.radix, x.level - 1);
    Below(i, f.radix, step);
    assert Ppn(leaf) + i * step < PPNS;
    hide Valid, Leaf, Power, Pointer, PageAt, LeafOf;
    if f == SV32 {
      NoCarry(leaf, i * step, 4);
    } else {
      NoCarry(leaf, i * step, 0x4_0000_0000);
    }
  }

  lemma NoCarry(leaf: nat, k: nat, n: nat)
    requires leaf < n * 0x4000_0000 && Ppn(leaf) + k < PPNS
    ensures leaf + k * 1024 < n * 0x4000_0000
  {
    var hi, low := leaf / 0x4000_0000, leaf % 0x4000_0000;
    assert leaf / 1024 == hi * PPNS + low / 1024;
    assert low / 1024 < PPNS;
    assert Ppn(leaf) == low / 1024 by { DivModUnique(leaf / 1024, PPNS, hi, low / 1024); }
    assert hi < n;
  }

  /** Where entry `i` of the new table lies. */
  lemma PagePlace(f: Format, size: nat, x: Plan, i: nat)
    requires (f == SV32 || f == SV39) && i < f.radix && size > 0 && size % PAGE == 0 && x.table * PAGE < MMIO_BASE
    ensures PageAt(size, x) % PAGE == 0 && PageAt(size, x) + i * f.bytes + f.bytes <= size && i * f.bytes + f.bytes <= PAGE
    ensures Slot(f, x.table, i) % size == PageAt(size, x) + i * f.bytes
    ensures Slot(f, x.table, i) % f.bytes == 0 && Slot(f, x.table, i) < MMIO_BASE
  {
    PageAligned(f, size, x);
    EntryOfPage(f, i);
    var q, r := x.table * PAGE / size, x.table * PAGE % size;
    assert x.table * PAGE == size * q + r;
    DivModUnique(Slot(f, x.table, i), size, q, r + i * f.bytes);
  }

  /** The byte at offset `k` of entry `i`, and the entry back from the byte. */
  lemma EntryByte(bytes: nat, i: nat, k: nat)
    requires k < bytes
    ensures (i * bytes + k) / bytes == i && (i * bytes + k) % bytes == k
  {
    DivModUnique(i * bytes + k, bytes, i, k);
  }

  /** Byte `k` of entry `i` of the new table is that of piece `i`. */
  predicate PieceByte(f: Format, mem: seq<byte>, x: Plan, i: nat, k: nat)
    requires f.WellFormed() && |mem| > 0 && x.level > 0
  {
    var at := PageAt(|mem|, x) + i * f.bytes + k;
    at < |mem| && ExpandMem(f, mem, x)[at] == ByteOf(Piece(f, LeafOf(f, mem, x), x.level, i), k)
  }

  lemma PageBytes(f: Format, mem: seq<byte>, x: Plan, i: nat, k: nat)
    requires f.WellFormed() && Sensible(f, mem, x) && i < f.radix && k < f.bytes
    ensures PieceByte(f, mem, x, i, k)
  {
    hide Valid, Leaf, Ppn, Power, Pointer, Piece, ByteOf, LeafOf, ExpandMem;
    var page, d := PageAt(|mem|, x), i * f.bytes + k;
    PagePlace(f, |mem|, x, i);
    hide PageAt, Slot;
    Apart2(x.slot, page, f.bytes);
    EntryByte(f.bytes, i, k);
    ExpandAt(f, mem, x, page + d);
  }

  /** Entry `i` of the new table reads as piece `i`. */
  lemma PageReads(f: Format, mem: seq<byte>, x: Plan, i: nat)
    requires f.WellFormed() && Sensible(f, mem, x) && i < f.radix
    ensures LoadLe(ExpandMem(f, mem, x), Slot(f, x.table, i), f.bytes) == Piece(f, LeafOf(f, mem, x), x.level, i)
  {
    hide Valid, Leaf, Ppn, Power, Pointer, LoadLe, Piece, ByteOf, LeOf, LeafOf, ExpandMem;
    var m, at := ExpandMem(f, mem, x), PageAt(|mem|, x) + i * f.bytes;
    var piece := Piece(f, LeafOf(f, mem, x), x.level, i);
    PieceBound(f, mem, x, i);
    PagePlace(f, |mem|, x, i);
    hide PageAt, Slot;
    EntryIsSlice(f, m, Slot(f, x.table, i));
    var s := m[at..at + f.bytes];
    forall k | 0 <= k < |s|
      ensures s[k] == ByteOf(piece, k)
    {
      PageBytes(f, mem, x, i, k);
    }
    Spelled(s, piece);
  }

  lemma EntryOfPage(f: Format, i: nat)
    requires (f == SV32 || f == SV39) && i < f.radix
    ensures i * f.bytes + f.bytes <= PAGE && forall t: nat :: Slot(f, t, i) % f.bytes == 0
    ensures forall t: nat :: t * PAGE < MMIO_BASE ==> Slot(f, t, i) < MMIO_BASE
  {
  }

  // ---- the theorem ----

  lemma TrailAligned(f: Format, rd: nat -> nat, table: nat, level: nat, vpn: nat)
    requires f == SV32 || f == SV39
    ensures forall k :: 0 <= k < |Trail(f, rd, table, level, vpn)| ==> Trail(f, rd, table, level, vpn)[k].addr % f.bytes == 0
    decreases level
  {
    hide Valid, Leaf, Ppn, Power;
    var span := Power(f.radix, level);
    var addr := Slot(f, table, vpn / span);
    assert addr % f.bytes == 0;
    if level > 0 && Valid(rd(addr)) && !Leaf(rd(addr)) {
      TrailAligned(f, rd, Ppn(rd(addr)), level - 1, vpn % span);
    }
  }

  /** Every walk over the rewritten memory ends as it did before. */
  lemma ExpansionKeepsWalks(f: Format, mem: seq<byte>, root: nat, top: nat, x: Plan, vpn: nat, access: Access, priv: nat)
    requires f.WellFormed() && Sensible(f, mem, x) && Fresh(f, mem, root, top, x) && vpn < Power(f.radix, top + 1)
    ensures Walk(f, Reader(ExpandMem(f, mem, x), f.bytes), root, top, vpn, access, priv)
         == Walk(f, Reader(mem, f.bytes), root, top, vpn, access, priv)
  {
    var rd, rd' := Reader(mem, f.bytes), Reader(ExpandMem(f, mem, x), f.bytes);
    var trail, leaf := Trail(f, rd, root, top, vpn), LeafOf(f, mem, x);
    var at := (a: nat) => a < MMIO_BASE && a % |mem| == x.slot;
    hide Valid, Leaf, Ppn, Power, Pointer, LoadLe, Piece, LeafOf, Trail, Walk, ExpandMem;
    LeafIsSuperpage(f, mem, x);
    TrailAligned(f, rd, root, top, vpn);
    assert Avoids(trail, |mem|, x);
    forall k | 0 <= k < |trail|
      ensures if at(trail[k].addr) then
                trail[k].level == x.level && rd(trail[k].addr) == leaf && rd'(trail[k].addr) == x.pointer
              else rd'(trail[k].addr) == rd(trail[k].addr)
    {
      if at(trail[k].addr) {
        SlotReads(f, mem, x, trail[k].addr);
      } else {
        ElsewhereReads(f, mem, x, trail[k].addr);
      }
    }
    forall i | 0 <= i < f.radix
      ensures rd'(Slot(f, x.table, i)) == Piece(f, leaf, x.level, i)
    {
      PageReads(f, mem, x, i);
    }
    hide Sensible, Avoids, Slot;
    WalkExpanded(f, rd, rd', root, top, vpn, at, x.level, leaf, x.pointer, x.table, access, priv);
  }

  /** An Sv32 megapage may be expanded without any translation noticing. */
  lemma Sv32Expansion(mem: seq<byte>, satp: nat, x: Plan, vaddr: nat, access: Access, priv: nat)
    requires Sensible(SV32, mem, x) && Fresh(SV32, mem, satp % PPNS, 1, x)
    ensures TranslateSv32(ExpandMem(SV32, mem, x), satp, vaddr, access, priv) == TranslateSv32(mem, satp, vaddr, access, priv)
  {
    hide TranslateSv32, Sensible, Fresh, Walk, ExpandMem;
    assert |mem| > 0 && x.level > 0 by { SensibleBasics(SV32, mem, x); }
    assert Power(1024, 2) == 0x10_0000 by { SpanSteps(); assert Power(1024, 2) == 1024 * Power(1024, 1); }
    Sv32IsWalk(mem, satp, vaddr, access, priv);
    Sv32IsWalk(ExpandMem(SV32, mem, x), satp, vaddr, access, priv);
    ExpansionKeepsWalks(SV32, mem, satp % PPNS, 1, x, vaddr % WORD_SPACE / PAGE, access, priv);
  }

  lemma SensibleBasics(f: Format, mem: seq<byte>, x: Plan)
    requires Sensible(f, mem, x)
    ensures |mem| > 0 && x.level > 0
  {
  }

  /** Nor an Sv39 megapage or gigapage. */
  lemma Sv39Expansion(mem: seq<byte>, satp: nat, x: Plan, vaddr: nat, access: Access, priv: nat)
    requires Sensible(SV39, mem, x) && Fresh(SV39, mem, satp % PPNS, 2, x)
    ensures TranslateSv39(ExpandMem(SV39, mem, x), satp, vaddr, access, priv) == TranslateSv39(mem, satp, vaddr, access, priv)
  {
    hide TranslateSv39, Sensible, Fresh, Walk, ExpandMem;
    assert |mem| > 0 && x.level > 0 by { SensibleBasics(SV39, mem, x); }
    assert Power(512, 3) == 0x800_0000 by { SpanSteps(); assert Power(512, 3) == 512 * Power(512, 2); }
    Sv39IsWalk(mem, satp, vaddr, access, priv);
    Sv39IsWalk(ExpandMem(SV39, mem, x), satp, vaddr, access, priv);
    ExpansionKeepsWalks(SV39, mem, satp % PPNS, 2, x, vaddr / PAGE % 0x800_0000, access, priv);
  }

  // ---- the hypotheses are met in practice, and needed ----

  /** Four pages of RAM: the root table on page 1 starts with a readable megapage leaf and a second entry. */
  function TableMem(second: nat): seq<byte> {
    seq(4 * PAGE, j => if j == PAGE then 3 else if PAGE + 4 <= j < PAGE + 8 then ByteOf(second, j - PAGE - 4) else 0)
  }

  const SAMPLE := Plan(PAGE, 1, 2, 2049)

  lemma TableBytes(second: nat, j: nat)
    requires j < 4 * PAGE
    ensures |TableMem(second)| > 0
    ensures LoadByte(TableMem(second), j)
         == if j == PAGE then 3 else if PAGE + 4 <= j < PAGE + 8 then ByteOf(second, j - PAGE - 4) as nat else 0
  {
    hide ByteOf;
  }

  lemma TableReads(second: nat, i: nat)
    requires i < 1024 && second < 0x1_0000_0000
    ensures LoadLe(TableMem(second), PAGE + 4 * i, 4) == if i == 0 then 3 else if i == 1 then second else 0
  {
    hide LoadByte, TableMem;
    var m, a := TableMem(second), PAGE + 4 * i;
    TableBytes(second, a);
    TableBytes(second, a + 1);
    TableBytes(second, a + 2);
    TableBytes(second, a + 3);
    FourBytes(m, a);
    FourDigits(second);
  }

  lemma FourBytes(m: seq<byte>, a: nat)
    requires |m| > 0
    ensures LoadLe(m, a, 4)
         == LoadByte(m, a) + 256 * (LoadByte(m, a + 1) + 256 * (LoadByte(m, a + 2) + 256 * LoadByte(m, a + 3)))
  {
    hide LoadByte;
    assert LoadLe(m, a + 4, 0) == 0;
    assert LoadLe(m, a + 3, 1) == LoadByte(m, a + 3);
    assert LoadLe(m, a + 2, 2) == LoadByte(m, a + 2) + 256 * LoadLe(m, a + 3, 1);
    assert LoadLe(m, a + 1, 3) == LoadByte(m, a + 1) + 256 * LoadLe(m, a + 2, 2);
  }

  lemma FourDigits(v: nat)
    requires v < 0x1_0000_0000
    ensures v == ByteOf(v, 0) as nat + 256 * (ByteOf(v, 1) as nat + 256 * (ByteOf(v, 2) as nat + 256 * ByteOf(v, 3) as nat))
  {
    assert ByteOf(v, 1) == ByteOf(v / 256, 0);
    assert ByteOf(v, 2) == ByteOf(v / 256, 1) == ByteOf(v / 256 / 256, 0);
    assert ByteOf(v, 3) == ByteOf(v / 256, 2) == ByteOf(v / 256 / 256, 1) == ByteOf(v / 256 / 256 / 256, 0);
  }

  lemma TableSensible(second: nat)
    requires second < 0x1_0000_0000
    ensures Sensible(SV32, TableMem(second), SAMPLE)
  {
    SpanSteps();
    TableReads(second, 0);
    TwoFiveSixPowers();
    hide LoadLe, Power;
  }

  lemma SampleTrail(vpn: nat)
    requires vpn < 0x10_0000
    ensures Trail(SV32, Reader(TableMem(0), 4), 1, 1, vpn) == [Visit(PAGE + 4 * (vpn / 1024), 1)]
  {
    SpanSteps();
    hide LoadLe, Power, Valid, Leaf, TableMem, Ppn;
    TableReads(0, vpn / 1024);
    assert Slot(SV32, 1, vpn / 1024) == PAGE + 4 * (vpn / 1024);
    SampleEntries();
  }

  lemma SampleEntries()
    ensures Valid(3) && Leaf(3) && !Valid(0)
  {
  }

  /** The root table's entries are neither in the new page nor the slot, but for the first. */
  lemma SampleVisit(i: nat)
    requires i < 1024
    ensures Avoids([Visit(PAGE + 4 * i, 1)], 4 * PAGE, SAMPLE)
  {
    DivModUnique(PAGE + 4 * i, 4 * PAGE, 0, PAGE + 4 * i);
    DivModUnique(2 * PAGE, 4 * PAGE, 0, 2 * PAGE);
  }

  lemma SampleFresh()
    ensures Fresh(SV32, TableMem(0), 1, 1, SAMPLE)
  {
    assert Power(1024, 2) == 0x10_0000 by { SpanSteps(); assert Power(1024, 2) == 1024 * Power(1024, 1); }
    hide Power, Trail, Avoids;
    forall vpn: nat | vpn < Power(1024, 2)
      ensures Avoids(Trail(SV32, Reader(TableMem(0), 4), 1, 1, vpn), |TableMem(0)|, SAMPLE)
    {
      SampleTrail(vpn);
      SampleVisit(vpn / 1024);
    }
  }

  /** With no second entry the leaf may be expanded into page 2: the hypotheses of the expansion are met. */
  lemma SampleExpands()
    ensures Sensible(SV32, TableMem(0), SAMPLE) && Fresh(SV32, TableMem(0), 1, 1, SAMPLE)
  {
    hide Sensible, Fresh, TableMem;
    TableSensible(0);
    SampleFresh();
  }

  /**
    A root table whose second entry points back to it is read at both levels, so the leaf is met at
    level 0 too: there its replacement is no leaf, and an address that was mapped faults.
   */
  lemma SharedSlotBreaks()
    ensures var mem := TableMem(1025);
            Sensible(SV32, mem, SAMPLE) && !Fresh(SV32, mem, 1, 1, SAMPLE) &&
            TranslateSv32(mem, 1, 0x40_0000, Load, 1) == Physical(0) &&
            TranslateSv32(ExpandMem(SV32, mem, SAMPLE), 1, 0x40_0000, Load, 1) == PageFault(13, 0x40_0000)
  {
    hide TableMem, ExpandMem, LoadLe, Fresh, Sensible, PageAt, TranslateSv32;
    var mem := TableMem(1025);
    TableSensible(1025);
    SharedReads();
    SharedWalk(mem, 3);
    SharedWalk(ExpandMem(SV32, mem, SAMPLE), 2049);
    if Fresh(SV32, mem, 1, 1, SAMPLE) {
      Sv32Expansion(mem, 1, SAMPLE, 0x40_0000, Load, 1);
    }
  }

  /** What the address translates to, by what the first entry reads as. */
  lemma SharedWalk(mem: seq<byte>, first: nat)
    requires |mem| > 0 && LoadLe(mem, PAGE, 4) == first && LoadLe(mem, PAGE + 4, 4) == 1025
    requires first == 3 || first == 2049
    ensures TranslateSv32(mem, 1, 0x40_0000, Load, 1) == if first == 3 then Physical(0) else PageFault(13, 0x40_0000)
  {
    hide LoadLe;
    assert ReadEntry(mem, 1 * PAGE + 1 * 4, 4) == 1025 && ReadEntry(mem, 1 * PAGE + 0 * 4, 4) == first;
    hide ReadEntry;
  }

  lemma SharedReads()
    ensures var mem := TableMem(1025); var m := ExpandMem(SV32, mem, SAMPLE);
            |mem| > 0 && LoadLe(mem, PAGE, 4) == 3 && LoadLe(mem, PAGE + 4, 4) == 1025 &&
            LoadLe(m, PAGE, 4) == 2049 && LoadLe(m, PAGE + 4, 4) == 1025
  {
    hide ExpandMem, LoadLe, Sensible;
    var mem := TableMem(1025);
    TableSensible(1025);
    TableReads(1025, 0);
    TableReads(1025, 1);
    SlotReads(SV32, mem, SAMPLE, PAGE);
    ElsewhereReads(SV32, mem, SAMPLE, PAGE + 4);
  }
}
