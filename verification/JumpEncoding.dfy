/**
  The branch and jump encoders of sim/tools/asm.py and the offset decoding of sim/tools/iss.py.
  The fields of a word never overlap, so the source's bitwise ors are written as sums.
 */
module JumpEncoding {
  import opened Wrappers
  import opened Arithmetic

  /** The bits of an even offset below 2^13 that a branch word scatters. */
  datatype BranchBits = BranchBits(b12: nat, b11: nat, b10_5: nat, b4_1: nat)

  function SplitBranch(v: nat): BranchBits {
    BranchBits(v / 4096 % 2, v / 2048 % 2, v / 32 % 64, v / 2 % 16)
  }

  function BranchWord(b: BranchBits, f3: nat, rs1: nat, rs2: nat): nat {
    b.b12 * 0x8000_0000 + b.b10_5 * 0x200_0000 + rs2 * 0x10_0000 + rs1 * 0x8000 + f3 * 0x1000 +
    b.b4_1 * 0x100 + b.b11 * 0x80 + 0x63
  }

  /** branch; None is its out-of-range or odd-offset error. */
  function EncodeBranch(f3: nat, rs1: nat, rs2: nat, off: int): Option<nat> {
    if !(-4096 <= off <= 4095) || off % 2 != 0 then None
    else Some(BranchWord(SplitBranch(off % 8192), f3, rs1, rs2))
  }

  function BranchFields(word: nat): BranchBits {
    BranchBits(word / 0x8000_0000 % 2, word / 0x80 % 2, word / 0x200_0000 % 64, word / 0x100 % 16)
  }

  /** The signed value of the low `2 * half` residues. */
  function Signed(v: int, half: int): int {
    if v >= half then v - 2 * half else v
  }

  /** The offset the reference model adds for a taken branch. */
  function DecodeBranch(word: nat): int {
    var b := BranchFields(word);
    Signed(b.b12 * 4096 + b.b11 * 2048 + b.b10_5 * 32 + b.b4_1 * 2, 4096)
  }

  /** A field of `m` values at weight `d`, between what is above and below it. */
  lemma FieldAt(w: nat, hi: nat, x: nat, low: nat, d: nat, m: nat)
    requires d > 0 && m > 0 && w == d * (m * hi + x) + low && x < m && low < d
    ensures w / d % m == x
  {
    DivModUnique(w, d, m * hi + x, low);
    DivModUnique(m * hi + x, m, hi, x);
  }

  predicate BranchBitsOk(b: BranchBits) {
    b.b12 < 2 && b.b11 < 2 && b.b10_5 < 64 && b.b4_1 < 16
  }

  lemma BranchHigh(b: BranchBits, f3: nat, rs1: nat, rs2: nat)
    requires BranchBitsOk(b) && f3 < 8 && rs1 < 32 && rs2 < 32
    ensures BranchFields(BranchWord(b, f3, rs1, rs2)).b12 == b.b12
    ensures BranchFields(BranchWord(b, f3, rs1, rs2)).b10_5 == b.b10_5
  {
    var w := BranchWord(b, f3, rs1, rs2);
    var low := rs2 * 0x10_0000 + rs1 * 0x8000 + f3 * 0x1000 + b.b4_1 * 0x100 + b.b11 * 0x80 + 0x63;
    FieldAt(w, 0, b.b12, b.b10_5 * 0x200_0000 + low, 0x8000_0000, 2);
    FieldAt(w, b.b12, b.b10_5, low, 0x200_0000, 64);
  }

  lemma BranchLow(b: BranchBits, f3: nat, rs1: nat, rs2: nat)
    requires BranchBitsOk(b) && f3 < 8 && rs1 < 32 && rs2 < 32
    ensures BranchFields(BranchWord(b, f3, rs1, rs2)).b11 == b.b11
    ensures BranchFields(BranchWord(b, f3, rs1, rs2)).b4_1 == b.b4_1
  {
    var w := BranchWord(b, f3, rs1, rs2);
    var upper := b.b12 * 0x8_0000 + b.b10_5 * 0x2000 + rs2 * 0x100 + rs1 * 0x8 + f3;
    FieldAt(w, upper, b.b4_1, b.b11 * 0x80 + 0x63, 0x100, 16);
    FieldAt(w, upper * 16 + b.b4_1, b.b11, 0x63, 0x80, 2);
  }

  lemma BranchFieldsBack(b: BranchBits, f3: nat, rs1: nat, rs2: nat)
    requires BranchBitsOk(b) && f3 < 8 && rs1 < 32 && rs2 < 32
    ensures BranchFields(BranchWord(b, f3, rs1, rs2)) == b
  {
    hide BranchFields, BranchWord, BranchBitsOk;
    BranchHigh(b, f3, rs1, rs2);
    BranchLow(b, f3, rs1, rs2);
  }

  /** The opcode, condition and register fields, and the word's width. */
  lemma BranchOperands(b: BranchBits, f3: nat, rs1: nat, rs2: nat)
    requires BranchBitsOk(b) && f3 < 8 && rs1 < 32 && rs2 < 32
    ensures var w := BranchWord(b, f3, rs1, rs2);
            w < 0x1_0000_0000 && w % 128 == 0x63 && w / 0x1000 % 8 == f3 &&
            w / 0x8000 % 32 == rs1 && w / 0x10_0000 % 32 == rs2
  {
    var w := BranchWord(b, f3, rs1, rs2);
    var top, low := b.b12 * 64 + b.b10_5, b.b4_1 * 0x100 + b.b11 * 0x80 + 0x63;
    FieldAt(w, top, rs2, rs1 * 0x8000 + f3 * 0x1000 + low, 0x10_0000, 32);
    FieldAt(w, top * 32 + rs2, rs1, f3 * 0x1000 + low, 0x8000, 32);
    FieldAt(w, (top * 32 + rs2) * 32 + rs1, f3, low, 0x1000, 8);
    DivModUnique(w, 128, (((top * 32 + rs2) * 32 + rs1) * 8 + f3) * 32 + b.b4_1 * 2 + b.b11, 0x63);
  }

  lemma SplitBranchSums(v: nat)
    requires v < 8192 && v % 2 == 0
    ensures var b := SplitBranch(v);
            BranchBitsOk(b) && b.b12 * 4096 + b.b11 * 2048 + b.b10_5 * 32 + b.b4_1 * 2 == v
  {
    var h := v / 2;
    var m := h / 16;
    var t := m / 64;
    assert v == 2 * h && h == 16 * m + h % 16 && m == 64 * t + m % 64 && t == 2 * (t / 2) + t % 2;
    assert v / 32 == m && v / 2048 == t && v / 4096 == t / 2;
  }

  /**
    A branch word as the instruction set lays it out: opcode, condition and registers in their
    places, and the offset's bits 12, 11, 10 to 5 and 4 to 1 in theirs.
   */
  predicate IsBranch(word: nat, f3: nat, rs1: nat, rs2: nat, off: int) {
    word < 0x1_0000_0000 && word % 128 == 0x63 && word / 0x1000 % 8 == f3 &&
    word / 0x8000 % 32 == rs1 && word / 0x10_0000 % 32 == rs2 && Scattered13(word) == if off < 0 then off + 8192 else off
  }

  function Scattered13(word: nat): nat {
    word / 0x8000_0000 % 2 * 4096 + word / 0x80 % 2 * 2048 + word / 0x200_0000 % 64 * 32 + word / 0x100 % 16 * 2
  }

  /** The scattered bits put together again. */
  lemma BranchEncoded(v: nat, f3: nat, rs1: nat, rs2: nat)
    requires v < 8192 && v % 2 == 0 && f3 < 8 && rs1 < 32 && rs2 < 32
    ensures BranchBitsOk(SplitBranch(v))
    ensures var word := BranchWord(SplitBranch(v), f3, rs1, rs2);
            Scattered13(word) == v && DecodeBranch(word) == Signed(v, 4096)
  {
    hide SplitBranch, BranchWord;
    SplitBranchSums(v);
    BranchFieldsBack(SplitBranch(v), f3, rs1, rs2);
  }

  /** An even offset in range as its 13 bits. */
  lemma Residue(off: int, half: int)
    requires (half == 4096 || half == 0x10_0000) && -half <= off < half && off % 2 == 0
    ensures var v := off % (2 * half); v % 2 == 0 && Signed(v, half) == off && v == if off < 0 then off + 2 * half else off
  {
    if half == 4096 {
      DivModUnique(off, 8192, if off < 0 then -1 else 0, if off < 0 then off + 8192 else off);
    } else {
      DivModUnique(off, 0x20_0000, if off < 0 then -1 else 0, if off < 0 then off + 0x20_0000 else off);
    }
  }

  /** Every offset the assembler accepts is encoded as laid out, and is the offset the reference model executes. */
  lemma BranchRoundTrip(f3: nat, rs1: nat, rs2: nat, off: int)
    requires f3 < 8 && rs1 < 32 && rs2 < 32
    ensures EncodeBranch(f3, rs1, rs2, off).Some? <==> -4096 <= off < 4096 && off % 2 == 0
    ensures EncodeBranch(f3, rs1, rs2, off).Some? ==>
      var word := EncodeBranch(f3, rs1, rs2, off).value; IsBranch(word, f3, rs1, rs2, off) && DecodeBranch(word) == off
  {
    if -4096 <= off <= 4095 && off % 2 == 0 {
      hide SplitBranch, BranchWord, BranchBitsOk, Scattered13, DecodeBranch, Signed;
      Residue(off, 4096);
      BranchEncoded(off % 8192, f3, rs1, rs2);
      BranchOperands(SplitBranch(off % 8192), f3, rs1, rs2);
    }
  }

  /** The bits of an even offset below 2^21 that a jal word scatters. */
  datatype JalBits = JalBits(b20: nat, b19_12: nat, b11: nat, b10_1: nat)

  function SplitJal(v: nat): JalBits {
    JalBits(v / 0x10_0000 % 2, v / 0x1000 % 256, v / 0x800 % 2, v / 2 % 1024)
  }

  function JalWord(b: JalBits, rd: nat): nat {
    b.b20 * 0x8000_0000 + b.b10_1 * 0x20_0000 + b.b11 * 0x10_0000 + b.b19_12 * 0x1000 + rd * 0x80 + 0x6F
  }

  /** jal; None is its out-of-range or odd-offset error. */
  function EncodeJal(rd: nat, off: int): Option<nat> {
    if !(-0x10_0000 <= off <= 0xF_FFFF) || off % 2 != 0 then None
    else Some(JalWord(SplitJal(off % 0x20_0000), rd))
  }

  function JalFields(word: nat): JalBits {
    JalBits(word / 0x8000_0000 % 2, word / 0x1000 % 256, word / 0x10_0000 % 2, word / 0x20_0000 % 1024)
  }

  function DecodeJal(word: nat): int {
    var b := JalFields(word);
    Signed(b.b20 * 0x10_0000 + b.b19_12 * 0x1000 + b.b11 * 0x800 + b.b10_1 * 2, 0x10_0000)
  }

  predicate JalBitsOk(b: JalBits) {
    b.b20 < 2 && b.b19_12 < 256 && b.b11 < 2 && b.b10_1 < 1024
  }

  /** The link register of a jal word. */
  function JalRd(word: nat): nat {
    word / 0x80 % 32
  }

  lemma JalRdBack(b: JalBits, rd: nat)
    requires JalBitsOk(b) && rd < 32
    ensures JalRd(JalWord(b, rd)) == rd
  {
    var upper := ((b.b20 * 1024 + b.b10_1) * 2 + b.b11) * 256 + b.b19_12;
    FieldAt(JalWord(b, rd), upper, rd, 0x6F, 0x80, 32);
  }

  lemma JalOpcode(b: JalBits, rd: nat)
    requires JalBitsOk(b) && rd < 32
    ensures JalWord(b, rd) < 0x1_0000_0000 && JalWord(b, rd) % 128 == 0x6F
  {
    var upper := ((b.b20 * 1024 + b.b10_1) * 2 + b.b11) * 256 + b.b19_12;
    DivModUnique(JalWord(b, rd), 128, upper * 32 + rd, 0x6F);
  }

  lemma JalHigh(b: JalBits, rd: nat)
    requires JalBitsOk(b) && rd < 32
    ensures JalFields(JalWord(b, rd)).b20 == b.b20 && JalFields(JalWord(b, rd)).b10_1 == b.b10_1
  {
    var w, low := JalWord(b, rd), b.b11 * 0x10_0000 + b.b19_12 * 0x1000 + rd * 0x80 + 0x6F;
    FieldAt(w, 0, b.b20, b.b10_1 * 0x20_0000 + low, 0x8000_0000, 2);
    FieldAt(w, b.b20, b.b10_1, low, 0x20_0000, 1024);
  }

  lemma JalLow(b: JalBits, rd: nat)
    requires JalBitsOk(b) && rd < 32
    ensures JalFields(JalWord(b, rd)).b11 == b.b11 && JalFields(JalWord(b, rd)).b19_12 == b.b19_12
  {
    var w, low, upper := JalWord(b, rd), rd * 0x80 + 0x6F, b.b20 * 1024 + b.b10_1;
    FieldAt(w, upper, b.b11, b.b19_12 * 0x1000 + low, 0x10_0000, 2);
    FieldAt(w, upper * 2 + b.b11, b.b19_12, low, 0x1000, 256);
  }

  lemma JalFieldsBack(b: JalBits, rd: nat)
    requires JalBitsOk(b) && rd < 32
    ensures JalFields(JalWord(b, rd)) == b
  {
    hide JalFields, JalWord, JalBitsOk;
    JalHigh(b, rd);
    JalLow(b, rd);
  }

  lemma SplitJalSums(v: nat)
    requires v < 0x20_0000 && v % 2 == 0
    ensures var b := SplitJal(v);
            JalBitsOk(b) && b.b20 * 0x10_0000 + b.b19_12 * 0x1000 + b.b11 * 0x800 + b.b10_1 * 2 == v
  {
    var h := v / 2;
    var m := h / 1024;
    var t := m / 2;
    assert v == 2 * h && h == 1024 * m + h % 1024 && m == 2 * t + m % 2 && t == 256 * (t / 256) + t % 256;
    assert v / 0x800 == m && v / 0x1000 == t && v / 0x10_0000 == t / 256;
  }

  /** A jal word as the instruction set lays it out; the offset's bits 20, 19 to 12, 11 and 10 to 1 are scattered. */
  predicate IsJal(word: nat, rd: nat, off: int) {
    word < 0x1_0000_0000 && word % 128 == 0x6F && word / 0x80 % 32 == rd &&
    Scattered21(word) == if off < 0 then off + 0x20_0000 else off
  }

  function Scattered21(word: nat): nat {
    word / 0x8000_0000 % 2 * 0x10_0000 + word / 0x1000 % 256 * 0x1000 + word / 0x10_0000 % 2 * 0x800 +
    word / 0x20_0000 % 1024 * 2
  }

  lemma JalEncoded(v: nat, rd: nat)
    requires v < 0x20_0000 && v % 2 == 0 && rd < 32
    ensures JalBitsOk(SplitJal(v))
    ensures var word := JalWord(SplitJal(v), rd); Scattered21(word) == v && DecodeJal(word) == Signed(v, 0x10_0000)
  {
    hide SplitJal, JalWord;
    SplitJalSums(v);
    JalFieldsBack(SplitJal(v), rd);
  }

  /** The same for jal. */
  lemma JalRoundTrip(rd: nat, off: int)
    requires rd < 32
    ensures EncodeJal(rd, off).Some? <==> -0x10_0000 <= off < 0x10_0000 && off % 2 == 0
    ensures EncodeJal(rd, off).Some? ==>
      var word := EncodeJal(rd, off).value; IsJal(word, rd, off) && DecodeJal(word) == off && JalRd(word) == rd
  {
    if -0x10_0000 <= off <= 0xF_FFFF && off % 2 == 0 {
      hide SplitJal, JalWord, JalBitsOk, Scattered21, DecodeJal, Signed;
      Residue(off, 0x10_0000);
      JalEncoded(off % 0x20_0000, rd);
      JalOpcode(SplitJal(off % 0x20_0000), rd);
      JalRdBack(SplitJal(off % 0x20_0000), rd);
    }
  }
}
