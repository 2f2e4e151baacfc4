/**
  design/DataMemoryBRAM.v at XLEN = 32: the byte memory the cache must agree with.
 */
module FlatMemory {
  import opened DataCache

  /** The bytes a width code touches. */
  function WidthOf(funct3: nat): nat {
    if funct3 % 4 == 0 then 1 else if funct3 % 4 == 1 then 2 else 4
  }

  /** The access lies inside the memory; the unit itself asks no more, alignment included. */
  predicate Spans(size: nat, addr: nat, funct3: nat) {
    funct3 < 8 && addr + WidthOf(funct3) <= size
  }

  /** An access the cache and the memory both serve. */
  predicate Access(size: nat, addr: nat, funct3: nat) {
    size % 4 == 0 && Aligned(addr, funct3) && Spans(size, addr, funct3)
  }

  /** The accesses both serve, by funct3: any byte, and naturally aligned halves and words, inside the memory. */
  lemma AccessMeans(size: nat, addr: nat, funct3: nat)
    requires size % 4 == 0 && funct3 in {0, 1, 2, 4, 5}
    ensures Access(size, addr, funct3) <==>
              addr < size && (funct3 == 1 || funct3 == 5 ==> addr % 2 == 0) && (funct3 == 2 ==> addr % 4 == 0)
  {
    if addr < size && Aligned(addr, funct3) {
      AlignedSpans(size, addr, funct3);
    }
  }

  lemma AlignedSpans(size: nat, addr: nat, funct3: nat)
    requires addr < size && size % 4 == 0 && funct3 < 8 && Aligned(addr, funct3)
    ensures Access(size, addr, funct3)
  {
    if funct3 % 4 == 1 {
      EvenBelow(addr, size / 4);
    } else if funct3 % 4 >= 2 {
      WordBelow(addr, size / 4);
    }
  }

  lemma EvenBelow(addr: nat, words: nat)
    requires addr % 2 == 0 && addr < 4 * words
    ensures addr + 2 <= 4 * words
  {
    var k := addr / 2;
  }

  lemma WordBelow(addr: nat, words: nat)
    requires addr % 4 == 0 && addr < 4 * words
    ensures addr + 4 <= 4 * words
  {
    var k := addr / 4;
  }

  /** The register value of a load: width and extension chosen by funct3. */
  function FlatRead(bytes: seq<bv8>, addr: nat, funct3: nat): Word
    requires Spans(|bytes|, addr, funct3)
  {
    var b0 := bytes[addr];
    if funct3 == 0 then Word(b0, SignFill(b0), SignFill(b0), SignFill(b0))
    else if funct3 == 4 then Word(b0, 0, 0, 0)
    else
      var b1 := bytes[addr + 1];
      if funct3 == 1 then Word(b0, b1, SignFill(b1), SignFill(b1))
      else if funct3 == 5 then Word(b0, b1, 0, 0)
      else Word(b0, b1, bytes[addr + 2], bytes[addr + 3])
  }

  /** The bytes after a store. */
  function FlatWrite(bytes: seq<bv8>, addr: nat, funct3: nat, wdata: Word): (r: seq<bv8>)
    requires Spans(|bytes|, addr, funct3)
    ensures |r| == |bytes|
  {
    if funct3 % 4 == 0 then bytes[addr := wdata.b0]
    else if funct3 % 4 == 1 then bytes[addr := wdata.b0][addr + 1 := wdata.b1]
    else bytes[addr := wdata.b0][addr + 1 := wdata.b1][addr + 2 := wdata.b2][addr + 3 := wdata.b3]
  }

  /** The memory as the clocked unit it is: one access latched per edge. */
  class DataMemory {
    const bytes: array<bv8>
    var rawWord: Word
    var funct3R: nat
    var memReadR: bool

    /** Reset with an empty initialization file. */
    constructor (size: nat)
      ensures fresh(bytes) && bytes.Length == size && bytes[..] == seq(size, _ => 0) && !memReadR
    {
      bytes := new bv8[size](_ => 0);
      rawWord, funct3R, memReadR := ZERO_WORD, 0, false;
      new;
      assert bytes[..] == seq(size, _ => 0);
    }

    /** The output, selected from the latched word. */
    function ReadData(): Word
      reads this
    {
      if !memReadR then ZERO_WORD
      else if funct3R == 0 then Word(rawWord.b0, SignFill(rawWord.b0), SignFill(rawWord.b0), SignFill(rawWord.b0))
      else if funct3R == 4 then Word(rawWord.b0, 0, 0, 0)
      else if funct3R == 1 then Word(rawWord.b0, rawWord.b1, SignFill(rawWord.b1), SignFill(rawWord.b1))
      else if funct3R == 5 then Word(rawWord.b0, rawWord.b1, 0, 0)
      else rawWord
    }

    /** One edge: the write lands, and the read sees the bytes from before it. */
    method Clock(memWrite: bool, memRead: bool, addr: nat, wdata: Word, funct3: nat)
      requires Spans(bytes.Length, addr, funct3)
      modifies this, bytes
      ensures bytes[..] == if memWrite then FlatWrite(old(bytes[..]), addr, funct3, wdata) else old(bytes[..])
      ensures ReadData() == if memRead then FlatRead(old(bytes[..]), addr, funct3) else ZERO_WORD
    {
      rawWord := Word(bytes[addr],
                      if addr + 1 < bytes.Length then bytes[addr + 1] else 0,
                      if addr + 2 < bytes.Length then bytes[addr + 2] else 0,
                      if addr + 3 < bytes.Length then bytes[addr + 3] else 0);
      funct3R, memReadR := funct3, memRead;
      if memWrite {
        bytes[addr] := wdata.b0;
        if funct3 % 4 == 1 {
          bytes[addr + 1] := wdata.b1;
        } else if funct3 % 4 >= 2 {
          bytes[addr + 1] := wdata.b1;
          bytes[addr + 2] := wdata.b2;
          bytes[addr + 3] := wdata.b3;
        }
      }
    }
  }

  // ---- what loads and stores mean ----

  /** A register value as the number it holds. */
  function Number(w: Word): nat {
    w.b0 as nat + 0x100 * w.b1 as nat + 0x1_0000 * w.b2 as nat + 0x100_0000 * w.b3 as nat
  }

  /** lb, lh, lw, lbu and lhu give the little-endian bytes, sign-extended for lb and lh. */
  lemma LoadMeans(bytes: seq<bv8>, addr: nat, funct3: nat)
    requires Spans(|bytes|, addr, funct3)
    ensures var b0, v := bytes[addr] as nat, Number(FlatRead(bytes, addr, funct3));
            (funct3 == 0 ==> v == if b0 < 0x80 then b0 else 0x1_0000_0000 - 0x100 + b0) &&
            (funct3 == 4 ==> v == b0)
    ensures funct3 == 1 || funct3 == 5 ==>
              addr + 1 < |bytes| &&
              var h, v := bytes[addr] as nat + 0x100 * bytes[addr + 1] as nat, Number(FlatRead(bytes, addr, funct3));
              v == if funct3 == 5 || h < 0x8000 then h else 0x1_0000_0000 - 0x1_0000 + h
    ensures funct3 == 2 ==>
              addr + 3 < |bytes| &&
              Number(FlatRead(bytes, addr, funct3)) == bytes[addr] as nat + 0x100 * bytes[addr + 1] as nat +
                0x1_0000 * bytes[addr + 2] as nat + 0x100_0000 * bytes[addr + 3] as nat
  {
  }

  /** sb, sh and sw replace one, two or four bytes by the low bytes of the register, and no others. */
  lemma StoreMeans(bytes: seq<bv8>, addr: nat, funct3: nat, wdata: Word, j: nat)
    requires Spans(|bytes|, addr, funct3) && funct3 < 3 && j < |bytes|
    ensures var n, r := (if funct3 == 0 then 1 else if funct3 == 1 then 2 else 4), FlatWrite(bytes, addr, funct3, wdata);
            if addr <= j < addr + n then
              r[j] == (if j == addr then wdata.b0 else if j == addr + 1 then wdata.b1
                       else if j == addr + 2 then wdata.b2 else wdata.b3)
            else r[j] == bytes[j]
  {
  }

  // ---- words over bytes ----

  /** The word whose lanes are the four bytes at word address `w`. */
  function WordAt(bytes: seq<bv8>, w: nat): Word
    requires 4 * w + 3 < |bytes|
  {
    Word(bytes[4 * w], bytes[4 * w + 1], bytes[4 * w + 2], bytes[4 * w + 3])
  }

  /** Selecting from the word is reading the bytes. */
  lemma ReadFromWord(bytes: seq<bv8>, addr: nat, funct3: nat)
    requires Access(|bytes|, addr, funct3)
    ensures FlatRead(bytes, addr, funct3) == ExtendRead(WordAt(bytes, addr / 4), funct3, addr % 4)
  {
    var w, off := addr / 4, addr % 4;
    assert addr == 4 * w + off;
  }

  /** Merging into the word is writing the bytes. */
  lemma WriteIntoWord(bytes: seq<bv8>, addr: nat, funct3: nat, wdata: Word, w: nat)
    requires Access(|bytes|, addr, funct3) && 4 * w + 3 < |bytes|
    ensures WordAt(FlatWrite(bytes, addr, funct3, wdata), w)
         == if w == addr / 4 then MergeWrite(WordAt(bytes, w), funct3, addr % 4, wdata) else WordAt(bytes, w)
  {
    var a, off := addr / 4, addr % 4;
    assert addr == 4 * a + off;
  }
}
