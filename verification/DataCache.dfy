/**
  design/DCache.v in its blocking configuration (one MSHR, no victim buffer, no prefetch, no
  probes, 32-bit accesses) as a clocked transition on register values.  Every assignment of a
  clock edge reads the registers as they were before it.

  Addresses are split by division: the sizes are powers of two, so the source's bit slices are
  these quotients and remainders.  A 32-bit word is kept as its four byte lanes, a line as the
  sequence of its words, and line and memory base addresses are counted in words.
 */
module DataCache {
  import opened Wrappers
  import opened Arithmetic

  datatype Word = Word(b0: bv8, b1: bv8, b2: bv8, b3: bv8)

  const ZERO_WORD := Word(0, 0, 0, 0)

  function OrWord(x: Word, y: Word): Word {
    Word(x.b0 | y.b0, x.b1 | y.b1, x.b2 | y.b2, x.b3 | y.b3)
  }

  // ---- width selection ----

  function Lane(w: Word, k: nat): bv8 {
    if k == 0 then w.b0 else if k == 1 then w.b1 else if k == 2 then w.b2 else w.b3
  }

  function SignFill(b: bv8): bv8 {
    if b & 0x80 != 0 then 0xFF else 0
  }

  /** dcache_extend_read: the loaded register value for funct3 at a byte offset. */
  function ExtendRead(w: Word, funct3: nat, off: nat): Word {
    if funct3 == 0 then
      var b := Lane(w, off);
      Word(b, SignFill(b), SignFill(b), SignFill(b))
    else if funct3 == 4 then Word(Lane(w, off), 0, 0, 0)
    else if funct3 == 1 then
      var lo, hi := if off / 2 % 2 == 1 then w.b2 else w.b0, if off / 2 % 2 == 1 then w.b3 else w.b1;
      Word(lo, hi, SignFill(hi), SignFill(hi))
    else if funct3 == 5 then
      if off / 2 % 2 == 1 then Word(w.b2, w.b3, 0, 0) else Word(w.b0, w.b1, 0, 0)
    else w
  }

  /** dcache_merge_write: the stored bytes laid over the old word. */
  function MergeWrite(old_: Word, funct3: nat, off: nat, wdata: Word): Word {
    if funct3 % 4 == 0 then
      if off == 0 then old_.(b0 := wdata.b0)
      else if off == 1 then old_.(b1 := wdata.b0)
      else if off == 2 then old_.(b2 := wdata.b0)
      else old_.(b3 := wdata.b0)
    else if funct3 % 4 == 1 then
      if off / 2 % 2 == 1 then old_.(b2 := wdata.b0, b3 := wdata.b1) else old_.(b0 := wdata.b0, b1 := wdata.b1)
    else wdata
  }

  // ---- geometry ----

  datatype Config = Config(sets: nat, ways: nat, lineWords: nat, tags: nat, lru: bool) {

    predicate WellFormed() {
      sets > 0 && ways > 0 && lineWords > 0 && tags > 0
    }

    function Lines(): nat {
      sets * ways
    }

    function MemWords(): nat {
      tags * sets * lineWords
    }

    function Off(w: nat): nat requires WellFormed() {
      w % lineWords
    }

    function Set(w: nat): nat requires WellFormed() {
      w / lineWords % sets
    }

    function Tag(w: nat): nat requires WellFormed() {
      w / lineWords / sets
    }

    /** The first word of the line with this tag in this set. */
    function Base(tag: nat, set_: nat): nat {
      (tag * sets + set_) * lineWords
    }

    function Line(set_: nat, way: nat): nat {
      set_ * ways + way
    }
  }

  // ---- registers ----

  datatype State = Idle | HitRd | Wb | Fill | FlushScan

  /** The one miss entry. */
  datatype Mshr = Mshr(set_: nat, way: nat, tag: nat, base: nat, wordOff: nat, byteOff: nat,
                       funct3: nat, origAddr: nat, isWrite: bool, wdata: Word)

  datatype Cache = Cache(
    state: State,
    valid: seq<bool>, dirty: seq<bool>, tag: seq<nat>, data: seq<seq<Word>>,
    victim: seq<nat>, age: seq<seq<nat>>,
    hitLine: nat, hitWord: nat, hitF3: nat, hitOff: nat, servedAddr: nat,
    mshr: Mshr, mshrCount: nat,
    huPending: bool, huData: Word,
    fillWord: nat, wbLine: nat, wbBase: nat, wbToFlush: bool,
    flushScan: nat, flushActive: bool, flushDone: bool)

  /** A CPU request, held by the caller until it is answered. */
  datatype Request = Load(addr: nat, funct3: nat) | Store(addr: nat, funct3: nat, wdata: Word)

  datatype Input = Input(req: Option<Request>, flush: bool, ack: bool, rdata: Word)

  datatype Response = Response(ready: bool, rdata: Word)

  predicate Aligned(addr: nat, funct3: nat) {
    (funct3 % 4 == 1 ==> addr % 2 == 0) && (funct3 % 4 >= 2 ==> addr % 4 == 0)
  }

  predicate ValidRequest(cfg: Config, r: Request) {
    r.addr / 4 < cfg.MemWords() && r.funct3 < 8 && Aligned(r.addr, r.funct3)
  }

  predicate ValidInput(cfg: Config, i: Input) {
    i.req.Some? ==> ValidRequest(cfg, i.req.value)
  }

  /** `age` holds each rank 0..n-1 exactly once. */
  predicate Ranking(age: seq<nat>, n: nat) {
    |age| == n &&
    (forall i :: 0 <= i < n ==> age[i] < n) &&
    (forall i, j :: 0 <= i < j < n ==> age[i] != age[j]) &&
    (forall k :: 0 <= k < n ==> k in age)
  }

  /** Array sizes and register ranges. */
  predicate Shape(cfg: Config, c: Cache) {
    cfg.WellFormed() &&
    |c.valid| == |c.dirty| == |c.tag| == |c.data| == cfg.Lines() &&
    (forall l :: 0 <= l < cfg.Lines() ==> |c.data[l]| == cfg.lineWords && c.tag[l] < cfg.tags) &&
    |c.victim| == |c.age| == cfg.sets &&
    (forall s :: 0 <= s < cfg.sets ==> c.victim[s] < cfg.ways && Ranking(c.age[s], cfg.ways)) &&
    c.hitLine < cfg.Lines() && c.hitWord < cfg.lineWords &&
    c.mshr.set_ < cfg.sets && c.mshr.way < cfg.ways && c.mshr.tag < cfg.tags && c.mshr.wordOff < cfg.lineWords &&
    c.fillWord < cfg.lineWords && c.wbLine < cfg.Lines() && c.flushScan < cfg.Lines()
  }

  lemma LineInRange(cfg: Config, set_: nat, way: nat)
    requires cfg.WellFormed() && set_ < cfg.sets && way < cfg.ways
    ensures cfg.Line(set_, way) < cfg.Lines()
  {
    assert (set_ + 1) * cfg.ways <= cfg.sets * cfg.ways;
  }

  // ---- tag compare ----

  predicate WayHit(cfg: Config, c: Cache, set_: nat, tag: nat, way: nat)
    requires Shape(cfg, c) && set_ < cfg.sets && way < cfg.ways
  {
    LineInRange(cfg, set_, way);
    c.valid[cfg.Line(set_, way)] && c.tag[cfg.Line(set_, way)] == tag
  }

  predicate Hit(cfg: Config, c: Cache, set_: nat, tag: nat)
    requires Shape(cfg, c) && set_ < cfg.sets
  {
    exists way :: 0 <= way < cfg.ways && WayHit(cfg, c, set_, tag, way)
  }

  /** hit_data_acc: every hitting way's word, or-ed together. */
  function HitDataAcc(cfg: Config, c: Cache, set_: nat, tag: nat, off: nat, n: nat): Word
    requires Shape(cfg, c) && set_ < cfg.sets && off < cfg.lineWords && n <= cfg.ways
  {
    if n == 0 then ZERO_WORD
    else
      LineInRange(cfg, set_, n - 1);
      OrWord(HitDataAcc(cfg, c, set_, tag, off, n - 1),
             if WayHit(cfg, c, set_, tag, n - 1) then c.data[cfg.Line(set_, n - 1)][off] else ZERO_WORD)
  }

  /** hit_lineidx_acc: every hitting way's line index, or-ed together. */
  function HitLineAcc(cfg: Config, c: Cache, set_: nat, tag: nat, n: nat): nat
    requires Shape(cfg, c) && set_ < cfg.sets && n <= cfg.ways
  {
    if n == 0 then 0
    else BitOr(HitLineAcc(cfg, c, set_, tag, n - 1),
               if WayHit(cfg, c, set_, tag, n - 1) then cfg.Line(set_, n - 1) else 0)
  }

  /** lru_way_acc: every way of age WAYS-1, or-ed together. */
  function LruAcc(cfg: Config, c: Cache, set_: nat, n: nat): nat
    requires Shape(cfg, c) && set_ < cfg.sets && n <= cfg.ways
  {
    if n == 0 then 0
    else BitOr(LruAcc(cfg, c, set_, n - 1), if c.age[set_][n - 1] == cfg.ways - 1 then n - 1 else 0)
  }

  /** The way a miss in this set displaces. */
  function VictimWay(cfg: Config, c: Cache, set_: nat): nat
    requires Shape(cfg, c) && set_ < cfg.sets
  {
    if cfg.lru then LruAcc(cfg, c, set_, cfg.ways) else c.victim[set_]
  }

  // ---- responses ----

  /** The request in the decoded form the datapath uses. */
  function IsStore(i: Input): bool {
    i.req.Some? && i.req.value.Store?
  }

  function IsLoad(i: Input): bool {
    i.req.Some? && i.req.value.Load?
  }

  predicate LastWord(cfg: Config, c: Cache) {
    c.fillWord == cfg.lineWords - 1
  }

  /** fill_value: the arriving word, with the missing store merged into its own word. */
  function FillValue(m: Mshr, k: nat, word: Word): Word {
    if m.isWrite && k == m.wordOff then MergeWrite(word, m.funct3, m.byteOff, m.wdata) else word
  }

  function FillLine(cfg: Config, c: Cache): nat {
    cfg.Line(c.mshr.set_, c.mshr.way)
  }

  predicate AnswersHit(c: Cache, i: Input) {
    c.state == HitRd && IsLoad(i) && i.req.value.addr == c.servedAddr
  }

  predicate AnswersFill(cfg: Config, c: Cache, i: Input) {
    c.state == Fill && i.ack && LastWord(cfg, c) && i.req.Some? && i.req.value.addr == c.mshr.origAddr
  }

  predicate HitsNow(cfg: Config, c: Cache, i: Input)
    requires Shape(cfg, c) && ValidInput(cfg, i)
  {
    i.req.Some? && HitsAt(cfg, c, i.req.value.addr / 4)
  }

  /** Some way of the address's set holds its line. */
  predicate HitsAt(cfg: Config, c: Cache, w: nat)
    requires Shape(cfg, c) && w < cfg.MemWords()
  {
    AddressFields(cfg, w);
    Hit(cfg, c, cfg.Set(w), cfg.Tag(w))
  }

  function Respond(cfg: Config, c: Cache, i: Input): Response
    requires Shape(cfg, c) && ValidInput(cfg, i)
  {
    LineInRange(cfg, c.mshr.set_, c.mshr.way);
    if AnswersHit(c, i) then Response(true, ExtendRead(c.data[c.hitLine][c.hitWord], c.hitF3, c.hitOff))
    else if AnswersFill(cfg, c, i) then
      var word := if c.mshr.wordOff == c.fillWord then FillValue(c.mshr, c.fillWord, i.rdata)
                  else c.data[FillLine(cfg, c)][c.mshr.wordOff];
      Response(true, ExtendRead(word, c.mshr.funct3, c.mshr.byteOff))
    else if c.huPending then Response(true, c.huData)
    else Response(c.state == Idle && IsStore(i) && HitsNow(cfg, c, i), ZERO_WORD)
  }

  // ---- the clock edge ----

  /** lru_touch. */
  function Touch(age: seq<nat>, way: nat): seq<nat>
    requires way < |age|
  {
    seq(|age|, k requires 0 <= k < |age| =>
      if k == way then 0 else if age[k] < age[way] then age[k] + 1 else age[k])
  }

  function TouchSet(cfg: Config, c: Cache, line: nat): Cache
    requires Shape(cfg, c) && line < cfg.Lines()
  {
    LineSplit(cfg, line);
    if cfg.lru then c.(age := c.age[line / cfg.ways := Touch(c.age[line / cfg.ways], line % cfg.ways)]) else c
  }

  lemma LineSplit(cfg: Config, line: nat)
    requires cfg.WellFormed() && line < cfg.Lines()
    ensures line / cfg.ways < cfg.sets && line % cfg.ways < cfg.ways
    ensures cfg.Line(line / cfg.ways, line % cfg.ways) == line
  {
    DivBelow(line, cfg.ways, cfg.sets);
  }

  /** The three fields of a word address, and the address back from its fields. */
  lemma AddressFields(cfg: Config, w: nat)
    requires cfg.WellFormed() && w < cfg.MemWords()
    ensures cfg.Off(w) < cfg.lineWords && cfg.Set(w) < cfg.sets && cfg.Tag(w) < cfg.tags
    ensures cfg.Base(cfg.Tag(w), cfg.Set(w)) + cfg.Off(w) == w
  {
    DivBelow(w, cfg.lineWords, cfg.tags * cfg.sets);
    DivBelow(w / cfg.lineWords, cfg.sets, cfg.tags);
  }

  lemma FieldsAddress(cfg: Config, tag: nat, set_: nat, off: nat)
    requires cfg.WellFormed() && tag < cfg.tags && set_ < cfg.sets && off < cfg.lineWords
    ensures var w := cfg.Base(tag, set_) + off;
            w < cfg.MemWords() && cfg.Tag(w) == tag && cfg.Set(w) == set_ && cfg.Off(w) == off
  {
    var ts := tag * cfg.sets + set_;
    DivModUnique(ts, cfg.sets, tag, set_);
    DivModUnique(ts * cfg.lineWords + off, cfg.lineWords, ts, off);
    ProductMono(tag + 1, cfg.tags, cfg.sets);
    assert ts + 1 <= cfg.tags * cfg.sets;
    ProductMono(ts + 1, cfg.tags * cfg.sets, cfg.lineWords);
  }

  lemma LineFields(cfg: Config, set_: nat, way: nat)
    requires cfg.WellFormed() && set_ < cfg.sets && way < cfg.ways
    ensures cfg.Line(set_, way) < cfg.Lines()
    ensures cfg.Line(set_, way) / cfg.ways == set_ && cfg.Line(set_, way) % cfg.ways == way
  {
    LineInRange(cfg, set_, way);
    DivModUnique(cfg.Line(set_, way), cfg.ways, set_, way);
  }

  // ---- one hit per set ----

  /** No set holds the same valid tag twice; the or-accumulated hit data depends on it. */
  ghost predicate UniqueTags(cfg: Config, c: Cache)
    requires Shape(cfg, c)
  {
    forall s, t, i, j :: 0 <= s < cfg.sets && 0 <= i < j < cfg.ways ==>
      !(WayHit(cfg, c, s, t, i) && WayHit(cfg, c, s, t, j))
  }

  lemma OrZero(x: Word)
    ensures OrWord(x, ZERO_WORD) == x && OrWord(ZERO_WORD, x) == x
  {
  }

  lemma {:induction false} AccumulatedHit(cfg: Config, c: Cache, set_: nat, tag: nat, off: nat, way: nat, n: nat)
    requires Shape(cfg, c) && UniqueTags(cfg, c) && set_ < cfg.sets && off < cfg.lineWords && n <= cfg.ways
    requires way < cfg.ways && WayHit(cfg, c, set_, tag, way)
    ensures cfg.Line(set_, way) < cfg.Lines()
    ensures HitLineAcc(cfg, c, set_, tag, n) == if way < n then cfg.Line(set_, way) else 0
    ensures HitDataAcc(cfg, c, set_, tag, off, n)
         == if way < n then c.data[cfg.Line(set_, way)][off] else ZERO_WORD
  {
    LineInRange(cfg, set_, way);
    if n == 0 {
    } else {
      AccumulatedHit(cfg, c, set_, tag, off, way, n - 1);
      OrZero(c.data[cfg.Line(set_, way)][off]);
      OrZero(ZERO_WORD);
      assert n - 1 == way || !WayHit(cfg, c, set_, tag, n - 1);
    }
  }

  lemma {:induction false} LruAccIs(cfg: Config, c: Cache, set_: nat, way: nat, n: nat)
    requires Shape(cfg, c) && set_ < cfg.sets && n <= cfg.ways
    requires way < cfg.ways && c.age[set_][way] == cfg.ways - 1
    ensures LruAcc(cfg, c, set_, n) == if way < n then way else 0
  {
    if n == 0 {
    } else {
      LruAccIs(cfg, c, set_, way, n - 1);
      assert n - 1 == way || c.age[set_][n - 1] != cfg.ways - 1;
    }
  }

  /** Exactly one way has the oldest rank, and the accumulator names it. */
  lemma VictimInRange(cfg: Config, c: Cache, set_: nat)
    requires Shape(cfg, c) && set_ < cfg.sets
    ensures VictimWay(cfg, c, set_) < cfg.ways
    ensures cfg.lru ==> c.age[set_][VictimWay(cfg, c, set_)] == cfg.ways - 1
    ensures cfg.lru ==> forall k :: 0 <= k < cfg.ways && k != VictimWay(cfg, c, set_) ==> c.age[set_][k] != cfg.ways - 1
  {
    if cfg.lru {
      assert Ranking(c.age[set_], cfg.ways);
      assert cfg.ways - 1 in c.age[set_];
      var way :| 0 <= way < cfg.ways && c.age[set_][way] == cfg.ways - 1;
      LruAccIs(cfg, c, set_, way, cfg.ways);
    }
  }

  // ---- the transition ----

  /** What every clock edge may rely on. */
  ghost predicate Ready(cfg: Config, c: Cache, i: Input) {
    Shape(cfg, c) && UniqueTags(cfg, c) && ValidInput(cfg, i)
  }

  predicate AccessHit(cfg: Config, c: Cache, i: Input)
    requires Shape(cfg, c) && ValidInput(cfg, i)
  {
    (c.state == Idle && IsStore(i) && HitsNow(cfg, c, i)) || AnswersHit(c, i)
  }

  /** The line a hit touches: live in Idle, latched in HitRd. */
  function TouchedLine(cfg: Config, c: Cache, i: Input): (line: nat)
    requires Ready(cfg, c, i) && AccessHit(cfg, c, i)
    ensures line < cfg.Lines()
  {
    if c.state == Idle then HitLine(cfg, c, i.req.value.addr / 4) else c.hitLine
  }

  function HitLine(cfg: Config, c: Cache, w: nat): (line: nat)
    requires Shape(cfg, c) && UniqueTags(cfg, c) && w < cfg.MemWords() && HitsAt(cfg, c, w)
    ensures line < cfg.Lines()
    ensures forall way :: 0 <= way < cfg.ways && WayHit(cfg, c, cfg.Set(w), cfg.Tag(w), way)
                      ==> line == cfg.Line(cfg.Set(w), way)
  {
    HitLineRange(cfg, c, w);
    HitLineAcc(cfg, c, cfg.Set(w), cfg.Tag(w), cfg.ways)
  }

  lemma HitLineRange(cfg: Config, c: Cache, w: nat)
    requires Shape(cfg, c) && UniqueTags(cfg, c) && w < cfg.MemWords() && HitsAt(cfg, c, w)
    ensures HitLineAcc(cfg, c, cfg.Set(w), cfg.Tag(w), cfg.ways) < cfg.Lines()
    ensures forall way :: 0 <= way < cfg.ways && WayHit(cfg, c, cfg.Set(w), cfg.Tag(w), way)
                      ==> HitLineAcc(cfg, c, cfg.Set(w), cfg.Tag(w), cfg.ways) == cfg.Line(cfg.Set(w), way)
  {
    AddressFields(cfg, w);
    forall way | 0 <= way < cfg.ways && WayHit(cfg, c, cfg.Set(w), cfg.Tag(w), way)
      ensures HitLineAcc(cfg, c, cfg.Set(w), cfg.Tag(w), cfg.ways) == cfg.Line(cfg.Set(w), way) < cfg.Lines()
    {
      AccumulatedHit(cfg, c, cfg.Set(w), cfg.Tag(w), 0, way, cfg.ways);
    }
  }

  function SetWord(data: seq<seq<Word>>, line: nat, off: nat, word: Word): seq<seq<Word>>
    requires line < |data| && off < |data[line]|
  {
    data[line := data[line][off := word]]
  }

  /** The miss entry for a request whose victim way is known. */
  function MissEntry(cfg: Config, r: Request, way: nat): Mshr
    requires cfg.WellFormed()
  {
    var w := r.addr / 4;
    Mshr(cfg.Set(w), way, cfg.Tag(w), w - cfg.Off(w), cfg.Off(w), r.addr % 4,
         r.funct3, r.addr, r.Store?, if r.Store? then r.wdata else ZERO_WORD)
  }

  /** Write a dirty displaced line back before the fill. */
  function Displaced(cfg: Config, c: Cache, line: nat, set_: nat): Cache {
    if line < |c.valid| && line < |c.dirty| && line < |c.tag| && c.valid[line] && c.dirty[line]
    then c.(wbLine := line, wbBase := cfg.Base(c.tag[line], set_), wbToFlush := false, state := Wb)
    else c.(state := Fill)
  }

  /** The miss arm of S_IDLE: allocate the entry and pick writeback or fill. */
  function StepMiss(cfg: Config, c: Cache, r: Request): Cache
    requires Shape(cfg, c) && ValidRequest(cfg, r)
  {
    AddressFields(cfg, r.addr / 4);
    var set_ := cfg.Set(r.addr / 4);
    var way := VictimWay(cfg, c, set_);
    Displaced(cfg, c.(mshr := MissEntry(cfg, r, way), mshrCount := c.mshrCount + 1, fillWord := 0),
              cfg.Line(set_, way), set_)
  }

  function StepHit(cfg: Config, c: Cache, r: Request): Cache
    requires Shape(cfg, c) && UniqueTags(cfg, c) && ValidRequest(cfg, r)
    requires HitsAt(cfg, c, r.addr / 4)
  {
    var w := r.addr / 4;
    AddressFields(cfg, w);
    var line := HitLine(cfg, c, w);
    if r.Store? then
      var old_ := HitWord(cfg, c, w);
      c.(data := SetWord(c.data, line, cfg.Off(w), MergeWrite(old_, r.funct3, r.addr % 4, r.wdata)),
         dirty := c.dirty[line := true])
    else
      c.(hitLine := line, hitWord := cfg.Off(w), hitF3 := r.funct3, hitOff := r.addr % 4,
         state := HitRd, servedAddr := r.addr)
  }

  function StepIdle(cfg: Config, c: Cache, i: Input): Cache
    requires Ready(cfg, c, i)
  {
    if i.flush && !c.flushActive then c.(flushActive := true, flushScan := 0, state := FlushScan)
    else if i.req.None? then c
    else if HitsNow(cfg, c, i) then StepHit(cfg, c, i.req.value)
    else StepMiss(cfg, c, i.req.value)
  }

  /** Move the flush scan past the current line, or finish it. */
  function AdvanceScan(cfg: Config, c: Cache): Cache {
    if c.flushScan + 1 == cfg.Lines() then c.(flushActive := false, flushDone := true, state := Idle)
    else c.(flushScan := c.flushScan + 1, state := FlushScan)
  }

  function StepWb(cfg: Config, c: Cache, ack: bool): Cache
    requires Shape(cfg, c)
  {
    if !ack then c
    else if !LastWord(cfg, c) then c.(fillWord := c.fillWord + 1)
    else
      var c' := c.(dirty := c.dirty[c.wbLine := false]);
      if c.wbToFlush then AdvanceScan(cfg, c') else c'.(fillWord := 0, state := Fill)
  }

  function StepFill(cfg: Config, c: Cache, ack: bool, rdata: Word): Cache
    requires Shape(cfg, c)
  {
    LineInRange(cfg, c.mshr.set_, c.mshr.way);
    var line := FillLine(cfg, c);
    if !ack then c
    else
      var c' := c.(data := SetWord(c.data, line, c.fillWord, FillValue(c.mshr, c.fillWord, rdata)));
      if !LastWord(cfg, c) then c'.(fillWord := c.fillWord + 1)
      else
        var next := if c.mshr.way + 1 == cfg.ways then 0 else c.mshr.way + 1;
        c'.(valid := c.valid[line := true], tag := c.tag[line := c.mshr.tag],
            dirty := c.dirty[line := c.mshr.isWrite], victim := c.victim[c.mshr.set_ := next],
            age := if cfg.lru then c.age[c.mshr.set_ := Touch(c.age[c.mshr.set_], c.mshr.way)] else c.age,
            mshrCount := if c.mshrCount > 0 then c.mshrCount - 1 else 0,
            state := if c.mshrCount <= 1 then Idle else Fill)
  }

  function StepFlush(cfg: Config, c: Cache): Cache
    requires Shape(cfg, c)
  {
    if c.valid[c.flushScan] && c.dirty[c.flushScan]
    then c.(wbLine := c.flushScan, wbBase := cfg.Base(c.tag[c.flushScan], c.flushScan / cfg.ways),
            wbToFlush := true, fillWord := 0, state := Wb)
    else AdvanceScan(cfg, c)
  }

  /** The updates made ahead of the case split: pulse defaults, hit-under-miss, recency touch. */
  function Prologue(cfg: Config, c: Cache, i: Input): (c': Cache)
    requires Ready(cfg, c, i)
    ensures c' == c.(flushDone := c'.flushDone, huPending := c'.huPending, huData := c'.huData, age := c'.age)
  {
    var busyHit := (c.state == Wb || c.state == Fill) && IsLoad(i) && HitsNow(cfg, c, i);
    var c1 := c.(flushDone := false, huPending := busyHit,
                 huData := if busyHit then BusyHitData(cfg, c, i.req.value) else c.huData);
    if AccessHit(cfg, c, i) then c1.(age := TouchSet(cfg, c, TouchedLine(cfg, c, i)).age) else c1
  }

  /** hit_data for a word address. */
  function HitWord(cfg: Config, c: Cache, w: nat): Word
    requires Shape(cfg, c) && w < cfg.MemWords()
  {
    AddressFields(cfg, w);
    HitDataAcc(cfg, c, cfg.Set(w), cfg.Tag(w), cfg.Off(w), cfg.ways)
  }

  function BusyHitData(cfg: Config, c: Cache, r: Request): Word
    requires Shape(cfg, c) && ValidRequest(cfg, r)
  {
    ExtendRead(HitWord(cfg, c, r.addr / 4), r.funct3, r.addr % 4)
  }

  lemma {:induction false} TouchRanks(age: seq<nat>, n: nat, way: nat)
    requires Ranking(age, n) && way < n
    ensures Ranking(Touch(age, way), n)
  {
    var a := Touch(age, way);
    forall k | 0 <= k < n
      ensures k in a
    {
      if k == 0 {
        assert a[way] == 0;
      } else if k <= age[way] {
        assert k - 1 in age;
        var j :| 0 <= j < n && age[j] == k - 1;
        assert a[j] == k;
      } else {
        assert k in age;
        var j :| 0 <= j < n && age[j] == k;
        assert a[j] == k;
      }
    }
  }

  /** The ways' tags are all that UniqueTags and hits look at. */
  lemma SameTags(cfg: Config, c: Cache, d: Cache)
    requires Shape(cfg, c) && Shape(cfg, d) && c.valid == d.valid && c.tag == d.tag
    ensures forall s, t, way :: 0 <= s < cfg.sets && 0 <= way < cfg.ways ==>
              (WayHit(cfg, c, s, t, way) <==> WayHit(cfg, d, s, t, way))
    ensures UniqueTags(cfg, c) <==> UniqueTags(cfg, d)
  {
  }

  /** Only the ages need re-establishing when nothing else sized or indexed changed. */
  lemma AgesShape(cfg: Config, c: Cache, d: Cache)
    requires Shape(cfg, c)
    requires d == c.(flushDone := d.flushDone, huPending := d.huPending, huData := d.huData, age := d.age)
    requires |d.age| == cfg.sets && forall s :: 0 <= s < cfg.sets ==> Ranking(d.age[s], cfg.ways)
    ensures Shape(cfg, d)
  {
    hide Ranking;
  }

  lemma TouchedAges(cfg: Config, c: Cache, line: nat)
    requires Shape(cfg, c) && line < cfg.Lines()
    ensures var a := TouchSet(cfg, c, line).age;
            |a| == cfg.sets && forall s :: 0 <= s < cfg.sets ==> Ranking(a[s], cfg.ways)
  {
    LineSplit(cfg, line);
    TouchRanks(c.age[line / cfg.ways], cfg.ways, line % cfg.ways);
    hide Ranking, Touch;
  }

  lemma PrologueShape(cfg: Config, c: Cache, i: Input)
    requires Ready(cfg, c, i)
    ensures Ready(cfg, Prologue(cfg, c, i), i)
  {
    var d := Prologue(cfg, c, i);
    assert |d.age| == cfg.sets && forall s :: 0 <= s < cfg.sets ==> Ranking(d.age[s], cfg.ways) by {
      if AccessHit(cfg, c, i) {
        TouchedAges(cfg, c, TouchedLine(cfg, c, i));
      }
      hide Ranking, TouchSet, HitsNow, TouchedLine, BusyHitData;
    }
    hide Prologue, Shape, UniqueTags;
    AgesShape(cfg, c, d);
    SameTags(cfg, c, d);
  }

  /** One clock edge with reset inactive. */
  function Step(cfg: Config, c: Cache, i: Input): Cache
    requires Ready(cfg, c, i)
  {
    PrologueShape(cfg, c, i);
    var c1 := Prologue(cfg, c, i);
    match c.state
    case Idle => StepIdle(cfg, c1, i)
    case HitRd => c1.(state := Idle)
    case Wb => StepWb(cfg, c1, i.ack)
    case Fill => StepFill(cfg, c1, i.ack, i.rdata)
    case FlushScan => StepFlush(cfg, c1)
  }

  /** Register widths: array sizes, and ranges of what reset does not set. */
  predicate Widths(cfg: Config, c: Cache) {
    cfg.WellFormed() &&
    |c.tag| == |c.data| == cfg.Lines() &&
    (forall l :: 0 <= l < cfg.Lines() ==> |c.data[l]| == cfg.lineWords && c.tag[l] < cfg.tags) &&
    c.hitLine < cfg.Lines() && c.hitWord < cfg.lineWords &&
    c.mshr.set_ < cfg.sets && c.mshr.way < cfg.ways && c.mshr.tag < cfg.tags && c.mshr.wordOff < cfg.lineWords &&
    c.fillWord < cfg.lineWords && c.wbLine < cfg.Lines() && c.flushScan < cfg.Lines()
  }

  /** The reset edge; tags, data and the latches keep whatever they held. */
  function Reset(cfg: Config, c: Cache): Cache
    requires cfg.WellFormed()
  {
    c.(state := Idle,
       valid := seq(cfg.Lines(), _ => false), dirty := seq(cfg.Lines(), _ => false),
       victim := seq(cfg.sets, _ => 0), age := seq(cfg.sets, _ => seq(cfg.ways, j => j)),
       mshrCount := 0, huPending := false, flushActive := false, flushDone := false)
  }
}
