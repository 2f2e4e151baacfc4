/**
  The data cache together with its backing memory and its caller, and the invariant that makes
  the pair behave as one flat memory.
 */
module CacheRefinement {
  import opened Wrappers
  import opened DataCache

  /** The cache, the memory behind it, and the request the caller is still holding. */
  datatype Sys = Sys(c: Cache, mem: seq<Word>, held: Option<Request>)

  /** What the environment chooses in a cycle. */
  datatype Env = Env(req: Option<Request>, flush: bool, ack: bool)

  function BusAddr(c: Cache): nat {
    if c.state == Wb then c.wbBase + c.fillWord else c.mshr.base + c.fillWord
  }

  function ToInput(s: Sys, e: Env): Input {
    Input(e.req, e.flush, e.ack, if BusAddr(s.c) < |s.mem| then s.mem[BusAddr(s.c)] else ZERO_WORD)
  }

  /** The caller's contract: hold a request until answered, and keep requests and flushes apart. */
  predicate Legal(cfg: Config, s: Sys, e: Env) {
    (e.req.Some? ==> ValidRequest(cfg, e.req.value)) &&
    (s.held.Some? ==> e.req == s.held) &&
    (e.flush || s.c.flushActive ==> e.req.None?)
  }

  function Answer(cfg: Config, s: Sys, e: Env): Response
    requires Shape(cfg, s.c) && Legal(cfg, s, e)
  {
    Respond(cfg, s.c, ToInput(s, e))
  }

  /** The bus write of an acknowledged writeback beat. */
  function NextMem(cfg: Config, s: Sys, ack: bool): seq<Word>
    requires Shape(cfg, s.c)
  {
    if s.c.state == Wb && ack && BusAddr(s.c) < |s.mem|
    then s.mem[BusAddr(s.c) := s.c.data[s.c.wbLine][s.c.fillWord]] else s.mem
  }

  function Next(cfg: Config, s: Sys, e: Env): Sys
    requires Shape(cfg, s.c) && UniqueTags(cfg, s.c) && Legal(cfg, s, e)
  {
    Sys(Step(cfg, s.c, ToInput(s, e)), NextMem(cfg, s, e.ack),
        if e.req.Some? && !Answer(cfg, s, e).ready then e.req else None)
  }

  // ---- the view ----

  /** The line being overwritten by a fill; its old tag is still marked valid. */
  predicate UnderFill(cfg: Config, c: Cache, line: nat) {
    c.state == Fill && line == FillLine(cfg, c)
  }

  /** `way` holds a trustworthy copy of word `w`. */
  predicate Holds(cfg: Config, c: Cache, w: nat, way: nat)
    requires Shape(cfg, c) && w < cfg.MemWords()
  {
    AddressFields(cfg, w);
    way < cfg.ways && WayHit(cfg, c, cfg.Set(w), cfg.Tag(w), way) && !UnderFill(cfg, c, cfg.Line(cfg.Set(w), way))
  }

  /** The word a way of the address's set has at the address's offset. */
  function WordIn(cfg: Config, c: Cache, w: nat, way: nat): Word
    requires Shape(cfg, c) && w < cfg.MemWords() && way < cfg.ways
  {
    AddressFields(cfg, w);
    LineInRange(cfg, cfg.Set(w), way);
    c.data[cfg.Line(cfg.Set(w), way)][cfg.Off(w)]
  }

  /** The memory the CPU sees: the cached copy if there is one, else the backing word. */
  ghost function View(cfg: Config, s: Sys, w: nat): Word
    requires Shape(cfg, s.c) && |s.mem| == cfg.MemWords() && w < |s.mem|
  {
    if exists way: nat :: Holds(cfg, s.c, w, way)
    then var way: nat :| Holds(cfg, s.c, w, way); WordIn(cfg, s.c, w, way)
    else s.mem[w]
  }

  lemma ViewHeld(cfg: Config, s: Sys, w: nat, way: nat)
    requires Shape(cfg, s.c) && UniqueTags(cfg, s.c) && |s.mem| == cfg.MemWords() && w < |s.mem|
    requires Holds(cfg, s.c, w, way)
    ensures View(cfg, s, w) == WordIn(cfg, s.c, w, way)
  {
    forall way': nat | Holds(cfg, s.c, w, way')
      ensures way' == way
    {
      OneHolder(cfg, s.c, w, way, way');
    }
    hide Holds, WordIn, Shape, UniqueTags;
  }

  lemma OneHolder(cfg: Config, c: Cache, w: nat, i: nat, j: nat)
    requires Shape(cfg, c) && UniqueTags(cfg, c) && w < cfg.MemWords() && Holds(cfg, c, w, i) && Holds(cfg, c, w, j)
    ensures i == j
  {
    AddressFields(cfg, w);
    hide Shape, WayHit;
  }

  // ---- the invariant ----

  /** The first word address of what a line caches. */
  function LineBase(cfg: Config, c: Cache, line: nat): nat
    requires Shape(cfg, c) && line < cfg.Lines()
  {
    cfg.Base(c.tag[line], line / cfg.ways)
  }

  lemma LineBaseFits(cfg: Config, c: Cache, line: nat)
    requires Shape(cfg, c) && line < cfg.Lines()
    ensures LineBase(cfg, c, line) + cfg.lineWords <= cfg.MemWords()
  {
    LineSplit(cfg, line);
    FieldsAddress(cfg, c.tag[line], line / cfg.ways, cfg.lineWords - 1);
  }

  predicate Dirty(c: Cache, line: nat)
    requires line < |c.valid| == |c.dirty|
  {
    c.valid[line] && c.dirty[line]
  }

  /** The first `n` words of the line agree with memory. */
  predicate Synced(cfg: Config, s: Sys, line: nat, n: nat)
    requires Shape(cfg, s.c) && |s.mem| == cfg.MemWords() && line < cfg.Lines() && n <= cfg.lineWords
  {
    LineBaseFits(cfg, s.c, line);
    forall k :: 0 <= k < n ==> s.c.data[line][k] == s.mem[LineBase(cfg, s.c, line) + k]
  }

  /** Every valid clean line outside a fill equals memory. */
  predicate CleanSynced(cfg: Config, s: Sys)
    requires Shape(cfg, s.c) && |s.mem| == cfg.MemWords()
  {
    forall l :: 0 <= l < cfg.Lines() && s.c.valid[l] && !s.c.dirty[l] && !UnderFill(cfg, s.c, l)
            ==> Synced(cfg, s, l, cfg.lineWords)
  }

  /** Lines already passed by the flush scan. */
  predicate ScannedClean(cfg: Config, c: Cache, n: nat)
    requires Shape(cfg, c) && n <= cfg.Lines()
  {
    forall l :: 0 <= l < n ==> !Dirty(c, l)
  }

  /** The miss entry describes the held request, whose line no way holds. */
  predicate MissPending(cfg: Config, s: Sys)
    requires Shape(cfg, s.c)
  {
    var m := s.c.mshr;
    s.c.mshrCount == 1 && s.held.Some? && ValidRequest(cfg, s.held.value) &&
    var r := s.held.value;
    var w := r.addr / 4;
    m.origAddr == r.addr && m.funct3 == r.funct3 && m.byteOff == r.addr % 4 && m.isWrite == r.Store? &&
    (r.Store? ==> m.wdata == r.wdata) &&
    m.set_ == cfg.Set(w) && m.tag == cfg.Tag(w) && m.wordOff == cfg.Off(w) && m.base == cfg.Base(m.tag, m.set_) &&
    !Hit(cfg, s.c, m.set_, m.tag)
  }

  /** The words of the incoming line that have arrived. */
  predicate Filled(cfg: Config, s: Sys, n: nat)
    requires Shape(cfg, s.c) && |s.mem| == cfg.MemWords() && n <= cfg.lineWords
    requires s.c.mshr.base + cfg.lineWords <= cfg.MemWords()
  {
    LineInRange(cfg, s.c.mshr.set_, s.c.mshr.way);
    forall k :: 0 <= k < n ==>
      s.c.data[FillLine(cfg, s.c)][k] == FillValue(s.c.mshr, k, s.mem[s.c.mshr.base + k])
  }

  /** The line being written back and how far. */
  predicate WritingBack(cfg: Config, s: Sys)
    requires Shape(cfg, s.c) && |s.mem| == cfg.MemWords()
  {
    Dirty(s.c, s.c.wbLine) && s.c.wbBase == LineBase(cfg, s.c, s.c.wbLine) &&
    Synced(cfg, s, s.c.wbLine, s.c.fillWord)
  }

  predicate HitReadPending(cfg: Config, s: Sys)
    requires Shape(cfg, s.c)
  {
    s.held.Some? && s.held.value.Load? && ValidRequest(cfg, s.held.value) &&
    var r := s.held.value;
    var w := r.addr / 4;
    s.c.servedAddr == r.addr && s.c.hitF3 == r.funct3 && s.c.hitOff == r.addr % 4 && s.c.hitWord == cfg.Off(w) &&
    s.c.hitLine / cfg.ways == cfg.Set(w) && s.c.valid[s.c.hitLine] && s.c.tag[s.c.hitLine] == cfg.Tag(w)
  }

  predicate BaseFits(cfg: Config, c: Cache) {
    c.mshr.base + cfg.lineWords <= cfg.MemWords()
  }

  /** What each FSM state promises. */
  predicate StateInv(cfg: Config, s: Sys)
    requires Shape(cfg, s.c) && |s.mem| == cfg.MemWords()
  {
    match s.c.state
    case Idle => !s.c.flushActive && s.c.mshrCount == 0 && s.held.None? &&
                 (s.c.flushDone ==> ScannedClean(cfg, s.c, cfg.Lines()))
    case HitRd => !s.c.flushActive && s.c.mshrCount == 0 && HitReadPending(cfg, s)
    case Wb =>
      WritingBack(cfg, s) &&
      if s.c.wbToFlush then s.c.flushActive && s.c.mshrCount == 0 && s.held.None? && s.c.wbLine == s.c.flushScan &&
                            ScannedClean(cfg, s.c, s.c.flushScan)
      else !s.c.flushActive && MissPending(cfg, s) && s.c.wbLine == FillLine(cfg, s.c)
    case Fill =>
      !s.c.flushActive && MissPending(cfg, s) && BaseFits(cfg, s.c) && FillLine(cfg, s.c) < cfg.Lines() &&
      !Dirty(s.c, FillLine(cfg, s.c)) && Filled(cfg, s, s.c.fillWord)
    case FlushScan => s.c.flushActive && s.c.mshrCount == 0 && s.held.None? && ScannedClean(cfg, s.c, s.c.flushScan)
  }

  ghost predicate Inv(cfg: Config, s: Sys) {
    Shape(cfg, s.c) && UniqueTags(cfg, s.c) && |s.mem| == cfg.MemWords() && !s.c.huPending &&
    (s.c.flushDone ==> s.c.state == Idle) && CleanSynced(cfg, s) && StateInv(cfg, s)
  }

  // ---- the updates ahead of the case split change nothing that matters ----

  /** `d` differs from `c` only in recency ranks and one-cycle pulses. */
  predicate SameBut(c: Cache, d: Cache) {
    d == c.(flushDone := d.flushDone, huPending := d.huPending, huData := d.huData, age := d.age)
  }

  lemma SameHolds(cfg: Config, c: Cache, d: Cache)
    requires Shape(cfg, c) && Shape(cfg, d) && SameBut(c, d)
    ensures forall w, way: nat :: 0 <= w < cfg.MemWords() ==> (Holds(cfg, c, w, way) <==> Holds(cfg, d, w, way))
    ensures forall w, way :: 0 <= w < cfg.MemWords() && 0 <= way < cfg.ways ==>
              WordIn(cfg, c, w, way) == WordIn(cfg, d, w, way)
  {
  }

  /** The view is decided by the holders' words and, without a holder, by memory. */
  lemma ViewIs(cfg: Config, s: Sys, w: nat, x: Word)
    requires Shape(cfg, s.c) && |s.mem| == cfg.MemWords() && w < |s.mem|
    requires forall way: nat :: Holds(cfg, s.c, w, way) ==> WordIn(cfg, s.c, w, way) == x
    requires (forall way: nat :: !Holds(cfg, s.c, w, way)) ==> s.mem[w] == x
    ensures View(cfg, s, w) == x
  {
    hide Holds, WordIn, Shape;
  }

  lemma SameView(cfg: Config, s: Sys, t: Sys)
    requires Shape(cfg, s.c) && Shape(cfg, t.c) && UniqueTags(cfg, s.c) && UniqueTags(cfg, t.c)
    requires SameBut(s.c, t.c) && s.mem == t.mem && |s.mem| == cfg.MemWords()
    ensures forall w :: 0 <= w < |s.mem| ==> View(cfg, t, w) == View(cfg, s, w)
  {
    SameHolds(cfg, s.c, t.c);
    forall w | 0 <= w < |s.mem|
      ensures View(cfg, t, w) == View(cfg, s, w)
    {
      forall way: nat | Holds(cfg, t.c, w, way)
        ensures WordIn(cfg, t.c, w, way) == View(cfg, s, w)
      {
        ViewHeld(cfg, s, w, way);
      }
      hide Holds, WordIn, Shape, UniqueTags, SameBut;
      ViewIs(cfg, t, w, View(cfg, s, w));
    }
  }

  lemma SameSynced(cfg: Config, s: Sys, t: Sys, l: nat, n: nat)
    requires Shape(cfg, s.c) && Shape(cfg, t.c) && SameBut(s.c, t.c) && s.mem == t.mem && |s.mem| == cfg.MemWords()
    requires l < cfg.Lines() && n <= cfg.lineWords
    ensures Synced(cfg, s, l, n) <==> Synced(cfg, t, l, n)
    ensures LineBase(cfg, s.c, l) == LineBase(cfg, t.c, l)
  {
  }

  lemma SameClean(cfg: Config, s: Sys, t: Sys)
    requires Shape(cfg, s.c) && Shape(cfg, t.c) && SameBut(s.c, t.c) && s.mem == t.mem && |s.mem| == cfg.MemWords()
    requires CleanSynced(cfg, s)
    ensures CleanSynced(cfg, t)
  {
    forall l | 0 <= l < cfg.Lines()
      ensures Synced(cfg, s, l, cfg.lineWords) <==> Synced(cfg, t, l, cfg.lineWords)
    {
      SameSynced(cfg, s, t, l, cfg.lineWords);
    }
    hide Synced, Shape;
  }

  lemma SameMiss(cfg: Config, s: Sys, t: Sys)
    requires Shape(cfg, s.c) && Shape(cfg, t.c) && SameBut(s.c, t.c) && s.held == t.held
    ensures MissPending(cfg, s) <==> MissPending(cfg, t)
  {
    hide Ranking, UniqueTags, ExtendRead, FillValue;
    SameTags(cfg, s.c, t.c);
    hide Shape, WayHit;
  }

  lemma SameFilled(cfg: Config, s: Sys, t: Sys)
    requires Shape(cfg, s.c) && Shape(cfg, t.c) && SameBut(s.c, t.c) && s.mem == t.mem && |s.mem| == cfg.MemWords()
    requires BaseFits(cfg, s.c) && Filled(cfg, s, s.c.fillWord)
    ensures Filled(cfg, t, t.c.fillWord)
  {
    hide FillValue;
    LineInRange(cfg, s.c.mshr.set_, s.c.mshr.way);
    assert FillLine(cfg, t.c) == FillLine(cfg, s.c);
    assert t.c.data == s.c.data && t.c.mshr == s.c.mshr && t.c.fillWord == s.c.fillWord;
  }

  lemma SameScanned(cfg: Config, c: Cache, d: Cache, n: nat)
    requires Shape(cfg, c) && Shape(cfg, d) && d.valid == c.valid && d.dirty == c.dirty
    requires n <= cfg.Lines() && ScannedClean(cfg, c, n)
    ensures ScannedClean(cfg, d, n)
  {
    forall l | 0 <= l < n
      ensures !Dirty(d, l)
    {
      assert !Dirty(c, l);
    }
  }

  lemma SameStateInv(cfg: Config, s: Sys, t: Sys)
    requires Shape(cfg, s.c) && Shape(cfg, t.c) && |s.mem| == cfg.MemWords() && StateInv(cfg, s)
    requires SameBut(s.c, t.c) && s.mem == t.mem && s.held == t.held && !t.c.flushDone
    ensures StateInv(cfg, t)
  {
    SameMiss(cfg, s, t);
    match s.c.state {
      case Idle =>
      case HitRd => hide Shape;
      case Wb =>
        SameSynced(cfg, s, t, s.c.wbLine, s.c.fillWord);
        hide Shape, Synced, LineBase, MissPending, ScannedClean;
        if s.c.wbToFlush {
          SameScanned(cfg, s.c, t.c, s.c.flushScan);
        }
      case Fill =>
        SameFilled(cfg, s, t);
        hide Shape, MissPending, Filled;
      case FlushScan =>
        SameScanned(cfg, s.c, t.c, s.c.flushScan);
        hide Shape, ScannedClean;
    }
  }

  lemma SameInv(cfg: Config, s: Sys, t: Sys)
    requires Inv(cfg, s) && Shape(cfg, t.c) && UniqueTags(cfg, t.c)
    requires SameBut(s.c, t.c) && s.mem == t.mem && s.held == t.held && !t.c.flushDone && !t.c.huPending
    ensures Inv(cfg, t)
  {
    SameClean(cfg, s, t);
    SameStateInv(cfg, s, t);
    hide Shape, UniqueTags, CleanSynced, StateInv, SameBut;
  }

  /** The state the case split works from. */
  function Prepared(cfg: Config, s: Sys, e: Env): Sys
    requires Shape(cfg, s.c) && UniqueTags(cfg, s.c) && Legal(cfg, s, e)
  {
    s.(c := Prologue(cfg, s.c, ToInput(s, e)))
  }

  /** The case split of one clock edge. */
  function ArmNext(cfg: Config, t: Sys, e: Env): Sys
    requires Shape(cfg, t.c) && UniqueTags(cfg, t.c) && Legal(cfg, t, e)
  {
    var i := ToInput(t, e);
    var c' := match t.c.state
              case Idle => StepIdle(cfg, t.c, i)
              case HitRd => t.c.(state := Idle)
              case Wb => StepWb(cfg, t.c, e.ack)
              case Fill => StepFill(cfg, t.c, e.ack, i.rdata)
              case FlushScan => StepFlush(cfg, t.c);
    Sys(c', NextMem(cfg, t, e.ack), if e.req.Some? && !Answer(cfg, t, e).ready then e.req else None)
  }

  /** In the blocking configuration no load hits while the bus is busy. */
  lemma NoHitUnderMiss(cfg: Config, s: Sys, e: Env)
    requires Inv(cfg, s) && Legal(cfg, s, e)
    ensures !((s.c.state == Wb || s.c.state == Fill) && IsLoad(ToInput(s, e)) && HitsNow(cfg, s.c, ToInput(s, e)))
  {
    hide Shape, UniqueTags, CleanSynced, Synced, WayHit, Filled, LineBase;
  }

  lemma PreparedKeeps(cfg: Config, s: Sys, e: Env)
    requires Inv(cfg, s) && Legal(cfg, s, e)
    ensures var t := Prepared(cfg, s, e);
            Inv(cfg, t) && Legal(cfg, t, e) && !t.c.flushDone && t.c.state == s.c.state &&
            Next(cfg, s, e) == ArmNext(cfg, t, e) && Answer(cfg, t, e) == Answer(cfg, s, e) &&
            forall w :: 0 <= w < |s.mem| ==> View(cfg, t, w) == View(cfg, s, w)
  {
    var i := ToInput(s, e);
    PrologueShape(cfg, s.c, i);
    NoHitUnderMiss(cfg, s, e);
    var t := Prepared(cfg, s, e);
    assert SameBut(s.c, t.c) && !t.c.flushDone && !t.c.huPending by {
      hide Inv, Shape, UniqueTags, HitsNow, AccessHit, TouchSet, TouchedLine, BusyHitData;
    }
    SameInv(cfg, s, t);
    SameView(cfg, s, t);
    SameAnswer(cfg, s, t, e);
    hide Inv, Shape, UniqueTags, Prologue, StepIdle, StepWb, StepFill, StepFlush, Respond, View, HitsNow, NextMem;
  }

  lemma SameAnswer(cfg: Config, s: Sys, t: Sys, e: Env)
    requires Shape(cfg, s.c) && Shape(cfg, t.c) && SameBut(s.c, t.c) && s.mem == t.mem && s.held == t.held
    requires Legal(cfg, s, e) && s.c.huPending == t.c.huPending == false
    ensures Legal(cfg, t, e) && Answer(cfg, t, e) == Answer(cfg, s, e)
    ensures ToInput(t, e) == ToInput(s, e) && NextMem(cfg, t, e.ack) == NextMem(cfg, s, e.ack)
  {
    hide Ranking, UniqueTags, ExtendRead, FillValue;
    SameTags(cfg, s.c, t.c);
    hide Shape, WayHit;
  }

  // ---- what one clock edge may do to the view ----

  /** A store commits in the cycle it is answered; nothing else changes the view. */
  ghost function After(cfg: Config, s: Sys, e: Env, w: nat): Word
    requires Shape(cfg, s.c) && |s.mem| == cfg.MemWords() && w < |s.mem| && Legal(cfg, s, e)
  {
    if e.req.Some? && e.req.value.Store? && Answer(cfg, s, e).ready && w == e.req.value.addr / 4
    then MergeWrite(View(cfg, s, w), e.req.value.funct3, e.req.value.addr % 4, e.req.value.wdata)
    else View(cfg, s, w)
  }

  /** An answered load returns the view's word, selected and extended. */
  ghost predicate LoadCorrect(cfg: Config, s: Sys, e: Env)
    requires Shape(cfg, s.c) && |s.mem| == cfg.MemWords() && Legal(cfg, s, e)
  {
    e.req.Some? && e.req.value.Load? && Answer(cfg, s, e).ready ==>
      Answer(cfg, s, e).rdata
        == ExtendRead(View(cfg, s, e.req.value.addr / 4), e.req.value.funct3, e.req.value.addr % 4)
  }

  /** The contract of a clock edge from `s` to `u`. */
  ghost predicate Refines(cfg: Config, s: Sys, e: Env, u: Sys)
    requires Shape(cfg, s.c) && |s.mem| == cfg.MemWords() && Legal(cfg, s, e)
  {
    Inv(cfg, u) && LoadCorrect(cfg, s, e) &&
    forall w :: 0 <= w < cfg.MemWords() ==> View(cfg, u, w) == After(cfg, s, e, w)
  }

  // ---- S_HIT_RD ----

  /** A line of the right set with the right tag is a hitting way. */
  lemma LineIsWay(cfg: Config, c: Cache, line: nat, w: nat) returns (way: nat)
    requires Shape(cfg, c) && line < cfg.Lines() && w < cfg.MemWords()
    requires line / cfg.ways == cfg.Set(w) && c.valid[line] && c.tag[line] == cfg.Tag(w)
    ensures way < cfg.ways && cfg.Line(cfg.Set(w), way) == line && cfg.Set(w) < cfg.sets
    ensures WayHit(cfg, c, cfg.Set(w), cfg.Tag(w), way)
    ensures WordIn(cfg, c, w, way) == c.data[line][cfg.Off(w)]
  {
    LineSplit(cfg, line);
    way := line % cfg.ways;
    AddressFields(cfg, w);
  }

  lemma HitRdArm(cfg: Config, s: Sys, e: Env)
    requires Inv(cfg, s) && Legal(cfg, s, e) && s.c.state == HitRd && !s.c.flushDone
    ensures Refines(cfg, s, e, ArmNext(cfg, s, e))
  {
    var u := ArmNext(cfg, s, e);
    var r := s.held.value;
    var w := r.addr / 4;
    var way := LineIsWay(cfg, s.c, s.c.hitLine, w);
    ViewHeld(cfg, s, w, way);
    assert e.req == Some(r) && Answer(cfg, s, e).ready;
    assert u == Sys(s.c.(state := Idle), s.mem, None);
    IdleAgain(cfg, s, u);
    hide Shape, UniqueTags, Respond, View, WordIn, WayHit, HitsNow, Inv;
  }

  /** Leaving HitRd for Idle keeps the arrays, so it keeps the view. */
  lemma IdleAgain(cfg: Config, s: Sys, u: Sys)
    requires Inv(cfg, s) && s.c.state == HitRd && !s.c.flushDone && u == Sys(s.c.(state := Idle), s.mem, None)
    ensures Inv(cfg, u)
    ensures forall w :: 0 <= w < cfg.MemWords() ==> View(cfg, u, w) == View(cfg, s, w)
  {
    SameArrays(cfg, s, u);
  }

  /** Two states without a fill in progress and with the same arrays and memory. */
  lemma SameArrays(cfg: Config, s: Sys, u: Sys)
    requires Inv(cfg, s) && Shape(cfg, u.c)
    requires s.c.state != Fill && u.c.state != Fill
    requires u.c.valid == s.c.valid && u.c.dirty == s.c.dirty && u.c.tag == s.c.tag && u.c.data == s.c.data
    requires u.mem == s.mem
    ensures UniqueTags(cfg, u.c) && CleanSynced(cfg, u)
    ensures forall w :: 0 <= w < cfg.MemWords() ==> View(cfg, u, w) == View(cfg, s, w)
  {
    SameTags(cfg, s.c, u.c);
    forall w | 0 <= w < cfg.MemWords()
      ensures View(cfg, u, w) == View(cfg, s, w)
    {
      forall way: nat | Holds(cfg, u.c, w, way)
        ensures Holds(cfg, s.c, w, way) && WordIn(cfg, u.c, w, way) == View(cfg, s, w)
      {
        ViewHeld(cfg, s, w, way);
      }
      assert forall way: nat :: Holds(cfg, s.c, w, way) ==> Holds(cfg, u.c, w, way);
      hide Holds, WordIn, Shape, UniqueTags, Inv;
      ViewIs(cfg, u, w, View(cfg, s, w));
    }
    forall l | 0 <= l < cfg.Lines() && u.c.valid[l] && !u.c.dirty[l]
      ensures Synced(cfg, u, l, cfg.lineWords)
    {
      assert Synced(cfg, s, l, cfg.lineWords);
    }
  }

  // ---- S_FLUSH_SCAN and the quiet part of S_IDLE ----

  /** An edge that answers nothing refines when it keeps the invariant and the view. */
  lemma Unanswered(cfg: Config, s: Sys, e: Env, u: Sys)
    requires Shape(cfg, s.c) && |s.mem| == cfg.MemWords() && Legal(cfg, s, e)
    requires Inv(cfg, u) && forall w :: 0 <= w < cfg.MemWords() ==> View(cfg, u, w) == View(cfg, s, w)
    requires e.req.None? || !Answer(cfg, s, e).ready
    ensures Refines(cfg, s, e, u)
  {
    hide Shape, Inv, View, Respond;
  }

  lemma FlushScanArm(cfg: Config, s: Sys, e: Env)
    requires Inv(cfg, s) && Legal(cfg, s, e) && s.c.state == FlushScan && !s.c.flushDone
    ensures Refines(cfg, s, e, ArmNext(cfg, s, e))
  {
    var u := ArmNext(cfg, s, e);
    assert u == Sys(StepFlush(cfg, s.c), s.mem, None);
    if Dirty(s.c, s.c.flushScan) {
      FlushStartsWriteback(cfg, s, u);
    } else {
      FlushSkipsLine(cfg, s, u);
    }
    hide Shape, Inv, View, StepFlush, Dirty;
    Unanswered(cfg, s, e, u);
  }

  lemma FlushStartsWriteback(cfg: Config, s: Sys, u: Sys)
    requires Inv(cfg, s) && s.c.state == FlushScan && !s.c.flushDone && Dirty(s.c, s.c.flushScan)
    requires u == Sys(StepFlush(cfg, s.c), s.mem, None)
    ensures Inv(cfg, u) && forall w :: 0 <= w < cfg.MemWords() ==> View(cfg, u, w) == View(cfg, s, w)
  {
    assert Shape(cfg, u.c);
    SameArrays(cfg, s, u);
    SameScanned(cfg, s.c, u.c, s.c.flushScan);
    assert WritingBack(cfg, u);
    hide Shape, UniqueTags, CleanSynced, View, WritingBack, ScannedClean;
  }

  lemma FlushSkipsLine(cfg: Config, s: Sys, u: Sys)
    requires Inv(cfg, s) && s.c.state == FlushScan && !s.c.flushDone && !Dirty(s.c, s.c.flushScan)
    requires u == Sys(StepFlush(cfg, s.c), s.mem, None)
    ensures Inv(cfg, u) && forall w :: 0 <= w < cfg.MemWords() ==> View(cfg, u, w) == View(cfg, s, w)
  {
    assert Shape(cfg, u.c);
    SameArrays(cfg, s, u);
    ScanAdvances(cfg, s.c, u.c);
    hide Shape, UniqueTags, CleanSynced, View, ScannedClean;
  }

  lemma ScanAdvances(cfg: Config, c: Cache, d: Cache)
    requires Shape(cfg, c) && Shape(cfg, d) && d.valid == c.valid && d.dirty == c.dirty
    requires ScannedClean(cfg, c, c.flushScan) && !Dirty(c, c.flushScan)
    ensures c.flushScan + 1 <= cfg.Lines() && ScannedClean(cfg, d, c.flushScan + 1)
  {
    forall l | 0 <= l < c.flushScan + 1
      ensures !Dirty(d, l)
    {
      if l < c.flushScan {
        assert !Dirty(c, l);
      }
    }
  }

  /** S_IDLE with no request: wait, or start a flush. */
  lemma IdleQuietArm(cfg: Config, s: Sys, e: Env)
    requires Inv(cfg, s) && Legal(cfg, s, e) && s.c.state == Idle && !s.c.flushDone && e.req.None?
    ensures Refines(cfg, s, e, ArmNext(cfg, s, e))
  {
    var u := ArmNext(cfg, s, e);
    assert u.mem == s.mem && u.held == None;
    assert u.c == if e.flush then s.c.(flushActive := true, flushScan := 0, state := FlushScan) else s.c;
    LineInRange(cfg, 0, 0);
    assert Shape(cfg, u.c);
    SameArrays(cfg, s, u);
    hide Shape, UniqueTags, CleanSynced, View, Synced, LineBase, Respond;
  }

  // ---- S_WB ----

  lemma WbWaitArm(cfg: Config, s: Sys, e: Env)
    requires Inv(cfg, s) && Legal(cfg, s, e) && s.c.state == Wb && !s.c.flushDone && !e.ack
    ensures Refines(cfg, s, e, ArmNext(cfg, s, e))
  {
    var u := ArmNext(cfg, s, e);
    assert e.req == s.held && !Answer(cfg, s, e).ready by {
      hide Shape, UniqueTags, CleanSynced, WritingBack, ScannedClean, Hit;
    }
    assert u == s;
    hide Shape, UniqueTags, CleanSynced, View, StateInv, Respond, StepWb;
  }

  lemma WbHolds(cfg: Config, s: Sys, w: nat) returns (way: nat)
    requires Inv(cfg, s) && s.c.state == Wb && LineBase(cfg, s.c, s.c.wbLine) <= w < LineBase(cfg, s.c, s.c.wbLine) + cfg.lineWords
    ensures w < cfg.MemWords() && Holds(cfg, s.c, w, way)
    ensures WordIn(cfg, s.c, w, way) == s.c.data[s.c.wbLine][w - LineBase(cfg, s.c, s.c.wbLine)]
  {
    hide Ranking, UniqueTags, CleanSynced, Config.Base, Config.Set, Config.Tag, Config.Off, Config.MemWords;
    var line := s.c.wbLine;
    LineSplit(cfg, line);
    FieldsAddress(cfg, s.c.tag[line], line / cfg.ways, w - LineBase(cfg, s.c, line));
    assert Dirty(s.c, line);
    way := LineIsWay(cfg, s.c, line, w);
  }

  /** A beat of writeback changes one memory word, which the dirty line shadows. */
  lemma WbBeatView(cfg: Config, s: Sys, u: Sys)
    requires Inv(cfg, s) && s.c.state == Wb && Shape(cfg, u.c) && u.c.state != Fill
    requires u.c.valid == s.c.valid && u.c.tag == s.c.tag && u.c.data == s.c.data
    requires s.c.wbBase + s.c.fillWord < |s.mem|
    requires u.mem == s.mem[s.c.wbBase + s.c.fillWord := s.c.data[s.c.wbLine][s.c.fillWord]]
    ensures UniqueTags(cfg, u.c)
    ensures forall w :: 0 <= w < cfg.MemWords() ==> View(cfg, u, w) == View(cfg, s, w)
  {
    SameTags(cfg, s.c, u.c);
    var a := s.c.wbBase + s.c.fillWord;
    var holder := WbHolds(cfg, s, a);
    forall w | 0 <= w < cfg.MemWords()
      ensures View(cfg, u, w) == View(cfg, s, w)
    {
      forall way: nat | Holds(cfg, u.c, w, way)
        ensures Holds(cfg, s.c, w, way) && WordIn(cfg, u.c, w, way) == View(cfg, s, w)
      {
        ViewHeld(cfg, s, w, way);
      }
      assert forall way: nat :: Holds(cfg, s.c, w, way) ==> Holds(cfg, u.c, w, way);
      hide Holds, WordIn, Shape, UniqueTags, Inv;
      ViewIs(cfg, u, w, View(cfg, s, w));
    }
  }

  lemma LineBasesApart(cfg: Config, c: Cache, l: nat, m: nat, i: nat, j: nat)
    requires Shape(cfg, c) && UniqueTags(cfg, c) && l < cfg.Lines() && m < cfg.Lines() && l != m
    requires c.valid[l] && c.valid[m] && i < cfg.lineWords && j < cfg.lineWords
    ensures LineBase(cfg, c, l) + i != LineBase(cfg, c, m) + j
  {
    hide UniqueTags, Config.Base, Ranking, Config.Line, LineBase;
    var s, x := LinePlace(cfg, c, l);
    var s', y := LinePlace(cfg, c, m);
    PlacesApart(cfg, c, s, x, s', y, i, j);
  }

  /** The set and way of a line. */
  lemma LinePlace(cfg: Config, c: Cache, l: nat) returns (s: nat, x: nat)
    requires Shape(cfg, c) && l < cfg.Lines()
    ensures s < cfg.sets && x < cfg.ways && cfg.Line(s, x) == l && LineBase(cfg, c, l) == cfg.Base(c.tag[l], s)
  {
    hide Config.Base, Ranking, Config.Line;
    LineSplit(cfg, l);
    s, x := l / cfg.ways, l % cfg.ways;
  }

  /** Words of valid lines at different places have different addresses. */
  lemma PlacesApart(cfg: Config, c: Cache, s: nat, x: nat, s': nat, y: nat, i: nat, j: nat)
    requires Shape(cfg, c) && UniqueTags(cfg, c) && s < cfg.sets && s' < cfg.sets && x < cfg.ways && y < cfg.ways
    requires var l, m := cfg.Line(s, x), cfg.Line(s', y);
             l < cfg.Lines() && m < cfg.Lines() && l != m && c.valid[l] && c.valid[m]
    requires i < cfg.lineWords && j < cfg.lineWords
    ensures cfg.Base(c.tag[cfg.Line(s, x)], s) + i != cfg.Base(c.tag[cfg.Line(s', y)], s') + j
  {
    hide Ranking, Config.Line, Config.Base;
    var l, m := cfg.Line(s, x), cfg.Line(s', y);
    BasesUnique(cfg, c.tag[l], s, i, c.tag[m], s', j);
    if s == s' {
      WaysApart(cfg, c, s, x, y);
    }
  }

  /** Valid ways of a set with the same tag are the same way. */
  lemma WaysApart(cfg: Config, c: Cache, s: nat, x: nat, y: nat)
    requires Shape(cfg, c) && UniqueTags(cfg, c) && s < cfg.sets && x < cfg.ways && y < cfg.ways
    requires cfg.Line(s, x) < cfg.Lines() && c.valid[cfg.Line(s, x)]
    requires cfg.Line(s, y) < cfg.Lines() && c.valid[cfg.Line(s, y)]
    ensures c.tag[cfg.Line(s, x)] == c.tag[cfg.Line(s, y)] ==> x == y
  {
    hide Ranking, Config.Line;
    var tag := c.tag[cfg.Line(s, x)];
    if tag == c.tag[cfg.Line(s, y)] {
      assert WayHit(cfg, c, s, tag, x) && WayHit(cfg, c, s, tag, y);
    }
  }

  lemma BasesUnique(cfg: Config, t: nat, s: nat, i: nat, t': nat, s': nat, j: nat)
    requires cfg.WellFormed() && t < cfg.tags && s < cfg.sets && t' < cfg.tags && s' < cfg.sets
    requires i < cfg.lineWords && j < cfg.lineWords
    ensures cfg.Base(t, s) + i == cfg.Base(t', s') + j ==> t == t' && s == s'
  {
    hide Config.Base, Config.Set, Config.Tag, Config.Off, Config.MemWords;
    FieldsAddress(cfg, t, s, i);
    FieldsAddress(cfg, t', s', j);
  }

  /** The other clean lines stay in step with memory, and the written one gains a word. */
  lemma WbBeatSynced(cfg: Config, s: Sys, u: Sys)
    requires Inv(cfg, s) && s.c.state == Wb && Shape(cfg, u.c)
    requires u.c.valid == s.c.valid && u.c.tag == s.c.tag && u.c.data == s.c.data
    requires s.c.wbBase + s.c.fillWord < |s.mem|
    requires u.mem == s.mem[s.c.wbBase + s.c.fillWord := s.c.data[s.c.wbLine][s.c.fillWord]]
    ensures Synced(cfg, u, s.c.wbLine, s.c.fillWord + 1)
    ensures forall l :: 0 <= l < cfg.Lines() && l != s.c.wbLine && s.c.valid[l] && !s.c.dirty[l]
                    ==> Synced(cfg, u, l, cfg.lineWords)
  {
    var line := s.c.wbLine;
    LineBaseFits(cfg, s.c, line);
    assert Synced(cfg, s, line, s.c.fillWord);
    forall l | 0 <= l < cfg.Lines() && l != line && s.c.valid[l] && !s.c.dirty[l]
      ensures Synced(cfg, u, l, cfg.lineWords)
    {
      assert Synced(cfg, s, l, cfg.lineWords);
      LineBaseFits(cfg, s.c, l);
      forall k | 0 <= k < cfg.lineWords
        ensures u.c.data[l][k] == u.mem[LineBase(cfg, u.c, l) + k]
      {
        LineBasesApart(cfg, s.c, l, line, k, s.c.fillWord);
      }
    }
  }

  lemma WbNotReady(cfg: Config, s: Sys, e: Env)
    requires Inv(cfg, s) && Legal(cfg, s, e) && s.c.state == Wb
    ensures e.req == s.held && !Answer(cfg, s, e).ready
    ensures s.c.wbBase + s.c.fillWord < |s.mem| && BusAddr(s.c) == s.c.wbBase + s.c.fillWord
  {
    LineBaseFits(cfg, s.c, s.c.wbLine);
    hide Shape, UniqueTags, CleanSynced, ScannedClean, Hit, Synced;
  }

  lemma WbMidBeat(cfg: Config, s: Sys, u: Sys)
    requires Inv(cfg, s) && s.c.state == Wb && !s.c.flushDone && !LastWord(cfg, s.c)
    requires s.c.wbBase + s.c.fillWord < |s.mem|
    requires u == Sys(s.c.(fillWord := s.c.fillWord + 1),
                      s.mem[s.c.wbBase + s.c.fillWord := s.c.data[s.c.wbLine][s.c.fillWord]], s.held)
    ensures Inv(cfg, u) && forall w :: 0 <= w < cfg.MemWords() ==> View(cfg, u, w) == View(cfg, s, w)
  {
    assert Shape(cfg, u.c);
    WbBeatView(cfg, s, u);
    WbBeatSynced(cfg, s, u);
    SameTags(cfg, s.c, u.c);
    if s.c.wbToFlush {
      SameScanned(cfg, s.c, u.c, s.c.flushScan);
    }
    assert LineBase(cfg, u.c, s.c.wbLine) == LineBase(cfg, s.c, s.c.wbLine);
    hide Shape, UniqueTags, View, Synced, ScannedClean, LineBase, WayHit;
  }

  lemma WbLastToFlush(cfg: Config, s: Sys, u: Sys)
    requires Inv(cfg, s) && s.c.state == Wb && !s.c.flushDone && LastWord(cfg, s.c) && s.c.wbToFlush
    requires s.c.wbBase + s.c.fillWord < |s.mem|
    requires u == Sys(AdvanceScan(cfg, s.c.(dirty := s.c.dirty[s.c.wbLine := false])),
                      s.mem[s.c.wbBase + s.c.fillWord := s.c.data[s.c.wbLine][s.c.fillWord]], s.held)
    ensures Inv(cfg, u) && forall w :: 0 <= w < cfg.MemWords() ==> View(cfg, u, w) == View(cfg, s, w)
  {
    assert Shape(cfg, u.c);
    WbBeatView(cfg, s, u);
    WbBeatSynced(cfg, s, u);
    assert CleanSynced(cfg, u) by { hide Shape, Synced; }
    var c := s.c.(dirty := s.c.dirty[s.c.wbLine := false]);
    assert ScannedClean(cfg, c, c.flushScan) && !Dirty(c, c.flushScan) by {
      forall l | 0 <= l < c.flushScan
        ensures !Dirty(c, l)
      {
        assert !Dirty(s.c, l);
      }
    }
    ScanAdvances(cfg, c, u.c);
    hide Shape, UniqueTags, View, Synced, ScannedClean, CleanSynced, WritingBack;
  }

  /** The registers and memory on entering S_FILL: the arrays as they were, the victim in step with memory. */
  ghost predicate EntersFill(cfg: Config, s: Sys, u: Sys)
    requires Shape(cfg, s.c) && Shape(cfg, u.c) && |s.mem| == |u.mem| == cfg.MemWords()
  {
    s.c.state != Fill && u.c.state == Fill &&
    u.c.valid == s.c.valid && u.c.tag == s.c.tag && u.c.data == s.c.data &&
    FillLine(cfg, u.c) < cfg.Lines() &&
    (s.c.valid[FillLine(cfg, u.c)] ==> Synced(cfg, u, FillLine(cfg, u.c), cfg.lineWords)) &&
    forall w :: 0 <= w < cfg.MemWords() && (forall way: nat :: !Holds(cfg, s.c, w, way)) ==> u.mem[w] == s.mem[w]
  }

  lemma HolderSurvivesOrIsVictim(cfg: Config, s: Sys, u: Sys, w: nat, way: nat)
    requires Shape(cfg, s.c) && Shape(cfg, u.c) && |s.mem| == |u.mem| == cfg.MemWords() && EntersFill(cfg, s, u)
    requires w < cfg.MemWords() && Holds(cfg, s.c, w, way)
    ensures Holds(cfg, u.c, w, way) || u.mem[w] == WordIn(cfg, s.c, w, way)
    ensures WordIn(cfg, u.c, w, way) == WordIn(cfg, s.c, w, way)
  {
    AddressFields(cfg, w);
    SameTags(cfg, s.c, u.c);
    LineFields(cfg, cfg.Set(w), way);
    var line := cfg.Line(cfg.Set(w), way);
    if line == FillLine(cfg, u.c) {
      LineBaseFits(cfg, u.c, line);
      assert u.c.data[line][cfg.Off(w)] == u.mem[LineBase(cfg, u.c, line) + cfg.Off(w)];
    }
  }

  lemma HolderWasHolder(cfg: Config, s: Sys, u: Sys, w: nat, way: nat)
    requires Shape(cfg, s.c) && Shape(cfg, u.c) && |s.mem| == |u.mem| == cfg.MemWords() && EntersFill(cfg, s, u)
    requires w < cfg.MemWords() && Holds(cfg, u.c, w, way)
    ensures Holds(cfg, s.c, w, way)
  {
    SameTags(cfg, s.c, u.c);
  }

  /** The victim leaves the view as the fill starts; memory already has all its words. */
  lemma EnterFillView(cfg: Config, s: Sys, u: Sys, w: nat)
    requires Shape(cfg, s.c) && Shape(cfg, u.c) && UniqueTags(cfg, s.c) && |s.mem| == |u.mem| == cfg.MemWords()
    requires EntersFill(cfg, s, u) && w < cfg.MemWords()
    ensures View(cfg, u, w) == View(cfg, s, w)
  {
    forall way: nat | Holds(cfg, u.c, w, way)
      ensures WordIn(cfg, u.c, w, way) == View(cfg, s, w)
    {
      HolderWasHolder(cfg, s, u, w, way);
      HolderSurvivesOrIsVictim(cfg, s, u, w, way);
      hide EntersFill, Holds, WordIn;
      ViewHeld(cfg, s, w, way);
    }
    if forall way: nat :: !Holds(cfg, u.c, w, way) {
      if way: nat :| Holds(cfg, s.c, w, way) {
        HolderSurvivesOrIsVictim(cfg, s, u, w, way);
        hide EntersFill, Holds, WordIn;
        ViewHeld(cfg, s, w, way);
      }
    }
    hide Holds, WordIn, Shape, UniqueTags;
    ViewIs(cfg, u, w, View(cfg, s, w));
  }

  lemma EnterFillClean(cfg: Config, s: Sys, u: Sys)
    requires Shape(cfg, s.c) && Shape(cfg, u.c) && |s.mem| == |u.mem| == cfg.MemWords() && EntersFill(cfg, s, u)
    requires forall l :: 0 <= l < cfg.Lines() && l != FillLine(cfg, u.c) && u.c.valid[l] && !u.c.dirty[l]
                     ==> Synced(cfg, u, l, cfg.lineWords)
    ensures CleanSynced(cfg, u)
  {
    assert u.c.state == Fill;
    hide Synced, Shape, EntersFill;
  }

  /** The acknowledged last beat of a miss's writeback: the victim is clean and its fill starts. */
  predicate WbHandsOver(cfg: Config, s: Sys, u: Sys)
    requires Shape(cfg, s.c)
  {
    s.c.state == Wb && !s.c.flushDone && LastWord(cfg, s.c) && !s.c.wbToFlush &&
    s.c.wbBase + s.c.fillWord < |s.mem| &&
    u == Sys(s.c.(dirty := s.c.dirty[s.c.wbLine := false], fillWord := 0, state := Fill),
             s.mem[s.c.wbBase + s.c.fillWord := s.c.data[s.c.wbLine][s.c.fillWord]], s.held)
  }

  lemma WbEntersFill(cfg: Config, s: Sys, u: Sys)
    requires Inv(cfg, s) && WbHandsOver(cfg, s, u)
    ensures Shape(cfg, u.c) && |u.mem| == cfg.MemWords() && EntersFill(cfg, s, u) && CleanSynced(cfg, u)
  {
    hide Ranking, UniqueTags, CleanSynced, MissPending;
    assert Shape(cfg, u.c);
    WbBeatSynced(cfg, s, u);
    var holder := WbHolds(cfg, s, s.c.wbBase + s.c.fillWord);
    hide Synced, WayHit;
    assert EntersFill(cfg, s, u);
    EnterFillClean(cfg, s, u);
  }

  lemma WbLastToFill(cfg: Config, s: Sys, u: Sys)
    requires Inv(cfg, s) && WbHandsOver(cfg, s, u)
    ensures Inv(cfg, u) && forall w :: 0 <= w < cfg.MemWords() ==> View(cfg, u, w) == View(cfg, s, w)
  {
    hide Ranking, UniqueTags, EntersFill, CleanSynced, WritingBack, View;
    WbEntersFill(cfg, s, u);
    forall w | 0 <= w < cfg.MemWords()
      ensures View(cfg, u, w) == View(cfg, s, w)
    {
      EnterFillView(cfg, s, u, w);
    }
    SameTags(cfg, s.c, u.c);
    MissBaseFits(cfg, s);
    assert !Dirty(u.c, FillLine(cfg, u.c));
    hide WayHit;
  }

  lemma MissBaseFits(cfg: Config, s: Sys)
    requires Shape(cfg, s.c) && MissPending(cfg, s)
    ensures BaseFits(cfg, s.c)
  {
    FieldsAddress(cfg, s.c.mshr.tag, s.c.mshr.set_, cfg.lineWords - 1);
  }

  lemma WbArm(cfg: Config, s: Sys, e: Env)
    requires Inv(cfg, s) && Legal(cfg, s, e) && s.c.state == Wb && !s.c.flushDone
    ensures Refines(cfg, s, e, ArmNext(cfg, s, e))
  {
    if !e.ack {
      WbWaitArm(cfg, s, e);
    } else {
      var u := ArmNext(cfg, s, e);
      WbNotReady(cfg, s, e);
      if !LastWord(cfg, s.c) {
        WbMidBeat(cfg, s, u);
      } else if s.c.wbToFlush {
        WbLastToFlush(cfg, s, u);
      } else {
        WbLastToFill(cfg, s, u);
      }
      hide Shape, Inv, View, ArmNext, Respond;
      Unanswered(cfg, s, e, u);
    }
  }

  // ---- S_IDLE with a request ----

  lemma HitWay(cfg: Config, c: Cache, w: nat) returns (way: nat)
    requires Shape(cfg, c) && UniqueTags(cfg, c) && w < cfg.MemWords() && HitsAt(cfg, c, w)
    ensures way < cfg.ways && cfg.Set(w) < cfg.sets && WayHit(cfg, c, cfg.Set(w), cfg.Tag(w), way)
    ensures HitLine(cfg, c, w) == cfg.Line(cfg.Set(w), way) && HitLine(cfg, c, w) / cfg.ways == cfg.Set(w)
    ensures cfg.Off(w) < cfg.lineWords
    ensures HitDataAcc(cfg, c, cfg.Set(w), cfg.Tag(w), cfg.Off(w), cfg.ways) == WordIn(cfg, c, w, way)
  {
    AddressFields(cfg, w);
    way :| 0 <= way < cfg.ways && WayHit(cfg, c, cfg.Set(w), cfg.Tag(w), way);
    LineFields(cfg, cfg.Set(w), way);
    hide Shape, UniqueTags, HitDataAcc, HitLineAcc, WayHit;
    AccumulatedHit(cfg, c, cfg.Set(w), cfg.Tag(w), cfg.Off(w), way, cfg.ways);
  }

  lemma LoadHitArm(cfg: Config, s: Sys, e: Env)
    requires Inv(cfg, s) && Legal(cfg, s, e) && s.c.state == Idle && !s.c.flushDone
    requires e.req.Some? && e.req.value.Load? && HitsAt(cfg, s.c, e.req.value.addr / 4)
    ensures Refines(cfg, s, e, ArmNext(cfg, s, e))
  {
    var u := ArmNext(cfg, s, e);
    var r := e.req.value;
    var w := r.addr / 4;
    var way := HitWay(cfg, s.c, w);
    LineFields(cfg, cfg.Set(w), way);
    assert !Answer(cfg, s, e).ready by { hide Shape, UniqueTags, HitsAt, CleanSynced; }
    assert u == Sys(StepHit(cfg, s.c, r), s.mem, e.req) by { hide Shape, UniqueTags, Respond, StepHit, CleanSynced; }
    LoadHitKeeps(cfg, s, r, u);
    hide Shape, Inv, View, ArmNext, Respond, HitsAt, WayHit, UniqueTags;
    Unanswered(cfg, s, e, u);
  }

  lemma LoadHitKeeps(cfg: Config, s: Sys, r: Request, u: Sys)
    requires Inv(cfg, s) && s.c.state == Idle && !s.c.flushDone
    requires ValidRequest(cfg, r) && r.Load? && HitsAt(cfg, s.c, r.addr / 4)
    requires u == Sys(StepHit(cfg, s.c, r), s.mem, Some(r))
    ensures Inv(cfg, u) && forall w :: 0 <= w < cfg.MemWords() ==> View(cfg, u, w) == View(cfg, s, w)
  {
    var way := HitWay(cfg, s.c, r.addr / 4);
    assert Shape(cfg, u.c);
    SameArrays(cfg, s, u);
    assert HitReadPending(cfg, u);
    hide Shape, UniqueTags, View, CleanSynced, HitReadPending;
  }

  /** Two word addresses with the same line and offset are the same. */
  lemma SameFieldsSameWord(cfg: Config, a: nat, w: nat)
    requires cfg.WellFormed() && a < cfg.MemWords() && w < cfg.MemWords()
    requires cfg.Tag(a) == cfg.Tag(w) && cfg.Set(a) == cfg.Set(w) && cfg.Off(a) == cfg.Off(w)
    ensures a == w
  {
    AddressFields(cfg, a);
    AddressFields(cfg, w);
  }

  /** Rewriting one word of a line, seen from another address. */
  lemma OtherWord(cfg: Config, c: Cache, d: Cache, a: nat, way: nat, x: Word, w: nat, way': nat)
    requires Shape(cfg, c) && Shape(cfg, d) && a < cfg.MemWords() && w < cfg.MemWords() && a != w
    requires Holds(cfg, c, a, way) && Holds(cfg, c, w, way')
    requires cfg.Line(cfg.Set(a), way) < cfg.Lines() && cfg.Off(a) < cfg.lineWords
    requires d.data == SetWord(c.data, cfg.Line(cfg.Set(a), way), cfg.Off(a), x)
    ensures WordIn(cfg, d, w, way') == WordIn(cfg, c, w, way')
  {
    AddressFields(cfg, a);
    AddressFields(cfg, w);
    LineFields(cfg, cfg.Set(a), way);
    LineFields(cfg, cfg.Set(w), way');
    if cfg.Line(cfg.Set(w), way') == cfg.Line(cfg.Set(a), way) && cfg.Off(w) == cfg.Off(a) {
      SameFieldsSameWord(cfg, a, w);
    }
  }

  /** The write-hit commit, seen from any word. */
  lemma StoreHitView(cfg: Config, s: Sys, u: Sys, a: nat, way: nat, x: Word, w: nat)
    requires Shape(cfg, s.c) && Shape(cfg, u.c) && UniqueTags(cfg, s.c) && UniqueTags(cfg, u.c)
    requires s.c.state == Idle && u.c.state == Idle && |s.mem| == cfg.MemWords()
    requires a < cfg.MemWords() && w < cfg.MemWords() && Holds(cfg, s.c, a, way)
    requires u.c.valid == s.c.valid && u.c.tag == s.c.tag && u.mem == s.mem
    requires cfg.Line(cfg.Set(a), way) < cfg.Lines() && cfg.Off(a) < cfg.lineWords
    requires u.c.data == SetWord(s.c.data, cfg.Line(cfg.Set(a), way), cfg.Off(a), x)
    ensures View(cfg, u, w) == if w == a then x else View(cfg, s, w)
  {
    SameTags(cfg, s.c, u.c);
    assert forall v, k: nat :: 0 <= v < cfg.MemWords() ==> (Holds(cfg, s.c, v, k) <==> Holds(cfg, u.c, v, k)) by {
      hide Shape, WayHit, UniqueTags;
    }
    if w == a {
      hide Shape, Holds, UniqueTags;
      ViewHeld(cfg, u, a, way);
    } else {
      forall k: nat | Holds(cfg, u.c, w, k)
        ensures WordIn(cfg, u.c, w, k) == View(cfg, s, w)
      {
        OtherWord(cfg, s.c, u.c, a, way, x, w, k);
        hide Shape, Holds, UniqueTags, WordIn;
        ViewHeld(cfg, s, w, k);
      }
      hide Shape, Holds, UniqueTags, WordIn;
      ViewIs(cfg, u, w, View(cfg, s, w));
    }
  }

  lemma StoreHitClean(cfg: Config, s: Sys, u: Sys, line: nat)
    requires Shape(cfg, s.c) && Shape(cfg, u.c) && |s.mem| == cfg.MemWords() && CleanSynced(cfg, s)
    requires s.c.state == Idle && u.c.state == Idle && u.mem == s.mem && line < cfg.Lines()
    requires u.c.valid == s.c.valid && u.c.tag == s.c.tag && u.c.dirty == s.c.dirty[line := true]
    requires forall l :: 0 <= l < cfg.Lines() && l != line ==> u.c.data[l] == s.c.data[l]
    ensures CleanSynced(cfg, u)
  {
    forall l | 0 <= l < cfg.Lines() && u.c.valid[l] && !u.c.dirty[l]
      ensures Synced(cfg, u, l, cfg.lineWords)
    {
      assert Synced(cfg, s, l, cfg.lineWords);
    }
  }

  lemma StoreHitKeeps(cfg: Config, s: Sys, r: Request, u: Sys)
    requires Inv(cfg, s) && s.c.state == Idle && !s.c.flushDone
    requires ValidRequest(cfg, r) && r.Store? && HitsAt(cfg, s.c, r.addr / 4)
    requires u == Sys(StepHit(cfg, s.c, r), s.mem, None)
    ensures Inv(cfg, u)
    ensures forall w :: 0 <= w < cfg.MemWords() ==>
              View(cfg, u, w) == if w == r.addr / 4 then MergeWrite(View(cfg, s, w), r.funct3, r.addr % 4, r.wdata)
                                 else View(cfg, s, w)
  {
    var a := r.addr / 4;
    var way := HitWay(cfg, s.c, a);
    LineFields(cfg, cfg.Set(a), way);
    assert Shape(cfg, u.c);
    SameTags(cfg, s.c, u.c);
    StoreHitClean(cfg, s, u, HitLine(cfg, s.c, a));
    assert Holds(cfg, s.c, a, way);
    ViewHeld(cfg, s, a, way);
    var x := MergeWrite(View(cfg, s, a), r.funct3, r.addr % 4, r.wdata);
    assert u.c.data == SetWord(s.c.data, cfg.Line(cfg.Set(a), way), cfg.Off(a), x);
    hide Shape, UniqueTags, View, CleanSynced, Holds, WordIn, MergeWrite, HitDataAcc, WayHit;
    forall w | 0 <= w < cfg.MemWords()
      ensures View(cfg, u, w) == if w == a then x else View(cfg, s, w)
    {
      StoreHitView(cfg, s, u, a, way, x, w);
    }
  }

  lemma StoreHitArm(cfg: Config, s: Sys, e: Env)
    requires Inv(cfg, s) && Legal(cfg, s, e) && s.c.state == Idle && !s.c.flushDone
    requires e.req.Some? && e.req.value.Store? && HitsAt(cfg, s.c, e.req.value.addr / 4)
    ensures Refines(cfg, s, e, ArmNext(cfg, s, e))
  {
    var u := ArmNext(cfg, s, e);
    var r := e.req.value;
    assert Answer(cfg, s, e).ready by { hide Shape, UniqueTags, HitsAt, CleanSynced; }
    assert u == Sys(StepHit(cfg, s.c, r), s.mem, None) by { hide Shape, UniqueTags, Respond, StepHit, CleanSynced; }
    StoreHitKeeps(cfg, s, r, u);
    hide Shape, Inv, View, ArmNext, Respond, HitsAt, UniqueTags, MergeWrite;
  }

  /** A miss with a clean or empty victim goes straight to the fill. */
  lemma MissToFill(cfg: Config, s: Sys, r: Request, u: Sys)
    requires Inv(cfg, s) && s.c.state == Idle && !s.c.flushDone
    requires ValidRequest(cfg, r) && !HitsAt(cfg, s.c, r.addr / 4)
    requires u == Sys(StepMiss(cfg, s.c, r), s.mem, Some(r)) && u.c.state == Fill
    ensures Inv(cfg, u) && forall w :: 0 <= w < cfg.MemWords() ==> View(cfg, u, w) == View(cfg, s, w)
  {
    var w0 := r.addr / 4;
    AddressFields(cfg, w0);
    VictimInRange(cfg, s.c, cfg.Set(w0));
    LineInRange(cfg, cfg.Set(w0), VictimWay(cfg, s.c, cfg.Set(w0)));
    assert Shape(cfg, u.c);
    SameTags(cfg, s.c, u.c);
    var line := FillLine(cfg, u.c);
    assert s.c.valid[line] ==> Synced(cfg, s, line, cfg.lineWords);
    assert Synced(cfg, s, line, cfg.lineWords) ==> Synced(cfg, u, line, cfg.lineWords);
    assert EntersFill(cfg, s, u);
    assert CleanSynced(cfg, u) by {
      forall l | 0 <= l < cfg.Lines() && l != line && u.c.valid[l] && !u.c.dirty[l]
        ensures Synced(cfg, u, l, cfg.lineWords)
      {
        assert Synced(cfg, s, l, cfg.lineWords);
      }
      EnterFillClean(cfg, s, u);
    }
    MissRecorded(cfg, s, r, u);
    hide Shape, UniqueTags, View, EntersFill, CleanSynced, MissPending, Holds, StepMiss;
    forall w | 0 <= w < cfg.MemWords()
      ensures View(cfg, u, w) == View(cfg, s, w)
    {
      EnterFillView(cfg, s, u, w);
    }
  }

  lemma MissRecorded(cfg: Config, s: Sys, r: Request, u: Sys)
    requires Inv(cfg, s) && s.c.state == Idle && ValidRequest(cfg, r) && !HitsAt(cfg, s.c, r.addr / 4)
    requires u == Sys(StepMiss(cfg, s.c, r), s.mem, Some(r)) && Shape(cfg, u.c)
    ensures MissPending(cfg, u) && BaseFits(cfg, u.c)
  {
    AddressFields(cfg, r.addr / 4);
    SameTags(cfg, s.c, u.c);
    hide Shape, WayHit, UniqueTags, CleanSynced, VictimWay;
    MissBaseFits(cfg, u);
  }

  lemma MissToWb(cfg: Config, s: Sys, r: Request, u: Sys)
    requires Inv(cfg, s) && s.c.state == Idle && !s.c.flushDone
    requires ValidRequest(cfg, r) && !HitsAt(cfg, s.c, r.addr / 4)
    requires u == Sys(StepMiss(cfg, s.c, r), s.mem, Some(r)) && u.c.state == Wb
    ensures Inv(cfg, u) && forall w :: 0 <= w < cfg.MemWords() ==> View(cfg, u, w) == View(cfg, s, w)
  {
    var w0 := r.addr / 4;
    AddressFields(cfg, w0);
    VictimInRange(cfg, s.c, cfg.Set(w0));
    LineFields(cfg, cfg.Set(w0), VictimWay(cfg, s.c, cfg.Set(w0)));
    assert Shape(cfg, u.c);
    SameArrays(cfg, s, u);
    MissRecorded(cfg, s, r, u);
    assert WritingBack(cfg, u);
    hide Shape, UniqueTags, View, CleanSynced, MissPending, WritingBack;
  }

  lemma MissArm(cfg: Config, s: Sys, e: Env)
    requires Inv(cfg, s) && Legal(cfg, s, e) && s.c.state == Idle && !s.c.flushDone
    requires e.req.Some? && !HitsAt(cfg, s.c, e.req.value.addr / 4)
    ensures Refines(cfg, s, e, ArmNext(cfg, s, e))
  {
    var u := ArmNext(cfg, s, e);
    var r := e.req.value;
    assert !Answer(cfg, s, e).ready by { hide Shape, UniqueTags, HitsAt, CleanSynced; }
    assert u == Sys(StepMiss(cfg, s.c, r), s.mem, e.req) by { hide Shape, UniqueTags, Respond, StepMiss, CleanSynced; }
    if u.c.state == Fill {
      MissToFill(cfg, s, r, u);
    } else {
      MissToWb(cfg, s, r, u);
    }
    hide Shape, Inv, View, ArmNext, Respond, HitsAt, UniqueTags;
    Unanswered(cfg, s, e, u);
  }

  // ---- S_FILL ----

  /** The fill line with one more word in place. */
  lemma FillBeatData(cfg: Config, s: Sys)
    requires Inv(cfg, s) && s.c.state == Fill
    ensures FillLine(cfg, s.c) < cfg.Lines() && BusAddr(s.c) < |s.mem|
    ensures var d := SetWord(s.c.data, FillLine(cfg, s.c), s.c.fillWord,
                             FillValue(s.c.mshr, s.c.fillWord, s.mem[BusAddr(s.c)]));
            |d| == cfg.Lines() &&
            (forall l :: 0 <= l < cfg.Lines() ==> |d[l]| == cfg.lineWords) &&
            (forall l :: 0 <= l < cfg.Lines() && l != FillLine(cfg, s.c) ==> d[l] == s.c.data[l]) &&
            (forall k :: 0 <= k <= s.c.fillWord ==>
               d[FillLine(cfg, s.c)][k] == FillValue(s.c.mshr, k, s.mem[s.c.mshr.base + k]))
  {
    hide UniqueTags, CleanSynced, Hit, FillValue;
  }

  lemma FillMidBeat(cfg: Config, s: Sys, u: Sys)
    requires Inv(cfg, s) && s.c.state == Fill && !LastWord(cfg, s.c)
    requires FillLine(cfg, s.c) < cfg.Lines() && BusAddr(s.c) < |s.mem|
    requires u == Sys(s.c.(data := SetWord(s.c.data, FillLine(cfg, s.c), s.c.fillWord,
                                           FillValue(s.c.mshr, s.c.fillWord, s.mem[BusAddr(s.c)])),
                           fillWord := s.c.fillWord + 1), s.mem, s.held)
    ensures Inv(cfg, u) && forall w :: 0 <= w < cfg.MemWords() ==> View(cfg, u, w) == View(cfg, s, w)
  {
    FillBeatData(cfg, s);
    assert Shape(cfg, u.c);
    SameTags(cfg, s.c, u.c);
    assert CleanSynced(cfg, u) by {
      forall l | 0 <= l < cfg.Lines() && u.c.valid[l] && !u.c.dirty[l] && l != FillLine(cfg, u.c)
        ensures Synced(cfg, u, l, cfg.lineWords)
      {
        assert Synced(cfg, s, l, cfg.lineWords);
      }
    }
    assert Filled(cfg, u, u.c.fillWord) by { hide FillValue; }
    assert MissPending(cfg, u) by { hide Shape, WayHit, UniqueTags; }
    forall w | 0 <= w < cfg.MemWords()
      ensures View(cfg, u, w) == View(cfg, s, w)
    {
      FillMidView(cfg, s, u, w);
    }
    hide Shape, UniqueTags, View, CleanSynced, MissPending, Filled;
  }

  lemma FillMidView(cfg: Config, s: Sys, u: Sys, w: nat)
    requires Shape(cfg, s.c) && Shape(cfg, u.c) && UniqueTags(cfg, s.c) && |s.mem| == cfg.MemWords() && u.mem == s.mem
    requires s.c.state == Fill && u.c.state == Fill && u.c.mshr == s.c.mshr && w < cfg.MemWords()
    requires u.c.valid == s.c.valid && u.c.tag == s.c.tag
    requires forall l :: 0 <= l < cfg.Lines() && l != FillLine(cfg, s.c) ==> u.c.data[l] == s.c.data[l]
    ensures View(cfg, u, w) == View(cfg, s, w)
  {
    SameTags(cfg, s.c, u.c);
    assert forall way: nat :: Holds(cfg, u.c, w, way) <==> Holds(cfg, s.c, w, way) by {
      hide Shape, WayHit, UniqueTags;
    }
    forall way: nat | Holds(cfg, u.c, w, way)
      ensures WordIn(cfg, u.c, w, way) == View(cfg, s, w)
    {
      AddressFields(cfg, w);
      LineFields(cfg, cfg.Set(w), way);
      ViewHeld(cfg, s, w, way);
    }
    hide Holds, WordIn, Shape, UniqueTags;
    ViewIs(cfg, u, w, View(cfg, s, w));
  }

  /** The registers after the last beat of a fill. */
  ghost predicate Installed(cfg: Config, c: Cache, d: Cache, words: seq<Word>)
    requires Shape(cfg, c) && Shape(cfg, d) && FillLine(cfg, c) < cfg.Lines()
  {
    var line := FillLine(cfg, c);
    d.state == Idle && d.valid == c.valid[line := true] && d.tag == c.tag[line := c.mshr.tag] &&
    d.dirty == c.dirty[line := c.mshr.isWrite] && d.data == c.data[line := words]
  }

  lemma InstalledWays(cfg: Config, c: Cache, d: Cache, words: seq<Word>, st: nat, t: nat, way: nat)
    requires Shape(cfg, c) && Shape(cfg, d) && FillLine(cfg, c) < cfg.Lines() && Installed(cfg, c, d, words)
    requires st < cfg.sets && way < cfg.ways
    ensures cfg.Line(st, way) < cfg.Lines()
    ensures cfg.Line(st, way) == FillLine(cfg, c) <==> st == c.mshr.set_ && way == c.mshr.way
    ensures WayHit(cfg, d, st, t, way)
       <==> if cfg.Line(st, way) == FillLine(cfg, c) then t == c.mshr.tag else WayHit(cfg, c, st, t, way)
  {
    LineFields(cfg, st, way);
    LineFields(cfg, c.mshr.set_, c.mshr.way);
  }

  lemma InstalledUnique(cfg: Config, s: Sys, d: Cache, words: seq<Word>)
    requires Inv(cfg, s) && s.c.state == Fill && Shape(cfg, d) && FillLine(cfg, s.c) < cfg.Lines()
    requires Installed(cfg, s.c, d, words)
    ensures UniqueTags(cfg, d)
  {
    forall st, t, i, j | 0 <= st < cfg.sets && 0 <= i < j < cfg.ways
      ensures !(WayHit(cfg, d, st, t, i) && WayHit(cfg, d, st, t, j))
    {
      InstalledWays(cfg, s.c, d, words, st, t, i);
      InstalledWays(cfg, s.c, d, words, st, t, j);
      hide Shape, WayHit, CleanSynced, Filled, Installed;
      assert MissPending(cfg, s);
    }
  }

  /** The view after installation: the new line's words, otherwise as before. */
  lemma InstalledView(cfg: Config, s: Sys, u: Sys, words: seq<Word>, w: nat)
    requires Inv(cfg, s) && s.c.state == Fill && Shape(cfg, u.c) && UniqueTags(cfg, u.c) && FillLine(cfg, s.c) < cfg.Lines()
    requires Installed(cfg, s.c, u.c, words) && |words| == cfg.lineWords && u.mem == s.mem && w < cfg.MemWords()
    requires forall k :: 0 <= k < cfg.lineWords && s.c.mshr.base + k < |s.mem| ==>
               words[k] == FillValue(s.c.mshr, k, s.mem[s.c.mshr.base + k])
    ensures View(cfg, u, w) == if w == s.held.value.addr / 4
                               then FillValue(s.c.mshr, s.c.mshr.wordOff, View(cfg, s, w)) else View(cfg, s, w)
  {
    AddressFields(cfg, w);
    var m := s.c.mshr;
    AddressFields(cfg, s.held.value.addr / 4);
    if cfg.Set(w) == m.set_ && cfg.Tag(w) == m.tag {
      InstalledWays(cfg, s.c, u.c, words, m.set_, m.tag, m.way);
      assert Holds(cfg, u.c, w, m.way);
      assert WordIn(cfg, u.c, w, m.way) == words[cfg.Off(w)];
      assert View(cfg, s, w) == s.mem[w] by {
        hide Shape, WayHit, UniqueTags, CleanSynced, Filled;
        assert forall way: nat :: !Holds(cfg, s.c, w, way);
      }
      if cfg.Off(w) == m.wordOff {
        SameFieldsSameWord(cfg, w, s.held.value.addr / 4);
      }
      hide Shape, Inv, Holds, WordIn, UniqueTags, Installed;
      ViewHeld(cfg, u, w, m.way);
    } else {
      InstalledElsewhere(cfg, s, u, words, w);
    }
  }

  lemma InstalledElsewhere(cfg: Config, s: Sys, u: Sys, words: seq<Word>, w: nat)
    requires Inv(cfg, s) && s.c.state == Fill && Shape(cfg, u.c) && UniqueTags(cfg, u.c) && FillLine(cfg, s.c) < cfg.Lines()
    requires Installed(cfg, s.c, u.c, words) && u.mem == s.mem && w < cfg.MemWords()
    requires !(cfg.Set(w) == s.c.mshr.set_ && cfg.Tag(w) == s.c.mshr.tag)
    ensures View(cfg, u, w) == View(cfg, s, w)
  {
    AddressFields(cfg, w);
    forall way: nat
      ensures Holds(cfg, u.c, w, way) <==> Holds(cfg, s.c, w, way)
      ensures Holds(cfg, u.c, w, way) ==> WordIn(cfg, u.c, w, way) == WordIn(cfg, s.c, w, way)
    {
      if way < cfg.ways {
        InstalledWays(cfg, s.c, u.c, words, cfg.Set(w), cfg.Tag(w), way);
      }
    }
    forall way: nat | Holds(cfg, u.c, w, way)
      ensures WordIn(cfg, u.c, w, way) == View(cfg, s, w)
    {
      hide Shape, Holds, WordIn, UniqueTags, Installed;
      ViewHeld(cfg, s, w, way);
    }
    hide Shape, Holds, WordIn, UniqueTags, Installed, Inv;
    ViewIs(cfg, u, w, View(cfg, s, w));
  }

  lemma InstalledClean(cfg: Config, s: Sys, u: Sys, words: seq<Word>)
    requires Inv(cfg, s) && s.c.state == Fill && Shape(cfg, u.c) && FillLine(cfg, s.c) < cfg.Lines()
    requires Installed(cfg, s.c, u.c, words) && |words| == cfg.lineWords && u.mem == s.mem
    requires forall k :: 0 <= k < cfg.lineWords && s.c.mshr.base + k < |s.mem| ==>
               words[k] == FillValue(s.c.mshr, k, s.mem[s.c.mshr.base + k])
    ensures CleanSynced(cfg, u)
  {
    var line := FillLine(cfg, s.c);
    LineFields(cfg, s.c.mshr.set_, s.c.mshr.way);
    forall l | 0 <= l < cfg.Lines() && u.c.valid[l] && !u.c.dirty[l]
      ensures Synced(cfg, u, l, cfg.lineWords)
    {
      if l != line {
        assert Synced(cfg, s, l, cfg.lineWords);
      } else {
        assert LineBase(cfg, u.c, l) == s.c.mshr.base;
      }
    }
  }

  /** The last beat installs the line, answers the request and, for a store, commits it. */
  lemma FillLastBeat(cfg: Config, s: Sys, e: Env)
    requires Inv(cfg, s) && Legal(cfg, s, e) && s.c.state == Fill && e.ack && LastWord(cfg, s.c) && !s.c.flushDone
    ensures Refines(cfg, s, e, ArmNext(cfg, s, e))
  {
    var u := ArmNext(cfg, s, e);
    var m, line, r := s.c.mshr, FillLine(cfg, s.c), s.held.value;
    FillBeatData(cfg, s);
    var words := SetWord(s.c.data, line, s.c.fillWord, FillValue(m, s.c.fillWord, s.mem[BusAddr(s.c)]))[line];
    FillLastShape(cfg, s, u, e);
    assert Installed(cfg, s.c, u.c, words);
    InstalledUnique(cfg, s, u.c, words);
    InstalledClean(cfg, s, u, words);
    FillAnswer(cfg, s, e);
    assert Inv(cfg, u) by { hide Shape, UniqueTags, CleanSynced, Installed, FillValue, StepFill; }
    hide Shape, UniqueTags, CleanSynced, Installed, View, Respond, ExtendRead, MergeWrite, Inv, ArmNext;
    forall w | 0 <= w < cfg.MemWords()
      ensures View(cfg, u, w) == After(cfg, s, e, w)
    {
      InstalledView(cfg, s, u, words, w);
    }
  }

  lemma FillLastShape(cfg: Config, s: Sys, u: Sys, e: Env)
    requires Inv(cfg, s) && Legal(cfg, s, e) && s.c.state == Fill && e.ack && LastWord(cfg, s.c) && !s.c.flushDone
    requires u == ArmNext(cfg, s, e)
    ensures Shape(cfg, u.c) && u.mem == s.mem && u.held == None && !u.c.flushDone && !u.c.huPending
    ensures u.c.state == Idle && u.c.mshrCount == 0 && !u.c.flushActive
    ensures u.c == StepFill(cfg, s.c, true, ToInput(s, e).rdata)
  {
    FillBeatData(cfg, s);
    TouchRanks(s.c.age[s.c.mshr.set_], cfg.ways, s.c.mshr.way);
    hide Ranking, Touch, UniqueTags, CleanSynced, Hit, Filled, FillValue;
  }

  /** The answered request is the held one, and a load gets its own word of the line. */
  lemma FillAnswer(cfg: Config, s: Sys, e: Env)
    requires Inv(cfg, s) && Legal(cfg, s, e) && s.c.state == Fill && e.ack && LastWord(cfg, s.c)
    ensures e.req == s.held && Answer(cfg, s, e).ready && LoadCorrect(cfg, s, e)
    ensures s.held.value.Store? ==>
      s.c.mshr.isWrite && s.c.mshr.funct3 == s.held.value.funct3 &&
      s.c.mshr.byteOff == s.held.value.addr % 4 && s.c.mshr.wdata == s.held.value.wdata
    ensures s.held.value.Load? ==> !s.c.mshr.isWrite
  {
    var m, r := s.c.mshr, s.held.value;
    var w := r.addr / 4;
    FillBeatData(cfg, s);
    AddressFields(cfg, w);
    assert View(cfg, s, w) == s.mem[w] by {
      hide Shape, WayHit, UniqueTags, CleanSynced, Filled;
      assert forall way: nat :: !Holds(cfg, s.c, w, way);
    }
    hide UniqueTags, CleanSynced, Hit, ExtendRead, View;
  }

  lemma FillArm(cfg: Config, s: Sys, e: Env)
    requires Inv(cfg, s) && Legal(cfg, s, e) && s.c.state == Fill && !s.c.flushDone
    ensures Refines(cfg, s, e, ArmNext(cfg, s, e))
  {
    if e.ack && LastWord(cfg, s.c) {
      FillLastBeat(cfg, s, e);
    } else {
      var u := ArmNext(cfg, s, e);
      assert e.req == s.held && !Answer(cfg, s, e).ready by { hide Shape, UniqueTags, CleanSynced, Hit, Filled; }
      FillBeatData(cfg, s);
      if e.ack {
        FillMidBeat(cfg, s, u);
      } else {
        assert u == s;
      }
      hide Shape, Inv, View, ArmNext, Respond;
      Unanswered(cfg, s, e, u);
    }
  }

  // ---- every edge ----

  /** The state case of an edge, past the leading updates. */
  lemma ArmRefines(cfg: Config, t: Sys, e: Env)
    requires Inv(cfg, t) && Legal(cfg, t, e) && !t.c.flushDone
    ensures Refines(cfg, t, e, ArmNext(cfg, t, e))
  {
    hide ArmNext, HitsAt, Refines, Inv, Legal;
    assert Shape(cfg, t.c) by { InvShape(cfg, t); }
    match t.c.state {
      case Idle => IdleArm(cfg, t, e);
      case HitRd => HitRdArm(cfg, t, e);
      case Wb => WbArm(cfg, t, e);
      case Fill => FillArm(cfg, t, e);
      case FlushScan => FlushScanArm(cfg, t, e);
    }
  }

  lemma IdleArm(cfg: Config, t: Sys, e: Env)
    requires Inv(cfg, t) && Legal(cfg, t, e) && !t.c.flushDone && t.c.state == Idle
    ensures Refines(cfg, t, e, ArmNext(cfg, t, e))
  {
    hide ArmNext, HitsAt, Refines, CleanSynced, UniqueTags, Ranking, Aligned;
    if e.req.None? {
      IdleQuietArm(cfg, t, e);
    } else if !HitsAt(cfg, t.c, e.req.value.addr / 4) {
      MissArm(cfg, t, e);
    } else if e.req.value.Load? {
      LoadHitArm(cfg, t, e);
    } else {
      StoreHitArm(cfg, t, e);
    }
  }

  lemma InvShape(cfg: Config, s: Sys)
    requires Inv(cfg, s)
    ensures cfg.WellFormed() && Shape(cfg, s.c) && UniqueTags(cfg, s.c) && |s.mem| == cfg.MemWords()
  {
    hide Ranking, UniqueTags;
  }

  /** The step theorem: from every reachable state, under every legal environment. */
  lemma StepRefines(cfg: Config, s: Sys, e: Env)
    requires Inv(cfg, s) && Legal(cfg, s, e)
    ensures Refines(cfg, s, e, Next(cfg, s, e))
  {
    hide Prepared, Next, ArmNext, HitsAt, Shape, Inv, View, Respond, ExtendRead, MergeWrite;
    InvShape(cfg, s);
    PreparedKeeps(cfg, s, e);
    InvShape(cfg, Prepared(cfg, s, e));
    ArmRefines(cfg, Prepared(cfg, s, e), e);
  }
}
