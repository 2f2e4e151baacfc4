/**
  The data cache as the clocked unit it is: register arrays updated in place, one edge at a time,
  with the way comparison and the recency update as loops.  Every edge is the transition of
  `DataCache.Step`, so the refinement, flush and replacement theorems hold of this unit.
 */
module DataCacheUnit {
  import opened Wrappers
  import opened Arithmetic
  import opened DataCache
  import opened CacheRefinement
  import opened CacheRuns
  import opened CacheFlush

  class DCache {
    const cfg: Config
    const valid: array<bool>
    const dirty: array<bool>
    const tag: array<nat>
    const data: array<seq<Word>>
    const victim: array<nat>
    const age: array<seq<nat>>
    var state: State
    var hitLine: nat
    var hitWord: nat
    var hitF3: nat
    var hitOff: nat
    var servedAddr: nat
    var mshr: Mshr
    var mshrCount: nat
    var huPending: bool
    var huData: Word
    var fillWord: nat
    var wbLine: nat
    var wbBase: nat
    var wbToFlush: bool
    var flushScan: nat
    var flushActive: bool
    var flushDone: bool

    /** The register values. */
    function Snapshot(): Cache
      reads this, valid, dirty, tag, data, victim, age
    {
      Cache(state, valid[..], dirty[..], tag[..], data[..], victim[..], age[..],
            hitLine, hitWord, hitF3, hitOff, servedAddr, mshr, mshrCount, huPending, huData,
            fillWord, wbLine, wbBase, wbToFlush, flushScan, flushActive, flushDone)
    }

    /** Arrays of one element type are distinct objects. */
    ghost predicate Separate() {
      valid != dirty && tag != victim
    }

    ghost predicate Valid()
      reads this, valid, dirty, tag, data, victim, age
    {
      Separate() && Shape(cfg, Snapshot()) && UniqueTags(cfg, Snapshot())
    }

    /** The registers before reset: of their sizes, with whatever they hold; zero here. */
    constructor (cfg: Config)
      requires cfg.WellFormed()
      ensures this.cfg == cfg && Separate() && Widths(cfg, Snapshot())
      ensures valid.Length == dirty.Length == cfg.Lines() && victim.Length == age.Length == cfg.sets
      ensures fresh(valid) && fresh(dirty) && fresh(tag) && fresh(data) && fresh(victim) && fresh(age)
    {
      this.cfg := cfg;
      var lines := cfg.Lines();
      valid, dirty := new bool[lines](_ => false), new bool[lines](_ => false);
      tag, victim := new nat[lines](_ => 0), new nat[cfg.sets](_ => 0);
      data := new seq<Word>[lines](_ => seq(cfg.lineWords, _ => ZERO_WORD));
      age := new seq<nat>[cfg.sets](_ => []);
      state, hitLine, hitWord, hitF3, hitOff, servedAddr := Idle, 0, 0, 0, 0, 0;
      mshr, mshrCount, huPending, huData := Mshr(0, 0, 0, 0, 0, 0, 0, 0, false, ZERO_WORD), 0, false, ZERO_WORD;
      fillWord, wbLine, wbBase, wbToFlush, flushScan, flushActive, flushDone := 0, 0, 0, false, 0, false, false;
      new;
      LinesPositive(cfg);
    }

    /** The reset edge. */
    method ResetEdge()
      requires Separate() && Widths(cfg, Snapshot())
      requires valid.Length == dirty.Length == cfg.Lines() && victim.Length == age.Length == cfg.sets
      modifies this, valid, dirty, victim, age
      ensures Snapshot() == Reset(cfg, old(Snapshot())) && Valid()
    {
      ghost var was := Snapshot();
      ResetFits(cfg, was);
      hide Widths, Shape, UniqueTags;
      ClearLines();
      ClearSets();
      hide Snapshot;
      ClearControl();
    }

    method ClearLines()
      requires Separate() && valid.Length == dirty.Length == cfg.Lines()
      modifies valid, dirty
      ensures Snapshot() == old(Snapshot()).(valid := seq(cfg.Lines(), _ => false), dirty := seq(cfg.Lines(), _ => false))
    {
      forall l | 0 <= l < valid.Length {
        valid[l] := false;
      }
      forall l | 0 <= l < dirty.Length {
        dirty[l] := false;
      }
      assert valid[..] == seq(cfg.Lines(), _ => false) && dirty[..] == seq(cfg.Lines(), _ => false);
    }

    method ClearSets()
      requires Separate() && victim.Length == age.Length == cfg.sets
      modifies victim, age
      ensures Snapshot() == old(Snapshot()).(victim := seq(cfg.sets, _ => 0), age := seq(cfg.sets, _ => seq(cfg.ways, j => j)))
    {
      forall k | 0 <= k < victim.Length {
        victim[k] := 0;
      }
      forall k | 0 <= k < age.Length {
        age[k] := seq(cfg.ways, j => j);
      }
      assert victim[..] == seq(cfg.sets, _ => 0) && age[..] == seq(cfg.sets, _ => seq(cfg.ways, j => j));
    }

    method ClearControl()
      modifies this`state, this`mshrCount, this`huPending, this`flushActive, this`flushDone
      ensures Snapshot() == old(Snapshot()).(state := Idle, mshrCount := 0, huPending := false,
                                             flushActive := false, flushDone := false)
    {
      ClearRequest();
      ClearFlush();
    }

    method ClearRequest()
      modifies this`state, this`mshrCount, this`huPending
      ensures Snapshot() == old(Snapshot()).(state := Idle, mshrCount := 0, huPending := false)
    {
      state, mshrCount, huPending := Idle, 0, false;
    }

    method ClearFlush()
      modifies this`flushActive, this`flushDone
      ensures Snapshot() == old(Snapshot()).(flushActive := false, flushDone := false)
    {
      flushActive, flushDone := false, false;
    }

    /** The N-way compare: or-accumulated hit data and line index. */
    method CompareWays(set_: nat, t: nat, off: nat) returns (hit: bool, line: nat, word: Word)
      requires Valid() && set_ < cfg.sets && off < cfg.lineWords
      ensures hit == Hit(cfg, Snapshot(), set_, t)
      ensures line == HitLineAcc(cfg, Snapshot(), set_, t, cfg.ways)
      ensures word == HitDataAcc(cfg, Snapshot(), set_, t, off, cfg.ways)
    {
      hit, line, word := false, 0, ZERO_WORD;
      var way := 0;
      while way < cfg.ways
        invariant 0 <= way <= cfg.ways
        invariant hit <==> exists k :: 0 <= k < way && WayHit(cfg, Snapshot(), set_, t, k)
        invariant line == HitLineAcc(cfg, Snapshot(), set_, t, way)
        invariant word == HitDataAcc(cfg, Snapshot(), set_, t, off, way)
      {
        LineInRange(cfg, set_, way);
        var l := cfg.Line(set_, way);
        var h := valid[l] && tag[l] == t;
        assert h == WayHit(cfg, Snapshot(), set_, t, way);
        word := OrWord(word, if h then data[l][off] else ZERO_WORD);
        line := BitOr(line, if h then l else 0);
        hit := hit || h;
        way := way + 1;
      }
    }

    /** The displaced way: the oldest rank under LRU, the set's pointer otherwise. */
    method ChooseVictim(set_: nat) returns (way: nat)
      requires Valid() && set_ < cfg.sets
      ensures way == VictimWay(cfg, Snapshot(), set_)
    {
      if !cfg.lru {
        return victim[set_];
      }
      way := 0;
      for k := 0 to cfg.ways
        invariant way == LruAcc(cfg, Snapshot(), set_, k)
      {
        assert |age[set_]| == cfg.ways by { assert Ranking(age[..][set_], cfg.ways); }
        way := BitOr(way, if age[set_][k] == cfg.ways - 1 then k else 0);
      }
    }

    /** lru_touch on the set and way of one line. */
    method TouchRow(l: nat)
      requires RowExists(Snapshot().age, cfg.ways, l)
      modifies age
      ensures Snapshot() == old(Snapshot()).(age := TouchRows(old(Snapshot()).age, cfg.ways, l))
    {
      var set_, way := l / cfg.ways, l % cfg.ways;
      var row := age[set_];
      var next: seq<nat> := [];
      for k := 0 to |row|
        invariant |next| == k
        invariant forall j :: 0 <= j < k ==> next[j] == Touch(row, way)[j]
      {
        next := next + [if k == way then 0 else if row[k] < row[way] then row[k] + 1 else row[k]];
      }
      assert next == Touch(row, way);
      age[set_] := next;
    }

    /** The compare for the current request, if there is one. */
    method LookUp(i: Input) returns (hit: bool, line: nat, word: Word)
      requires Valid() && ValidInput(cfg, i)
      ensures hit == HitsNow(cfg, Snapshot(), i)
      ensures hit ==> line == HitLine(cfg, Snapshot(), i.req.value.addr / 4) && line < cfg.Lines()
      ensures hit ==> word == HitWord(cfg, Snapshot(), i.req.value.addr / 4)
    {
      hit, line, word := false, 0, ZERO_WORD;
      if i.req.Some? {
        var w := i.req.value.addr / 4;
        AddressFields(cfg, w);
        hit, line, word := CompareWays(cfg.Set(w), cfg.Tag(w), cfg.Off(w));
      }
    }

    /** Pulse defaults and hit-under-miss capture. */
    method Pulse(busyHit: bool, busyData: Word)
      modifies this`flushDone, this`huPending, this`huData
      ensures Snapshot() == old(Snapshot()).(flushDone := false, huPending := busyHit, huData := if busyHit then busyData else old(Snapshot()).huData)
    {
      flushDone, huPending := false, busyHit;
      if busyHit {
        huData := busyData;
      }
    }

    /** The updates ahead of the case split, from a completed way comparison. */
    method Begin(i: Input, hit: bool, line: nat, word: Word)
      requires Valid() && ValidInput(cfg, i) && hit == HitsNow(cfg, Snapshot(), i)
      requires hit ==> line == HitLine(cfg, Snapshot(), i.req.value.addr / 4)
      requires hit ==> word == HitWord(cfg, Snapshot(), i.req.value.addr / 4)
      modifies this`flushDone, this`huPending, this`huData, age
      ensures Snapshot() == Prologue(cfg, old(Snapshot()), i)
    {
      hide Shape, UniqueTags, HitsNow, HitLine, HitWord, Prologue, Touch, TouchRows, RowExists, ExtendRead;
      var busyHit := (state == Wb || state == Fill) && IsLoad(i) && hit;
      var busyData := if busyHit then ExtendRead(word, i.req.value.funct3, i.req.value.addr % 4) else ZERO_WORD;
      var touch := cfg.lru && ((state == Idle && IsStore(i) && hit) || (state == HitRd && IsLoad(i) && i.req.value.addr == servedAddr));
      var l := if state == Idle then line else hitLine;
      PrologueIs(cfg, Snapshot(), i, hit, line, word);
      Pulse(busyHit, busyData);
      if touch {
        TouchRow(l);
      }
    }

    /** A hit in S_IDLE: a store merges into its line, a load latches where to read. */
    method ServeHit(r: Request, line: nat, word: Word)
      requires Valid() && ValidRequest(cfg, r) && HitsAt(cfg, Snapshot(), r.addr / 4)
      requires line == HitLine(cfg, Snapshot(), r.addr / 4) && word == HitWord(cfg, Snapshot(), r.addr / 4)
      modifies this, data, dirty
      ensures Snapshot() == StepHit(cfg, old(Snapshot()), r)
    {
      hide Shape, UniqueTags, HitsAt, HitWord, MergeWrite, HitLine;
      LineShape(cfg, Snapshot(), line);
      AddressFields(cfg, r.addr / 4);
      hide Config.Off, Config.MemWords, Config.Lines, Config.Set, Config.Tag, Config.Base;
      var off := cfg.Off(r.addr / 4);
      hide Snapshot, SetWord;
      if r.Store? {
        WriteWord(line, off, MergeWrite(word, r.funct3, r.addr % 4, r.wdata));
        MarkDirty(line);
      } else {
        LatchHit(line, off, r.funct3, r.addr);
      }
    }

    method WriteWord(line: nat, off: nat, word: Word)
      requires line < |Snapshot().data| && off < |Snapshot().data[line]|
      modifies data
      ensures Snapshot() == old(Snapshot()).(data := SetWord(old(Snapshot()).data, line, off, word))
    {
      data[line] := data[line][off := word];
    }

    method MarkDirty(line: nat)
      requires line < |Snapshot().dirty| && Separate()
      modifies dirty
      ensures Snapshot() == old(Snapshot()).(dirty := old(Snapshot()).dirty[line := true])
    {
      dirty[line] := true;
    }

    method LatchHit(line: nat, off: nat, funct3: nat, addr: nat)
      modifies this
      ensures Snapshot() == old(Snapshot()).(hitLine := line, hitWord := off, hitF3 := funct3, hitOff := addr % 4,
                                             state := HitRd, servedAddr := addr)
    {
      hide Snapshot;
      LatchPlace(line, off);
      LatchRequest(funct3, addr);
      Go(HitRd);
    }

    method LatchPlace(line: nat, off: nat)
      modifies this`hitLine, this`hitWord
      ensures Snapshot() == old(Snapshot()).(hitLine := line, hitWord := off)
    {
      hitLine, hitWord := line, off;
    }

    method LatchRequest(funct3: nat, addr: nat)
      modifies this`hitF3, this`hitOff, this`servedAddr
      ensures Snapshot() == old(Snapshot()).(hitF3 := funct3, hitOff := addr % 4, servedAddr := addr)
    {
      hitF3, hitOff, servedAddr := funct3, addr % 4, addr;
    }

    method Go(next: State)
      modifies this`state
      ensures Snapshot() == old(Snapshot()).(state := next)
    {
      state := next;
    }

    /** Point the writeback at a line. */
    method AimWriteback(line: nat, base: nat, toFlush: bool)
      modifies this`wbLine, this`wbBase, this`wbToFlush
      ensures Snapshot() == old(Snapshot()).(wbLine := line, wbBase := base, wbToFlush := toFlush)
    {
      wbLine, wbBase, wbToFlush := line, base, toFlush;
    }

    method RestartBeats()
      modifies this`fillWord
      ensures Snapshot() == old(Snapshot()).(fillWord := 0)
    {
      fillWord := 0;
    }

    /** A miss in S_IDLE: fill the miss entry, then write the displaced line back or fetch. */
    method AllocateMiss(r: Request)
      requires Valid() && ValidRequest(cfg, r)
      modifies this
      ensures Snapshot() == StepMiss(cfg, old(Snapshot()), r)
    {
      hide Shape, UniqueTags, ValidRequest, MissEntry, Displaced, VictimWay;
      MissPlace(cfg, Snapshot(), r);
      var set_ := cfg.Set(r.addr / 4);
      var way := ChooseVictim(set_);
      hide Snapshot;
      Allocate(MissEntry(cfg, r, way));
      Displace(cfg.Line(set_, way), set_);
    }

    method Allocate(m: Mshr)
      modifies this
      ensures Snapshot() == old(Snapshot()).(mshr := m, mshrCount := old(Snapshot()).mshrCount + 1, fillWord := 0)
    {
      mshr, mshrCount, fillWord := m, mshrCount + 1, 0;
    }

    /** Write a dirty displaced line back before the fill. */
    method Displace(line: nat, set_: nat)
      requires line < |Snapshot().valid| && line < |Snapshot().dirty| && line < |Snapshot().tag|
      modifies this
      ensures Snapshot() == Displaced(cfg, old(Snapshot()), line, set_)
    {
      hide Config.Base, Snapshot;
      var c := Snapshot();
      if c.valid[line] && c.dirty[line] {
        AimWriteback(line, cfg.Base(c.tag[line], set_), false);
        Go(Wb);
      } else {
        Go(Fill);
      }
    }

    /** Next line of the flush scan, or the end of the flush. */
    method NextScan()
      modifies this
      ensures Snapshot() == AdvanceScan(cfg, old(Snapshot()))
    {
      if flushScan + 1 == cfg.Lines() {
        flushActive, flushDone, state := false, true, Idle;
      } else {
        flushScan, state := flushScan + 1, FlushScan;
      }
    }

    /** S_WB. */
    method WritebackEdge(ack: bool)
      requires Valid()
      modifies this, dirty
      ensures Snapshot() == StepWb(cfg, old(Snapshot()), ack)
    {
      hide Ranking, UniqueTags, AdvanceScan;
      if ack && fillWord == cfg.lineWords - 1 {
        dirty[wbLine] := false;
        if wbToFlush {
          NextScan();
        } else {
          fillWord, state := 0, Fill;
        }
      } else if ack {
        fillWord := fillWord + 1;
      }
    }

    /** S_FILL. */
    method FillEdge(ack: bool, rdata: Word)
      requires Valid() && Snapshot().state == Fill
      modifies this, data, valid, tag, dirty, victim, age
      ensures Snapshot() == StepFill(cfg, old(Snapshot()), ack, rdata)
    {
      hide Snapshot, Shape, UniqueTags, FillValue, Touch, SetWord;
      if !ack {
        return;
      }
      var c := Snapshot();
      var line := FillLine(cfg, c);
      FillPlace(cfg, c);
      hide FillLine;
      WriteWord(line, c.fillWord, FillValue(c.mshr, c.fillWord, rdata));
      if !LastWord(cfg, c) {
        NextBeat();
      } else {
        hide LastWord, TouchRows, RowExists;
        Install(line);
        Release(c.mshr.set_, c.mshr.way);
        if cfg.lru {
          TouchRow(line);
        }
      }
    }

    method NextBeat()
      modifies this
      ensures Snapshot() == old(Snapshot()).(fillWord := old(Snapshot()).fillWord + 1)
    {
      fillWord := fillWord + 1;
    }

    /** The last beat: the line becomes the missing one. */
    method Install(line: nat)
      requires Separate() && line < |Snapshot().valid| && line < |Snapshot().dirty| && line < |Snapshot().tag|
      modifies valid, tag, dirty
      ensures var c := old(Snapshot());
              Snapshot() == c.(valid := c.valid[line := true], tag := c.tag[line := c.mshr.tag],
                               dirty := c.dirty[line := c.mshr.isWrite])
    {
      valid[line], tag[line], dirty[line] := true, mshr.tag, mshr.isWrite;
    }

    /** The last beat: the set's pointer moves on and the miss entry is released. */
    method Release(set_: nat, way: nat)
      requires Separate() && set_ < |Snapshot().victim|
      modifies this`state, this`mshrCount, victim
      ensures var c := old(Snapshot());
              Snapshot() == c.(victim := c.victim[set_ := if way + 1 == cfg.ways then 0 else way + 1],
                               mshrCount := if c.mshrCount > 0 then c.mshrCount - 1 else 0,
                               state := if c.mshrCount <= 1 then Idle else c.state)
    {
      AdvanceVictim(set_, way);
      hide Separate;
      if mshrCount <= 1 {
        state := Idle;
      }
      mshrCount := if mshrCount > 0 then mshrCount - 1 else 0;
    }

    method AdvanceVictim(set_: nat, way: nat)
      requires Separate() && set_ < |Snapshot().victim|
      modifies victim
      ensures var c := old(Snapshot());
              Snapshot() == c.(victim := c.victim[set_ := if way + 1 == cfg.ways then 0 else way + 1])
    {
      victim[set_] := if way + 1 == cfg.ways then 0 else way + 1;
    }

    /** S_FLUSH_SCAN. */
    method ScanEdge()
      requires Valid()
      modifies this
      ensures Snapshot() == StepFlush(cfg, old(Snapshot()))
    {
      hide Snapshot, Shape, UniqueTags, AdvanceScan, Config.Lines, Config.Base;
      var c := Snapshot();
      LineShape(cfg, c, c.flushScan);
      if c.valid[c.flushScan] && c.dirty[c.flushScan] {
        AimWriteback(c.flushScan, cfg.Base(c.tag[c.flushScan], c.flushScan / cfg.ways), true);
        RestartBeats();
        Go(Wb);
      } else {
        NextScan();
      }
    }

    /** S_IDLE: a flush first, then the request. */
    method IdleEdge(i: Input, hit: bool, line: nat, word: Word)
      requires Valid() && ValidInput(cfg, i) && hit == HitsNow(cfg, Snapshot(), i)
      requires hit ==> line == HitLine(cfg, Snapshot(), i.req.value.addr / 4)
      requires hit ==> word == HitWord(cfg, Snapshot(), i.req.value.addr / 4)
      modifies this, data, dirty
      ensures Snapshot() == StepIdle(cfg, old(Snapshot()), i)
    {
      hide Shape, UniqueTags, StepHit, StepMiss, HitLine, HitWord, HitsAt;
      if i.flush && !flushActive {
        flushActive, flushScan, state := true, 0, FlushScan;
      } else if i.req.Some? {
        if hit {
          ServeHit(i.req.value, line, word);
        } else {
          AllocateMiss(i.req.value);
        }
      }
    }

    /** One clock edge is one transition of the register values. */
    method Clock(i: Input)
      requires Valid() && ValidInput(cfg, i)
      modifies this, valid, dirty, tag, data, victim, age
      ensures Snapshot() == Step(cfg, old(Snapshot()), i)
    {
      hide Snapshot, Shape, UniqueTags, HitsNow, HitLine, HitWord, Prologue, StepIdle, StepWb, StepFill, StepFlush;
      var c := Snapshot();
      var hit, line, word := LookUp(i);
      PrologueShape(cfg, c, i);
      PrologueHit(cfg, c, i);
      Begin(i, hit, line, word);
      match c.state {
        case Idle => IdleEdge(i, hit, line, word);
        case HitRd => Go(Idle);
        case Wb => WritebackEdge(i.ack);
        case Fill => FillEdge(i.ack, i.rdata);
        case FlushScan => ScanEdge();
      }
    }

    /** In a system that keeps the invariant, every legal cycle leaves the unit fit for the next. */
    method Cycle(ghost s: Sys, e: Env, rdata: Word)
      requires Valid() && Inv(cfg, s) && Legal(cfg, s, e) && s.c == Snapshot()
      requires rdata == ToInput(s, e).rdata
      modifies this, valid, dirty, tag, data, victim, age
      ensures Snapshot() == Next(cfg, s, e).c
      ensures Valid() && Inv(cfg, Next(cfg, s, e))
    {
      hide Shape, UniqueTags, Inv, Step;
      StepRefines(cfg, s, e);
      InvValid(cfg, s);
      InvValid(cfg, Next(cfg, s, e));
      Clock(Input(e.req, e.flush, e.ack, rdata));
    }
  }

  lemma InvValid(cfg: Config, s: Sys)
    requires Inv(cfg, s)
    ensures Shape(cfg, s.c) && UniqueTags(cfg, s.c)
  {
    hide Shape, UniqueTags;
  }

  lemma LinesPositive(cfg: Config)
    requires cfg.WellFormed()
    ensures cfg.Lines() > 0
  {
    LineInRange(cfg, 0, 0);
  }

  lemma ResetFits(cfg: Config, c: Cache)
    requires Widths(cfg, c)
    ensures Shape(cfg, Reset(cfg, c)) && UniqueTags(cfg, Reset(cfg, c))
  {
    ResetShape(cfg, c);
    hide Ranking, Widths;
    forall st, t, way | 0 <= st < cfg.sets && 0 <= way < cfg.ways
      ensures !WayHit(cfg, Reset(cfg, c), st, t, way)
    {
      LineInRange(cfg, st, way);
    }
  }

  /** The prologue leaves the way comparison as it was. */
  lemma PrologueHit(cfg: Config, c: Cache, i: Input)
    requires Ready(cfg, c, i) && Ready(cfg, Prologue(cfg, c, i), i)
    ensures HitsNow(cfg, c, i) == HitsNow(cfg, Prologue(cfg, c, i), i)
    ensures HitsNow(cfg, c, i) ==>
      HitLine(cfg, c, i.req.value.addr / 4) == HitLine(cfg, Prologue(cfg, c, i), i.req.value.addr / 4) &&
      HitWord(cfg, c, i.req.value.addr / 4) == HitWord(cfg, Prologue(cfg, c, i), i.req.value.addr / 4)
  {
    hide Prologue, Shape, UniqueTags, HitLine, HitWord;
    if i.req.Some? {
      SameHit(cfg, c, Prologue(cfg, c, i), i.req.value.addr / 4);
    }
  }

  lemma SameHit(cfg: Config, c: Cache, d: Cache, w: nat)
    requires Shape(cfg, c) && Shape(cfg, d) && UniqueTags(cfg, c) && UniqueTags(cfg, d)
    requires c.valid == d.valid && c.tag == d.tag && c.data == d.data && w < cfg.MemWords()
    ensures HitsAt(cfg, c, w) == HitsAt(cfg, d, w)
    ensures HitsAt(cfg, c, w) ==> HitLine(cfg, c, w) == HitLine(cfg, d, w) && HitWord(cfg, c, w) == HitWord(cfg, d, w)
  {
    hide Ranking, UniqueTags;
    AddressFields(cfg, w);
    SameTags(cfg, c, d);
    SameAccumulation(cfg, c, d, cfg.Set(w), cfg.Tag(w), cfg.Off(w), cfg.ways);
    hide Shape;
  }

  lemma {:induction false} SameAccumulation(cfg: Config, c: Cache, d: Cache, set_: nat, t: nat, off: nat, n: nat)
    requires Shape(cfg, c) && Shape(cfg, d) && c.valid == d.valid && c.tag == d.tag && c.data == d.data
    requires set_ < cfg.sets && off < cfg.lineWords && n <= cfg.ways
    ensures HitDataAcc(cfg, c, set_, t, off, n) == HitDataAcc(cfg, d, set_, t, off, n)
    ensures HitLineAcc(cfg, c, set_, t, n) == HitLineAcc(cfg, d, set_, t, n)
  {
    hide Ranking;
    if n > 0 {
      SameAccumulation(cfg, c, d, set_, t, off, n - 1);
    }
  }

  lemma MissPlace(cfg: Config, c: Cache, r: Request)
    requires Shape(cfg, c) && ValidRequest(cfg, r)
    ensures cfg.WellFormed() && cfg.Set(r.addr / 4) < cfg.sets
    ensures var line := cfg.Line(cfg.Set(r.addr / 4), VictimWay(cfg, c, cfg.Set(r.addr / 4)));
            line < |c.valid| && line < |c.dirty| && line < |c.tag|
  {
    hide Shape, VictimWay;
    LineShape(cfg, c, 0);
    AddressFields(cfg, r.addr / 4);
    var set_ := cfg.Set(r.addr / 4);
    VictimInRange(cfg, c, set_);
    LineInRange(cfg, set_, VictimWay(cfg, c, set_));
    hide Config.MemWords, Config.Lines, Config.Set, Config.Tag, Config.Base, Config.Line, Config.Off;
  }

  /** The sizes and ranges that indexing line `l` and the current registers need. */
  lemma LineShape(cfg: Config, c: Cache, l: nat)
    requires Shape(cfg, c)
    ensures cfg.WellFormed()
    ensures |c.valid| == |c.dirty| == |c.tag| == |c.data| == cfg.Lines() && |c.victim| == |c.age| == cfg.sets
    ensures l < cfg.Lines() ==> |c.data[l]| == cfg.lineWords
    ensures c.mshr.set_ < cfg.sets && c.mshr.way < cfg.ways && c.fillWord < cfg.lineWords && c.flushScan < cfg.Lines()
  {
    hide Ranking;
  }

  /** The set and way of line `l` have an entry. */
  predicate RowExists(age: seq<seq<nat>>, ways: nat, l: nat) {
    ways > 0 && l / ways < |age| && l % ways < |age[l / ways]|
  }

  function TouchRows(age: seq<seq<nat>>, ways: nat, l: nat): seq<seq<nat>> {
    if RowExists(age, ways, l) then age[l / ways := Touch(age[l / ways], l % ways)] else age
  }

  /** The places a fill beat writes, and the recency row its line belongs to. */
  lemma FillPlace(cfg: Config, c: Cache)
    requires Shape(cfg, c)
    ensures var l := FillLine(cfg, c);
            l < |c.valid| && l < |c.dirty| && l < |c.tag| && l < |c.data| && c.fillWord < |c.data[l]| &&
            c.mshr.set_ < |c.victim| && RowExists(c.age, cfg.ways, l) && c.mshr.set_ < |c.age| &&
            c.mshr.way < |c.age[c.mshr.set_]| &&
            TouchRows(c.age, cfg.ways, l) == c.age[c.mshr.set_ := Touch(c.age[c.mshr.set_], c.mshr.way)]
  {
    hide Shape, Touch;
    LineShape(cfg, c, 0);
    LineFields(cfg, c.mshr.set_, c.mshr.way);
    LineShape(cfg, c, FillLine(cfg, c));
    RowIndices(cfg, c, FillLine(cfg, c));
  }

  lemma RowIndices(cfg: Config, c: Cache, l: nat)
    requires Shape(cfg, c) && l < cfg.Lines()
    ensures RowExists(c.age, cfg.ways, l)
    ensures TouchSet(cfg, c, l).age == if cfg.lru then TouchRows(c.age, cfg.ways, l) else c.age
  {
    LineSplit(cfg, l);
    assert Ranking(c.age[l / cfg.ways], cfg.ways);
    hide Ranking, Touch;
  }

  predicate Touches(cfg: Config, c: Cache, i: Input, hit: bool) {
    cfg.lru && ((c.state == Idle && IsStore(i) && hit) || AnswersHit(c, i))
  }

  /** The prologue in terms of an already completed way comparison. */
  lemma PrologueIs(cfg: Config, c: Cache, i: Input, hit: bool, line: nat, word: Word)
    requires Ready(cfg, c, i) && hit == HitsNow(cfg, c, i)
    requires hit ==> line == HitLine(cfg, c, i.req.value.addr / 4)
    requires hit ==> word == HitWord(cfg, c, i.req.value.addr / 4)
    ensures var busyHit := (c.state == Wb || c.state == Fill) && IsLoad(i) && hit;
            var l := if c.state == Idle then line else c.hitLine;
            Prologue(cfg, c, i) ==
              c.(flushDone := false, huPending := busyHit,
                 huData := if busyHit then ExtendRead(word, i.req.value.funct3, i.req.value.addr % 4) else c.huData,
                 age := if Touches(cfg, c, i, hit) then TouchRows(c.age, cfg.ways, l) else c.age)
    ensures Touches(cfg, c, i, hit) ==> RowExists(c.age, cfg.ways, if c.state == Idle then line else c.hitLine)
  {
    hide Shape, UniqueTags, HitsNow, HitLine, HitWord, Touch, TouchSet, TouchRows, RowExists, ExtendRead;
    if AccessHit(cfg, c, i) {
      RowIndices(cfg, c, TouchedLine(cfg, c, i));
    }
  }

  // ---- why requests and flushes must not overlap ----

  lemma StoreHitAnswered(cfg: Config, c: Cache, i: Input)
    requires Ready(cfg, c, i) && c.state == Idle && IsStore(i) && HitsNow(cfg, c, i)
    ensures Respond(cfg, c, i).ready
  {
    hide Shape, UniqueTags, HitsNow, ExtendRead;
  }

  /**
    A store hit is answered at once.  Unless a flush is accepted in the same cycle it is merged
    into its line; if one is, the store is swallowed: no data and no dirty bit changes.
   */
  lemma FlushSwallowsStore(cfg: Config, c: Cache, i: Input)
    requires Ready(cfg, c, i) && Ready(cfg, Prologue(cfg, c, i), i)
    requires c.state == Idle && IsStore(i) && HitsNow(cfg, c, i)
    ensures Respond(cfg, c, i).ready
    ensures i.flush && !c.flushActive ==>
      Step(cfg, c, i).data == c.data && Step(cfg, c, i).dirty == c.dirty && Step(cfg, c, i).state == FlushScan
    ensures !(i.flush && !c.flushActive) ==>
      HitsAt(cfg, Prologue(cfg, c, i), i.req.value.addr / 4) &&
      Step(cfg, c, i) == StepHit(cfg, Prologue(cfg, c, i), i.req.value)
  {
    hide Shape, UniqueTags, Prologue, StepHit, StepMiss, HitsAt, Respond, HitLine, HitWord;
    StoreHitAnswered(cfg, c, i);
    PrologueHit(cfg, c, i);
  }

  // ---- that case arises ----

  /** A miss in a cache that holds nothing goes straight to its fill. */
  lemma MissStartsFill(cfg: Config, c: Cache, i: Input)
    requires Ready(cfg, c, i) && Ready(cfg, Prologue(cfg, c, i), i)
    requires c.state == Idle && !i.flush && i.req.Some? && !HitsNow(cfg, c, i)
    requires forall l :: 0 <= l < cfg.Lines() ==> !c.valid[l]
    ensures var u, w := Step(cfg, c, i), i.req.value.addr / 4;
            u.state == Fill && u.fillWord == 0 && u.mshrCount == c.mshrCount + 1 && u.flushActive == c.flushActive &&
            u.mshr.set_ == cfg.Set(w) && u.mshr.tag == cfg.Tag(w)
  {
    hide UniqueTags, HitsNow, Prologue, StepHit, VictimWay, Ranking;
    PrologueHit(cfg, c, i);
    MissPlace(cfg, Prologue(cfg, c, i), i.req.value);
    hide Shape, Config.Line, Config.Lines;
  }

  /** The last beat of the only miss leaves the cache idle with the line in place. */
  lemma FillEnds(cfg: Config, c: Cache, i: Input)
    requires Ready(cfg, c, i) && Ready(cfg, Prologue(cfg, c, i), i)
    requires c.state == Fill && i.ack && LastWord(cfg, c) && c.mshrCount == 1
    ensures var u := Step(cfg, c, i);
            u.state == Idle && u.flushActive == c.flushActive && |u.valid| == |u.tag| == cfg.Lines() &&
            FillLine(cfg, c) < cfg.Lines() && u.valid[FillLine(cfg, c)] && u.tag[FillLine(cfg, c)] == c.mshr.tag
  {
    hide UniqueTags, Prologue, Touch, SetWord, FillValue, Ranking;
    LineInRange(cfg, c.mshr.set_, c.mshr.way);
    LineShape(cfg, c, 0);
    hide Shape, Config.Line, Config.Lines;
  }

  lemma LineHits(cfg: Config, c: Cache, w: nat, way: nat)
    requires Shape(cfg, c) && w < cfg.MemWords() && way < cfg.ways && cfg.Line(cfg.Set(w), way) < cfg.Lines()
    requires c.valid[cfg.Line(cfg.Set(w), way)] && c.tag[cfg.Line(cfg.Set(w), way)] == cfg.Tag(w)
    ensures HitsAt(cfg, c, w)
  {
    AddressFields(cfg, w);
    assert WayHit(cfg, c, cfg.Set(w), cfg.Tag(w), way);
    hide Shape;
  }

  /** `n` cycles with the request held and the bus acknowledging. */
  function Beats(n: nat, r: Request): seq<Env> {
    if n == 0 then [] else [Env(Some(r), false, true)] + Beats(n - 1, r)
  }

  /** A request held through its miss and the whole fill of its line. */
  function MissRun(cfg: Config, r: Request): seq<Env> {
    [Env(Some(r), false, false)] + Beats(cfg.lineWords, r)
  }

  /** The line of the held request is on its way in. */
  ghost predicate Filling(cfg: Config, s: Sys, r: Request) {
    Inv(cfg, s) && s.c.state == Fill && s.held == Some(r)
  }

  /** The cache is idle and holds the request's word. */
  ghost predicate Fetched(cfg: Config, s: Sys, r: Request) {
    Inv(cfg, s) && Shape(cfg, s.c) && UniqueTags(cfg, s.c) && s.c.state == Idle && !s.c.flushActive &&
    r.addr / 4 < cfg.MemWords() && HitsAt(cfg, s.c, r.addr / 4)
  }

  lemma NothingHits(cfg: Config, was: Cache, w: nat)
    requires Widths(cfg, was) && Shape(cfg, Reset(cfg, was)) && w < cfg.MemWords()
    ensures !HitsAt(cfg, Reset(cfg, was), w)
  {
    AddressFields(cfg, w);
    var c := Reset(cfg, was);
    forall way | 0 <= way < cfg.ways
      ensures !WayHit(cfg, c, cfg.Set(w), cfg.Tag(w), way)
    {
      LineInRange(cfg, cfg.Set(w), way);
    }
    hide Shape;
  }

  lemma FirstEdge(cfg: Config, s: Sys, was: Cache, r: Request, e: Env)
    requires Widths(cfg, was) && s.c == Reset(cfg, was) && s.held == None && Inv(cfg, s)
    requires ValidRequest(cfg, r) && e == Env(Some(r), false, false)
    ensures Legal(cfg, s, e) && Shape(cfg, s.c) && UniqueTags(cfg, s.c)
    ensures Filling(cfg, Next(cfg, s, e), r) && Next(cfg, s, e).c.fillWord == 0
  {
    InvValid(cfg, s);
    hide Inv, Shape, UniqueTags, Step, Prologue, HitsAt, Refines, Config.Set, Config.Tag;
    var i := ToInput(s, e);
    NothingHits(cfg, was, r.addr / 4);
    RefinesInv(cfg, s, e);
    PrologueShape(cfg, s.c, i);
    MissStartsFill(cfg, s.c, i);
  }

  lemma RefinesInv(cfg: Config, s: Sys, e: Env)
    requires Inv(cfg, s) && Legal(cfg, s, e)
    ensures Inv(cfg, Next(cfg, s, e))
  {
    hide Inv, Next, View;
    StepRefines(cfg, s, e);
  }

  /** What the invariant says of a fill. */
  lemma FillingFacts(cfg: Config, s: Sys, r: Request)
    requires Filling(cfg, s, r)
    ensures Shape(cfg, s.c) && UniqueTags(cfg, s.c) && ValidRequest(cfg, r) && Legal(cfg, s, Env(Some(r), false, true))
    ensures s.c.mshrCount == 1 && !s.c.flushActive && s.c.fillWord < cfg.lineWords && s.c.mshr.way < cfg.ways
    ensures s.c.mshr.set_ == cfg.Set(r.addr / 4) && s.c.mshr.tag == cfg.Tag(r.addr / 4)
  {
    hide Ranking, UniqueTags, CleanSynced, Hit, Filled, Config.Set, Config.Tag;
  }

  /** Before the last beat the fill goes on. */
  lemma MidEdge(cfg: Config, s: Sys, r: Request, e: Env)
    requires Filling(cfg, s, r) && e == Env(Some(r), false, true) && !LastWord(cfg, s.c)
    ensures Shape(cfg, s.c) && UniqueTags(cfg, s.c) && Legal(cfg, s, e)
    ensures Filling(cfg, Next(cfg, s, e), r) && Next(cfg, s, e).c.fillWord == s.c.fillWord + 1
  {
    FillingFacts(cfg, s, r);
    hide Inv, Shape, UniqueTags, Step, Respond, Legal;
    RefinesInv(cfg, s, e);
    MissProgress(cfg, s, e);
    InvFillWord(cfg, Next(cfg, s, e));
  }

  lemma InvFillWord(cfg: Config, s: Sys)
    requires Inv(cfg, s)
    ensures s.c.fillWord < cfg.lineWords
  {
    hide Ranking, UniqueTags, CleanSynced, StateInv;
  }

  /** After it the line is in place. */
  lemma LastEdge(cfg: Config, s: Sys, r: Request, e: Env)
    requires Filling(cfg, s, r) && e == Env(Some(r), false, true) && LastWord(cfg, s.c)
    ensures Shape(cfg, s.c) && UniqueTags(cfg, s.c) && Legal(cfg, s, e)
    ensures Fetched(cfg, Next(cfg, s, e), r)
  {
    FillingFacts(cfg, s, r);
    hide Inv, Shape, UniqueTags, Step, Prologue, HitsAt, Config.Set, Config.Tag, Config.Lines, Config.Line;
    var i := ToInput(s, e);
    RefinesInv(cfg, s, e);
    InvValid(cfg, Next(cfg, s, e));
    PrologueShape(cfg, s.c, i);
    FillEnds(cfg, s.c, i);
    LineHits(cfg, Next(cfg, s, e).c, r.addr / 4, s.c.mshr.way);
  }

  /** The fill runs to its end, whatever the line's length. */
  lemma {:induction false} FillRun(cfg: Config, s: Sys, r: Request, n: nat)
    requires Filling(cfg, s, r) && n == cfg.lineWords - s.c.fillWord
    ensures LegalRun(cfg, s, Beats(n, r)) && Fetched(cfg, RunState(cfg, s, Beats(n, r)), r)
    decreases n
  {
    var e, es := Env(Some(r), false, true), Beats(n, r);
    FillingFacts(cfg, s, r);
    assert es[0] == e && es[1..] == Beats(n - 1, r);
    hide Inv, Shape, UniqueTags, Next, Legal, HitsAt, Beats, FlatAnswers;
    if LastWord(cfg, s.c) {
      LastEdge(cfg, s, r, e);
      NoBeats(r);
      FirstOfRun(cfg, s, es);
    } else {
      MidEdge(cfg, s, r, e);
      FillRun(cfg, Next(cfg, s, e), r, n - 1);
      FirstOfRun(cfg, s, es);
    }
  }

  lemma NoBeats(r: Request)
    ensures Beats(0, r) == []
  {
  }

  /**
    From any reset of any cache, a legal run of one miss reaches a state in which a store to the
    fetched line and a flush in the same cycle make the store answered and lost.
   */
  lemma SwallowingReachable(cfg: Config, was: Cache, mem: seq<Word>, r: Request, w: Request)
    requires Widths(cfg, was) && |mem| == cfg.MemWords()
    requires ValidRequest(cfg, r) && ValidRequest(cfg, w) && w.Store? && w.addr / 4 == r.addr / 4
    ensures var s := Sys(Reset(cfg, was), mem, None);
            Inv(cfg, s) && LegalRun(cfg, s, MissRun(cfg, r)) &&
            var c, i := RunState(cfg, s, MissRun(cfg, r)).c, Input(Some(w), true, false, ZERO_WORD);
            Ready(cfg, c, i) && Ready(cfg, Prologue(cfg, c, i), i) && c.state == Idle && HitsNow(cfg, c, i) &&
            Respond(cfg, c, i).ready && Step(cfg, c, i).data == c.data && Step(cfg, c, i).dirty == c.dirty
  {
    hide Inv, Shape, UniqueTags, Next, Prologue, HitsAt, Reset, Legal, FlatAnswers, Respond, Step, Beats;
    var s, e, es := Sys(Reset(cfg, was), mem, None), Env(Some(r), false, false), MissRun(cfg, r);
    var i := Input(Some(w), true, false, ZERO_WORD);
    ResetInv(cfg, was, mem);
    FirstEdge(cfg, s, was, r, e);
    assert es[0] == e && es[1..] == Beats(cfg.lineWords, r);
    FillRun(cfg, Next(cfg, s, e), r, cfg.lineWords);
    FirstOfRun(cfg, s, es);
    var c := RunState(cfg, s, es).c;
    PrologueShape(cfg, c, i);
    FlushSwallowsStore(cfg, c, i);
  }
}
