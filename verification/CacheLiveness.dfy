/**
  What the cache does with what it is asked: a flush that is requested runs to its end, a request
  is answered after exactly the bus beats its line needs, and only stores make lines dirty.
 */
module CacheLiveness {
  import opened Wrappers
  import opened Arithmetic
  import opened DataCache
  import opened CacheRefinement
  import opened CacheRuns
  import opened CacheFlush

  // ---- a requested flush ----

  /** A flush asked of the idle cache starts at once, with the first line and nothing changed. */
  lemma FlushStarts(cfg: Config, s: Sys, e: Env)
    requires Inv(cfg, s) && Legal(cfg, s, e) && s.c.state == Idle && e.flush
    ensures var u := Next(cfg, s, e);
            Inv(cfg, u) && u.c.state == FlushScan && u.c.flushActive && u.c.flushScan == 0 && u.mem == s.mem &&
            u.c.valid == s.c.valid && u.c.tag == s.c.tag && u.c.data == s.c.data && u.c.dirty == s.c.dirty
  {
    StepRefines(cfg, s, e);
    hide Shape, UniqueTags, CleanSynced, HitsNow, TouchSet, TouchedLine, BusyHitData, ScannedClean, View, Respond;
    assert e.req.None? && !s.c.flushActive;
  }

  /** With enough acknowledgements a flush under way ends: it has a prefix that ends at flush_done. */
  lemma {:induction false} FlushFinishes(cfg: Config, s: Sys, es: seq<Env>) returns (n: nat)
    requires Inv(cfg, s) && s.c.flushActive && LegalRun(cfg, s, es) && Acks(es) >= FlushWork(cfg, s.c)
    ensures 0 < n <= |es| && FlushRun(cfg, s, es[..n]) && FlushEnd(cfg, s, es[..n]).c.flushDone
    ensures LegalRun(cfg, s, es[..n]) && RunState(cfg, s, es[..n]) == FlushEnd(cfg, s, es[..n])
    decreases |es|
  {
    hide Inv, Shape, UniqueTags, Next, Legal, FlushWork, LegalRun, RunState, FlushRun, FlushEnd, Beat, Owed, Acks;
    AcksSplit(cfg, s, es);
    RunSplits(cfg, s, es);
    var u := Next(cfg, s, es[0]);
    FlushProgress(cfg, s, es[0]);
    EdgeEnds(cfg, s, es[0]);
    if u.c.flushActive {
      var k := FlushFinishes(cfg, u, es[1..]);
      n := k + 1;
      assert es[..n][1..] == es[1..][..k];
    } else {
      n := 1;
      assert es[..n][1..] == [];
      NoRun(cfg, u);
      NoFlush(cfg, u);
    }
    FirstOfRun(cfg, s, es[..n]);
    FirstOfFlush(cfg, s, es[..n]);
  }

  /** A working flush needs some acknowledgement, so there is a first cycle. */
  lemma AcksSplit(cfg: Config, s: Sys, es: seq<Env>)
    requires Inv(cfg, s) && s.c.flushActive && LegalRun(cfg, s, es) && Acks(es) >= FlushWork(cfg, s.c)
    ensures es != [] && Acks(es[1..]) >= FlushWork(cfg, s.c) - if es[0].ack then 1 else 0
  {
    hide Inv, Shape, LegalRun;
    ActiveWork(cfg, s);
  }

  lemma ActiveWork(cfg: Config, s: Sys)
    requires Inv(cfg, s) && s.c.flushActive
    ensures FlushWork(cfg, s.c) > 0
  {
    var c := s.c;
    assert c.flushScan < cfg.Lines() && c.fillWord < cfg.lineWords;
    hide Inv, Shape;
    WorkPositive(cfg.Lines() - c.flushScan, cfg.lineWords + 2, if c.state == Wb then c.fillWord + 1 else 0);
  }

  lemma EdgeEnds(cfg: Config, s: Sys, e: Env)
    requires Inv(cfg, s) && Legal(cfg, s, e) && s.c.flushActive
    ensures Next(cfg, s, e).c.flushActive || Next(cfg, s, e).c.flushDone
  {
    FlushCycle(cfg, s, e);
    hide Shape, UniqueTags, Next, CleanSynced, StateInv;
  }

  /** Every dirty bit is down. */
  predicate NothingDirty(c: Cache)
    requires |c.valid| == |c.dirty|
  {
    forall l :: 0 <= l < |c.valid| ==> !(c.valid[l] && c.dirty[l])
  }

  /**
    A flush asked of the idle cache is carried out: once the bus has acknowledged often enough,
    some state on the way raised flush_done with nothing dirty, memory as the CPU saw it when it
    asked, every line still in place, and one line's worth of beats for each line then dirty.
   */
  lemma FlushServed(cfg: Config, s: Sys, es: seq<Env>) returns (n: nat)
    requires Inv(cfg, s) && s.c.state == Idle && es != [] && es[0].flush && LegalRun(cfg, s, es)
    requires Acks(es[1..]) >= cfg.Lines() * (cfg.lineWords + 2)
    ensures 0 < n <= |es| && LegalRun(cfg, s, es[..n])
    ensures var u := RunState(cfg, s, es[..n]);
            u.c.flushDone && !u.c.flushActive && u.c.state == Idle && |u.mem| == cfg.MemWords() &&
            |u.c.valid| == |u.c.dirty| && NothingDirty(u.c) &&
            u.c.valid == s.c.valid && u.c.tag == s.c.tag && u.c.data == s.c.data &&
            forall w :: 0 <= w < cfg.MemWords() ==> u.mem[w] == View(cfg, s, w)
    ensures var t := Next(cfg, s, es[0]);
            Inv(cfg, t) && FlushRun(cfg, t, es[1..n]) &&
            Beats(cfg, t, es[1..n]) == cfg.lineWords * CountDirty(s.c, cfg.Lines())
  {
    hide Inv, Next, Legal, FlushWork, FlatAnswers, View, Shape, UniqueTags, LegalRun, RunState, FlushRun, FlushEnd,
         Beats, CountDirty, ScannedClean, Acks;
    RunSplits(cfg, s, es);
    FlushStarts(cfg, s, es[0]);
    var t := Next(cfg, s, es[0]);
    InvShape(cfg, s);
    InvShape(cfg, t);
    WorkBounds(cfg, t);
    NoStore(cfg, s, es[0]);
    var k := FlushFinishes(cfg, t, es[1..]);
    n := k + 1;
    assert es[1..n] == es[1..][..k] && es[..n][1..] == es[1..n];
    FirstOfRun(cfg, s, es[..n]);
    FlushCompletes(cfg, t, es[1..n]);
    ShapeLines(cfg, s.c);
    SameCount(s.c, t.c, cfg.Lines());
    DoneState(cfg, FlushEnd(cfg, t, es[1..n]));
    FlushBalance(cfg, t, es[1..n]);
  }

  lemma ShapeLines(cfg: Config, c: Cache)
    requires Shape(cfg, c)
    ensures |c.valid| == |c.dirty| == cfg.Lines()
  {
  }

  /** A flush cycle carries no request. */
  lemma NoStore(cfg: Config, s: Sys, e: Env)
    requires Inv(cfg, s) && Legal(cfg, s, e) && e.flush
    ensures e.req.None?
    ensures forall w :: 0 <= w < cfg.MemWords() ==> View(cfg, Next(cfg, s, e), w) == View(cfg, s, w)
  {
    StepRefines(cfg, s, e);
    hide Inv, Next, View, LoadCorrect;
  }

  lemma DoneState(cfg: Config, u: Sys)
    requires Inv(cfg, u) && u.c.flushDone
    ensures u.c.state == Idle && !u.c.flushActive && |u.mem| == cfg.MemWords()
    ensures |u.c.valid| == |u.c.dirty| == cfg.Lines() && NothingDirty(u.c)
  {
    hide UniqueTags, CleanSynced, Ranking;
    assert ScannedClean(cfg, u.c, cfg.Lines());
    forall l | 0 <= l < |u.c.valid|
      ensures !(u.c.valid[l] && u.c.dirty[l])
    {
      assert !Dirty(u.c, l);
    }
  }

  // ---- requests are answered ----

  /** Bus beats a miss needs: its line, and first the displaced one if that is dirty. */
  function MissCost(cfg: Config, c: Cache, w: nat): nat
    requires Shape(cfg, c) && w < cfg.MemWords()
  {
    AddressFields(cfg, w);
    VictimInRange(cfg, c, cfg.Set(w));
    LineInRange(cfg, cfg.Set(w), VictimWay(cfg, c, cfg.Set(w)));
    var line := cfg.Line(cfg.Set(w), VictimWay(cfg, c, cfg.Set(w)));
    if c.valid[line] && c.dirty[line] then 2 * cfg.lineWords else cfg.lineWords
  }

  lemma {:induction false} SameLru(cfg: Config, c: Cache, d: Cache, set_: nat, n: nat)
    requires Shape(cfg, c) && Shape(cfg, d) && set_ < cfg.sets && n <= cfg.ways && c.age == d.age
    ensures LruAcc(cfg, c, set_, n) == LruAcc(cfg, d, set_, n)
  {
    hide Ranking;
    if n > 0 {
      SameLru(cfg, c, d, set_, n - 1);
    }
  }

  lemma SameCost(cfg: Config, c: Cache, d: Cache, w: nat)
    requires Shape(cfg, c) && Shape(cfg, d) && w < cfg.MemWords() && c.age == d.age && c.victim == d.victim
    requires c.valid == d.valid && c.dirty == d.dirty
    ensures MissCost(cfg, c, w) == MissCost(cfg, d, w)
  {
    AddressFields(cfg, w);
    SameLru(cfg, c, d, cfg.Set(w), cfg.ways);
    hide Shape, LruAcc;
  }

  /** A miss touches no recency rank. */
  lemma MissPrepared(cfg: Config, s: Sys, e: Env)
    requires Inv(cfg, s) && Legal(cfg, s, e) && s.c.state == Idle && e.req.Some?
    requires !HitsAt(cfg, s.c, e.req.value.addr / 4)
    ensures var t := Prepared(cfg, s, e);
            Inv(cfg, t) && !HitsAt(cfg, t.c, e.req.value.addr / 4) &&
            MissCost(cfg, t.c, e.req.value.addr / 4) == MissCost(cfg, s.c, e.req.value.addr / 4)
  {
    hide UniqueTags, CleanSynced, Ranking, StateInv, MissCost, TouchSet;
    PreparedKeeps(cfg, s, e);
    var t := Prepared(cfg, s, e);
    SameTags(cfg, s.c, t.c);
    SameCost(cfg, s.c, t.c, e.req.value.addr / 4);
    hide Shape, WayHit;
  }

  /** The state a miss leaves the cache in. */
  lemma MissTaken(cfg: Config, t: Sys, e: Env)
    requires Inv(cfg, t) && Legal(cfg, t, e) && t.c.state == Idle && e.req.Some?
    requires !HitsAt(cfg, t.c, e.req.value.addr / 4)
    ensures !Answer(cfg, t, e).ready
    ensures var u := ArmNext(cfg, t, e);
            (u.c.state == Wb || u.c.state == Fill) && !u.c.flushActive &&
            MissBeats(cfg, u.c) == MissCost(cfg, t.c, e.req.value.addr / 4)
  {
    var r := e.req.value;
    assert !t.c.flushActive && !Answer(cfg, t, e).ready by { hide Shape, UniqueTags, HitsAt, CleanSynced; }
    assert ArmNext(cfg, t, e).c == StepMiss(cfg, t.c, r) by {
      hide Shape, UniqueTags, Respond, StepMiss, CleanSynced;
    }
    MissCosts(cfg, t.c, r);
    hide Inv, Shape, ArmNext, Respond, UniqueTags, StepMiss, MissCost;
  }

  lemma MissCosts(cfg: Config, c: Cache, r: Request)
    requires Shape(cfg, c) && ValidRequest(cfg, r)
    ensures var d := StepMiss(cfg, c, r);
            (d.state == Wb || d.state == Fill) && d.flushActive == c.flushActive &&
            MissBeats(cfg, d) == MissCost(cfg, c, r.addr / 4)
  {
    AddressFields(cfg, r.addr / 4);
    VictimInRange(cfg, c, cfg.Set(r.addr / 4));
    LineInRange(cfg, cfg.Set(r.addr / 4), VictimWay(cfg, c, cfg.Set(r.addr / 4)));
    hide Ranking, VictimWay;
  }

  /** The state a load hit leaves the cache in. */
  lemma HitTaken(cfg: Config, t: Sys, e: Env)
    requires Inv(cfg, t) && Legal(cfg, t, e) && t.c.state == Idle && e.req.Some?
    requires HitsAt(cfg, t.c, e.req.value.addr / 4)
    ensures Answer(cfg, t, e).ready <==> e.req.value.Store?
    ensures e.req.value.Load? ==> ArmNext(cfg, t, e).c.state == HitRd
  {
    hide Shape, UniqueTags, HitsAt, CleanSynced, HitLine, HitWord, ExtendRead;
  }

  /** A request found by the idle cache: a store hit is answered, a load hit is being read, a miss has begun. */
  lemma RequestTaken(cfg: Config, s: Sys, e: Env)
    requires Inv(cfg, s) && Legal(cfg, s, e) && s.c.state == Idle && e.req.Some?
    ensures Shape(cfg, s.c) && UniqueTags(cfg, s.c)
    ensures var u, r := Next(cfg, s, e), e.req.value;
            Inv(cfg, u) && (Answer(cfg, s, e).ready <==> r.Store? && HitsAt(cfg, s.c, r.addr / 4)) &&
            (r.Load? && HitsAt(cfg, s.c, r.addr / 4) ==> u.c.state == HitRd) &&
            (!HitsAt(cfg, s.c, r.addr / 4) ==>
               (u.c.state == Wb || u.c.state == Fill) && !u.c.flushActive &&
               MissBeats(cfg, u.c) == MissCost(cfg, s.c, r.addr / 4))
  {
    hide Inv, Next, Prepared, ArmNext, Refines, Shape, UniqueTags, HitsAt, Respond, MissCost, MissBeats, View;
    InvShape(cfg, s);
    PreparedKeeps(cfg, s, e);
    var t := Prepared(cfg, s, e);
    InvShape(cfg, t);
    SameHits(cfg, s, e);
    InvNext(cfg, s, e);
    if HitsAt(cfg, s.c, e.req.value.addr / 4) {
      HitTaken(cfg, t, e);
    } else {
      MissPrepared(cfg, s, e);
      MissTaken(cfg, t, e);
    }
  }

  lemma InvNext(cfg: Config, s: Sys, e: Env)
    requires Inv(cfg, s) && Legal(cfg, s, e)
    ensures Inv(cfg, Next(cfg, s, e))
  {
    hide Inv, Next, View;
    StepRefines(cfg, s, e);
  }

  lemma SameHits(cfg: Config, s: Sys, e: Env)
    requires Inv(cfg, s) && Legal(cfg, s, e) && e.req.Some?
    ensures Shape(cfg, Prepared(cfg, s, e).c)
    ensures HitsAt(cfg, Prepared(cfg, s, e).c, e.req.value.addr / 4) == HitsAt(cfg, s.c, e.req.value.addr / 4)
  {
    hide UniqueTags, CleanSynced, Ranking, StateInv, TouchSet;
    PreparedKeeps(cfg, s, e);
    SameTags(cfg, s.c, Prepared(cfg, s, e).c);
    hide Shape, WayHit;
  }

  /** A load hit is answered in the cycle after it was taken. */
  lemma HitReadAnswers(cfg: Config, s: Sys, e: Env)
    requires Inv(cfg, s) && Legal(cfg, s, e) && s.c.state == HitRd
    ensures Answer(cfg, s, e).ready
  {
    hide UniqueTags, CleanSynced, Ranking, ExtendRead;
  }

  /**
    A request found by the idle cache is answered exactly when it is due: a store hit at once, a
    load hit in the next cycle, a miss in the cycle of the last bus beat it needs.  The run `es` has
    gone by unanswered since, and `e` is the current cycle.
   */
  lemma RequestServed(cfg: Config, s: Sys, r: Request, es: seq<Env>, e: Env)
    requires Inv(cfg, s) && s.c.state == Idle && WaitingRun(cfg, s, es) && Legal(cfg, WaitingEnd(cfg, s, es), e)
    requires (es + [e])[0].req == Some(r) && ValidRequest(cfg, r)
    ensures Answer(cfg, WaitingEnd(cfg, s, es), e).ready
       <==> if !HitsAt(cfg, s.c, r.addr / 4) then
              es != [] && e.ack && Acks(es[1..]) + 1 == MissCost(cfg, s.c, r.addr / 4)
            else |es| == if r.Store? then 0 else 1
  {
    hide Inv, Next, Shape, UniqueTags, HitsAt, Respond, MissCost, MissBeats, View, Acks, FlatAnswers;
    if es == [] {
      RequestTaken(cfg, s, e);
    } else {
      RequestTaken(cfg, s, es[0]);
      var u, rest := Next(cfg, s, es[0]), es[1..];
      assert WaitingRun(cfg, u, rest) && WaitingEnd(cfg, s, es) == WaitingEnd(cfg, u, rest);
      if HitsAt(cfg, s.c, r.addr / 4) {
        if rest == [] {
          HitReadAnswers(cfg, u, e);
        } else {
          HitReadAnswers(cfg, u, rest[0]);
        }
      } else {
        MissBounded(cfg, u, rest, e);
      }
    }
  }

  // ---- only stores make lines dirty ----

  /** A cycle without a store leaves a clean cache clean and memory as it is. */
  lemma CleanStays(cfg: Config, s: Sys, e: Env)
    requires Inv(cfg, s) && Legal(cfg, s, e) && |s.c.valid| == |s.c.dirty| && NothingDirty(s.c)
    requires e.req.Some? ==> e.req.value.Load?
    ensures Inv(cfg, Next(cfg, s, e)) && Next(cfg, s, e).mem == s.mem
    ensures var d := Next(cfg, s, e).c; |d.valid| == |d.dirty| && NothingDirty(d)
  {
    InvShape(cfg, s);
    PreparedKeeps(cfg, s, e);
    InvNext(cfg, s, e);
    var t := Prepared(cfg, s, e);
    NotWriting(cfg, t);
    hide UniqueTags, CleanSynced, Prepared, Next, View, Ranking;
    ArmClean(cfg, t, e);
  }

  lemma NotWriting(cfg: Config, s: Sys)
    requires Inv(cfg, s) && |s.c.valid| == |s.c.dirty| && NothingDirty(s.c)
    ensures s.c.state != Wb
  {
    hide UniqueTags, CleanSynced, Ranking, Synced, ScannedClean;
  }

  lemma ArmClean(cfg: Config, t: Sys, e: Env)
    requires Inv(cfg, t) && Legal(cfg, t, e) && !t.c.flushDone && |t.c.valid| == |t.c.dirty| && NothingDirty(t.c)
    requires t.c.state != Wb && (e.req.Some? ==> e.req.value.Load?)
    ensures ArmNext(cfg, t, e).mem == t.mem
    ensures var d := ArmNext(cfg, t, e).c; |d.valid| == |d.dirty| && NothingDirty(d)
  {
    hide UniqueTags, CleanSynced, Ranking, ScannedClean, HitsAt, Filled, Respond, VictimWay, FillValue, HitWord, HitLine;
  }

  /** Over every run without stores a clean cache stays clean and memory is never written, flushes included. */
  lemma {:induction false} LoadsNeverWrite(cfg: Config, s: Sys, es: seq<Env>)
    requires Inv(cfg, s) && LegalRun(cfg, s, es) && |s.c.valid| == |s.c.dirty| && NothingDirty(s.c)
    requires forall k :: 0 <= k < |es| && es[k].req.Some? ==> es[k].req.value.Load?
    ensures RunState(cfg, s, es).mem == s.mem
    ensures var d := RunState(cfg, s, es).c; |d.valid| == |d.dirty| && NothingDirty(d)
    decreases |es|
  {
    hide Inv, Next, Legal, NothingDirty, LegalRun, RunState;
    if es == [] {
      NoRun(cfg, s);
    } else {
      RunSplits(cfg, s, es);
      assert es[0].req.Some? ==> es[0].req.value.Load?;
      CleanStays(cfg, s, es[0]);
      LoadsNeverWrite(cfg, Next(cfg, s, es[0]), es[1..]);
    }
  }

  // ---- loads that hit while a miss is under way ----

  /** A load that hits during a writeback or fill has, in the next cycle, the word its line held. */
  lemma HitUnderMiss(cfg: Config, c: Cache, i: Input, way: nat)
    requires Ready(cfg, c, i) && (c.state == Wb || c.state == Fill) && i.req.Some? && i.req.value.Load?
    requires way < cfg.ways && cfg.Set(i.req.value.addr / 4) < cfg.sets
    requires WayHit(cfg, c, cfg.Set(i.req.value.addr / 4), cfg.Tag(i.req.value.addr / 4), way)
    ensures var r, d := i.req.value, Step(cfg, c, i);
            var line, off := cfg.Line(cfg.Set(r.addr / 4), way), cfg.Off(r.addr / 4);
            line < |c.data| && off < |c.data[line]| &&
            d.huPending && d.huData == ExtendRead(c.data[line][off], r.funct3, r.addr % 4)
  {
    hide Ranking, UniqueTags, ExtendRead, FillValue, Touch, LruAcc, HitDataAcc, HitLineAcc;
    var r := i.req.value;
    AddressFields(cfg, r.addr / 4);
    AccumulatedHit(cfg, c, cfg.Set(r.addr / 4), cfg.Tag(r.addr / 4), cfg.Off(r.addr / 4), way, cfg.ways);
    hide WayHit, StepIdle, StepFlush;
  }

  /** And it is answered with that data, unless the miss itself is answered in that cycle. */
  lemma HitUnderMissAnswers(cfg: Config, d: Cache, j: Input)
    requires Shape(cfg, d) && ValidInput(cfg, j) && d.huPending && d.state != HitRd && !(d.state == Fill && j.ack)
    ensures Respond(cfg, d, j) == Response(true, d.huData)
  {
    hide Ranking, ExtendRead, FillValue, HitsNow;
  }
}
