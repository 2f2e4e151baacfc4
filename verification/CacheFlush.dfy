/**
  The whole-cache flush: what a completed flush guarantees, what it costs on the bus, and that
  both a flush and a miss make progress with every acknowledged beat.
 */
module CacheFlush {
  import opened Wrappers
  import opened Arithmetic
  import opened DataCache
  import opened CacheRefinement
  import opened CacheRuns

  /** How many of the first `n` lines are valid and dirty. */
  function CountDirty(c: Cache, n: nat): nat
    requires n <= |c.valid| == |c.dirty|
  {
    if n == 0 then 0 else CountDirty(c, n - 1) + if Dirty(c, n - 1) then 1 else 0
  }

  /** Bus beats a flush still owes: every dirty line in full, less the beats of the current one. */
  function Owed(cfg: Config, c: Cache): int
    requires Shape(cfg, c)
  {
    cfg.lineWords * CountDirty(c, cfg.Lines()) - (if c.state == Wb then c.fillWord else 0)
  }

  lemma {:induction false} SameCount(c: Cache, d: Cache, n: nat)
    requires n <= |c.valid| == |c.dirty| && d.valid == c.valid && d.dirty == c.dirty
    ensures CountDirty(d, n) == CountDirty(c, n)
  {
    if n == 0 {
    } else {
      SameCount(c, d, n - 1);
    }
  }

  lemma {:induction false} CleanedCount(c: Cache, d: Cache, line: nat, n: nat)
    requires n <= |c.valid| == |c.dirty| && line < |c.valid| && Dirty(c, line)
    requires d.valid == c.valid && d.dirty == c.dirty[line := false]
    ensures CountDirty(d, n) == CountDirty(c, n) - if line < n then 1 else 0
  {
    if n == 0 {
    } else {
      CleanedCount(c, d, line, n - 1);
    }
  }

  lemma {:induction false} NoneDirty(cfg: Config, c: Cache, n: nat)
    requires Shape(cfg, c) && n <= cfg.Lines() && ScannedClean(cfg, c, n)
    ensures CountDirty(c, n) == 0
  {
    if n == 0 {
    } else {
      NoneDirty(cfg, c, n - 1);
    }
  }

  predicate Beat(s: Sys, e: Env) {
    s.c.state == Wb && e.ack
  }

  /** What a flush cycle does to the registers that matter here. */
  lemma FlushCycle(cfg: Config, s: Sys, e: Env)
    requires Inv(cfg, s) && Legal(cfg, s, e) && s.c.flushActive
    ensures var u := Next(cfg, s, e);
            var c, d := s.c, u.c;
            d.valid == c.valid && d.tag == c.tag && d.data == c.data &&
            (if c.state == FlushScan && Dirty(c, c.flushScan)
             then d.dirty == c.dirty && d.state == Wb && d.fillWord == 0 && d.flushScan == c.flushScan && d.flushActive
             else if c.state == Wb && !(e.ack && LastWord(cfg, c))
             then d.dirty == c.dirty && d.state == Wb && d.flushScan == c.flushScan && d.flushActive &&
                  d.fillWord == c.fillWord + (if e.ack then 1 else 0)
             else d.dirty == (if c.state == Wb then c.dirty[c.wbLine := false] else c.dirty) &&
                  if c.flushScan + 1 == cfg.Lines() then d.flushDone && !d.flushActive && d.state == Idle
                  else d.state == FlushScan && d.flushActive && d.flushScan == c.flushScan + 1)
  {
    assert s.c.state == FlushScan || (s.c.state == Wb && s.c.wbToFlush) by {
      hide Shape, UniqueTags, CleanSynced, WritingBack, ScannedClean, MissPending, HitReadPending, Filled;
    }
    hide Shape, UniqueTags, CleanSynced, WritingBack, ScannedClean, HitsNow, TouchSet, TouchedLine, BusyHitData;
  }

  /** Conservation: the beats owed fall by exactly the beats acknowledged. */
  lemma FlushConserves(cfg: Config, s: Sys, e: Env)
    requires Inv(cfg, s) && Legal(cfg, s, e) && s.c.flushActive
    ensures Inv(cfg, Next(cfg, s, e))
    ensures Owed(cfg, Next(cfg, s, e).c) == Owed(cfg, s.c) - if Beat(s, e) then 1 else 0
  {
    StepRefines(cfg, s, e);
    FlushCycle(cfg, s, e);
    var c, d := s.c, Next(cfg, s, e).c;
    hide Next, UniqueTags, CleanSynced, View, LoadCorrect, After;
    if c.state == Wb && e.ack && LastWord(cfg, c) {
      assert Dirty(c, c.wbLine) by { hide ScannedClean, Synced; }
      CleanedCount(c, d, c.wbLine, cfg.Lines());
      Distributes(cfg.lineWords, CountDirty(c, cfg.Lines()));
    } else {
      SameCount(c, d, cfg.Lines());
    }
    hide CountDirty, StateInv;
  }

  lemma Distributes(k: int, n: int)
    ensures k * (n - 1) == k * n - k
  {
  }

  // ---- a whole flush ----

  /** A legal run that stays inside the flush until its last edge. */
  ghost predicate FlushRun(cfg: Config, s: Sys, es: seq<Env>)
    requires Inv(cfg, s)
    decreases |es|
  {
    es == [] ||
    (s.c.flushActive && Legal(cfg, s, es[0]) &&
     (FlushConserves(cfg, s, es[0]); FlushRun(cfg, Next(cfg, s, es[0]), es[1..])))
  }

  ghost function FlushEnd(cfg: Config, s: Sys, es: seq<Env>): (u: Sys)
    requires Inv(cfg, s) && FlushRun(cfg, s, es)
    ensures Inv(cfg, u)
    decreases |es|
  {
    if es == [] then s
    else
      FlushConserves(cfg, s, es[0]);
      FlushEnd(cfg, Next(cfg, s, es[0]), es[1..])
  }

  /** A flush run is its first edge and the rest. */
  lemma FirstOfFlush(cfg: Config, s: Sys, es: seq<Env>)
    requires Inv(cfg, s) && Shape(cfg, s.c) && UniqueTags(cfg, s.c) && s.c.flushActive && es != [] && Legal(cfg, s, es[0])
    requires Inv(cfg, Next(cfg, s, es[0])) && FlushRun(cfg, Next(cfg, s, es[0]), es[1..])
    ensures FlushRun(cfg, s, es) && FlushEnd(cfg, s, es) == FlushEnd(cfg, Next(cfg, s, es[0]), es[1..])
  {
    hide Inv, Shape, UniqueTags, Next, Legal, Owed;
  }

  lemma NoFlush(cfg: Config, s: Sys)
    requires Inv(cfg, s)
    ensures FlushRun(cfg, s, []) && FlushEnd(cfg, s, []) == s
  {
  }

  /** Acknowledged beats along the run. */
  ghost function Beats(cfg: Config, s: Sys, es: seq<Env>): nat
    requires Inv(cfg, s) && FlushRun(cfg, s, es)
    decreases |es|
  {
    if es == [] then 0
    else
      FlushConserves(cfg, s, es[0]);
      (if Beat(s, es[0]) then 1 else 0) + Beats(cfg, Next(cfg, s, es[0]), es[1..])
  }

  /** Nothing is invalidated and the CPU's view never moves while flushing; the beats balance. */
  lemma {:induction false} FlushBalance(cfg: Config, s: Sys, es: seq<Env>)
    requires Inv(cfg, s) && FlushRun(cfg, s, es)
    ensures var u := FlushEnd(cfg, s, es);
            u.c.valid == s.c.valid && u.c.tag == s.c.tag && u.c.data == s.c.data &&
            Owed(cfg, u.c) == Owed(cfg, s.c) - Beats(cfg, s, es) &&
            forall w :: 0 <= w < cfg.MemWords() ==> View(cfg, u, w) == View(cfg, s, w)
    decreases |es|
  {
    if es == [] {
    } else {
      var e := es[0];
      FlushConserves(cfg, s, e);
      FlushCycle(cfg, s, e);
      StepRefines(cfg, s, e);
      assert e.req.None?;
      hide Next, Inv, View, Owed, LoadCorrect, Legal;
      FlushBalance(cfg, Next(cfg, s, e), es[1..]);
    }
  }

  /** With no dirty line and no fill, memory is the view. */
  lemma CleanMeansMemory(cfg: Config, s: Sys, w: nat)
    requires Inv(cfg, s) && s.c.state == Idle && ScannedClean(cfg, s.c, cfg.Lines()) && w < cfg.MemWords()
    ensures View(cfg, s, w) == s.mem[w]
  {
    AddressFields(cfg, w);
    forall way: nat | Holds(cfg, s.c, w, way)
      ensures WordIn(cfg, s.c, w, way) == s.mem[w]
    {
      LineFields(cfg, cfg.Set(w), way);
      var line := cfg.Line(cfg.Set(w), way);
      assert !Dirty(s.c, line);
      assert Synced(cfg, s, line, cfg.lineWords);
    }
    hide Holds, WordIn, Shape, UniqueTags, Inv;
    ViewIs(cfg, s, w, s.mem[w]);
  }

  lemma FlushDoneMeans(cfg: Config, s: Sys)
    requires Inv(cfg, s) && s.c.flushDone
    ensures s.c.state == Idle && ScannedClean(cfg, s.c, cfg.Lines()) && Shape(cfg, s.c) && |s.mem| == cfg.MemWords()
  {
    hide Shape, UniqueTags, CleanSynced;
  }

  /**
    A completed flush: no dirty line is left, memory equals the view and the view is what it was
    when the flush began, no line was invalidated, and the bus carried exactly one line's worth
    of beats for every line that was dirty at the start.
   */
  lemma FlushCompletes(cfg: Config, s: Sys, es: seq<Env>)
    requires Inv(cfg, s) && s.c.state == FlushScan && FlushRun(cfg, s, es)
    requires FlushEnd(cfg, s, es).c.flushDone
    ensures var u := FlushEnd(cfg, s, es);
            ScannedClean(cfg, u.c, cfg.Lines()) && u.c.valid == s.c.valid && u.c.tag == s.c.tag &&
            (forall w :: 0 <= w < cfg.MemWords() ==> u.mem[w] == View(cfg, u, w) == View(cfg, s, w)) &&
            Beats(cfg, s, es) == cfg.lineWords * CountDirty(s.c, cfg.Lines())
  {
    hide Shape, Inv, View, FlushEnd, FlushRun, Beats, ScannedClean, CountDirty;
    var u := FlushEnd(cfg, s, es);
    FlushBalance(cfg, s, es);
    FlushDoneMeans(cfg, u);
    NoneDirty(cfg, u.c, cfg.Lines());
    forall w | 0 <= w < cfg.MemWords()
      ensures u.mem[w] == View(cfg, u, w)
    {
      CleanMeansMemory(cfg, u, w);
    }
  }

  // ---- progress ----

  /** Cycles a flush can still take, not counting cycles spent waiting for the bus. */
  function FlushWork(cfg: Config, c: Cache): int {
    if !c.flushActive then 0
    else (cfg.Lines() - c.flushScan) * (cfg.lineWords + 2) - (if c.state == Wb then c.fillWord + 1 else 0)
  }

  lemma NextScan(n: int, k: int)
    ensures (n - 1) * k == n * k - k
  {
  }

  lemma WorkPositive(n: int, k: int, f: int)
    requires n >= 1 && k >= 2 && f <= k - 2
    ensures n * k - f > 0
  {
    assert n * k >= k;
  }

  /** Every flush cycle that is not waiting for an acknowledgement brings the end nearer. */
  lemma FlushProgress(cfg: Config, s: Sys, e: Env)
    requires Inv(cfg, s) && Legal(cfg, s, e) && s.c.flushActive
    ensures 0 < FlushWork(cfg, s.c) <= cfg.Lines() * (cfg.lineWords + 2)
    ensures var u := Next(cfg, s, e);
            0 <= FlushWork(cfg, u.c) &&
            if s.c.state == Wb && !e.ack then FlushWork(cfg, u.c) == FlushWork(cfg, s.c)
            else FlushWork(cfg, u.c) < FlushWork(cfg, s.c)
  {
    StepRefines(cfg, s, e);
    FlushCycle(cfg, s, e);
    var c, d := s.c, Next(cfg, s, e).c;
    assert c.flushScan < cfg.Lines() && c.fillWord < cfg.lineWords && d.fillWord < cfg.lineWords && d.flushScan < cfg.Lines();
    assert c.state == FlushScan || c.state == Wb by {
      hide Shape, UniqueTags, CleanSynced, WritingBack, ScannedClean, MissPending, HitReadPending, Filled, Next;
    }
    hide Next, Inv, Shape, Refines;
    var n, k := cfg.Lines() - c.flushScan, cfg.lineWords + 2;
    NextScan(n, k);
    WorkPositive(n, k, if c.state == Wb then c.fillWord + 1 else 0);
    if n > 1 {
      WorkPositive(n - 1, k, 0);
    }
    if d.flushActive {
      WorkPositive(cfg.Lines() - d.flushScan, k, if d.state == Wb then d.fillWord + 1 else 0);
    }
    ProductMono(n, cfg.Lines(), k);
  }

  /** Cycles of a flush run that are not spent waiting for an acknowledgement. */
  ghost function BusyCycles(cfg: Config, s: Sys, es: seq<Env>): nat
    requires Inv(cfg, s) && FlushRun(cfg, s, es)
    decreases |es|
  {
    if es == [] then 0
    else
      FlushConserves(cfg, s, es[0]);
      (if s.c.state == Wb && !es[0].ack then 0 else 1) + BusyCycles(cfg, Next(cfg, s, es[0]), es[1..])
  }

  /** A flush is over after boundedly many cycles, not counting those that wait for the bus. */
  lemma {:induction false} FlushBounded(cfg: Config, s: Sys, es: seq<Env>)
    requires Inv(cfg, s) && FlushRun(cfg, s, es)
    ensures BusyCycles(cfg, s, es) + FlushWork(cfg, FlushEnd(cfg, s, es).c) <= FlushWork(cfg, s.c)
    ensures BusyCycles(cfg, s, es) <= cfg.Lines() * (cfg.lineWords + 2)
    decreases |es|
  {
    WorkBounds(cfg, s);
    if es != [] {
      FlushConserves(cfg, s, es[0]);
      FlushProgress(cfg, s, es[0]);
      hide Next, Inv, FlushWork, Legal;
      FlushBounded(cfg, Next(cfg, s, es[0]), es[1..]);
      WorkBounds(cfg, FlushEnd(cfg, s, es));
    }
  }

  lemma WorkBounds(cfg: Config, s: Sys)
    requires Inv(cfg, s)
    ensures 0 <= FlushWork(cfg, s.c) <= cfg.Lines() * (cfg.lineWords + 2)
  {
    var c := s.c;
    assert c.flushScan < cfg.Lines() && c.fillWord < cfg.lineWords;
    hide Inv, Shape;
    var n, k := cfg.Lines() - c.flushScan, cfg.lineWords + 2;
    WorkPositive(n, k, if c.state == Wb then c.fillWord + 1 else 0);
    WorkPositive(cfg.Lines(), k, 0);
    ProductMono(n, cfg.Lines(), k);
  }

  /** Bus beats left before the pending miss is answered. */
  function MissBeats(cfg: Config, c: Cache): int {
    if c.state == Wb then 2 * cfg.lineWords - c.fillWord else cfg.lineWords - c.fillWord
  }

  /** A miss is answered with exactly its last beat, and every beat counts. */
  lemma MissProgress(cfg: Config, s: Sys, e: Env)
    requires Inv(cfg, s) && Legal(cfg, s, e) && !s.c.flushActive && (s.c.state == Wb || s.c.state == Fill)
    ensures MissBeats(cfg, s.c) > 0
    ensures Answer(cfg, s, e).ready <==> e.ack && MissBeats(cfg, s.c) == 1
    ensures !Answer(cfg, s, e).ready ==>
      var u := Next(cfg, s, e);
      (u.c.state == Wb || u.c.state == Fill) && !u.c.flushActive &&
      MissBeats(cfg, u.c) == MissBeats(cfg, s.c) - if e.ack then 1 else 0
  {
    if s.c.state == Fill && e.ack && LastWord(cfg, s.c) {
      FillAnswer(cfg, s, e);
    }
    assert !s.c.huPending && (s.c.state == Wb ==> !s.c.wbToFlush) && s.held == e.req by {
      hide Shape, UniqueTags, CleanSynced, WritingBack, ScannedClean, Filled, Hit;
    }
    hide UniqueTags, CleanSynced, WritingBack, ScannedClean, HitsNow, TouchSet, TouchedLine, BusyHitData, Hit, Filled, StateInv;
  }

  /** A legal run during which the pending miss has not been answered yet. */
  ghost predicate WaitingRun(cfg: Config, s: Sys, es: seq<Env>)
    requires Inv(cfg, s)
    decreases |es|
  {
    es == [] ||
    (Legal(cfg, s, es[0]) && !Answer(cfg, s, es[0]).ready &&
     (StepServes(cfg, s, es[0]); WaitingRun(cfg, Next(cfg, s, es[0]), es[1..])))
  }

  ghost function WaitingEnd(cfg: Config, s: Sys, es: seq<Env>): (u: Sys)
    requires Inv(cfg, s) && WaitingRun(cfg, s, es)
    ensures Inv(cfg, u)
    decreases |es|
  {
    if es == [] then s
    else
      StepServes(cfg, s, es[0]);
      WaitingEnd(cfg, Next(cfg, s, es[0]), es[1..])
  }

  function Acks(es: seq<Env>): nat {
    if es == [] then 0 else (if es[0].ack then 1 else 0) + Acks(es[1..])
  }

  /**
    A miss waits through exactly its beats: as long as it is unanswered fewer acks than beats have
    come, and the next cycle answers it if and only if it brings the last one.
   */
  lemma {:induction false} MissBounded(cfg: Config, s: Sys, es: seq<Env>, e: Env)
    requires Inv(cfg, s) && !s.c.flushActive && (s.c.state == Wb || s.c.state == Fill) && WaitingRun(cfg, s, es)
    requires Legal(cfg, WaitingEnd(cfg, s, es), e)
    ensures Acks(es) < MissBeats(cfg, s.c)
    ensures Answer(cfg, WaitingEnd(cfg, s, es), e).ready <==> e.ack && Acks(es) + 1 == MissBeats(cfg, s.c)
    decreases |es|
  {
    if es == [] {
      MissProgress(cfg, s, e);
    } else {
      MissProgress(cfg, s, es[0]);
      StepServes(cfg, s, es[0]);
      hide Next, Inv, MissBeats, Legal, Answer;
      MissBounded(cfg, Next(cfg, s, es[0]), es[1..], e);
    }
  }
}
