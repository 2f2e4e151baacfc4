/**
  Whole runs of the cache: started from reset, over any legal sequence of requests, flushes and
  bus acknowledgements, it answers as the flat memory does.
 */
module CacheRuns {
  import opened Wrappers
  import opened DataCache
  import opened CacheRefinement
  import opened FlatMemory

  /** The bytes the CPU sees. */
  ghost function ViewBytes(cfg: Config, s: Sys): (bytes: seq<bv8>)
    requires Shape(cfg, s.c) && |s.mem| == cfg.MemWords()
    ensures |bytes| == 4 * cfg.MemWords()
  {
    seq(4 * cfg.MemWords(), k requires 0 <= k < 4 * cfg.MemWords() => Lane(View(cfg, s, k / 4), k % 4))
  }

  lemma ViewBytesWord(cfg: Config, s: Sys, w: nat)
    requires Shape(cfg, s.c) && |s.mem| == cfg.MemWords() && w < cfg.MemWords()
    ensures WordAt(ViewBytes(cfg, s), w) == View(cfg, s, w)
  {
    hide Shape, View;
    assert (4 * w) / 4 == w && (4 * w + 1) / 4 == w && (4 * w + 2) / 4 == w && (4 * w + 3) / 4 == w;
  }

  lemma BytesByWords(x: seq<bv8>, y: seq<bv8>, n: nat)
    requires |x| == |y| == 4 * n
    requires forall w :: 0 <= w < n ==> WordAt(x, w) == WordAt(y, w)
    ensures x == y
  {
    forall k | 0 <= k < 4 * n
      ensures x[k] == y[k]
    {
      var w := k / 4;
      assert WordAt(x, w) == WordAt(y, w);
      assert k == 4 * w || k == 4 * w + 1 || k == 4 * w + 2 || k == 4 * w + 3;
    }
  }

  /** An answered request and the data that came with the answer. */
  datatype Done = Done(req: Request, rdata: Word)

  function Completed(cfg: Config, s: Sys, e: Env): seq<Done>
    requires Shape(cfg, s.c) && Legal(cfg, s, e)
  {
    if e.req.Some? && Answer(cfg, s, e).ready then [Done(e.req.value, Answer(cfg, s, e).rdata)] else []
  }

  /** The flat memory after serving a request. */
  function Serve(bytes: seq<bv8>, r: Request): (b: seq<bv8>)
    requires Access(|bytes|, r.addr, r.funct3)
    ensures |b| == |bytes|
  {
    if r.Store? then FlatWrite(bytes, r.addr, r.funct3, r.wdata) else bytes
  }

  /** The answers `log` are what the flat memory starting at `bytes` gives, ending at `final`. */
  predicate FlatAnswers(bytes: seq<bv8>, log: seq<Done>, final: seq<bv8>)
    decreases |log|
  {
    if log == [] then final == bytes
    else
      var r := log[0].req;
      Access(|bytes|, r.addr, r.funct3) &&
      (r.Load? ==> log[0].rdata == FlatRead(bytes, r.addr, r.funct3)) &&
      FlatAnswers(Serve(bytes, r), log[1..], final)
  }

  lemma RequestAccess(cfg: Config, r: Request)
    requires cfg.WellFormed()
    ensures ValidRequest(cfg, r) <==> Access(4 * cfg.MemWords(), r.addr, r.funct3)
  {
    if ValidRequest(cfg, r) {
      AlignedSpans(4 * cfg.MemWords(), r.addr, r.funct3);
    }
  }

  /** A word-wise account of one answer is one answer of the flat memory. */
  lemma AnswersByWords(x: seq<bv8>, y: seq<bv8>, n: nat, r: Request, rdata: Word)
    requires |x| == |y| == 4 * n && Access(4 * n, r.addr, r.funct3) && r.addr / 4 < n
    requires r.Load? ==> rdata == ExtendRead(WordAt(x, r.addr / 4), r.funct3, r.addr % 4)
    requires forall w :: 0 <= w < n ==>
      WordAt(y, w) == if r.Store? && w == r.addr / 4 then MergeWrite(WordAt(x, w), r.funct3, r.addr % 4, r.wdata)
                      else WordAt(x, w)
    ensures FlatAnswers(x, [Done(r, rdata)], y)
  {
    hide ExtendRead, MergeWrite, WordAt, FlatRead, FlatWrite;
    ReadFromWord(x, r.addr, r.funct3);
    forall w | 0 <= w < n
      ensures WordAt(Serve(x, r), w) == WordAt(y, w)
    {
      if r.Store? {
        WriteIntoWord(x, r.addr, r.funct3, r.wdata, w);
      }
    }
    BytesByWords(Serve(x, r), y, n);
    var log := [Done(r, rdata)];
    assert log[1..] == [];
  }

  /** One edge, in bytes. */
  lemma StepServes(cfg: Config, s: Sys, e: Env)
    requires Inv(cfg, s) && Legal(cfg, s, e)
    ensures Inv(cfg, Next(cfg, s, e))
    ensures FlatAnswers(ViewBytes(cfg, s), Completed(cfg, s, e), ViewBytes(cfg, Next(cfg, s, e)))
  {
    hide Shape, Inv, View, Next, Respond, UniqueTags, ViewBytes, WordAt, MergeWrite, ExtendRead, FlatAnswers;
    InvShape(cfg, s);
    StepRefines(cfg, s, e);
    var u := Next(cfg, s, e);
    InvShape(cfg, u);
    var x, y := ViewBytes(cfg, s), ViewBytes(cfg, u);
    forall w | 0 <= w < cfg.MemWords()
      ensures WordAt(x, w) == View(cfg, s, w) && WordAt(y, w) == View(cfg, u, w)
    {
      ViewBytesWord(cfg, s, w);
      ViewBytesWord(cfg, u, w);
    }
    if e.req.Some? && Answer(cfg, s, e).ready {
      RequestAccess(cfg, e.req.value);
      AnswersByWords(x, y, cfg.MemWords(), e.req.value, Answer(cfg, s, e).rdata);
    } else {
      BytesByWords(x, y, cfg.MemWords());
      NoAnswers(x);
    }
  }

  lemma NoAnswers(x: seq<bv8>)
    ensures FlatAnswers(x, [], x)
  {
  }

  // ---- runs ----

  /** Every environment choice is legal in the state it is made in. */
  ghost predicate LegalRun(cfg: Config, s: Sys, es: seq<Env>)
    requires Inv(cfg, s)
    decreases |es|
  {
    es == [] ||
    (Legal(cfg, s, es[0]) && (StepServes(cfg, s, es[0]); LegalRun(cfg, Next(cfg, s, es[0]), es[1..])))
  }

  /** The state at the end of a run. */
  ghost function RunState(cfg: Config, s: Sys, es: seq<Env>): (u: Sys)
    requires Inv(cfg, s) && LegalRun(cfg, s, es)
    ensures Inv(cfg, u)
    decreases |es|
  {
    if es == [] then s
    else
      StepServes(cfg, s, es[0]);
      RunState(cfg, Next(cfg, s, es[0]), es[1..])
  }

  /** A run is its first edge and the rest. */
  lemma FirstOfRun(cfg: Config, s: Sys, es: seq<Env>)
    requires Inv(cfg, s) && Shape(cfg, s.c) && UniqueTags(cfg, s.c) && es != [] && Legal(cfg, s, es[0])
    requires Inv(cfg, Next(cfg, s, es[0])) && LegalRun(cfg, Next(cfg, s, es[0]), es[1..])
    ensures LegalRun(cfg, s, es) && RunState(cfg, s, es) == RunState(cfg, Next(cfg, s, es[0]), es[1..])
  {
    hide Inv, Shape, UniqueTags, Next, Legal, FlatAnswers;
  }

  lemma RunSplits(cfg: Config, s: Sys, es: seq<Env>)
    requires Inv(cfg, s) && LegalRun(cfg, s, es) && es != []
    ensures Shape(cfg, s.c) && UniqueTags(cfg, s.c) && Legal(cfg, s, es[0])
    ensures Inv(cfg, Next(cfg, s, es[0])) && LegalRun(cfg, Next(cfg, s, es[0]), es[1..])
    ensures RunState(cfg, s, es) == RunState(cfg, Next(cfg, s, es[0]), es[1..])
  {
    InvShape(cfg, s);
    hide Inv, Shape, UniqueTags, Next, Legal, FlatAnswers;
    StepServes(cfg, s, es[0]);
  }

  lemma NoRun(cfg: Config, s: Sys)
    requires Inv(cfg, s)
    ensures LegalRun(cfg, s, []) && RunState(cfg, s, []) == s
  {
  }

  /** The requests answered along a run, in order. */
  ghost function RunLog(cfg: Config, s: Sys, es: seq<Env>): seq<Done>
    requires Inv(cfg, s) && LegalRun(cfg, s, es)
    decreases |es|
  {
    if es == [] then []
    else
      StepServes(cfg, s, es[0]);
      Completed(cfg, s, es[0]) + RunLog(cfg, Next(cfg, s, es[0]), es[1..])
  }

  lemma {:induction false} FlatAnswersAppend(a: seq<bv8>, x: seq<Done>, b: seq<bv8>, y: seq<Done>, c: seq<bv8>)
    requires FlatAnswers(a, x, b) && FlatAnswers(b, y, c)
    ensures FlatAnswers(a, x + y, c)
    decreases |x|
  {
    if x == [] {
      assert x + y == y;
    } else {
      FlatAnswersAppend(Serve(a, x[0].req), x[1..], b, y, c);
      assert (x + y)[1..] == x[1..] + y;
    }
  }

  /**
    Safety over whole runs: the invariant holds throughout, and the answers given along the way
    are exactly the flat memory's, whatever the timing of the bus and wherever flushes fell.
   */
  lemma {:induction false} RunServes(cfg: Config, s: Sys, es: seq<Env>)
    requires Inv(cfg, s) && LegalRun(cfg, s, es)
    ensures FlatAnswers(ViewBytes(cfg, s), RunLog(cfg, s, es), ViewBytes(cfg, RunState(cfg, s, es)))
    decreases |es|
  {
    if es == [] {
    } else {
      var u := Next(cfg, s, es[0]);
      StepServes(cfg, s, es[0]);
      hide Inv, Next, FlatAnswers, ViewBytes, Completed, Legal;
      RunServes(cfg, u, es[1..]);
      FlatAnswersAppend(ViewBytes(cfg, s), Completed(cfg, s, es[0]), ViewBytes(cfg, u),
                        RunLog(cfg, u, es[1..]), ViewBytes(cfg, RunState(cfg, u, es[1..])));
    }
  }

  // ---- reset ----

  lemma ResetShape(cfg: Config, c: Cache)
    requires Widths(cfg, c)
    ensures Shape(cfg, Reset(cfg, c))
  {
    forall k | 0 <= k < cfg.sets
      ensures Ranking(Reset(cfg, c).age[k], cfg.ways)
    {
      forall j | 0 <= j < cfg.ways
        ensures j in Reset(cfg, c).age[k]
      {
        assert Reset(cfg, c).age[k][j] == j;
      }
    }
  }

  /** Whatever the registers held, reset establishes the invariant and shows the backing memory. */
  /** After reset nothing is held, pending or announced, replacement starts afresh, and the rest is as it was. */
  lemma ResetClears(cfg: Config, was: Cache)
    requires Widths(cfg, was)
    ensures var c := Reset(cfg, was);
            c.state == Idle && c.mshrCount == 0 && !c.huPending && !c.flushActive && !c.flushDone &&
            |c.valid| == |c.dirty| == cfg.Lines() && |c.victim| == |c.age| == cfg.sets &&
            (forall l :: 0 <= l < cfg.Lines() ==> !c.valid[l] && !c.dirty[l]) &&
            (forall k :: 0 <= k < cfg.sets ==> c.victim[k] == 0 && |c.age[k]| == cfg.ways) &&
            (forall k, j :: 0 <= k < cfg.sets && 0 <= j < cfg.ways ==> c.age[k][j] == j) &&
            c.tag == was.tag && c.data == was.data && c.mshr == was.mshr && c.fillWord == was.fillWord &&
            c.wbLine == was.wbLine && c.flushScan == was.flushScan
  {
  }

  lemma ResetInv(cfg: Config, was: Cache, mem: seq<Word>)
    requires Widths(cfg, was) && |mem| == cfg.MemWords()
    ensures Inv(cfg, Sys(Reset(cfg, was), mem, None))
    ensures forall w :: 0 <= w < cfg.MemWords() ==> View(cfg, Sys(Reset(cfg, was), mem, None), w) == mem[w]
  {
    var c := Reset(cfg, was);
    var s := Sys(c, mem, None);
    ResetShape(cfg, was);
    hide Ranking;
    forall st, t, way | 0 <= st < cfg.sets && 0 <= way < cfg.ways
      ensures !WayHit(cfg, c, st, t, way)
    {
      LineInRange(cfg, st, way);
    }
    forall w | 0 <= w < cfg.MemWords()
      ensures View(cfg, s, w) == mem[w]
    {
      AddressFields(cfg, w);
      assert forall way: nat :: !Holds(cfg, c, w, way);
    }
  }

  /** From reset, the cache over memory `mem` is the flat memory that starts with mem's bytes. */
  lemma CacheIsFlatMemory(cfg: Config, was: Cache, mem: seq<Word>, s: Sys, es: seq<Env>)
    requires Widths(cfg, was) && |mem| == cfg.MemWords() && s == Sys(Reset(cfg, was), mem, None)
    ensures Inv(cfg, s)
    ensures forall w :: 0 <= w < cfg.MemWords() ==> WordAt(ViewBytes(cfg, s), w) == mem[w]
    ensures LegalRun(cfg, s, es) ==>
      FlatAnswers(ViewBytes(cfg, s), RunLog(cfg, s, es), ViewBytes(cfg, RunState(cfg, s, es)))
  {
    ResetInv(cfg, was, mem);
    hide Reset;
    ResetBytes(cfg, s);
    hide *;
    if LegalRun(cfg, s, es) {
      RunServes(cfg, s, es);
    }
  }

  lemma ResetBytes(cfg: Config, s: Sys)
    requires Inv(cfg, s) && forall w :: 0 <= w < cfg.MemWords() ==> View(cfg, s, w) == s.mem[w]
    ensures forall w :: 0 <= w < cfg.MemWords() ==> WordAt(ViewBytes(cfg, s), w) == s.mem[w]
  {
    forall w | 0 <= w < cfg.MemWords()
      ensures WordAt(ViewBytes(cfg, s), w) == s.mem[w]
    {
      ViewBytesWord(cfg, s, w);
    }
  }
}
