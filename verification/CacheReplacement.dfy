/**
  Which way a miss displaces: under LRU the way whose last access is oldest, under round-robin
  the way filled earliest.
 */
module CacheReplacement {
  import opened Wrappers
  import opened Arithmetic
  import opened DataCache
  import opened CacheRefinement
  import opened CacheRuns

  // ---- recency ranks against access history ----

  /** When `way` was last accessed in the history; before any access, lower ways count as later. */
  function LastTouch(h: seq<nat>, way: nat): int {
    if h == [] then -1 - way
    else if h[|h| - 1] == way then |h| - 1
    else LastTouch(h[..|h| - 1], way)
  }

  /** Rank order is access order, most recent first. */
  predicate OrderedBy(age: seq<nat>, h: seq<nat>) {
    forall i, j :: 0 <= i < |age| && 0 <= j < |age| ==> (age[i] < age[j] <==> LastTouch(h, i) > LastTouch(h, j))
  }

  lemma {:induction false} LastTouchBound(h: seq<nat>, way: nat)
    ensures LastTouch(h, way) < |h|
  {
    if h == [] || h[|h| - 1] == way {
    } else {
      LastTouchBound(h[..|h| - 1], way);
    }
  }

  lemma AppendTouch(h: seq<nat>, way: nat, k: nat)
    ensures LastTouch(h + [way], k) == if k == way then |h| else LastTouch(h, k)
  {
    assert (h + [way])[..|h|] == h;
  }

  /** lru_touch records one more access. */
  lemma TouchOrders(age: seq<nat>, h: seq<nat>, way: nat)
    requires Ranking(age, |age|) && OrderedBy(age, h) && way < |age|
    ensures OrderedBy(Touch(age, way), h + [way])
  {
    var a := Touch(age, way);
    forall i, j | 0 <= i < |a| && 0 <= j < |a|
      ensures a[i] < a[j] <==> LastTouch(h + [way], i) > LastTouch(h + [way], j)
    {
      AppendTouch(h, way, i);
      AppendTouch(h, way, j);
      LastTouchBound(h, i);
      LastTouchBound(h, j);
      assert age[i] < age[j] <==> LastTouch(h, i) > LastTouch(h, j);
      if i != j {
        assert age[i] != age[j];
      }
    }
  }

  lemma ResetOrdered(n: nat)
    ensures OrderedBy(seq(n, j => j), [])
  {
  }

  /** The oldest rank belongs to the least recently accessed way, and to no other. */
  lemma OldestIsLeastRecent(age: seq<nat>, h: seq<nat>, way: nat)
    requires Ranking(age, |age|) && OrderedBy(age, h) && way < |age| && age[way] == |age| - 1
    ensures forall k :: 0 <= k < |age| && k != way ==> age[k] != |age| - 1 && LastTouch(h, way) < LastTouch(h, k)
  {
    forall k | 0 <= k < |age| && k != way
      ensures age[k] != |age| - 1 && LastTouch(h, way) < LastTouch(h, k)
    {
      assert age[k] != age[way];
      assert age[k] < age[way] <==> LastTouch(h, k) > LastTouch(h, way);
    }
  }

  // ---- what an edge does to ranks and pointers ----

  datatype Event = Event(set_: nat, way: nat)

  predicate FillDone(cfg: Config, s: Sys, e: Env) {
    s.c.state == Fill && e.ack && LastWord(cfg, s.c)
  }

  /** The way installed by this edge, if a fill ends on it. */
  function FillEvent(cfg: Config, s: Sys, e: Env): Option<Event> {
    if FillDone(cfg, s, e) then Some(Event(s.c.mshr.set_, s.c.mshr.way)) else None
  }

  lemma LegalReady(cfg: Config, s: Sys, e: Env)
    requires Inv(cfg, s) && Legal(cfg, s, e)
    ensures Ready(cfg, s.c, ToInput(s, e)) && cfg.ways > 0
  {
    hide UniqueTags, CleanSynced, StateInv, Ranking;
  }

  /** The way accessed by this edge: a hit's, or the one just installed. */
  ghost function AccessEvent(cfg: Config, s: Sys, e: Env): Option<Event>
    requires Inv(cfg, s) && Legal(cfg, s, e)
  {
    LegalReady(cfg, s, e);
    var hit := HitEvent(cfg, s.c, ToInput(s, e));
    if hit.Some? then hit else FillEvent(cfg, s, e)
  }

  function LineEvent(ways: nat, line: nat): Event
    requires ways > 0
  {
    Event(line / ways, line % ways)
  }

  /** The way of a hit answered on this edge. */
  function HitEvent(cfg: Config, c: Cache, i: Input): Option<Event>
    requires Ready(cfg, c, i) && cfg.ways > 0
  {
    if AccessHit(cfg, c, i) then
      var line := TouchedLine(cfg, c, i);
      Some(LineEvent(cfg.ways, line))
    else None
  }

  lemma EventInRange(cfg: Config, s: Sys, e: Env)
    requires Inv(cfg, s) && Legal(cfg, s, e)
    ensures AccessEvent(cfg, s, e).Some? ==>
      AccessEvent(cfg, s, e).value.set_ < cfg.sets && AccessEvent(cfg, s, e).value.way < cfg.ways
  {
    if AccessHit(cfg, s.c, ToInput(s, e)) {
      LineSplit(cfg, TouchedLine(cfg, s.c, ToInput(s, e)));
    }
  }

  /** Accesses are exactly the answered requests. */
  lemma AccessIsAnswer(cfg: Config, s: Sys, e: Env)
    requires Inv(cfg, s) && Legal(cfg, s, e)
    ensures AccessEvent(cfg, s, e).Some? <==> e.req.Some? && Answer(cfg, s, e).ready
    ensures AccessEvent(cfg, s, e).Some? ==> AccessEvent(cfg, s, e).value.set_ == cfg.Set(e.req.value.addr / 4)
  {
    var i := ToInput(s, e);
    if AccessHit(cfg, s.c, i) && s.c.state == Idle {
      var w := e.req.value.addr / 4;
      var way := HitWay(cfg, s.c, w);
      LineFields(cfg, cfg.Set(w), way);
    } else if FillDone(cfg, s, e) {
      FillAnswer(cfg, s, e);
    }
    hide Shape, UniqueTags, CleanSynced, WritingBack, ScannedClean, Filled, HitsAt, Hit;
  }

  /** The way of an access is where the answered word is, after a fill as after a hit. */
  lemma AccessHolds(cfg: Config, s: Sys, e: Env)
    requires Inv(cfg, s) && Legal(cfg, s, e) && AccessEvent(cfg, s, e).Some?
    ensures var v, c := AccessEvent(cfg, s, e).value, Next(cfg, s, e).c;
            v.way < cfg.ways && Shape(cfg, c) && v.set_ < cfg.sets && e.req.Some? &&
            WayHit(cfg, c, v.set_, cfg.Tag(e.req.value.addr / 4), v.way)
  {
    InvShape(cfg, s);
    StepRefines(cfg, s, e);
    InvShape(cfg, Next(cfg, s, e));
    AccessIsAnswer(cfg, s, e);
    var i, w := ToInput(s, e), e.req.value.addr / 4;
    if AccessHit(cfg, s.c, i) {
      HitHolds(cfg, s, e);
    } else {
      FillHolds(cfg, s, e);
    }
  }

  lemma HitHolds(cfg: Config, s: Sys, e: Env)
    requires Inv(cfg, s) && Legal(cfg, s, e) && AccessHit(cfg, s.c, ToInput(s, e))
    requires Shape(cfg, Next(cfg, s, e).c)
    ensures var v, c := AccessEvent(cfg, s, e).value, Next(cfg, s, e).c;
            v.way < cfg.ways && v.set_ < cfg.sets && WayHit(cfg, c, v.set_, cfg.Tag(e.req.value.addr / 4), v.way)
  {
    InvShape(cfg, s);
    HitTagsStay(cfg, s, e);
    SameTags(cfg, s.c, Next(cfg, s, e).c);
    hide Inv, Shape, UniqueTags, Next, WayHit, Ranking;
    var w := e.req.value.addr / 4;
    if s.c.state == Idle {
      var way := HitWay(cfg, s.c, w);
      LineFields(cfg, cfg.Set(w), way);
    } else {
      ReadHolds(cfg, s, e);
    }
  }

  /** The line of a pending hit read is one of the request's set, with its tag. */
  lemma ReadHolds(cfg: Config, s: Sys, e: Env)
    requires Inv(cfg, s) && Legal(cfg, s, e) && s.c.state == HitRd && AccessHit(cfg, s.c, ToInput(s, e))
    ensures var w := e.req.value.addr / 4;
            var set_, way := s.c.hitLine / cfg.ways, s.c.hitLine % cfg.ways;
            way < cfg.ways && set_ < cfg.sets && WayHit(cfg, s.c, set_, cfg.Tag(w), way)
  {
    hide UniqueTags, CleanSynced, Ranking, Filled;
    LineSplit(cfg, s.c.hitLine);
    hide Config.Line;
  }

  lemma HitTagsStay(cfg: Config, s: Sys, e: Env)
    requires Inv(cfg, s) && Legal(cfg, s, e) && AccessHit(cfg, s.c, ToInput(s, e))
    ensures Next(cfg, s, e).c.valid == s.c.valid && Next(cfg, s, e).c.tag == s.c.tag
  {
    hide UniqueTags, CleanSynced, Ranking, Filled, HitsAt, Prepared, Respond;
    PreparedKeeps(cfg, s, e);
    PreparedTags(cfg, s, e);
    HitStays(cfg, s, e);
  }

  lemma PreparedTags(cfg: Config, s: Sys, e: Env)
    requires Inv(cfg, s) && Legal(cfg, s, e)
    ensures Shape(cfg, s.c) && UniqueTags(cfg, s.c)
    ensures Prepared(cfg, s, e).c.valid == s.c.valid && Prepared(cfg, s, e).c.tag == s.c.tag
  {
    InvShape(cfg, s);
    hide Inv, Shape, UniqueTags;
  }

  /** A hit goes on to a hit arm, which leaves valid bits and tags alone. */
  lemma HitStays(cfg: Config, s: Sys, e: Env)
    requires Inv(cfg, s) && Legal(cfg, s, e) && AccessHit(cfg, s.c, ToInput(s, e))
    ensures var t := Prepared(cfg, s, e);
            Shape(cfg, t.c) && UniqueTags(cfg, t.c) && Legal(cfg, t, e) &&
            ArmNext(cfg, t, e).c.valid == t.c.valid && ArmNext(cfg, t, e).c.tag == t.c.tag
  {
    hide CleanSynced, Ranking, Filled, Prologue, Respond, HitLine, HitWord, UniqueTags, StateInv;
    PreparedKeeps(cfg, s, e);
    SameTags(cfg, s.c, Prepared(cfg, s, e).c);
    hide Shape, WayHit;
  }

  lemma FillHolds(cfg: Config, s: Sys, e: Env)
    requires Inv(cfg, s) && Legal(cfg, s, e) && FillDone(cfg, s, e) && e.req.Some?
    requires Shape(cfg, Next(cfg, s, e).c)
    ensures var v, c := FillEvent(cfg, s, e).value, Next(cfg, s, e).c;
            v.way < cfg.ways && v.set_ < cfg.sets && WayHit(cfg, c, v.set_, cfg.Tag(e.req.value.addr / 4), v.way)
  {
    hide UniqueTags, CleanSynced, Ranking, Filled;
    PreparedKeeps(cfg, s, e);
  }

  /** A fill is recorded exactly when a miss is answered. */
  lemma FillIsMiss(cfg: Config, s: Sys, e: Env)
    requires Inv(cfg, s) && Legal(cfg, s, e)
    ensures FillEvent(cfg, s, e).Some? <==> s.c.state == Fill && e.req.Some? && Answer(cfg, s, e).ready
  {
    if FillDone(cfg, s, e) {
      FillAnswer(cfg, s, e);
    }
    hide UniqueTags, CleanSynced, Ranking, Filled, Hit;
  }

  /** Ranks after lru_touch on an event's way, or as they were. */
  function Ranked(age: seq<seq<nat>>, ev: Option<Event>): seq<seq<nat>> {
    if ev.Some? && ev.value.set_ < |age| && ev.value.way < |age[ev.value.set_]|
    then age[ev.value.set_ := Touch(age[ev.value.set_], ev.value.way)] else age
  }

  /** Ahead of the case split only a hit moves the ranks. */
  lemma PrologueRanks(cfg: Config, c: Cache, i: Input)
    requires Ready(cfg, c, i) && cfg.ways > 0 && cfg.lru
    ensures Prologue(cfg, c, i).age == Ranked(c.age, HitEvent(cfg, c, i))
  {
    hide UniqueTags, HitsNow, Touch, Ranking, BusyHitData, TouchedLine;
    if AccessHit(cfg, c, i) {
      var line := TouchedLine(cfg, c, i);
      LineSplit(cfg, line);
      assert Ranking(c.age[line / cfg.ways], cfg.ways);
      RowLength(c.age[line / cfg.ways], cfg.ways);
    }
  }

  lemma RowLength(row: seq<nat>, n: nat)
    requires Ranking(row, n)
    ensures |row| == n
  {
  }

  /** The case split moves them only at the end of a fill. */
  lemma ArmRanks(cfg: Config, c: Cache, i: Input)
    requires Ready(cfg, c, i) && Ready(cfg, Prologue(cfg, c, i), i) && cfg.lru
    ensures Step(cfg, c, i).age ==
              Ranked(Prologue(cfg, c, i).age, if c.state == Fill && i.ack && LastWord(cfg, c)
                                              then Some(Event(c.mshr.set_, c.mshr.way)) else None)
  {
    var d := Prologue(cfg, c, i);
    hide Prologue, UniqueTags, HitsNow, Touch, Ranking, VictimWay, HitLine, MergeWrite, HitDataAcc;
    assert c.mshr.set_ < cfg.sets && Ranking(d.age[c.mshr.set_], cfg.ways);
    RowLength(d.age[c.mshr.set_], cfg.ways);
  }

  /** Under LRU the ranks move by lru_touch on the accessed way and stay otherwise. */
  lemma AgeStep(cfg: Config, s: Sys, e: Env)
    requires Inv(cfg, s) && Legal(cfg, s, e) && cfg.lru
    ensures Next(cfg, s, e).c.age == Ranked(s.c.age, AccessEvent(cfg, s, e))
  {
    hide Inv, Shape, UniqueTags, Legal, Step, Prologue, Ranked, HitsNow, TouchedLine;
    LegalReady(cfg, s, e);
    var i := ToInput(s, e);
    PrologueShape(cfg, s.c, i);
    PrologueRanks(cfg, s.c, i);
    ArmRanks(cfg, s.c, i);
    RankedNone(s.c.age);
    RankedNone(Prologue(cfg, s.c, i).age);
  }

  lemma RankedNone(age: seq<seq<nat>>)
    ensures Ranked(age, None) == age
  {
  }

  /** The round-robin pointer moves past a way exactly when a fill of it ends. */
  lemma VictimStep(cfg: Config, s: Sys, e: Env)
    requires Inv(cfg, s) && Legal(cfg, s, e)
    ensures FillDone(cfg, s, e) ==> s.c.mshr.set_ < |s.c.victim|
    ensures Next(cfg, s, e).c.victim ==
              if FillDone(cfg, s, e)
              then s.c.victim[s.c.mshr.set_ := if s.c.mshr.way + 1 == cfg.ways then 0 else s.c.mshr.way + 1]
              else s.c.victim
  {
    hide UniqueTags, CleanSynced, StateInv, HitsNow, Touch, Ranking, BusyHitData, TouchedLine, TouchSet, VictimWay, HitLine, MergeWrite, HitDataAcc;
  }

  // ---- LRU over whole runs ----

  /** The ways accessed in one set along a run. */
  ghost function AccessHistory(cfg: Config, s: Sys, es: seq<Env>, st: nat): seq<nat>
    requires Inv(cfg, s) && LegalRun(cfg, s, es)
    decreases |es|
  {
    if es == [] then []
    else
      StepServes(cfg, s, es[0]);
      Mark(AccessEvent(cfg, s, es[0]), st) + AccessHistory(cfg, Next(cfg, s, es[0]), es[1..], st)
  }

  /** What an event adds to a set's history. */
  function Mark(ev: Option<Event>, st: nat): seq<nat> {
    if ev.Some? && ev.value.set_ == st then [ev.value.way] else []
  }

  lemma RowRanked(cfg: Config, s: Sys, st: nat)
    requires Inv(cfg, s) && st < cfg.sets
    ensures st < |s.c.age| && Ranking(s.c.age[st], cfg.ways) && |s.c.age[st]| == cfg.ways
  {
    hide UniqueTags, CleanSynced, StateInv;
  }

  lemma RanksStep(cfg: Config, s: Sys, e: Env, st: nat, h: seq<nat>)
    requires Inv(cfg, s) && Legal(cfg, s, e) && cfg.lru && st < |s.c.age| && st < cfg.sets && OrderedBy(s.c.age[st], h)
    ensures st < |Next(cfg, s, e).c.age|
    ensures OrderedBy(Next(cfg, s, e).c.age[st], h + Mark(AccessEvent(cfg, s, e), st))
  {
    hide Inv, Shape, UniqueTags, Next, Legal, Ranking, OrderedBy, Touch, AccessEvent;
    LegalReady(cfg, s, e);
    RowRanked(cfg, s, st);
    AgeStep(cfg, s, e);
    EventInRange(cfg, s, e);
    var ev := AccessEvent(cfg, s, e);
    if ev.Some? && ev.value.set_ == st {
      TouchOrders(s.c.age[st], h, ev.value.way);
    } else {
      assert h + [] == h;
    }
  }

  lemma Regroup(x: seq<nat>, y: seq<nat>, z: seq<nat>)
    ensures (x + y) + z == x + (y + z)
  {
  }

  lemma {:induction false} RanksFollowHistory(cfg: Config, s: Sys, es: seq<Env>, st: nat, h: seq<nat>)
    requires Inv(cfg, s) && LegalRun(cfg, s, es) && cfg.lru && st < cfg.sets && st < |s.c.age| && OrderedBy(s.c.age[st], h)
    ensures st < |RunState(cfg, s, es).c.age|
    ensures OrderedBy(RunState(cfg, s, es).c.age[st], h + AccessHistory(cfg, s, es, st))
    decreases |es|
  {
    hide Inv, Shape, UniqueTags, Next, Legal, OrderedBy, AccessEvent, FlatAnswers, ViewBytes, Completed, Mark;
    if es == [] {
      assert h + [] == h;
    } else {
      var e := es[0];
      LegalReady(cfg, s, e);
      var u, h' := Next(cfg, s, e), h + Mark(AccessEvent(cfg, s, e), st);
      StepServes(cfg, s, e);
      RanksStep(cfg, s, e, st, h);
      RanksFollowHistory(cfg, u, es[1..], st, h');
      Regroup(h, Mark(AccessEvent(cfg, s, e), st), AccessHistory(cfg, u, es[1..], st));
    }
  }

  /** From reset, an LRU victim is the least recently accessed way of its set, and it is unique. */
  lemma LruVictim(cfg: Config, was: Cache, mem: seq<Word>, s: Sys, es: seq<Env>, st: nat)
    requires Widths(cfg, was) && cfg.lru && |mem| == cfg.MemWords() && s == Sys(Reset(cfg, was), mem, None) && st < cfg.sets
    ensures Inv(cfg, s)
    ensures LegalRun(cfg, s, es) ==>
      var u := RunState(cfg, s, es);
      var h := AccessHistory(cfg, s, es, st);
      var v := VictimWay(cfg, u.c, st);
      v < cfg.ways && forall k :: 0 <= k < cfg.ways && k != v ==> LastTouch(h, v) < LastTouch(h, k)
  {
    ResetInv(cfg, was, mem);
    if LegalRun(cfg, s, es) {
      assert s.c.age[st] == seq(cfg.ways, j => j);
      ResetOrdered(cfg.ways);
      var u := RunState(cfg, s, es);
      var h := AccessHistory(cfg, s, es, st);
      RanksFollowHistory(cfg, s, es, st, []);
      assert [] + h == h;
      VictimInRange(cfg, u.c, st);
      assert Ranking(u.c.age[st], cfg.ways) by { hide UniqueTags, CleanSynced, StateInv, Ranking, RunState; }
      hide Inv, RunState, AccessHistory, LegalRun, Ranking, OrderedBy, VictimWay, LastTouch, Reset;
      OldestIsLeastRecent(u.c.age[st], h, VictimWay(cfg, u.c, st));
    }
  }

  // ---- round-robin over whole runs ----

  /** A pending miss under round-robin holds the way its set's pointer names. */
  predicate PointerHeld(cfg: Config, c: Cache)
    requires Shape(cfg, c)
  {
    (c.state == Fill || (c.state == Wb && !c.wbToFlush)) ==> c.mshr.way == c.victim[c.mshr.set_]
  }

  lemma PointerHeldStep(cfg: Config, s: Sys, e: Env)
    requires Inv(cfg, s) && Legal(cfg, s, e) && !cfg.lru && PointerHeld(cfg, s.c)
    ensures Inv(cfg, Next(cfg, s, e)) && PointerHeld(cfg, Next(cfg, s, e).c)
  {
    hide UniqueTags, CleanSynced, HitsNow, Touch, Ranking, BusyHitData, TouchedLine, TouchSet, HitLine, MergeWrite,
         HitDataAcc, View, LoadCorrect, After, Filled, Hit;
    assert Inv(cfg, Next(cfg, s, e)) by { StepRefines(cfg, s, e); }
    assert s.c.state == Fill ==> s.c.mshrCount == 1;
    hide StateInv;
  }

  /** The ways filled in one set along a run. */
  ghost function FillHistory(cfg: Config, s: Sys, es: seq<Env>, st: nat): seq<nat>
    requires Inv(cfg, s) && LegalRun(cfg, s, es)
    decreases |es|
  {
    if es == [] then []
    else
      StepServes(cfg, s, es[0]);
      Mark(FillEvent(cfg, s, es[0]), st) + FillHistory(cfg, Next(cfg, s, es[0]), es[1..], st)
  }

  function NextWay(cfg: Config, v: nat): nat {
    if v + 1 == cfg.ways then 0 else v + 1
  }

  /** Fills go round the ways in order, starting at the pointer. */
  predicate RoundRobin(cfg: Config, v: nat, h: seq<nat>, v': nat)
    decreases |h|
  {
    if h == [] then v' == v else h[0] == v && RoundRobin(cfg, NextWay(cfg, v), h[1..], v')
  }

  lemma {:induction false} FillsRoundRobin(cfg: Config, s: Sys, es: seq<Env>, st: nat)
    requires Inv(cfg, s) && LegalRun(cfg, s, es) && !cfg.lru && st < cfg.sets && PointerHeld(cfg, s.c)
    ensures RoundRobin(cfg, s.c.victim[st], FillHistory(cfg, s, es, st), RunState(cfg, s, es).c.victim[st])
    decreases |es|
  {
    hide Inv, Shape, UniqueTags, Next, Legal, PointerHeld, FlatAnswers, FillDone;
    SetsInRange(cfg, s, st);
    if es != [] {
      var e := es[0];
      LegalReady(cfg, s, e);
      var u, ev := Next(cfg, s, e), FillEvent(cfg, s, e);
      StepServes(cfg, s, e);
      PointerHeldStep(cfg, s, e);
      VictimStep(cfg, s, e);
      HeldWay(cfg, s, e);
      FillsRoundRobin(cfg, u, es[1..], st);
      var rest := FillHistory(cfg, u, es[1..], st);
      if ev.Some? && ev.value.set_ == st {
        assert ([ev.value.way] + rest)[1..] == rest;
      } else {
        assert [] + rest == rest;
      }
    }
  }

  lemma SetsInRange(cfg: Config, s: Sys, st: nat)
    requires Inv(cfg, s) && st < cfg.sets
    ensures st < |s.c.victim|
  {
    hide UniqueTags, CleanSynced, StateInv, Ranking;
  }

  lemma HeldWay(cfg: Config, s: Sys, e: Env)
    requires Shape(cfg, s.c) && PointerHeld(cfg, s.c)
    ensures FillDone(cfg, s, e) ==> s.c.mshr.set_ < |s.c.victim| && s.c.mshr.way == s.c.victim[s.c.mshr.set_]
  {
    hide Ranking;
  }

  lemma {:induction false} RoundRobinAt(cfg: Config, v: nat, h: seq<nat>, v': nat, k: nat)
    requires cfg.ways > 0 && v < cfg.ways && RoundRobin(cfg, v, h, v') && k < |h|
    ensures h[k] == WayAfter(cfg.ways, v, k)
    ensures v' == WayAfter(cfg.ways, v, |h|)
    decreases |h|
  {
    var n := NextWay(cfg, v);
    WayAfterSteps(cfg.ways, v, |h| - 1);
    if k > 0 {
      WayAfterSteps(cfg.ways, v, k - 1);
    }
    hide WayAfter;
    if |h| == 1 {
      WayAfterSteps(cfg.ways, n, 0);
    } else {
      RoundRobinAt(cfg, n, h[1..], v', if k == 0 then 0 else k - 1);
    }
  }

  /** The way `k` places after `v`. */
  function WayAfter(n: nat, v: nat, k: nat): nat
    requires n > 0
  {
    (v + k) % n
  }

  lemma WayAfterSteps(n: nat, v: nat, k: nat)
    requires v < n
    ensures WayAfter(n, if v + 1 == n then 0 else v + 1, k) == WayAfter(n, v, k + 1)
    ensures WayAfter(n, v, 0) == v
  {
    WrapAdd(v, n, k);
  }

  lemma WrapAdd(v: nat, n: nat, k: nat)
    requires v < n
    ensures ((if v + 1 == n then 0 else v + 1) + k) % n == (v + (k + 1)) % n
    ensures v % n == v
  {
    if v + 1 == n {
      DivModUnique(k, n, k / n, k % n);
      assert v + (k + 1) == n + k;
      assert n + k == (k / n + 1) * n + k % n;
      DivModUnique(n + k, n, k / n + 1, k % n);
    }
  }

  /**
    The k-th fill went to way k mod `ways`, and the next goes to the way after the last one: once
    every way is filled, to the one filled longest ago.
   */
  predicate FilledInOrder(ways: nat, h: seq<nat>, next: nat)
    requires ways > 0
  {
    (forall k :: 0 <= k < |h| ==> h[k] == k % ways) && next == |h| % ways &&
    (|h| >= ways ==> h[|h| - ways] == next && forall k :: |h| - ways < k < |h| ==> h[k] != next)
  }

  /** From reset under round-robin, every run fills a set's ways in order, and the victim is the next. */
  lemma RoundRobinVictim(cfg: Config, was: Cache, mem: seq<Word>, s: Sys, es: seq<Env>, st: nat)
    requires Widths(cfg, was) && !cfg.lru && |mem| == cfg.MemWords() && s == Sys(Reset(cfg, was), mem, None) && st < cfg.sets
    ensures Inv(cfg, s)
    ensures LegalRun(cfg, s, es) ==>
      FilledInOrder(cfg.ways, FillHistory(cfg, s, es, st), VictimWay(cfg, RunState(cfg, s, es).c, st))
  {
    hide FilledInOrder;
    ResetInv(cfg, was, mem);
    if LegalRun(cfg, s, es) {
      assert s.c.victim[st] == 0;
      FillsRoundRobin(cfg, s, es, st);
      hide Inv, RunState, FillHistory, LegalRun, Reset, RoundRobin;
      RoundRobinFrom0(cfg, FillHistory(cfg, s, es, st), RunState(cfg, s, es).c.victim[st]);
    }
  }

  /** Fills that start at way 0, by position. */
  lemma RoundRobinFrom0(cfg: Config, h: seq<nat>, v: nat)
    requires cfg.ways > 0 && RoundRobin(cfg, 0, h, v)
    ensures FilledInOrder(cfg.ways, h, v)
  {
    forall k | 0 <= k < |h|
      ensures h[k] == k % cfg.ways && v == |h| % cfg.ways
    {
      RoundRobinAt(cfg, 0, h, v, k);
    }
    if |h| == 0 {
      DivModUnique(0, cfg.ways, 0, 0);
    }
    hide RoundRobin;
    if |h| >= cfg.ways {
      EarliestFilled(|h|, cfg.ways);
    }
  }

  lemma EarliestFilled(n: nat, w: nat)
    requires n >= w > 0
    ensures (n - w) % w == n % w
    ensures forall k :: n - w < k < n ==> k % w != n % w
  {
    var q, r := n / w, n % w;
    DivBelow(n, w, n + 1) by { assert n < (n + 1) * w; }
    assert n - w == (q - 1) * w + r;
    DivModUnique(n - w, w, q - 1, r);
    forall k | n - w < k < n
      ensures k % w != r
    {
      var j := k - (n - w);
      if r + j < w {
        DivModUnique(k, w, q - 1, r + j);
      } else {
        assert k == q * w + (r + j - w);
        DivModUnique(k, w, q, r + j - w);
      }
    }
  }
}
