/**
  design/FreeList.v: the two-wide free list of physical registers, a ring buffer with separate
  availability query and commit.  The ring refines a FIFO queue, and the queue together with the
  registers handed out always partitions all physical registers.
 */
module FreeList {
  import opened Wrappers
  import opened Arithmetic
  import opened PowersOfTwo

  /** One cycle's ports: two queries, two commits, two reclaims. */
  datatype Ports = Ports(query0: bool, query1: bool, commit0: bool, commit1: bool,
                         free0: Option<nat>, free1: Option<nat>)

  // ---- the ring ----

  datatype Ring = Ring(queue: seq<nat>, head: nat, tail: nat, count: nat) {

    /** Sizes and ranges of the registers. */
    predicate Fits() {
      |queue| >= 2 && head < |queue| && tail < |queue| && count <= |queue|
    }

    /** The tail sits just past the last occupied slot. */
    predicate Linked() requires Fits() {
      tail == Wrap(|queue|, head, count)
    }

    /** The occupied slots, oldest first. */
    function Contents(): (s: seq<nat>) requires Fits() {
      seq(count, k requires 0 <= k < count => queue[Wrap(|queue|, head, k)])
    }
  }

  /** wrap_add. */
  function Wrap(cap: nat, base: nat, amount: nat): (r: nat)
    requires base < cap && amount <= cap
    ensures r < cap
  {
    if base + amount >= cap then base + amount - cap else base + amount
  }

  datatype Grant = Grant(ok0: bool, preg0: nat, ok1: bool, preg1: nat)

  /** alloc_ok0/1 and alloc_preg0/1. */
  function Query(r: Ring, i: Ports): Grant
    requires r.Fits()
  {
    var ok0 := i.query0 && r.count >= 1;
    Grant(ok0, r.queue[r.head],
          i.query1 && r.count >= (if ok0 then 2 else 1), r.queue[Wrap(|r.queue|, r.head, if ok0 then 1 else 0)])
  }

  function Pops(i: Ports): nat {
    (if i.commit0 then 1 else 0) + (if i.commit1 then 1 else 0)
  }

  /** The reclaimed registers in port order. */
  function Freed(i: Ports): seq<nat> {
    (if i.free0.Some? then [i.free0.value] else []) + (if i.free1.Some? then [i.free1.value] else [])
  }

  /** A commit only follows a grant in the same cycle. */
  predicate Granted(r: Ring, i: Ports)
    requires r.Fits()
  {
    (i.commit0 ==> Query(r, i).ok0) && (i.commit1 ==> Query(r, i).ok1)
  }

  /** The reclaims fit in what this cycle leaves free. */
  predicate Room(r: Ring, i: Ports) {
    r.count + |Freed(i)| <= |r.queue| + Pops(i)
  }

  /** How far count_r counts before it wraps: one bit more than an index has. */
  function CountLimit(cap: nat): (m: int)
    ensures 2 * cap <= m && m > 0 && (cap >= 2 ==> m <= 4 * (cap - 1))
  {
    Clog2Covers(cap);
    2 * Pow2(Clog2(cap))
  }

  /** One clock edge: every right-hand side is the value before the edge. */
  function Clocked(r: Ring, i: Ports): Ring
    requires r.Fits() && Granted(r, i)
  {
    var cap := |r.queue|;
    var q0 := if i.free0.Some? then r.queue[r.tail := i.free0.value] else r.queue;
    var q1 := if i.free1.Some? then q0[Wrap(cap, r.tail, if i.free0.Some? then 1 else 0) := i.free1.value] else q0;
    Ring(q1, if i.commit0 then Wrap(cap, r.head, Pops(i)) else r.head,
         if |Freed(i)| != 0 then Wrap(cap, r.tail, |Freed(i)|) else r.tail,
         (r.count - Pops(i) + |Freed(i)|) % CountLimit(cap))
  }

  function ResetRing(aregs: nat, cap: nat): Ring {
    Ring(seq(cap, k => aregs + k), 0, 0, cap)
  }

  // ---- the ring is a FIFO ----

  /** What a query answers, in terms of the queue's contents. */
  lemma QueryAnswers(r: Ring, i: Ports)
    requires r.Fits()
    ensures var s, g := r.Contents(), Query(r, i);
            (g.ok0 <==> i.query0 && |s| >= 1) &&
            (g.ok1 <==> i.query1 && |s| >= (if g.ok0 then 2 else 1)) &&
            (g.ok0 ==> g.preg0 == s[0]) &&
            (g.ok1 ==> g.preg1 == s[if g.ok0 then 1 else 0])
  {
  }

  lemma WrapTwice(cap: nat, base: nat, a: nat, b: nat)
    requires base < cap && a + b <= cap
    ensures Wrap(cap, Wrap(cap, base, a), b) == Wrap(cap, base, a + b)
  {
  }

  /** The pointers and sizes after an edge. */
  lemma ClockedFields(r: Ring, i: Ports)
    requires r.Fits() && Granted(r, i) && Room(r, i)
    ensures var u := Clocked(r, i);
            Pops(i) <= r.count && u.count == r.count - Pops(i) + |Freed(i)| && |u.queue| == |r.queue| &&
            u.head == (if i.commit0 then Wrap(|r.queue|, r.head, Pops(i)) else r.head) &&
            u.tail == Wrap(|r.queue|, r.tail, |Freed(i)|) && u.Fits()
  {
    CountExact(r, i);
    hide CountLimit;
  }

  lemma ClockedSizes(r: Ring, i: Ports)
    requires r.Fits() && r.Linked() && Granted(r, i) && Room(r, i)
    requires i.commit1 ==> i.commit0
    ensures var u := Clocked(r, i);
            u.Fits() && u.Linked() && |u.queue| == |r.queue| && Pops(i) <= r.count &&
            u.count == r.count - Pops(i) + |Freed(i)|
  {
    ClockedFields(r, i);
    hide Clocked, Granted;
    WrapAdvances(|r.queue|, r.head, r.count, Pops(i), |Freed(i)|);
  }

  /** The tail advanced by the pushes is the head advanced by the pops plus the new count, and by nothing else. */
  lemma WrapAdvances(cap: nat, head: nat, count: nat, pops: nat, pushes: nat)
    requires head < cap && count <= cap && pops <= count && count - pops + pushes <= cap && pushes <= 2 <= cap
    ensures var tail := Wrap(cap, Wrap(cap, head, count), pushes);
            tail == Wrap(cap, Wrap(cap, head, pops), count - pops + pushes) &&
            (pops == 1 ==> tail != Wrap(cap, head, count - pops + pushes))
  {
  }

  lemma CountExact(r: Ring, i: Ports)
    requires r.Fits() && Granted(r, i) && Room(r, i)
    ensures Pops(i) <= r.count && Clocked(r, i).count == r.count - Pops(i) + |Freed(i)|
  {
    var n, m := r.count - Pops(i) + |Freed(i)|, CountLimit(|r.queue|);
    assert 0 <= n < m;
    DivModUnique(n, m, 0, n);
  }

  /**
    A clock edge drops the committed registers from the front and appends the reclaimed ones,
    provided slot 1 commits only together with slot 0.
   */
  lemma {:induction false} ClockedIsFifo(r: Ring, i: Ports)
    requires r.Fits() && r.Linked() && Granted(r, i) && Room(r, i)
    requires i.commit1 ==> i.commit0
    ensures var u := Clocked(r, i);
            u.Fits() && u.Linked() && |u.queue| == |r.queue| && u.Contents() == r.Contents()[Pops(i)..] + Freed(i)
  {
    hide Clocked, Wrap, Granted, Freed, Pops, Room, Ring.Linked;
    ClockedSizes(r, i);
    var p, n, c, d := Pops(i), r.count, r.Contents(), Clocked(r, i).Contents();
    forall k | 0 <= k < n - p
      ensures d[k] == c[p + k]
    {
      KeptSlot(r, i, k);
    }
    forall j | 0 <= j < |Freed(i)|
      ensures d[n - p + j] == Freed(i)[j]
    {
      PushedSlot(r, i, j);
    }
    hide Ring.Contents, Ring.Linked;
    assert d == c[p..] + Freed(i);
  }

  lemma KeptSlot(r: Ring, i: Ports, k: nat)
    requires r.Fits() && r.Linked() && Granted(r, i) && Room(r, i) && (i.commit1 ==> i.commit0)
    requires k < r.count - Pops(i)
    ensures Clocked(r, i).queue[Wrap(|r.queue|, Clocked(r, i).head, k)] == r.queue[Wrap(|r.queue|, r.head, Pops(i) + k)]
  {
    var cap, p, n := |r.queue|, Pops(i), r.count;
    WrapTwice(cap, r.head, p, k);
    var slot := Wrap(cap, r.head, p + k);
    assert |Freed(i)| >= 1 ==> slot != r.tail;
    assert |Freed(i)| == 2 ==> slot != Wrap(cap, r.tail, 1);
  }

  lemma PushedSlot(r: Ring, i: Ports, j: nat)
    requires r.Fits() && r.Linked() && Granted(r, i) && Room(r, i) && (i.commit1 ==> i.commit0)
    requires j < |Freed(i)|
    ensures r.count - Pops(i) + j < |r.queue|
    ensures Clocked(r, i).queue[Wrap(|r.queue|, Clocked(r, i).head, r.count - Pops(i) + j)] == Freed(i)[j]
  {
    hide Clocked, Freed, Wrap, Granted;
    ClockedFields(r, i);
    PushedValue(r, i, j);
    NoMove(|r.queue|, r.head);
    WrapTwice(|r.queue|, Clocked(r, i).head, r.count - Pops(i), j);
    WrapTwice(|r.queue|, r.head, Pops(i), r.count - Pops(i));
  }

  lemma PushedValue(r: Ring, i: Ports, j: nat)
    requires r.Fits() && Granted(r, i) && j < |Freed(i)|
    ensures Clocked(r, i).queue[Wrap(|r.queue|, r.tail, j)] == Freed(i)[j]
  {
    hide CountLimit;
    assert r.tail != Wrap(|r.queue|, r.tail, 1);
  }

  /** head_r moves only on commit_en0, so with room the ring stays linked exactly when slot 1 never commits alone. */
  lemma LinkedExactly(r: Ring, i: Ports)
    requires r.Fits() && r.Linked() && Granted(r, i) && Room(r, i)
    ensures Clocked(r, i).Fits()
    ensures Clocked(r, i).Linked() <==> (i.commit1 ==> i.commit0)
  {
    ClockedFields(r, i);
    hide Clocked, Granted, Wrap;
    WrapAdvances(|r.queue|, r.head, r.count, Pops(i), |Freed(i)|);
    NoMove(|r.queue|, r.head);
  }

  lemma NoMove(cap: nat, base: nat)
    requires base < cap
    ensures Wrap(cap, base, 0) == base
  {
  }

  /** The edge pops what was committed and pushes what was reclaimed, and the ring stays in order. */
  ghost predicate IsFifoStep(r: Ring, i: Ports)
    requires r.Fits() && Granted(r, i)
  {
    var u := Clocked(r, i);
    u.Fits() && u.Linked() && Pops(i) <= |r.Contents()| && u.Contents() == r.Contents()[Pops(i)..] + Freed(i)
  }

  /**
    For every cycle whose commits were granted, the edge is a FIFO step if and only if slot 1
    commits only with slot 0 and the reclaims fit.
   */
  lemma FifoExactly(r: Ring, i: Ports)
    requires r.Fits() && r.Linked() && Granted(r, i)
    ensures IsFifoStep(r, i) <==> (i.commit1 ==> i.commit0) && Room(r, i)
  {
    if Room(r, i) {
      LinkedExactly(r, i);
      CountExact(r, i);
      if i.commit1 ==> i.commit0 {
        ClockedIsFifo(r, i);
      }
      hide Clocked, Freed, Pops;
    } else {
      OverfullIsNotFifo(r, i);
    }
  }

  lemma OverfullIsNotFifo(r: Ring, i: Ports)
    requires r.Fits() && Granted(r, i) && !Room(r, i)
    ensures !IsFifoStep(r, i)
  {
    var u := Clocked(r, i);
    assert |r.Contents()| == r.count;
    assert |u.queue| == |r.queue|;
    hide Clocked, Freed, Wrap;
    if u.Fits() {
      assert |u.Contents()| == u.count;
    }
  }

  /** A lone slot-1 commit, with the query granted, hands out a register the ring keeps. */
  lemma LoneCommitExample()
    ensures var r, i := ResetRing(2, 2), Ports(false, true, false, true, None, None);
            r.Fits() && r.Linked() && Granted(r, i) && Room(r, i) && Query(r, i).preg1 == 2 &&
            Clocked(r, i).Contents() == [2] && r.Contents()[1..] == [3]
  {
    var r := ResetRing(2, 2);
    assert r.queue[0] == 2 && r.queue[1] == 3;
  }

  /** Reclaiming a held register into a full ring overwrites the oldest entry. */
  lemma OverfullExample()
    ensures var r, i := ResetRing(2, 2), Ports(false, false, false, false, Some(0), None);
            r.Fits() && r.Linked() && Granted(r, i) && !Room(r, i) && 2 in r.queue && 2 !in Clocked(r, i).queue
  {
    var r, i := ResetRing(2, 2), Ports(false, false, false, false, Some(0), None);
    assert r.queue[0] == 2 && r.queue[1] == 3;
    assert Clocked(r, i).queue == [0, 3];
  }

  lemma ResetContents(aregs: nat, cap: nat)
    requires cap >= 2
    ensures ResetRing(aregs, cap).Fits() && ResetRing(aregs, cap).Linked()
    ensures ResetRing(aregs, cap).Contents() == seq(cap, k => aregs + k)
  {
  }

  // ---- the clocked unit ----

  class FreeListUnit {
    const queue: array<nat>
    var head: nat
    var tail: nat
    var count: nat

    function Snapshot(): Ring
      reads this, queue
    {
      Ring(queue[..], head, tail, count)
    }

    ghost predicate Valid()
      reads this, queue
    {
      Snapshot().Fits() && Snapshot().Linked()
    }

    constructor (aregs: nat, cap: nat)
      requires cap >= 2
      ensures Valid() && fresh(queue) && Snapshot() == ResetRing(aregs, cap)
    {
      queue := new nat[cap](k requires k >= 0 => aregs + k);
      head, tail, count := 0, 0, cap;
      new;
      assert queue[..] == ResetRing(aregs, cap).queue;
    }

    /** The combinational outputs. */
    method Outputs(i: Ports) returns (ok0: bool, preg0: nat, ok1: bool, preg1: nat)
      requires Valid()
      ensures var s := Snapshot().Contents();
              ok0 == (i.query0 && |s| >= 1) && ok1 == (i.query1 && |s| >= (if ok0 then 2 else 1)) &&
              (ok0 ==> preg0 == s[0]) && (ok1 ==> preg1 == s[if ok0 then 1 else 0])
      ensures Query(Snapshot(), i) == Grant(ok0, preg0, ok1, preg1)
    {
      QueryAnswers(Snapshot(), i);
      ok0 := i.query0 && count >= 1;
      ok1 := i.query1 && count >= (if ok0 then 2 else 1);
      preg0 := queue[head];
      preg1 := queue[Wrap(queue.Length, head, if ok0 then 1 else 0)];
    }

    /** One edge; a FIFO step when slot 1 commits only with slot 0 and the reclaims fit. */
    method Clock(i: Ports)
      requires Valid() && Granted(Snapshot(), i)
      modifies this, queue
      ensures Snapshot() == Clocked(old(Snapshot()), i)
      ensures (i.commit1 ==> i.commit0) && old(Room(Snapshot(), i)) ==>
        Valid() && Snapshot().Contents() == old(Snapshot().Contents())[Pops(i)..] + Freed(i)
    {
      ghost var r := Snapshot();
      var cap, pushes := queue.Length, |Freed(i)|;
      if i.free0.Some? {
        queue[tail] := i.free0.value;
      }
      if i.free1.Some? {
        queue[Wrap(cap, tail, if i.free0.Some? then 1 else 0)] := i.free1.value;
      }
      if i.commit0 {
        head := Wrap(cap, head, Pops(i));
      }
      if pushes != 0 {
        tail := Wrap(cap, tail, pushes);
      }
      count := (count - Pops(i) + pushes) % CountLimit(cap);
      assert Snapshot() == Clocked(r, i);
      if (i.commit1 ==> i.commit0) && Room(r, i) {
        hide Clocked, Wrap, Room, Granted, CountLimit;
        ClockedIsFifo(r, i);
      }
    }
  }

  // ---- conservation over runs ----

  /** The ring, the registers its callers hold, and how many of those are architectural mappings. */
  datatype Pool = Pool(ring: Ring, held: set<nat>, aregs: nat) {

    /** All physical registers. */
    function Total(): nat { aregs + |ring.queue| }
  }

  predicate NoDuplicates(s: seq<nat>) {
    forall i, j :: 0 <= i < j < |s| ==> s[i] != s[j]
  }

  function Elements(s: seq<nat>): set<nat> {
    set x | x in s
  }

  /** Queue and held registers partition all registers, and no register is queued twice. */
  ghost predicate Partition(p: Pool)
    requires p.ring.Fits()
  {
    var s, total := p.ring.Contents(), p.Total();
    NoDuplicates(s) &&
    (forall x :: 0 <= x < total ==> (x in s <==> x !in p.held)) &&
    (forall x :: x in p.held ==> x < total) &&
    (forall x :: x in s ==> x < total)
  }

  /** At least the architectural mappings stay held. */
  predicate Retains(p: Pool, i: Ports) {
    p.aregs + |Freed(i)| <= |p.held| + Pops(i)
  }

  /** The caller's contract for a cycle. */
  predicate Legal(p: Pool, i: Ports)
    requires p.ring.Fits()
  {
    Granted(p.ring, i) && (i.commit1 ==> i.commit0) && Retains(p, i) &&
    NoDuplicates(Freed(i)) && (forall x :: x in Freed(i) ==> x in p.held)
  }

  /** The registers the two slots receive this cycle. */
  function Taken(p: Pool, i: Ports): seq<nat>
    requires p.ring.Fits() && Legal(p, i)
  {
    (if i.commit0 then [Query(p.ring, i).preg0] else []) + (if i.commit1 then [Query(p.ring, i).preg1] else [])
  }

  function NextPool(p: Pool, i: Ports): Pool
    requires p.ring.Fits() && Legal(p, i)
  {
    Pool(Clocked(p.ring, i), p.held - Elements(Freed(i)) + Elements(Taken(p, i)), p.aregs)
  }

  ghost predicate Inv(p: Pool) {
    p.ring.Fits() && p.ring.Linked() && Partition(p)
  }

  /** What the slots receive is what the queue gives up, in order. */
  lemma TakenIsFront(p: Pool, i: Ports)
    requires p.ring.Fits() && Legal(p, i)
    ensures Pops(i) <= |p.ring.Contents()|
    ensures Taken(p, i) == p.ring.Contents()[..Pops(i)]
  {
    QueryAnswers(p.ring, i);
  }

  /**
    Every cycle keeps the partition; what it hands out was free, so no register is held twice and
    the two slots of a bundle never share one.
   */
  lemma StepConserves(p: Pool, i: Ports)
    requires Inv(p) && Legal(p, i)
    ensures Inv(NextPool(p, i))
    ensures NoDuplicates(Taken(p, i)) && forall x :: x in Taken(p, i) ==> x !in p.held
    ensures Taken(p, i) + NextPool(p, i).ring.Contents() == p.ring.Contents() + Freed(i)
  {
    hide Clocked, Query, Freed, Taken, Pops, Wrap, Ring.Contents, Ring.Linked, Granted, Room, Retains;
    var s, f, t, u := p.ring.Contents(), Freed(i), Taken(p, i), NextPool(p, i);
    RoomIsRetaining(p, i);
    ClockedIsFifo(p.ring, i);
    TakenIsFront(p, i);
    var n := Pops(i);
    assert t + (s[n..] + f) == s + f by { assert s == t + s[n..]; }
    PartitionStep(p.held, s, n, f, p.Total());
    hide NoDuplicates, Elements;
  }

  /** Keeping the architectural mappings held is the same as never overfilling the ring. */
  lemma RoomIsRetaining(p: Pool, i: Ports)
    requires Inv(p)
    ensures Retains(p, i) <==> Room(p.ring, i)
  {
    Counted(p);
    hide Inv, Pops, Freed;
  }

  /** The set-level content of a step. */
  lemma PartitionStep(held: set<nat>, s: seq<nat>, n: nat, f: seq<nat>, total: nat)
    requires n <= |s| && NoDuplicates(s) && NoDuplicates(f)
    requires forall x :: x in f ==> x in held
    requires forall x :: 0 <= x < total ==> (x in s <==> x !in held)
    requires forall x :: x in held ==> x < total
    requires forall x :: x in s ==> x < total
    ensures var held', s' := held - Elements(f) + Elements(s[..n]), s[n..] + f;
            NoDuplicates(s') && NoDuplicates(s[..n]) &&
            (forall x :: 0 <= x < total ==> (x in s' <==> x !in held')) &&
            (forall x :: x in held' ==> x < total)
    ensures forall x :: x in s[n..] + f ==> x < total
    ensures forall x :: x in s[..n] ==> x !in held
  {
    var s' := s[n..] + f;
    forall a, b | 0 <= a < b < |s'|
      ensures s'[a] != s'[b]
    {
      if b < |s| - n {
        assert s'[a] == s[n + a] && s'[b] == s[n + b];
      } else if a < |s| - n {
        assert s'[a] == s[n + a] && s'[b] == f[b - (|s| - n)];
        assert s'[a] in s && s'[b] in f;
      } else {
        assert s'[a] == f[a - (|s| - n)] && s'[b] == f[b - (|s| - n)];
      }
    }
    forall x | x in s[..n] || x in s[n..]
      ensures x < total
    {
      FrontOrBack(s, n, x);
    }
    forall x | 0 <= x < total
      ensures x in s' <==> x !in held - Elements(f) + Elements(s[..n])
    {
      FrontOrBack(s, n, x);
    }
  }

  /** In a duplicate-free sequence an element lies on exactly one side of a cut. */
  lemma FrontOrBack(s: seq<nat>, n: nat, x: nat)
    requires n <= |s| && NoDuplicates(s)
    ensures x in s <==> x in s[..n] || x in s[n..]
    ensures !(x in s[..n] && x in s[n..])
  {
    assert s == s[..n] + s[n..];
  }

  ghost predicate LegalRun(p: Pool, es: seq<Ports>)
    requires Inv(p)
    decreases |es|
  {
    es == [] ||
    (Legal(p, es[0]) && (StepConserves(p, es[0]); LegalRun(NextPool(p, es[0]), es[1..])))
  }

  ghost function RunPool(p: Pool, es: seq<Ports>): Pool
    requires Inv(p) && LegalRun(p, es)
    decreases |es|
  {
    if es == [] then p else
      StepConserves(p, es[0]);
      RunPool(NextPool(p, es[0]), es[1..])
  }

  /** Every register handed out along a run, in order. */
  ghost function AllTaken(p: Pool, es: seq<Ports>): seq<nat>
    requires Inv(p) && LegalRun(p, es)
    decreases |es|
  {
    if es == [] then [] else
      StepConserves(p, es[0]);
      Taken(p, es[0]) + AllTaken(NextPool(p, es[0]), es[1..])
  }

  function AllFreed(es: seq<Ports>): seq<nat> {
    if es == [] then [] else Freed(es[0]) + AllFreed(es[1..])
  }

  /**
    Over a whole run no register is lost, invented or duplicated, and registers come out in
    exactly the order they went in, however many queries stalled in between.
   */
  lemma {:induction false} RunConserves(p: Pool, es: seq<Ports>)
    requires Inv(p) && LegalRun(p, es)
    ensures Inv(RunPool(p, es))
    ensures AllTaken(p, es) + RunPool(p, es).ring.Contents() == p.ring.Contents() + AllFreed(es)
    decreases |es|
  {
    if es != [] {
      var u := NextPool(p, es[0]);
      StepConserves(p, es[0]);
      hide NextPool, Taken, Freed, Inv, Legal, Ring.Contents;
      RunConserves(u, es[1..]);
      var t, a, c := Taken(p, es[0]), AllTaken(u, es[1..]), RunPool(u, es[1..]).ring.Contents();
      Chain(t, a, c, u.ring.Contents(), AllFreed(es[1..]), p.ring.Contents(), Freed(es[0]));
    }
  }

  lemma Chain(t: seq<nat>, a: seq<nat>, c: seq<nat>, m: seq<nat>, g: seq<nat>, s: seq<nat>, f: seq<nat>)
    requires a + c == m + g && t + m == s + f
    ensures (t + a) + c == s + (f + g)
  {
    assert (t + a) + c == t + (a + c) == (t + m) + g == (s + f) + g == s + (f + g);
  }

  /** The free count and the number of held registers always add up to the register file. */
  lemma {:induction false} Counted(p: Pool)
    requires Inv(p)
    ensures p.ring.count + |p.held| == p.Total()
  {
    var s := p.ring.Contents();
    DistinctCount(s);
    assert Elements(s) + p.held == Range(p.Total());
    assert Elements(s) !! p.held;
  }

  lemma {:induction false} DistinctCount(s: seq<nat>)
    requires NoDuplicates(s)
    ensures |Elements(s)| == |s|
  {
    if s == [] {
      assert Elements(s) == {};
    } else {
      DistinctCount(s[1..]);
      assert Elements(s) == {s[0]} + Elements(s[1..]);
      assert s[0] !in s[1..];
    }
  }

  function Range(n: nat): (r: set<nat>)
    ensures forall x: nat :: x in r <==> x < n
    ensures |r| == n
  {
    if n == 0 then {} else Range(n - 1) + {n - 1}
  }

  /** Reset: the architectural registers are held, the others queued in order. */
  lemma ResetConserves(aregs: nat, cap: nat)
    requires cap >= 2
    ensures Inv(Pool(ResetRing(aregs, cap), Range(aregs), aregs))
  {
    ResetContents(aregs, cap);
    var s := ResetRing(aregs, cap).Contents();
    forall x | 0 <= x < aregs + cap
      ensures x in s <==> x !in Range(aregs)
    {
      if x >= aregs {
        assert s[x - aregs] == x;
      }
    }
  }
}
