/** Bounded waiting: a captured object finishes within twice the work owed by it
    and its predecessors, whatever the program drops in between. */
module RcFairness {
  import opened Wrappers
  import opened RcHeap
  import opened RcMachine
  import opened RcInvariant
  import opened RcDebt

  predicate InBatch(s: State, x: Ref) { s.active == Some(x) || x in s.batch }

  /** What running code, frame units and chunk units may do between two object
      units: anything that leaves the captured batch alone. */
  ghost predicate Interleaved(s: State, e: State) {
    && e.active == s.active && e.cursor == s.cursor && e.batch == s.batch && e.turn == s.turn
    && forall r: Ref :: InBatch(s, r) && r < |s.heap| ==> r < |e.heap| && e.heap[r] == s.heap[r]
  }

  lemma {:induction false} CountInPositive(q: seq<Ref>, r: Ref)
    ensures r in q <==> CountIn(q, r) > 0
  {
    if q != [] {
      CountInPositive(q[1..], r);
      assert q == [q[0]] + q[1..];
    }
  }

  lemma BatchIsDead(s: State, held: multiset<Ref>, r: Ref)
    requires Inv(s, held) && InBatch(s, r)
    ensures At(s, r) && IsDead(s.heap[r])
  {
    assert InvAt(s, held, r);
    CountInPositive(s.batch, r);
  }

  /** A drop never disturbs the captured batch. */
  lemma DropInterleaves(s: State, v: Slot, held: multiset<Ref>)
    requires Inv(s, held)
    ensures Interleaved(s, Drop(s, v))
  {
    hide Inv;
    forall r: Ref | InBatch(s, r) && r < |s.heap| ensures Drop(s, v).heap[r] == s.heap[r] {
      BatchIsDead(s, held, r);
    }
  }

  /** Work owed by the active object. */
  function ActiveOwed(s: State): nat {
    if s.active.Some? && At(s, s.active.value) && s.cursor <= |s.heap[s.active.value].slots|
    then |s.heap[s.active.value].slots| - s.cursor + 1 else 0
  }

  /** Work owed by the queue up to and including `x`. */
  function QueueOwed(h: Heap, q: seq<Ref>, x: Ref): nat {
    if q == [] then 0
    else (if q[0] < |h| then CellDebt(h[q[0]]) else 0) + (if q[0] == x then 0 else QueueOwed(h, q[1..], x))
  }

  /** Work owed by `x` and everything captured before it. */
  function Ahead(s: State, x: Ref): nat {
    ActiveOwed(s) + (if s.active == Some(x) then 0 else QueueOwed(s.heap, s.batch, x))
  }

  lemma {:induction false} SameQueueOwed(h: Heap, h': Heap, q: seq<Ref>, x: Ref)
    requires forall i :: 0 <= i < |q| ==> q[i] < |h| && q[i] < |h'| && CellDebt(h[q[i]]) == CellDebt(h'[q[i]])
    ensures QueueOwed(h, q, x) == QueueOwed(h', q, x)
  {
    if q != [] { SameQueueOwed(h, h', q[1..], x); }
  }

  lemma SameAhead(s: State, e: State, held: multiset<Ref>, x: Ref)
    requires Inv(s, held) && Interleaved(s, e)
    ensures Ahead(s, x) == Ahead(e, x)
  {
    hide Inv;
    if s.active.Some? { BatchIsDead(s, held, s.active.value); }
    forall i | 0 <= i < |s.batch|
      ensures s.batch[i] < |s.heap| && s.batch[i] < |e.heap| && s.heap[s.batch[i]] == e.heap[s.batch[i]]
    {
      BatchIsDead(s, held, s.batch[i]);
    }
    SameQueueOwed(s.heap, e.heap, s.batch, x);
  }

  /** Serving the batch lowers what is ahead of `x` by one, or finishes `x`. */
  lemma ActiveUnitAhead(s: State, held: multiset<Ref>, x: Ref)
    requires Inv(s, held) && s.active.Some? && InBatch(s, x)
    ensures At(s, s.active.value)
    ensures var t := ActiveUnit(s);
      if s.active == Some(x) && t.active.None? then x < |t.heap| && t.heap[x].Free?
      else InBatch(t, x) && Ahead(t, x) == Ahead(s, x) - 1
    ensures ActiveUnit(s).turn == s.turn && ActiveUnit(s).batch == s.batch
  {
    var a := s.active.value;
    ActiveIsDead(s, held);
    assert Kinded(View(s), View(s)[a]);
    var t := ActiveUnit(s);
    if s.cursor < |s.heap[a].slots| {
      hide Inv, Kinded;
      DropInterleaves(s, s.heap[a].slots[s.cursor], held);
      var d := Drop(s, s.heap[a].slots[s.cursor]);
      assert t == d.(cursor := s.cursor + 1);
      SameAhead(s, d, held, x);
      assert InBatch(s, a);
    } else {
      assert InvAt(s, held, a);
      CountInPositive(s.batch, a);
      forall i | 0 <= i < |s.batch|
        ensures s.batch[i] < |s.heap| && s.heap[s.batch[i]] == t.heap[s.batch[i]]
      {
        BatchIsDead(s, held, s.batch[i]);
      }
      hide Inv, Kinded;
      SameQueueOwed(s.heap, t.heap, s.batch, x);
    }
  }

  lemma OldUnitAhead(s: State, held: multiset<Ref>, x: Ref)
    requires Inv(s, held) && InBatch(s, x)
    ensures var t := OldUnit(s);
      (x < |t.heap| && t.heap[x].Free?) || (InBatch(t, x) && Ahead(t, x) == Ahead(s, x) - 1)
    ensures OldUnit(s).turn == s.turn && (OldUnit(s).batch == s.batch ||
                                          (s.batch != [] && OldUnit(s).batch == s.batch[1..]))
  {
    hide Inv;
    if s.active.Some? {
      ActiveUnitAhead(s, held, x);
    } else {
      ActivateInv(s, held);
      var t := Activate(s);
      var a := s.batch[0];
      assert s.batch == [a] + s.batch[1..];
      ActivateAhead(s, held, x);
      ActiveUnitAhead(t, held, x);
    }
  }

  lemma ActivateAhead(s: State, held: multiset<Ref>, x: Ref)
    requires Inv(s, held) && s.active.None? && s.batch != [] && At(s, s.batch[0])
    ensures Ahead(Activate(s), x) == Ahead(s, x)
  {
    var a := s.batch[0];
    BatchIsDead(s, held, a);
    assert Kinded(View(s), View(s)[a]);
    hide Inv;
    var t := Activate(s);
    forall i | 0 <= i < |s.batch|
      ensures s.batch[i] < |s.heap| && CellDebt(s.heap[s.batch[i]]) == CellDebt(t.heap[s.batch[i]])
    {
      BatchIsDead(s, held, s.batch[i]);
    }
    SameQueueOwed(s.heap, t.heap, s.batch[1..], x);
  }

  lemma RecentUnitAhead(s: State, held: multiset<Ref>, x: Ref)
    requires Inv(s, held) && s.recent != [] && InBatch(s, x)
    ensures Interleaved(s, RecentUnit(s))
  {
    var a := s.recent[0];
    RecentIsDead(s, held);
    var o := s.heap[a];
    forall r: Ref | InBatch(s, r) ensures r != a && r < |s.heap| && IsDead(s.heap[r]) {
      BatchIsDead(s, held, r);
      assert InvAt(s, held, r);
      CountInPositive(s.batch, r);
    }
    hide Inv;
    if o.spare < |o.slots| {
      var t := s.(heap := s.heap[a := o.(spare := o.spare + 1)]);
      assert forall r: Ref :: InBatch(t, r) ==> InBatch(s, r);
    }
  }

  /** Twice the work ahead, less one when the batch is served next. */
  function Wait(s: State, x: Ref): int { 2 * Ahead(s, x) - (if s.turn then 0 else 1) }

  /** Each object unit brings a captured object closer, and no newcomer ever
      joins the captured batch. */
  lemma ObjectUnitProgress(s: State, held: multiset<Ref>, x: Ref)
    requires Inv(s, held) && InBatch(s, x)
    ensures var t := ObjectUnit(s);
      (x < |t.heap| && t.heap[x].Free?) || (InBatch(t, x) && Wait(t, x) < Wait(s, x))
    ensures var t := ObjectUnit(s); t.batch == s.batch || (s.batch != [] && t.batch == s.batch[1..])
  {
    hide Inv;
    assert Capture(s) == s by { if s.batch == [] { assert s.active == Some(x); } }
    CaptureInv(s, held);
    var u := s.(turn := !s.turn);
    assert Ahead(u, x) == Ahead(s, x);
    if s.turn && s.recent != [] && !UnaryParent(u) {
      RecentUnitAhead(u, held, x);
      SameAhead(u, RecentUnit(u), held, x);
    } else {
      OldUnitAhead(u, held, x);
    }
  }

  /** `run[i]` is the state just before the i-th object unit; anything allowed by
      `Interleaved` may have happened since the previous one. */
  ghost predicate Run(run: seq<State>, held: seq<multiset<Ref>>) {
    && |held| == |run|
    && (forall i :: 0 <= i < |run| ==> Inv(run[i], held[i]))
    && (forall i :: 0 < i < |run| ==> Interleaved(ObjectUnit(run[i - 1]), run[i]))
  }

  predicate Finishes(s: State, x: Ref) {
    InBatch(s, x) && x < |ObjectUnit(s).heap| && ObjectUnit(s).heap[x].Free?
  }

  lemma {:induction false} FinishesWithinWait(run: seq<State>, held: seq<multiset<Ref>>, x: Ref) returns (i: nat)
    requires run != [] && Run(run, held) && InBatch(run[0], x)
    requires |run| >= Wait(run[0], x)
    ensures i < |run| && i < Wait(run[0], x) && Finishes(run[i], x)
  {
    hide Inv, ObjectUnit, Wait, InBatch;
    ObjectUnitProgress(run[0], held[0], x);
    WaitPositive(run[0], held[0], x);
    if Finishes(run[0], x) { return 0; }
    assert InBatch(ObjectUnit(run[0]), x) by { FinishesMeans(run[0], x); }
    ObjectUnitInv(run[0], held[0]);
    WaitPositive(ObjectUnit(run[0]), held[0], x);
    assert |run| > 1;
    assert Interleaved(ObjectUnit(run[0]), run[1]);
    SameWait(ObjectUnit(run[0]), run[1], held[0], x);
    var j := FinishesWithinWait(run[1..], held[1..], x);
    return j + 1;
  }

  lemma FinishesMeans(s: State, x: Ref)
    requires InBatch(s, x) && !Finishes(s, x)
    ensures !(x < |ObjectUnit(s).heap| && ObjectUnit(s).heap[x].Free?)
  {
  }

  lemma SameWait(s: State, e: State, held: multiset<Ref>, x: Ref)
    requires Inv(s, held) && Interleaved(s, e)
    ensures Wait(s, x) == Wait(e, x) && InBatch(s, x) == InBatch(e, x)
  {
    SameAhead(s, e, held, x);
  }

  lemma {:induction false} QueueOwedPositive(h: Heap, q: seq<Ref>, x: Ref)
    requires x in q && x < |h| && CellDebt(h[x]) > 0
    ensures QueueOwed(h, q, x) > 0
  {
    if q[0] != x { QueueOwedPositive(h, q[1..], x); }
  }

  lemma WaitPositive(s: State, held: multiset<Ref>, x: Ref)
    requires Inv(s, held) && InBatch(s, x)
    ensures 0 < Wait(s, x) <= 2 * Ahead(s, x)
  {
    BatchIsDead(s, held, x);
    assert Kinded(View(s), View(s)[x]);
    hide Inv;
    if s.active != Some(x) { QueueOwedPositive(s.heap, s.batch, x); }
  }

  /** A captured object finishes within twice the debt of itself and its
      predecessors, counted in object units. */
  lemma BoundedWait(run: seq<State>, held: seq<multiset<Ref>>, x: Ref)
    requires run != [] && Run(run, held) && InBatch(run[0], x)
    requires |run| >= 2 * Ahead(run[0], x)
    ensures exists i :: 0 <= i < 2 * Ahead(run[0], x) && i < |run| && Finishes(run[i], x)
  {
    hide Inv, ObjectUnit, Wait, Finishes;
    WaitPositive(run[0], held[0], x);
    var i := FinishesWithinWait(run, held, x);
  }

  lemma DropKeepsQueue(s: State, v: Slot)
    ensures var t := Drop(s, v); t.nextQueue == s.nextQueue && t.retired == s.retired && t.chunks == s.chunks
  {
    hide DropHeap;
  }

  lemma ActiveKeepsQueue(s: State)
    requires s.active.Some? && At(s, s.active.value)
    ensures var t := ActiveUnit(s); t.nextQueue == s.nextQueue && t.retired == s.retired && t.chunks == s.chunks
  {
    hide Drop;
    var slots := s.heap[s.active.value].slots;
    if s.cursor < |slots| { DropKeepsQueue(s.(cursor := s.cursor + 1), slots[s.cursor]); }
  }

  lemma RecentKeepsQueue(s: State)
    ensures var t := RecentUnit(s); t.nextQueue == s.nextQueue && t.retired == s.retired && t.chunks == s.chunks
  {
    hide Drop;
    if s.recent != [] && At(s, s.recent[0]) {
      var a := s.recent[0];
      var o := s.heap[a];
      if o.spare < |o.slots| { DropKeepsQueue(s.(heap := s.heap[a := o.(spare := o.spare + 1)]), o.slots[o.spare]); }
    }
  }

  lemma ObjectKeepsQueue(s: State)
    ensures var t := ObjectUnit(s); t.nextQueue == s.nextQueue && t.retired == s.retired && t.chunks == s.chunks
  {
    hide ActiveUnit, RecentUnit;
    var u := Capture(s).(turn := !s.turn);
    RecentKeepsQueue(u);
    if u.active.Some? {
      if At(u, u.active.value) { ActiveKeepsQueue(u); }
    } else if u.batch != [] && At(u, u.batch[0]) {
      ActiveKeepsQueue(Activate(u));
    }
  }

  lemma FrameKeepsQueue(s: State)
    ensures FrameUnit(s).nextQueue == s.nextQueue && ChunkUnit(s).nextQueue == s.nextQueue
    ensures FrameUnit(s).chunks == s.chunks && ChunkUnit(s).retired == s.retired
  {
    hide Drop;
    if s.retired != [] && s.retired[0].written != [] {
      var f := s.retired[0];
      var n := |f.written| - 1;
      DropKeepsQueue(s.(retired := [f.(written := f.written[..n])] + s.retired[1..]), LocalValue(f, f.written[n]));
    }
    if s.chunks != [] && s.chunks[0] != [] {
      var c := s.chunks[0];
      var n := |c| - 1;
      DropKeepsQueue(s.(chunks := [c[..n]] + s.chunks[1..]), Some(c[n]));
    }
  }

  lemma UnitNextQueue(s: State)
    ensures Unit(s).nextQueue == (Pick(s) + 1) % 3
  {
    hide ObjectUnit, FrameUnit, ChunkUnit, Pick;
    var t := s.(nextQueue := (Pick(s) + 1) % 3);
    ObjectKeepsQueue(t);
    FrameKeepsQueue(t);
  }

  /** Round robin: a queue ready at three successive units is served by one of
      them, even if the program changes everything but the turn in between. */
  lemma ServedWithinThree(a: State, b: State, c: State, q: nat)
    requires q < 3 && a.nextQueue < 3
    requires b.nextQueue == Unit(a).nextQueue && c.nextQueue == Unit(b).nextQueue
    requires Ready(a, q) && Ready(b, q) && Ready(c, q)
    ensures Pick(a) == q || Pick(b) == q || Pick(c) == q
  {
    UnitNextQueue(a);
    UnitNextQueue(b);
    hide Unit;
  }

  /* ---- along the scheduler itself ---- */

  lemma InterleavedFrom(s: State, t: State, e: State)
    requires t.heap == s.heap && t.active == s.active && t.cursor == s.cursor && t.batch == s.batch && t.turn == s.turn
    requires Interleaved(t, e)
    ensures Interleaved(s, e)
  {
    assert forall r: Ref :: InBatch(s, r) == InBatch(t, r);
  }

  /** Frame and chunk units leave the captured batch alone. */
  lemma FrameUnitInterleaves(s: State, held: multiset<Ref>)
    requires Inv(s, held)
    ensures Interleaved(s, FrameUnit(s))
  {
    hide Inv, Drop;
    if s.retired != [] && s.retired[0].written != [] {
      var f := s.retired[0];
      var n := |f.written| - 1;
      var t := s.(retired := [f.(written := f.written[..n])] + s.retired[1..]);
      var v := LocalValue(f, f.written[n]);
      FrameVisitInv(s, held);
      DropInterleaves(t, v, Add(held, v));
      InterleavedFrom(s, t, Drop(t, v));
    }
  }

  lemma ChunkUnitInterleaves(s: State, held: multiset<Ref>)
    requires Inv(s, held)
    ensures Interleaved(s, ChunkUnit(s))
  {
    hide Inv, Drop;
    if s.chunks != [] && s.chunks[0] != [] {
      var c := s.chunks[0];
      var n := |c| - 1;
      var t := s.(chunks := [c[..n]] + s.chunks[1..]);
      ChunkVisitInv(s, held);
      DropInterleaves(t, Some(c[n]), Add(held, Some(c[n])));
      InterleavedFrom(s, t, Drop(t, Some(c[n])));
    }
  }

  /** Units until the object queue's turn comes round. */
  function Turns(s: State): nat { (3 - s.nextQueue % 3) % 3 }

  /** Scheduler units until `x` is sure to be finished. */
  function Units(s: State, x: Ref): int { 3 * (Wait(s, x) - 1) + Turns(s) + 1 }

  lemma SameUnits(s: State, q: nat, x: Ref)
    ensures var t := s.(nextQueue := q);
      Ahead(t, x) == Ahead(s, x) && Wait(t, x) == Wait(s, x) && InBatch(t, x) == InBatch(s, x)
  {
  }

  /** While a captured object waits the object queue is ready, so a unit that serves
      another queue brings its turn nearer. */
  lemma PickWhileWaiting(s: State, x: Ref)
    requires InBatch(s, x) && s.nextQueue < 3
    ensures Pick(s) == 0 || (Pick(s) < 3 && Turns(s.(nextQueue := (Pick(s) + 1) % 3)) < Turns(s))
  {
    assert Ready(s, 0);
  }

  lemma Nearer(s: State, t: State, x: Ref)
    requires Wait(t, x) < Wait(s, x) || (Wait(t, x) == Wait(s, x) && Turns(t) < Turns(s))
    ensures Units(t, x) < Units(s, x)
  {
    hide Wait;
  }

  /** Every unit of the scheduler, whichever queue it serves, brings a captured object
      nearer to its end. */
  lemma UnitProgress(s: State, held: multiset<Ref>, x: Ref)
    requires Inv(s, held) && InBatch(s, x)
    ensures var t := Unit(s); (x < |t.heap| && t.heap[x].Free?) || (InBatch(t, x) && Units(t, x) < Units(s, x))
  {
    assert s.nextQueue < 3;
    hide Inv, ObjectUnit, FrameUnit, ChunkUnit, Pick, Wait, InBatch, Units, Turns;
    var q := Pick(s);
    var t := s.(nextQueue := (q + 1) % 3);
    PickWhileWaiting(s, x);
    NextQueueInv(s, held, (q + 1) % 3);
    SameUnits(s, (q + 1) % 3, x);
    var u := Unit(s);
    if q == 0 {
      ObjectUnitProgress(t, held, x);
    } else {
      OtherProgress(s, held, x);
    }
    if Wait(u, x) < Wait(s, x) || (Wait(u, x) == Wait(s, x) && Turns(u) < Turns(s)) { Nearer(s, u, x); }
  }

  lemma OtherProgress(s: State, held: multiset<Ref>, x: Ref)
    requires Inv(s, held) && InBatch(s, x) && Pick(s) != 0 && Pick(s) < 3
    requires Turns(s.(nextQueue := (Pick(s) + 1) % 3)) < Turns(s)
    ensures var u := Unit(s); InBatch(u, x) && Wait(u, x) == Wait(s, x) && Turns(u) < Turns(s)
  {
    hide Inv, FrameUnit, ChunkUnit, Pick, Wait, InBatch;
    var q := Pick(s);
    var t := s.(nextQueue := (q + 1) % 3);
    NextQueueInv(s, held, (q + 1) % 3);
    SameUnits(s, (q + 1) % 3, x);
    FrameUnitInterleaves(t, held);
    ChunkUnitInterleaves(t, held);
    FrameKeepsQueue(t);
    SameWait(t, Unit(s), held, x);
  }

  /** A captured object is freed within six times the debt of itself and its
      predecessors, counted in scheduler units of every kind. */
  lemma FreedWithin(s: State, held: multiset<Ref>, x: Ref)
    requires Inv(s, held) && InBatch(s, x)
    ensures exists k: nat :: 0 < k <= 6 * Ahead(s, x) && FreedAt(s, x, k)
  {
    var k := FreedBy(s, held, x);
    WaitPositive(s, held, x);
  }

  /** After `k` units `x` has been freed. */
  predicate FreedAt(s: State, x: Ref, k: nat) { x < |Iterate(s, k).heap| && Iterate(s, k).heap[x].Free? }

  lemma {:induction false} FreedBy(s: State, held: multiset<Ref>, x: Ref) returns (k: nat)
    requires Inv(s, held) && InBatch(s, x)
    ensures 0 < k <= Units(s, x) <= 3 * Wait(s, x) && FreedAt(s, x, k)
    decreases Units(s, x)
  {
    hide Inv, Unit, Wait, InBatch;
    WaitPositive(s, held, x);
    UnitProgress(s, held, x);
    WaitingIsPending(s, held, x);
    var t := Unit(s);
    assert Iterate(s, 0) == s;
    assert Iterate(s, 1) == t;
    if x < |t.heap| && t.heap[x].Free? { return 1; }
    UnitInv(s, held);
    var j := FreedBy(t, held, x);
    IterateAdd(s, 1, j);
    return 1 + j;
  }

  lemma WaitingIsPending(s: State, held: multiset<Ref>, x: Ref)
    requires Inv(s, held) && InBatch(s, x)
    ensures s.pending != 0
  {
  }
}
