/** Work conservation: every unit lowers the debt by exactly one, so cleanup
    always ends and its total cost does not depend on how it is scheduled. */
module RcDebt {
  import opened Wrappers
  import opened RcHeap
  import opened RcMachine
  import opened RcInvariant

  /** Slots not yet visited plus one, for each aggregate with slots. */
  function CellDebt(c: Cell): nat {
    if !Nonleaf(c) then 0
    else if c.header.Dead? then (if c.spare <= |c.slots| then |c.slots| - c.spare + 1 else 0)
    else |c.slots| + 1
  }

  function HeapDebt(h: Heap): nat {
    if h == [] then 0 else HeapDebt(h[..|h| - 1]) + CellDebt(h[|h| - 1])
  }

  function FramesDebt(frames: seq<Frame>): nat {
    if frames == [] then 0 else |frames[0].written| + 1 + FramesDebt(frames[1..])
  }

  function ChunksDebt(chunks: seq<seq<Ref>>): nat {
    if chunks == [] then 0 else |chunks[0]| + 1 + ChunksDebt(chunks[1..])
  }

  function Debt(s: State): nat {
    HeapDebt(View(s)) + FramesDebt(s.retired) + ChunksDebt(s.chunks)
  }

  lemma {:induction false} HeapDebtUpdate(h: Heap, i: nat, c: Cell)
    requires i < |h|
    ensures HeapDebt(h[i := c]) + CellDebt(h[i]) == HeapDebt(h) + CellDebt(c)
  {
    var n := |h| - 1;
    if i == n {
      assert h[i := c][..n] == h[..n];
    } else {
      HeapDebtUpdate(h[..n], i, c);
      assert h[i := c][..n] == h[..n][i := c];
    }
  }

  /** Dying costs nothing: the work was already owed while the object lived. */
  lemma {:induction false} DropDebt(h: Heap, v: Slot, link: Option<Ref>)
    ensures HeapDebt(DropHeap(h, v, link).heap) == HeapDebt(h)
    decreases Allocated(h)
  {
    if Drops(h, v) {
      var x := v.value;
      var o := h[x];
      if o.header.count > 1 {
        HeapDebtUpdate(h, x, o.(header := Owned(o.header.count - 1)));
      } else if o.kind == Text {
        HeapDebtUpdate(h, x, Free);
        AllocatedFree(h, x);
        DropDebt(h[x := Free], if o.slots == [] then None else o.slots[0], link);
      } else if !Nonleaf(o) {
        HeapDebtUpdate(h, x, Free);
      } else {
        HeapDebtUpdate(h, x, o.(header := Dead(link), spare := 0));
      }
    }
  }

  lemma StateDropDebt(s: State, v: Slot, held: multiset<Ref>)
    requires Inv(s, held)
    ensures Debt(Drop(s, v)) == Debt(s)
  {
    if s.active.Some? { ActiveIsDead(s, held); }
    hide Inv;
    DropView(s, v);
    DropDebt(View(s), v, First(s.recent));
  }

  lemma ActiveDebt(s: State, held: multiset<Ref>)
    requires Inv(s, held) && s.active.Some?
    ensures At(s, s.active.value) && Debt(ActiveUnit(s)) == Debt(s) - 1
  {
    hide Inv, Drop, HeapDebt;
    var a := s.active.value;
    ActiveShape(s, held);
    var h := View(s);
    var slots := s.heap[a].slots;
    if s.cursor < |slots| {
      var t := s.(cursor := s.cursor + 1);
      assert View(t) == h[a := h[a].(spare := s.cursor + 1)];
      HeapDebtUpdate(h, a, h[a].(spare := s.cursor + 1));
      ActiveVisitInv(s, held, a);
      StateDropDebt(t, slots[s.cursor], Add(held, slots[s.cursor]));
    } else {
      assert View(ActiveUnit(s)) == h[a := Free];
      HeapDebtUpdate(h, a, Free);
    }
  }

  lemma OldDebt(s: State, held: multiset<Ref>)
    requires Inv(s, held) && (s.active.Some? || s.batch != [])
    ensures Debt(OldUnit(s)) == Debt(s) - 1
  {
    if s.active.Some? {
      ActiveDebt(s, held);
    } else {
      ActivateInv(s, held);
      ActiveDebt(Activate(s), held);
      var a := s.batch[0];
      var c := s.heap[a].(header := Dead(None));
      assert InvAt(s, held, a);
      hide Inv;
      HeapDebtUpdate(View(s), a, c);
      assert View(Activate(s)) == View(s)[a := c];
    }
  }

  /** Replacing a cell other than the active one. */
  lemma CellChangeDebt(s: State, a: Ref, c: Cell)
    requires At(s, a) && s.active != Some(a)
    requires s.active.Some? ==> At(s, s.active.value)
    ensures Debt(s.(heap := s.heap[a := c])) + CellDebt(s.heap[a]) == Debt(s) + CellDebt(c)
  {
    var h := View(s);
    assert View(s.(heap := s.heap[a := c])) == h[a := c];
    HeapDebtUpdate(h, a, c);
  }

  lemma RecentDebt(s: State, held: multiset<Ref>)
    requires Inv(s, held) && s.recent != []
    ensures Debt(RecentUnit(s)) == Debt(s) - 1
  {
    hide Inv, Kinded, Drop, CellRefs, HeapRefs;
    var a := s.recent[0];
    RecentIsDead(s, held);
    if s.active.Some? { ActiveIsDead(s, held); }
    var o := s.heap[a];
    if o.spare < |o.slots| {
      var t := s.(heap := s.heap[a := o.(spare := o.spare + 1)]);
      RecentVisitInv(s, held, a);
      hide Debt;
      CellChangeDebt(s, a, o.(spare := o.spare + 1));
      StateDropDebt(t, o.slots[o.spare], Add(held, o.slots[o.spare]));
    } else {
      CellChangeDebt(s, a, Free);
      var t := s.(heap := s.heap[a := Free]);
      assert View(RecentUnit(s)) == View(t);
    }
  }

  lemma ObjectDebt(s: State, held: multiset<Ref>)
    requires Inv(s, held) && Ready(s, 0)
    ensures Debt(ObjectUnit(s)) == Debt(s) - 1
  {
    var u := Capture(s).(turn := !s.turn);
    CaptureInv(s, held);
    hide Inv;
    if s.turn && u.recent != [] && !UnaryParent(u) { RecentDebt(u, held); } else { OldDebt(u, held); }
  }

  lemma FrameDebt(s: State, held: multiset<Ref>)
    requires Inv(s, held) && s.retired != []
    ensures Debt(FrameUnit(s)) == Debt(s) - 1
  {
    hide Inv, Drop, HeapDebt, LocalValue;
    var f := s.retired[0];
    if f.written != [] {
      var n := |f.written| - 1;
      var t := s.(retired := [f.(written := f.written[..n])] + s.retired[1..]);
      assert t.retired[1..] == s.retired[1..];
      assert View(t) == View(s);
      FrameVisitInv(s, held);
      StateDropDebt(t, LocalValue(f, f.written[n]), Add(held, LocalValue(f, f.written[n])));
    } else {
      assert View(FrameUnit(s)) == View(s);
    }
  }

  lemma ChunkDebt(s: State, held: multiset<Ref>)
    requires Inv(s, held) && s.chunks != []
    ensures Debt(ChunkUnit(s)) == Debt(s) - 1
  {
    hide InvAt, AllKinded, Books;
    var c := s.chunks[0];
    if c != [] {
      var n := |c| - 1;
      var t := s.(chunks := [c[..n]] + s.chunks[1..]);
      assert t.chunks[1..] == s.chunks[1..];
      if s.active.Some? { ActiveIsDead(s, held); }
      DropView(t, Some(c[n]));
      DropDebt(View(t), Some(c[n]), First(s.recent));
    }
  }

  lemma NextQueueDebt(s: State, q: nat)
    ensures Debt(s.(nextQueue := q)) == Debt(s)
  {
  }

  lemma PickReady(s: State)
    requires s.pending == Tasks(s) != 0 && s.nextQueue < 3
    ensures Pick(s) < 3 && Ready(s, Pick(s))
  {
  }

  /** A unit with anything pending does exactly one unit of owed work. */
  lemma UnitDebt(s: State, held: multiset<Ref>)
    requires Inv(s, held) && s.pending != 0
    ensures Debt(Unit(s)) == Debt(s) - 1
  {
    hide ObjectUnit, FrameUnit, ChunkUnit, Pick, Debt, AllKinded, Books, InvAt;
    var q := Pick(s);
    PickReady(s);
    var t := s.(nextQueue := (q + 1) % 3);
    NextQueueInv(s, held, (q + 1) % 3);
    hide Inv;
    assert Debt(t) == Debt(s) by { NextQueueDebt(s, (q + 1) % 3); }
    if q == 0 { ObjectDebt(t, held); } else if q == 1 { FrameDebt(t, held); } else { ChunkDebt(t, held); }
  }

  /** Conservation over any number of units. */
  lemma {:induction false} IterateDebt(s: State, n: nat, held: multiset<Ref>)
    requires Inv(s, held)
    ensures Debt(Iterate(s, n)) + Work(s, n) == Debt(s)
    ensures Work(s, n) <= n
    ensures Iterate(s, n).pending != 0 ==> Work(s, n) == n
  {
    hide Inv, Unit, Debt;
    if n > 0 {
      IterateDebt(s, n - 1, held);
      IterateInv(s, n - 1, held);
      if Iterate(s, n - 1).pending != 0 { UnitDebt(Iterate(s, n - 1), held); }
    }
  }

  /** Draining terminates: `Debt(s)` units always empty the queues. */
  lemma DrainTerminates(s: State, n: nat, held: multiset<Ref>)
    requires Inv(s, held) && n >= Debt(s)
    ensures Iterate(s, n).pending == 0
  {
    hide Inv, Unit, Debt;
    IterateDebt(s, n, held);
    IterateInv(s, n, held);
    if Iterate(s, n).pending != 0 { UnitDebt(Iterate(s, n), held); }
  }

  lemma {:induction false} IterateAdd(s: State, m: nat, n: nat)
    ensures Iterate(Iterate(s, m), n) == Iterate(s, m + n)
    ensures Work(s, m) + Work(Iterate(s, m), n) == Work(s, m + n)
  {
    hide Unit;
    if n > 0 { IterateAdd(s, m, n - 1); }
  }

  /** Any series of polls, as (state, total work). */
  function Polls(s: State, budgets: seq<nat>): (State, nat)
    decreases budgets
  {
    if budgets == [] then (s, 0)
    else
      var t := Iterate(s, budgets[0]);
      var rest := Polls(t, budgets[1..]);
      (rest.0, Work(s, budgets[0]) + rest.1)
  }

  lemma {:induction false} PollsIterate(s: State, budgets: seq<nat>)
    ensures Polls(s, budgets) == (Iterate(s, Sum(budgets)), Work(s, Sum(budgets)))
    decreases budgets
  {
    hide Unit;
    if budgets != [] {
      PollsIterate(Iterate(s, budgets[0]), budgets[1..]);
      IterateAdd(s, budgets[0], Sum(budgets[1..]));
    }
  }

  lemma {:induction false} IterateIdle(s: State, m: nat, n: nat)
    requires Iterate(s, m).pending == 0 && m <= n
    ensures Iterate(s, n) == Iterate(s, m) && Work(s, n) == Work(s, m)
    decreases n
  {
    hide Unit;
    if m < n { IterateIdle(s, m, n - 1); }
  }

  /** Two schedules that both drain the queues end in the same state after the
      same total work, however the budgets are split. */
  lemma ScheduleIndependent(s: State, budgets: seq<nat>, budgets': seq<nat>)
    requires Polls(s, budgets).0.pending == 0 && Polls(s, budgets').0.pending == 0
    ensures Polls(s, budgets) == Polls(s, budgets')
  {
    hide Unit;
    PollsIterate(s, budgets);
    PollsIterate(s, budgets');
    var m, n := Sum(budgets), Sum(budgets');
    if m <= n { IterateIdle(s, m, n); } else { IterateIdle(s, n, m); }
  }
}
