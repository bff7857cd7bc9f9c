/** Cleanup along whole runs, the program doing what it likes between its units: a
    captured object still ends in time, and every unit of work is accounted for. */
module RcProgress {
  import opened Wrappers
  import opened RcHeap
  import opened RcMachine
  import opened RcInvariant
  import opened RcMutator
  import opened RcDebt
  import opened RcFairness
  import R = RcRuns

  /** How often cleanup was served. */
  function Ticks(es: seq<R.Event>): nat {
    if es == [] then 0 else Ticks(es[..|es| - 1]) + (if es[|es| - 1].Tick? then 1 else 0)
  }

  /* ---- bounded waiting ---- */

  /** A change to a live cell, or an object put in a free one, leaves the captured batch
      alone. */
  lemma CellInterleaves(s: State, held: multiset<Ref>, a: Ref, c: Cell)
    requires Inv(s, held) && a < |s.heap| && !IsDead(s.heap[a])
    ensures Interleaved(s, s.(heap := s.heap[a := c]))
  {
    hide Inv;
    forall r: Ref | InBatch(s, r) ensures r != a { BatchIsDead(s, held, r); }
  }

  lemma CreateInterleaves(s: State, held: multiset<Ref>, r: Ref, c: Cell)
    requires Inv(s, held) && (r == |s.heap| || (r < |s.heap| && s.heap[r].Free?))
    ensures Interleaved(s, Allocate(s, r, c))
  {
    if r < |s.heap| { CellInterleaves(s, held, r, c); }
  }

  /** Events that create, change or release an object; the others only move owners
      between frames, queues and running code. */
  predicate ObjectEvent(e: R.Event) {
    e.Borrow? || e.Release? || e.Create? || e.Cache? || e.MarkList? || e.Mark? || e.Append? || e.Assign?
    || e.AppendUncounted? || e.AssignUncounted?
  }

  lemma OwnersMove(w: R.World, e: R.Event)
    requires R.Allowed(w, e) && !e.Tick? && !ObjectEvent(e)
    ensures var s, t := w.s, R.Next(w, e).s;
      && t.heap == s.heap && t.active == s.active && t.cursor == s.cursor && t.batch == s.batch
      && t.turn == s.turn && t.nextQueue == s.nextQueue
  {
    hide StoreIn, MoveFrom, KeepIn;
  }

  /** Nothing the program does between two units touches the captured batch, or the
      turn of the queues. */
  lemma ProgramInterleaves(w: R.World, e: R.Event)
    requires Inv(w.s, w.held) && R.Allowed(w, e) && !e.Tick?
    ensures Interleaved(w.s, R.Next(w, e).s) && R.Next(w, e).s.nextQueue == w.s.nextQueue
  {
    if ObjectEvent(e) {
      ObjectEventInterleaves(w, e);
    } else {
      OwnersMove(w, e);
      SameInterleaves(w.s, R.Next(w, e).s);
    }
  }

  lemma ObjectEventInterleaves(w: R.World, e: R.Event)
    requires Inv(w.s, w.held) && R.Allowed(w, e) && ObjectEvent(e)
    ensures Interleaved(w.s, R.Next(w, e).s) && R.Next(w, e).s.nextQueue == w.s.nextQueue
  {
    hide Inv, Drop, Interleaved, Kinded, R.Owns;
    var s, held := w.s, w.held;
    match e
    case Release(v) => DropInterleaves(s, v, held); DropKeepsQueue(s, v);
    case Borrow(v) =>
      if Mortal(s, v) {
        CellInterleaves(s, held, v.value, s.heap[v.value].(header := Owned(s.heap[v.value].header.count + 1)));
      } else {
        SameInterleaves(s, s);
      }
    case Create(r, c, _) => CreateInterleaves(s, held, r, c);
    case Cache(a) => CellInterleaves(s, held, a, s.heap[a].(header := Immortal));
    case MarkList(a) => CellInterleaves(s, held, a, s.heap[a].(kind := ImmortalReferences));
    case Mark(a, v) =>
      CellInterleaves(s, held, a, s.heap[a].(kind := References));
      SameInterleaves(s, s);
    case Append(a, v) => CellInterleaves(s, held, a, s.heap[a].(slots := s.heap[a].slots + [v]));
    case AppendUncounted(a, v) => CellInterleaves(s, held, a, s.heap[a].(slots := s.heap[a].slots + [v]));
    case Assign(a, i, v) => CellInterleaves(s, held, a, s.heap[a].(slots := s.heap[a].slots[i := v]));
    case AssignUncounted(a, i, v) => CellInterleaves(s, held, a, s.heap[a].(slots := s.heap[a].slots[i := v]));
  }

  lemma SameInterleaves(s: State, t: State)
    requires t.heap == s.heap && t.active == s.active && t.cursor == s.cursor && t.batch == s.batch && t.turn == s.turn
    ensures Interleaved(s, t)
  {
  }

  predicate Freed(s: State, x: Ref) { x < |s.heap| && s.heap[x].Free? }

  /** Each event of a run leaves a captured object captured and no further from its
      end; a unit of cleanup brings it nearer, or ends it. */
  lemma EventProgress(w: R.World, e: R.Event, x: Ref)
    requires Inv(w.s, w.held) && R.Allowed(w, e) && InBatch(w.s, x)
    ensures var t := R.Next(w, e).s;
      Freed(t, x) || (InBatch(t, x) && Units(t, x) + (if e.Tick? then 1 else 0) <= Units(w.s, x))
  {
    hide Inv, Unit, Wait, InBatch, Interleaved;
    if e.Tick? {
      WaitingIsPending(w.s, w.held, x);
      UnitProgress(w.s, w.held, x);
    } else {
      ProgramInterleaves(w, e);
      SameWait(w.s, R.Next(w, e).s, w.held, x);
    }
  }

  /** Until it is freed, a captured object stays captured, nearer by the cleanup done. */
  lemma {:induction false} StillWaiting(ws: seq<R.World>, es: seq<R.Event>, i: nat, j: nat, x: Ref)
    requires R.Run(ws, es) && i <= j < |ws| && InBatch(ws[i].s, x)
    requires forall k :: i < k <= j ==> !Freed(ws[k].s, x)
    ensures InBatch(ws[j].s, x) && Units(ws[j].s, x) + Ticks(es[i..j]) <= Units(ws[i].s, x)
    decreases j
  {
    hide Inv, R.Allowed, R.Next, InBatch, Units;
    if i < j {
      StillWaiting(ws, es, i, j - 1, x);
      R.RunInv(ws, es, j - 1);
      EventProgress(ws[j - 1], es[j - 1], x);
      assert es[i..j][..j - 1 - i] == es[i..j - 1];
      assert !Freed(ws[j].s, x);
    } else {
      assert es[i..j] == [];
    }
  }

  /** Bounded waiting in any run: once an object is captured, six times the debt of
      itself and its predecessors in units of cleanup see it freed, whatever the program
      does between them. */
  lemma {:induction false} FreedInRun(ws: seq<R.World>, es: seq<R.Event>, i: nat, j: nat, x: Ref)
    requires R.Run(ws, es) && i <= j < |ws| && InBatch(ws[i].s, x) && Ticks(es[i..j]) >= 6 * Ahead(ws[i].s, x)
    ensures exists k :: i < k <= j && Freed(ws[k].s, x)
  {
    hide Inv, InBatch, Ahead;
    R.RunInv(ws, es, i);
    R.RunInv(ws, es, j);
    WaitPositive(ws[i].s, ws[i].held, x);
    if forall k :: i < k <= j ==> !Freed(ws[k].s, x) {
      StillWaiting(ws, es, i, j, x);
      WaitPositive(ws[j].s, ws[j].held, x);
    }
  }

  /* ---- work conservation ---- */

  /** Cleanup work an event takes on. */
  function Owed(w: R.World, e: R.Event): nat
    requires R.Allowed(w, e)
  {
    var s := w.s;
    match e
    case Create(_, c, _) => if Nonleaf(c) then |c.slots| + 1 else 0
    case Mark(a, v) =>
      if s.heap[a].kind == ImmortalReferences && Mortal(s, v) && s.heap[a].slots != [] then |s.heap[a].slots| + 1 else 0
    case Append(a, _) => if s.heap[a].slots == [] then 2 else 1
    case LeaveFrame => ChunksDebt(s.frames[0].chunks) + |s.frames[0].written| + 1
    case StepFrame => ChunksDebt(s.frames[0].chunks)
    case _ => 0
  }

  lemma {:induction false} ChunksDebtAppend(a: seq<seq<Ref>>, b: seq<seq<Ref>>)
    ensures ChunksDebt(a + b) == ChunksDebt(a) + ChunksDebt(b)
  {
    if a == [] {
      assert a + b == b;
    } else {
      assert (a + b)[1..] == a[1..] + b;
      ChunksDebtAppend(a[1..], b);
    }
  }

  lemma {:induction false} FramesDebtAppend(a: seq<Frame>, f: Frame)
    ensures FramesDebt(a + [f]) == FramesDebt(a) + |f.written| + 1
  {
    if a == [] {
      assert a + [f] == [f] && [f][1..] == [];
    } else {
      assert (a + [f])[1..] == a[1..] + [f];
      FramesDebtAppend(a[1..], f);
    }
  }

  /** Changing a live cell changes the debt by what the cell itself owes. */
  lemma LiveChangeDebt(s: State, held: multiset<Ref>, a: Ref, c: Cell)
    requires Inv(s, held) && Live(s, a)
    ensures Debt(s.(heap := s.heap[a := c])) + CellDebt(s.heap[a]) == Debt(s) + CellDebt(c)
  {
    if s.active.Some? { ActiveIsDead(s, held); }
    hide Inv, Debt;
    CellChangeDebt(s, a, c);
  }

  lemma CreateDebt(s: State, held: multiset<Ref>, r: Ref, c: Cell)
    requires Inv(s, held) && (r == |s.heap| || (r < |s.heap| && s.heap[r].Free?))
    ensures Debt(Allocate(s, r, c)) == Debt(s) + CellDebt(c)
  {
    if s.active.Some? { ActiveIsDead(s, held); }
    hide Inv;
    AllocateView(s, r, c);
    if r == |s.heap| {
      assert (View(s) + [c])[..|s.heap|] == View(s);
    } else {
      HeapDebtUpdate(View(s), r, c);
    }
  }

  lemma SameObjectsDebt(s: State, t: State)
    requires t.heap == s.heap && t.active == s.active && t.cursor == s.cursor
    ensures Debt(t) + FramesDebt(s.retired) + ChunksDebt(s.chunks) ==
        Debt(s) + FramesDebt(t.retired) + ChunksDebt(t.chunks)
  {
    assert View(t) == View(s);
  }

  lemma RetireDebt(s: State)
    requires s.frames != []
    ensures Debt(RetireTemporaries(s)) == Debt(s) + ChunksDebt(s.frames[0].chunks)
    ensures RetireTemporaries(s).frames != [] && RetireTemporaries(s).frames[0].written == s.frames[0].written
  {
    hide Debt;
    SameObjectsDebt(s, RetireTemporaries(s));
    ChunksDebtAppend(s.chunks, s.frames[0].chunks);
  }

  lemma DetachDebt(s: State)
    requires s.frames != []
    ensures Debt(Detach(s)) == Debt(s) + ChunksDebt(s.frames[0].chunks) + |s.frames[0].written| + 1
  {
    hide Debt, RetireTemporaries;
    RetireDebt(s);
    var t := RetireTemporaries(s);
    SameObjectsDebt(t, Detach(s));
    FramesDebtAppend(t.retired, t.frames[0]);
  }

  /** What each event of the program does to the debt. */
  lemma ProgramDebt(w: R.World, e: R.Event)
    requires Inv(w.s, w.held) && R.Allowed(w, e) && !e.Tick?
    ensures Debt(R.Next(w, e).s) == Debt(w.s) + Owed(w, e)
  {
    hide Inv, Debt;
    if ObjectEvent(e) { ObjectEventDebt(w, e); } else { OwnersDebt(w, e); }
  }

  lemma OwnersDebt(w: R.World, e: R.Event)
    requires R.Allowed(w, e) && !e.Tick? && !ObjectEvent(e)
    ensures Debt(R.Next(w, e).s) == Debt(w.s) + Owed(w, e)
  {
    hide Debt, Detach, RetireTemporaries, StoreIn, MoveFrom, KeepIn;
    if e.LeaveFrame? { DetachDebt(w.s); }
    else if e.StepFrame? { RetireDebt(w.s); }
    else { SameObjectsDebt(w.s, R.Next(w, e).s); }
  }

  lemma ObjectEventDebt(w: R.World, e: R.Event)
    requires Inv(w.s, w.held) && R.Allowed(w, e) && ObjectEvent(e)
    ensures Debt(R.Next(w, e).s) == Debt(w.s) + Owed(w, e)
  {
    hide Inv, Drop, Debt, Kinded, R.Owns;
    var s, held := w.s, w.held;
    match e
    case Release(v) => StateDropDebt(s, v, held);
    case Borrow(v) =>
      if Mortal(s, v) {
        LiveChangeDebt(s, held, v.value, s.heap[v.value].(header := Owned(s.heap[v.value].header.count + 1)));
      }
    case Create(r, c, _) => CreateDebt(s, held, r, c);
    case Cache(a) => LiveChangeDebt(s, held, a, s.heap[a].(header := Immortal));
    case MarkList(a) => LiveChangeDebt(s, held, a, s.heap[a].(kind := ImmortalReferences));
    case Mark(a, v) => LiveChangeDebt(s, held, a, s.heap[a].(kind := References));
    case Append(a, v) => LiveChangeDebt(s, held, a, s.heap[a].(slots := s.heap[a].slots + [v]));
    case AppendUncounted(a, v) => LiveChangeDebt(s, held, a, s.heap[a].(slots := s.heap[a].slots + [v]));
    case Assign(a, i, v) => LiveChangeDebt(s, held, a, s.heap[a].(slots := s.heap[a].slots[i := v]));
    case AssignUncounted(a, i, v) => LiveChangeDebt(s, held, a, s.heap[a].(slots := s.heap[a].slots[i := v]));
  }

  /** Work done and work taken on between two points of a run. */
  function WorkDone(ws: seq<R.World>, es: seq<R.Event>, j: nat): nat
    requires j <= |es| < |ws|
  {
    if j == 0 then 0 else WorkDone(ws, es, j - 1) + (if es[j - 1].Tick? && ws[j - 1].s.pending != 0 then 1 else 0)
  }

  function WorkOwed(ws: seq<R.World>, es: seq<R.Event>, j: nat): nat
    requires j <= |es| < |ws| && forall i :: 0 <= i < |es| ==> R.Allowed(ws[i], es[i])
  {
    if j == 0 then 0 else WorkOwed(ws, es, j - 1) + Owed(ws[j - 1], es[j - 1])
  }

  /** Conservation over any run: the work still owed and the work done always add up to
      what the program's own events took on. What cleanup costs is settled by the program,
      not by when or in what portions it is served. */
  lemma {:induction false} RunConserves(ws: seq<R.World>, es: seq<R.Event>, j: nat)
    requires R.Run(ws, es) && j < |ws|
    ensures Debt(ws[j].s) + WorkDone(ws, es, j) == WorkOwed(ws, es, j)
  {
    if j == 0 {
      var h :| R.Literals(h) && ws[0] == R.Start(h);
      LiteralsOweNothing(h);
    } else {
      hide Inv, Debt, Unit, Owed;
      RunConserves(ws, es, j - 1);
      R.RunInv(ws, es, j - 1);
      var w, e := ws[j - 1], es[j - 1];
      assert R.Allowed(w, e) && ws[j] == R.Next(w, e);
      if e.Tick? {
        TickOwesNothing(w);
        if w.s.pending != 0 { UnitDebt(w.s, w.held); }
      } else {
        hide R.Next;
        ProgramDebt(w, e);
      }
    }
  }

  lemma TickOwesNothing(w: R.World)
    ensures Owed(w, R.Tick) == 0
  {
  }

  lemma {:induction false} LiteralsOweNothing(h: Heap)
    requires forall i :: 0 <= i < |h| ==> h[i].Object? && h[i].slots == []
    ensures HeapDebt(h) == 0
  {
    if h != [] { LiteralsOweNothing(h[..|h| - 1]); }
  }
}
