/** The collector as the runtime runs it: queues threaded through the headers of
    the dead objects, and a poll with three batched fast paths. */
module RcCollector {
  import opened Wrappers
  import opened RcHeap
  import M = RcMachine
  import opened RcInvariant
  import D = RcDebt
  import opened RcMutator
  import Q = RcQuiescence
  import R = RcRuns
  import B = RcMembers

  function Last<T>(q: seq<T>): Option<T> { if q == [] then None else Some(q[|q| - 1]) }

  /** `first` and `last` delimit the list `q` threaded through dead headers. */
  ghost predicate Linked(h: Heap, q: seq<Ref>, first: Option<Ref>, last: Option<Ref>) {
    && first == M.First(q) && last == Last(q)
    && forall i :: 0 <= i < |q| ==> LinkAt(h, q, i)
  }

  ghost predicate LinkAt(h: Heap, q: seq<Ref>, i: nat)
    requires i < |q|
  {
    q[i] < |h| && h[q[i]].Object? && h[q[i]].header == Dead(if i + 1 < |q| then Some(q[i + 1]) else None)
  }

  lemma LinkedTail(h: Heap, q: seq<Ref>, first: Option<Ref>, last: Option<Ref>)
    requires q != [] && Linked(h, q, first, last)
    ensures q[0] < |h| && h[q[0]].Object? && h[q[0]].header.Dead? && first == Some(q[0])
    ensures h[q[0]].header.link.None? <==> |q| == 1
    ensures Linked(h, q[1..], h[q[0]].header.link, if |q| == 1 then None else last)
  {
    assert LinkAt(h, q, 0);
    forall i | 0 <= i < |q| - 1 ensures LinkAt(h, q[1..], i) { assert LinkAt(h, q, i + 1); }
  }

  lemma LinkedEnds(h: Heap, q: seq<Ref>, first: Option<Ref>, last: Option<Ref>)
    requires Linked(h, q, first, last)
    ensures first == M.First(q) && last == Last(q)
  {
  }

  lemma LinkedEmpty(h: Heap, q: seq<Ref>, first: Option<Ref>, last: Option<Ref>)
    requires Linked(h, q, first, last)
    ensures first.None? <==> q == []
    ensures Linked(h, [], None, None)
  {
  }

  lemma LinkedKeep(h: Heap, h': Heap, q: seq<Ref>, first: Option<Ref>, last: Option<Ref>)
    requires Linked(h, q, first, last) && |h'| == |h|
    requires forall i :: 0 <= i < |q| ==>
      q[i] < |h| && h[q[i]].Object? && h'[q[i]].Object? && h'[q[i]].header == h[q[i]].header
    ensures Linked(h', q, first, last)
  {
    forall i | 0 <= i < |q| ensures LinkAt(h', q, i) { assert LinkAt(h, q, i); }
  }

  /** Changing a cell that is not dead leaves a queue alone. */
  lemma LinkedOwned(h: Heap, r: Ref, c: Cell, q: seq<Ref>, first: Option<Ref>, last: Option<Ref>)
    requires Linked(h, q, first, last) && r < |h| && !IsDead(h[r])
    ensures Linked(h[r := c], q, first, last)
  {
    forall i | 0 <= i < |q| ensures q[i] != r && q[i] < |h| && h[q[i]].Object? {
      assert LinkAt(h, q, i);
    }
    LinkedKeep(h, h[r := c], q, first, last);
  }

  /** So does changing a cell outside it, or one whose header stays. */
  lemma LinkedElse(h: Heap, a: Ref, c: Cell, q: seq<Ref>, first: Option<Ref>, last: Option<Ref>)
    requires Linked(h, q, first, last) && a < |h|
    requires (forall i :: 0 <= i < |q| ==> q[i] != a) || (h[a].Object? && c.Object? && c.header == h[a].header)
    ensures Linked(h[a := c], q, first, last)
  {
    forall i | 0 <= i < |q| ensures q[i] < |h| && h[q[i]].Object? {
      assert LinkAt(h, q, i);
    }
    LinkedKeep(h, h[a := c], q, first, last);
  }

  lemma LinkedPush(h: Heap, q: seq<Ref>, first: Option<Ref>, last: Option<Ref>, x: Ref)
    requires Linked(h, q, first, last) && x < |h| && h[x].Object? && h[x].header == Dead(first)
    ensures Linked(h, [x] + q, Some(x), if last.None? then Some(x) else last)
  {
    var p := [x] + q;
    forall i | 0 <= i < |p| ensures LinkAt(h, p, i) {
      if i > 0 { assert LinkAt(h, q, i - 1); }
    }
  }

  lemma {:induction false} CountInAt(q: seq<Ref>, i: nat)
    requires i < |q|
    ensures CountIn(q, q[i]) > 0
  {
    if i > 0 { CountInAt(q[1..], i - 1); }
  }

  /** The active task and the newest recent task are in no other queue. */
  lemma TasksApart(s: M.State, held: multiset<Ref>, a: Ref)
    requires Inv(s, held)
    ensures s.active == Some(a) ==> forall i :: 0 <= i < |s.batch| ==> s.batch[i] != a
    ensures s.active == Some(a) ==> forall i :: 0 <= i < |s.recent| ==> s.recent[i] != a
    ensures s.recent != [] && s.recent[0] == a ==> forall i :: 0 <= i < |s.batch| ==> s.batch[i] != a
    ensures s.recent != [] && s.recent[0] == a ==> forall i :: 0 < i < |s.recent| ==> s.recent[i] != a
    ensures s.batch != [] && s.batch[0] == a ==> forall i :: 0 < i < |s.batch| ==> s.batch[i] != a
    ensures s.batch != [] && s.batch[0] == a ==> forall i :: 0 <= i < |s.recent| ==> s.recent[i] != a
  {
    assert InvAt(s, held, a);
    forall i | 0 <= i < |s.batch| && s.batch[i] == a
      ensures CountIn(s.batch, a) > 0 && (i > 0 ==> CountIn(s.batch[1..], a) > 0)
    {
      CountInAt(s.batch, i);
      if i > 0 { CountInAt(s.batch[1..], i - 1); }
    }
    forall i | 0 <= i < |s.recent| && s.recent[i] == a
      ensures CountIn(s.recent, a) > 0 && (i > 0 ==> CountIn(s.recent[1..], a) > 0)
    {
      CountInAt(s.recent, i);
      if i > 0 { CountInAt(s.recent[1..], i - 1); }
    }
  }

  /* ---- the batched poll against the unit-at-a-time scheduler ---- */

  ghost predicate OnlyObjects(s: M.State) { s.retired == [] && s.chunks == [] }

  /** `work` units from `s0` lead to `s`, up to the round-robin position, which an
      object-only poll writes once at its end. */
  ghost predicate Progress(s0: M.State, s: M.State, work: nat) {
    && M.Iterate(s0, work) == (if work == 0 then s else s.(nextQueue := 1))
    && M.Work(s0, work) == work
    && OnlyObjects(s)
  }

  lemma DropNextQueue(s: M.State, v: Slot, q: nat)
    ensures M.Drop(s.(nextQueue := q), v) == M.Drop(s, v).(nextQueue := q)
    ensures OnlyObjects(s) ==> OnlyObjects(M.Drop(s, v))
  {
    hide DropHeap;
  }

  lemma OldUnitNextQueue(s: M.State, q: nat)
    ensures M.OldUnit(s.(nextQueue := q)) == M.OldUnit(s).(nextQueue := q)
    ensures OnlyObjects(s) ==> OnlyObjects(M.OldUnit(s))
  {
    hide M.Drop;
    var t := if s.active.None? && s.batch != [] && M.At(s, s.batch[0]) then M.Activate(s) else s;
    if t.active.Some? && M.At(t, t.active.value) && t.cursor < |t.heap[t.active.value].slots| {
      DropNextQueue(t.(cursor := t.cursor + 1), t.heap[t.active.value].slots[t.cursor], q);
    }
  }

  lemma RecentUnitNextQueue(s: M.State, q: nat)
    ensures M.RecentUnit(s.(nextQueue := q)) == M.RecentUnit(s).(nextQueue := q)
    ensures OnlyObjects(s) ==> OnlyObjects(M.RecentUnit(s))
  {
    hide M.Drop;
    if s.recent != [] && M.At(s, s.recent[0]) {
      var a := s.recent[0];
      var o := s.heap[a];
      if o.spare < |o.slots| {
        DropNextQueue(s.(heap := s.heap[a := o.(spare := o.spare + 1)]), o.slots[o.spare], q);
      }
    }
  }

  /** Object units neither read nor move the round-robin position. */
  lemma ObjectUnitNextQueue(s: M.State, q: nat)
    ensures M.ObjectUnit(s.(nextQueue := q)) == M.ObjectUnit(s).(nextQueue := q)
    ensures OnlyObjects(s) ==> OnlyObjects(M.ObjectUnit(s))
  {
    hide M.OldUnit, M.RecentUnit;
    var u := M.Capture(s).(turn := !s.turn);
    OldUnitNextQueue(u, q);
    RecentUnitNextQueue(u, q);
    assert M.Capture(s.(nextQueue := q)).(turn := !s.turn) == u.(nextQueue := q);
  }

  lemma OnlyObjectsPick(s: M.State, held: multiset<Ref>)
    requires Inv(s, held) && OnlyObjects(s) && s.pending != 0
    ensures M.Pick(s) == 0 && M.Pick(s.(nextQueue := 1)) == 0
  {
  }

  lemma ObjectUnitProgress(s0: M.State, s: M.State, held: multiset<Ref>, work: nat)
    requires Inv(s, held) && Progress(s0, s, work) && s.pending != 0
    ensures Progress(s0, M.ObjectUnit(s), work + 1)
  {
    hide Inv, M.ObjectUnit, M.Pick;
    var t := M.Iterate(s0, work);
    OnlyObjectsPick(s, held);
    ObjectUnitNextQueue(s, 1);
    assert t.(nextQueue := 1) == s.(nextQueue := 1);
    assert M.Unit(t) == M.ObjectUnit(s.(nextQueue := 1));
  }

  /** With no recent task an active object is served whoever's turn it is. */
  lemma ListVisitUnit(s: M.State, held: multiset<Ref>)
    requires Inv(s, held) && s.active.Some? && s.recent == []
    requires M.At(s, s.active.value) && s.cursor < |s.heap[s.active.value].slots|
    ensures s.pending != 0
    ensures var t := M.Drop(s.(turn := !s.turn, cursor := s.cursor + 1), s.heap[s.active.value].slots[s.cursor]);
      && M.ObjectUnit(s) == t && M.At(t, s.active.value)
      && t.active == s.active && t.cursor == s.cursor + 1
      && t.heap[s.active.value].slots == s.heap[s.active.value].slots
  {
    ActiveIsDead(s, held);
  }

  /** The drop of a unique scalar leaf, which queues nothing. */
  lemma ScalarDrop(s: M.State, r: Ref)
    requires M.At(s, r) && s.heap[r].header == Owned(1) && s.heap[r].kind == ScalarRecord
    ensures M.Drop(s, Some(r)) == s.(heap := s.heap[r := Free])
  {
  }

  /** The only pending task is a unary record nothing has visited. */
  ghost predicate Unary(s: M.State, a: Ref) {
    && OnlyObjects(s) && s.active.None? && s.pending == 1
    && ((s.batch == [a] && s.recent == []) || (s.batch == [] && s.recent == [a]))
    && M.At(s, a) && IsDead(s.heap[a]) && s.heap[a].kind == Record
    && |s.heap[a].slots| == 1 && s.heap[a].spare == 0
  }

  /** What visiting its field and finishing it comes to. */
  function PairResult(s: M.State, a: Ref): M.State
    requires Unary(s, a)
  {
    var d := DropHeap(s.heap, s.heap[a].slots[0], None);
    s.(heap := d.heap[a := Free], batch := [], cursor := 1,
       recent := if d.queued.Some? then [d.queued.value] else [],
       pending := if d.queued.Some? then 1 else 0)
  }

  lemma UnaryFirst(s: M.State, a: Ref)
    requires Unary(s, a)
    ensures var d := DropHeap(s.heap, s.heap[a].slots[0], None);
      M.ObjectUnit(s) == s.(
        heap := d.heap[a := s.heap[a].(header := Dead(None))], active := Some(a), cursor := 1, turn := !s.turn,
        batch := [], recent := if d.queued.Some? then [d.queued.value] else [],
        pending := if d.queued.Some? then 2 else 1)
  {
    var c := s.heap[a].(header := Dead(None));
    DropLeavesDead(s.heap, s.heap[a].slots[0], None, a, c);
    var u := M.Capture(s).(turn := !s.turn);
    assert u.batch == [a] && u.recent == [] && u.batch[1..] == [];
    assert M.ObjectUnit(s) == M.ActiveUnit(M.Activate(u));
    hide DropHeap;
    var t := M.Activate(u);
    assert t.heap == s.heap[a := c];
  }

  lemma UnaryPair(s: M.State, a: Ref)
    requires Unary(s, a)
    ensures M.ObjectUnit(M.ObjectUnit(s)) == PairResult(s, a)
    ensures M.ObjectUnit(s).pending != 0
  {
    UnaryFirst(s, a);
    hide DropHeap;
    var u := M.ObjectUnit(s);
    var w := u.(turn := !u.turn);
    assert M.UnaryParent(w);
    assert M.ObjectUnit(u) == M.ActiveUnit(w);
    var d := DropHeap(s.heap, s.heap[a].slots[0], None);
    assert d.heap[a := s.heap[a].(header := Dead(None))][a := Free] == d.heap[a := Free];
  }

  lemma Unlinked(h: Heap)
    ensures Linked(h, [], None, None)
  {
  }

  lemma DropTurn(s: M.State, v: Slot, turn: bool)
    ensures M.Drop(s.(turn := turn), v) == M.Drop(s, v).(turn := turn) && M.Drop(s, v).turn == s.turn
  {
    hide DropHeap;
  }

  /** The last pair of a chain, taken from the detached state. */
  lemma PairByDrop(t: M.State, a: Ref)
    requires Unary(t, a)
    ensures var s := t.(heap := t.heap[a := t.heap[a].(header := Dead(None))], active := Some(a), cursor := 1,
                        batch := [], recent := []);
      var u := M.Drop(s, t.heap[a].slots[0]);
      && u.batch == [] && a < |u.heap| && (forall i :: 0 <= i < |u.recent| ==> u.recent[i] != a)
      && u.(heap := u.heap[a := Free], pending := u.pending - 1, active := None) == PairResult(t, a)
  {
    var c := t.heap[a].(header := Dead(None));
    var v := t.heap[a].slots[0];
    DropLeavesDead(t.heap, v, None, a, c);
    hide DropHeap;
    var d := DropHeap(t.heap, v, None);
    assert d.heap[a := c][a := Free] == d.heap[a := Free];
  }

  lemma UnaryProgress(s0: M.State, s: M.State, held: multiset<Ref>, work: nat, a: Ref)
    requires Inv(s, held) && Progress(s0, s, work) && Unary(s, a)
    ensures Inv(PairResult(s, a), held) && Progress(s0, PairResult(s, a), work + 2)
  {
    hide Inv, Progress, PairResult;
    UnaryPair(s, a);
    ObjectUnitInv(s, held);
    ObjectUnitProgress(s0, s, held, work);
    ObjectUnitInv(M.ObjectUnit(s), held);
    ObjectUnitProgress(s0, M.ObjectUnit(s), held, work + 1);
  }

  /** A unique unary child becomes the next sole task. */
  predicate CarriesOn(h: Heap, v: Slot) {
    && v.Some? && v.value < |h| && h[v.value].Object?
    && h[v.value].header == Owned(1) && h[v.value].kind == Record && |h[v.value].slots| == 1
  }

  lemma CarryUnary(s: M.State, held: multiset<Ref>, a: Ref)
    requires Inv(s, held) && Unary(s, a) && CarriesOn(s.heap, s.heap[a].slots[0])
    ensures var b := s.heap[a].slots[0].value;
      && b != a && Unary(PairResult(s, a), b)
      && PairResult(s, a) == s.(heap := s.heap[b := s.heap[b].(header := Dead(None))][a := Free],
                                batch := [], cursor := 1, recent := [b], pending := 1)
  {
    var b := s.heap[a].slots[0].value;
    assert View(s) == s.heap;
    assert Kinded(View(s), s.heap[b]);
    hide Inv;
    assert s.heap[b].spare == 0;
  }

  /** Past the last unit an idle machine stays put. */
  lemma ObjectsDone(s0: M.State, s: M.State, work: nat, budget: nat)
    requires Progress(s0, s, work) && work <= budget && (work == budget || s.pending == 0)
    ensures M.Iterate(s0, budget) == (if work == 0 then s else s.(nextQueue := 1)) && M.Work(s0, budget) == work
  {
    if work < budget { D.IterateIdle(s0, work, budget); }
  }

  /** The sole queued object, found from the queue heads. */
  lemma SoleTask(s: M.State, held: multiset<Ref>, a: Ref)
    requires Inv(s, held) && OnlyObjects(s) && s.pending == 1 && s.active.None?
    requires (s.batch != [] && s.batch[0] == a) || (s.batch == [] && s.recent != [] && s.recent[0] == a)
    ensures M.At(s, a) && IsDead(s.heap[a])
    ensures s.heap[a].kind == Record && |s.heap[a].slots| == 1 && s.heap[a].spare == 0 ==> Unary(s, a)
  {
    assert InvAt(s, held, a);
  }

  /** A public release: drop, then serve the queues with what is left of the budget. */
  function Released(s: M.State, v: Slot, limit: nat): M.State {
    var done := DropHeap(s.heap, v, M.First(s.recent)).finished;
    M.Iterate(M.Drop(s, v), if done < limit then limit - done else 0)
  }

  /** Its work: the leaves the drop finished and the units served. */
  function ReleaseWork(s: M.State, v: Slot, limit: nat): nat {
    var done := DropHeap(s.heap, v, M.First(s.recent)).finished;
    done + M.Work(M.Drop(s, v), if done < limit then limit - done else 0)
  }

  /** `v` is the last owner of a Text view that is the last owner of its backing. */
  predicate LastViewOfLastBacking(h: Heap, v: Slot) {
    && v.Some? && LastText(h, v.value) && h[v.value].slots != []
    && h[v.value].slots[0].Some? && LastText(h, h[v.value].slots[0].value)
  }

  predicate LastText(h: Heap, r: Ref) { r < |h| && IsOwned(h[r]) && h[r].header.count == 1 && h[r].kind == Text }

  /** The documented limit, exactly: a release does more work than its budget allows in
      one case only, a budget of one and a view that dies with its backing. */
  lemma ReleaseWithinLimit(s: M.State, held: multiset<Ref>, v: Slot, limit: nat)
    requires Inv(s, held) && limit > 0
    ensures ReleaseWork(s, v, limit) <= limit <==> limit >= 2 || !LastViewOfLastBacking(s.heap, v)
    ensures ReleaseWork(s, v, limit) <= if limit < 2 then 2 else limit
  {
    hide Inv, DropHeap, M.Drop, M.Work, LastViewOfLastBacking;
    FinishesAtMostTwo(s, held, v);
    var done := DropHeap(s.heap, v, M.First(s.recent)).finished;
    WorkAtMost(M.Drop(s, v), if done < limit then limit - done else 0);
  }

  const FLAT: Cell := Object(Owned(1), Text, [], 0)
  const VIEW: Cell := Object(Owned(1), Text, [Some(0)], 0)

  /** A world with nothing but these objects, these owned by running code. */
  function Only(h: Heap, held: multiset<Ref>): R.World { R.World(R.Start([]).s.(heap := h), held) }

  lemma CreateLast(h: Heap, held: multiset<Ref>, c: Cell, backing: Slot, h': Heap, held': multiset<Ref>)
    requires R.Reachable(Only(h, held)) && (backing.Some? ==> backing.value in held) && Fresh(h, c, backing)
    requires h' == h + [c] && held' == Add(Without(held, backing), Some(|h|))
    ensures R.Reachable(Only(h', held'))
  {
    hide R.Reachable, Fresh, Without, Add;
    R.ReachableNext(Only(h, held), R.Create(|h|, c, backing));
  }

  /** A Text, then a view that takes its only owner over. */
  lemma ViewReachable()
    ensures R.Reachable(Only([FLAT, VIEW], multiset{1}))
  {
    hide R.Reachable;
    R.ReachableStart([]);
    CreateLast([], multiset{}, FLAT, None, [FLAT], multiset{0});
    assert Without(multiset{0}, Some(0)) == multiset{};
    CreateLast([FLAT], multiset{0}, VIEW, Some(0), [FLAT, VIEW], multiset{1});
  }

  /** The failing case is reachable: releasing that view with a budget of one is two
      units of work. */
  lemma ReleaseExceedsLimit()
    ensures var w := Only([FLAT, VIEW], multiset{1});
      && R.Reachable(w) && 1 in w.held && LastViewOfLastBacking(w.s.heap, Some(1)) && ReleaseWork(w.s, Some(1), 1) == 2
  {
    hide R.Reachable, Inv, DropHeap, M.Drop, M.Unit;
    ViewReachable();
    var w := Only([FLAT, VIEW], multiset{1});
    R.ReachableInv(w);
    FinishesAtMostTwo(w.s, w.held, Some(1));
    assert M.Work(M.Drop(w.s, Some(1)), 0) == 0;
  }

  function Box(v: Slot): Cell { Object(Owned(1), Record, [v], 0) }

  /** A record of one field, two Texts, and the first Text in the field. */
  lemma BoxReachable()
    ensures R.Reachable(Only([Box(Some(1)), FLAT, FLAT], multiset{0, 2}))
  {
    hide R.Reachable;
    R.ReachableStart([]);
    CreateLast([], multiset{}, Box(None), None, [Box(None)], multiset{0});
    CreateLast([Box(None)], multiset{0}, FLAT, None, [Box(None), FLAT], multiset{0, 1});
    CreateLast([Box(None), FLAT], multiset{0, 1}, FLAT, None, [Box(None), FLAT, FLAT], multiset{0, 1, 2});
    BoxFilled();
  }

  lemma BoxFilled()
    requires R.Reachable(Only([Box(None), FLAT, FLAT], multiset{0, 1, 2}))
    ensures R.Reachable(Only([Box(Some(1)), FLAT, FLAT], multiset{0, 2}))
  {
    hide R.Reachable;
    R.ReachableNext(Only([Box(None), FLAT, FLAT], multiset{0, 1, 2}), R.Assign(0, 0, Some(1)));
    assert [None][0 := Some(1)] == [Some(1)];
    assert [Box(None), FLAT, FLAT][0 := Box(Some(1))] == [Box(Some(1)), FLAT, FLAT];
    assert multiset{0, 1, 2} - multiset{1} == multiset{0, 2};
  }

  /** The failing case of `minyar_record_set_take`: storing the second Text in the same
      field loses the first one's owner, whose count then never reaches zero. */
  lemma FieldOverwriteLeaks()
    ensures var w := Only([Box(Some(1)), FLAT, FLAT], multiset{0, 2});
      && R.Reachable(w) && 2 in w.held && Mortal(w.s, w.s.heap[0].slots[0])
      && !Inv(SetSlot(w.s, 0, 0, Some(2)), Without(w.held, Some(2)))
  {
    hide R.Reachable, Inv;
    BoxReachable();
    var w := Only([Box(Some(1)), FLAT, FLAT], multiset{0, 2});
    R.ReachableInv(w);
    HeldAgain(w.held, Some(2));
    SetFieldExact(w.s, Without(w.held, Some(2)), 0, 0, Some(2));
  }

  /** Drop the first `k` written locals of a frame, the last first. */
  function DropEach(s: M.State, f: M.Frame, k: nat): M.State
    requires k <= |f.written|
    decreases k
  {
    if k == 0 then s else DropEach(M.Drop(s, M.LocalValue(f, f.written[k - 1])), f, k - 1)
  }

  function Members(q: seq<nat>): set<nat> { if q == [] then {} else {q[0]} + Members(q[1..]) }

  lemma {:induction false} MembersCount(q: seq<nat>, n: nat)
    requires forall k :: 0 <= k < |q| ==> q[k] < n && CountIn(q, q[k]) <= 1
    ensures |Members(q)| == |q| && forall x :: x in Members(q) ==> x < n && CountIn(q, x) > 0
  {
    if q != [] {
      forall k | 0 <= k < |q| - 1
        ensures q[1..][k] < n && CountIn(q[1..], q[1..][k]) <= 1
      {
        assert q[1..][k] == q[k + 1];
      }
      MembersCount(q[1..], n);
      assert CountIn(q, q[0]) <= 1;
    }
  }

  lemma {:induction false} BoundedSet(s: set<nat>, n: nat)
    requires forall x :: x in s ==> x < n
    ensures |s| <= n
  {
    if n > 0 {
      BoundedSet(s - {n - 1}, n - 1);
    } else {
      assert s == {};
    }
  }

  /** The written index is no longer than the frame has locals. */
  lemma WrittenFits(s: M.State, held: multiset<Ref>)
    requires Inv(s, held) && s.frames != []
    ensures |s.frames[0].written| <= |s.frames[0].locals|
  {
    var f := s.frames[0];
    assert FrameOk(f);
    hide Inv, ChunksOk;
    forall k | 0 <= k < |f.written| ensures f.written[k] < |f.locals| && CountIn(f.written, f.written[k]) <= 1 {
      assert LocalOk(f, f.written[k]);
    }
    MembersCount(f.written, |f.locals|);
    BoundedSet(Members(f.written), |f.locals|);
  }

  class Collector {
    const limit: nat
    var heap: Heap
    var head: Option<Ref>
    var tail: Option<Ref>
    var recentHead: Option<Ref>
    var recentTail: Option<Ref>
    var active: Option<Ref>
    var cursor: nat
    var turn: bool
    var retired: seq<M.Frame>
    var chunks: seq<seq<Ref>>
    var nextQueue: nat
    var pending: int
    var frames: seq<M.Frame>
    var cache: seq<nat>
    var cachedBytes: int
    ghost var batch: seq<Ref>
    ghost var recent: seq<Ref>
    ghost var held: multiset<Ref>

    ghost function S(): M.State
      reads this
    {
      M.State(heap, active, cursor, batch, recent, turn, retired, chunks, nextQueue, pending, frames, cache,
              cachedBytes)
    }

    ghost predicate Links()
      reads this
    {
      Linked(heap, batch, head, tail) && Linked(heap, recent, recentHead, recentTail)
    }

    ghost predicate Valid()
      reads this
    {
      Inv(S(), held) && Links() && 0 < limit <= 1024
    }

    constructor (limit: nat, literals: Heap)
      requires 0 < limit <= 1024 && R.Literals(literals)
      ensures Valid() && this.limit == limit && S() == R.Start(literals).s && held == multiset{}
    {
      this.limit, heap := limit, literals;
      head, tail, recentHead, recentTail, active, cursor, turn := None, None, None, None, None, 0, false;
      retired, chunks, nextQueue, pending, frames, cache, cachedBytes := [], [], 0, 0, [], [], 0;
      batch, recent, held := [], [], multiset{};
      new;
      hide Inv;
      R.StartInv(literals);
    }

    /** `rc_drop`, returning how many leaves it finished. */
    method Drop(v: Slot) returns (finished: nat)
      requires Links()
      modifies this
      ensures Links() && held == old(held)
      ensures S() == M.Drop(old(S()), v)
      ensures finished == DropHeap(old(heap), v, old(recentHead)).finished
      decreases Allocated(heap), 1
    {
      hide Linked, Allocated;
      assert recentHead == M.First(recent) by { LinkedEnds(heap, recent, recentHead, recentTail); }
      if v.None? || v.value >= |heap| || !IsOwned(heap[v.value]) { return 0; }
      var r := v.value;
      var o := heap[r];
      if o.header == Owned(1) && o.kind == ScalarRecord {
        finished := FreeLeaf(r);
        return;
      }
      if o.header.count > 1 {
        var c := o.(header := Owned(o.header.count - 1));
        LinkedOwned(heap, r, c, batch, head, tail);
        LinkedOwned(heap, r, c, recent, recentHead, recentTail);
        heap := heap[r := c];
        return 0;
      }
      if o.kind == Text {
        finished := DropText(r);
        return;
      }
      if o.kind == ScalarList || o.kind == ImmortalReferences || o.kind == ScalarRecord || o.slots == [] {
        finished := FreeLeaf(r);
        return;
      }
      Enqueue(r);
      return 0;
    }

    /** The last owner of a Text: a view then drops its backing. */
    method DropText(r: Ref) returns (finished: nat)
      requires Links() && r < |heap| && IsOwned(heap[r]) && heap[r].header.count <= 1 && heap[r].kind == Text
      modifies this
      ensures Links() && held == old(held)
      ensures S() == M.Drop(old(S()), Some(r))
      ensures finished == DropHeap(old(heap), Some(r), old(recentHead)).finished
      decreases Allocated(heap), 0
    {
      hide Linked;
      AllocatedFree(heap, r);
      var slots := heap[r].slots;
      var one := FreeLeaf(r);
      var more := Drop(if slots == [] then None else slots[0]);
      return one + more;
    }

    /** `rc_bounded_finish_object` for an object that owns no slots. */
    method FreeLeaf(r: Ref) returns (one: nat)
      requires Links() && r < |heap| && IsOwned(heap[r])
      modifies this
      ensures Links() && held == old(held) && one == 1
      ensures S() == old(S()).(heap := old(heap)[r := Free])
      ensures recentHead == old(recentHead)
    {
      LinkedOwned(heap, r, Free, batch, head, tail);
      LinkedOwned(heap, r, Free, recent, recentHead, recentTail);
      heap := heap[r := Free];
      return 1;
    }

    /** Thread a newly dead object onto the recent stack. */
    method Enqueue(r: Ref)
      requires Links() && r < |heap| && IsOwned(heap[r])
      modifies this
      ensures Links() && held == old(held)
      ensures S() == old(S()).(heap := old(heap)[r := old(heap)[r].(header := Dead(M.First(old(recent))), spare := 0)],
                               recent := [r] + old(recent), pending := old(pending) + 1)
    {
      hide Linked;
      var c := heap[r].(header := Dead(recentHead), spare := 0);
      assert recentHead == M.First(recent) by { LinkedEnds(heap, recent, recentHead, recentTail); }
      LinkedOwned(heap, r, c, batch, head, tail);
      LinkedOwned(heap, r, c, recent, recentHead, recentTail);
      heap := heap[r := c];
      PushRecent(r);
    }

    method PushRecent(r: Ref)
      requires Links() && r < |heap| && heap[r].Object? && heap[r].header == Dead(recentHead)
      modifies this`recentHead, this`recentTail, this`recent, this`pending
      ensures Links() && S() == old(S()).(recent := [r] + old(recent), pending := old(pending) + 1)
    {
      hide Linked;
      LinkedPush(heap, recent, recentHead, recentTail, r);
      recentHead := Some(r);
      if recentTail.None? { recentTail := Some(r); }
      recent := [r] + recent;
      pending := pending + 1;
    }

    method Activate()
      requires Valid() && active.None? && batch != []
      modifies this
      ensures Valid() && held == old(held) && active.Some?
      ensures old(M.At(S(), batch[0])) && S() == M.Activate(old(S()))
    {
      hide Inv, Linked;
      ghost var s := S();
      ActivateInv(s, held);
      TasksApart(s, held, batch[0]);
      PopHead();
      var a := active.value;
      var c := heap[a].(header := Dead(None));
      LinkedElse(heap, a, c, recent, recentHead, recentTail);
      LinkedElse(heap, a, c, batch, head, tail);
      cursor := heap[a].spare;
      heap := heap[a := c];
      assert S() == M.Activate(s);
    }

    /** Unlink the head of the captured batch. */
    method PopHead()
      requires Links() && batch != []
      modifies this`head, this`tail, this`batch, this`active
      ensures Links() && S() == old(S()).(batch := old(batch)[1..], active := Some(old(batch)[0]))
    {
      hide Linked;
      LinkedTail(heap, batch, head, tail);
      active := head;
      head := heap[active.value].header.link;
      if head.None? { tail := None; }
      batch := batch[1..];
    }

    /** Free the finished task `a`, which is in no queue. */
    method FinishTask(a: Ref)
      requires Links() && a < |heap|
      requires forall i :: 0 <= i < |batch| ==> batch[i] != a
      requires forall i :: 0 <= i < |recent| ==> recent[i] != a
      modifies this
      ensures Links() && held == old(held)
      ensures S() == old(S()).(heap := old(heap)[a := Free], pending := old(pending) - 1)
      ensures recentHead == old(recentHead) && recentTail == old(recentTail)
    {
      LinkedElse(heap, a, Free, recent, recentHead, recentTail);
      LinkedElse(heap, a, Free, batch, head, tail);
      heap := heap[a := Free];
      pending := pending - 1;
    }

    /** `rc_bounded_old_object_unit`. */
    method OldUnit()
      requires Valid() && (active.Some? || batch != [])
      modifies this
      ensures Valid() && held == old(held)
      ensures S() == M.OldUnit(old(S()))
    {
      hide Inv, Linked, M.Drop, DropHeap, M.Activate;
      OldUnitInv(S(), held);
      if active.None? { Activate(); }
      ActiveUnitInv(S(), held);
      TasksApart(S(), held, active.value);
      var a := active.value;
      if cursor < |heap[a].slots| {
        var v := heap[a].slots[cursor];
        cursor := cursor + 1;
        var _ := Drop(v);
        return;
      }
      FinishTask(a);
      active := None;
    }

    /** `rc_bounded_recent_object_unit`. */
    method RecentUnit()
      requires Valid() && recent != []
      modifies this
      ensures Valid() && held == old(held)
      ensures S() == M.RecentUnit(old(S()))
    {
      hide Inv, LinkAt, M.Drop, DropHeap;
      RecentUnitInv(S(), held);
      TasksApart(S(), held, recent[0]);
      var a := recentHead.value;
      var o := heap[a];
      if o.spare < |o.slots| {
        var c := o.(spare := o.spare + 1);
        LinkedElse(heap, a, c, recent, recentHead, recentTail);
        LinkedElse(heap, a, c, batch, head, tail);
        heap := heap[a := c];
        var _ := Drop(o.slots[o.spare]);
        return;
      }
      PopRecent();
      FinishTask(a);
    }

    /** Unlink the newest recent task. */
    method PopRecent()
      requires Links() && recent != []
      modifies this`recentHead, this`recentTail, this`recent
      ensures Links() && S() == old(S()).(recent := old(recent)[1..])
    {
      hide Linked;
      LinkedTail(heap, recent, recentHead, recentTail);
      recentHead := heap[recentHead.value].header.link;
      if recentHead.None? { recentTail := None; }
      recent := recent[1..];
    }

    /** Take the whole recent stack as the next batch, and pass the turn. */
    method Capture() returns (wasRecent: bool)
      requires Valid()
      modifies this
      ensures Valid() && held == old(held) && wasRecent == old(turn)
      ensures S() == M.Capture(old(S())).(turn := !old(turn))
    {
      hide Inv, Linked;
      ghost var s := S();
      CaptureInv(s, held);
      LinkedEmpty(heap, batch, head, tail);
      LinkedEmpty(heap, recent, recentHead, recentTail);
      if active.None? && head.None? { TakeRecent(); }
      wasRecent := turn;
      turn := !turn;
      assert S() == M.Capture(s).(turn := !s.turn);
    }

    method TakeRecent()
      requires Links() && batch == []
      modifies this`head, this`tail, this`recentHead, this`recentTail, this`batch, this`recent
      ensures Links() && S() == old(S()).(batch := old(recent), recent := [])
    {
      hide Linked;
      LinkedEmpty(heap, recent, recentHead, recentTail);
      head, tail, batch := recentHead, recentTail, recent;
      recentHead, recentTail, recent := None, None, [];
    }

    /** `rc_bounded_object_unit`. */
    method ObjectUnit()
      requires Valid() && M.Ready(S(), 0)
      modifies this
      ensures Valid() && held == old(held)
      ensures S() == M.ObjectUnit(old(S()))
    {
      hide Inv, M.OldUnit, M.RecentUnit, LinkAt;
      var wasRecent := Capture();
      var unary := head.None? && active.Some? && active.value < |heap| && heap[active.value].Object?
                   && heap[active.value].kind == Record && |heap[active.value].slots| == 1 && cursor == 1;
      if wasRecent && recentHead.Some? && !unary { RecentUnit(); } else { OldUnit(); }
    }

    /** `rc_bounded_frame_unit`. */
    method FrameUnit()
      requires Valid() && retired != []
      modifies this
      ensures Valid() && held == old(held)
      ensures S() == M.FrameUnit(old(S()))
    {
      hide Inv, Linked, M.Drop, DropHeap;
      FrameUnitInv(S(), held);
      var f := retired[0];
      if f.written != [] {
        var n := |f.written| - 1;
        retired := [f.(written := f.written[..n])] + retired[1..];
        var _ := Drop(M.LocalValue(f, f.written[n]));
        return;
      }
      retired := retired[1..];
      if f.bytes <= M.FRAME_CACHE_BYTES && cachedBytes <= M.FRAME_CACHE_BYTES - f.bytes {
        cache := [f.bytes] + cache;
        cachedBytes := cachedBytes + f.bytes;
      }
      pending := pending - 1;
    }

    /** `rc_bounded_chunk_unit`. */
    method ChunkUnit()
      requires Valid() && chunks != []
      modifies this
      ensures Valid() && held == old(held)
      ensures S() == M.ChunkUnit(old(S()))
    {
      hide Inv, Linked, M.Drop, DropHeap;
      ChunkUnitInv(S(), held);
      var c := chunks[0];
      if c != [] {
        var n := |c| - 1;
        chunks := [c[..n]] + chunks[1..];
        var _ := Drop(Some(c[n]));
        return;
      }
      chunks := chunks[1..];
      pending := pending - 1;
    }

    /** The fused unary chain: finish a run of sole unary records pair by pair,
        publishing queue state only at the end. */
    method UnaryChain(single0: Ref, budget: nat, work0: nat, ghost s0: M.State) returns (work: nat)
      requires Valid() && Unary(S(), single0) && Progress(s0, S(), work0) && work0 + 2 <= budget
      modifies this
      ensures Valid() && held == old(held) && Progress(s0, S(), work) && work0 < work <= budget
    {
      hide Inv, Progress, M.ObjectUnit, DropHeap, Linked, Unary, PairResult;
      ghost var t := S();
      var single := single0;
      work := work0;
      Detach(single);
      while true
        invariant held == old(held) && Inv(t, held) && Unary(t, single) && Progress(s0, t, work)
        invariant Detached(t, single)
        invariant work0 <= work && work + 2 <= budget
        decreases budget - work
      {
        UnaryProgress(s0, t, held, work, single);
        var v := DetachedSlot(single, t);
        if budget - work >= 4 && CarriesOn(heap, v) {
          var next := v.value;
          Carry(single, next, t);
          t := PairResult(t, single);
          work := work + 2;
          single := next;
          continue;
        }
        FinishUnary(single, v, t);
        work := work + 2;
        break;
      }
    }

    /** The state inside a chain: `t` is where the scheduler would stand, with
        `single` queued; here it is already active, its visit counted. */
    ghost predicate Detached(t: M.State, single: Ref)
      requires Unary(t, single)
      reads this
    {
      && S() == t.(heap := t.heap[single := t.heap[single].(header := Dead(None))],
                   active := Some(single), cursor := 1, batch := [], recent := [])
      && head.None? && tail.None? && recentHead.None? && recentTail.None?
    }

    method Detach(single: Ref)
      requires Unary(S(), single)
      modifies this
      ensures Detached(old(S()), single) && held == old(held)
    {
      ghost var t := S();
      assert Unary(t, single);
      assert single < |heap| && heap[single].Object?;
      hide Unary;
      ClearQueues();
      heap := heap[single := heap[single].(header := Dead(None))];
      active, cursor := Some(single), 1;
    }

    method ClearQueues()
      modifies this`head, this`tail, this`recentHead, this`recentTail, this`batch, this`recent
      ensures head.None? && tail.None? && recentHead.None? && recentTail.None?
      ensures S() == old(S()).(batch := [], recent := [])
    {
      head, tail, batch := None, None, [];
      recentHead, recentTail, recent := None, None, [];
    }

    method DetachedSlot(single: Ref, ghost t: M.State) returns (v: Slot)
      requires Unary(t, single) && Detached(t, single)
      ensures v == t.heap[single].slots[0] && (CarriesOn(heap, v) <==> CarriesOn(t.heap, v))
    {
      v := heap[single].slots[0];
    }

    method Carry(single: Ref, next: Ref, ghost t: M.State)
      requires Inv(t, held) && Unary(t, single) && Detached(t, single)
      requires Some(next) == t.heap[single].slots[0] && CarriesOn(t.heap, Some(next))
      modifies this
      ensures held == old(held) && Unary(PairResult(t, single), next) && Detached(PairResult(t, single), next)
    {
      CarryUnary(t, held, single);
      hide Inv, DropHeap, PairResult;
      heap := heap[next := heap[next].(header := Dead(None))][single := Free];
      active := Some(next);
    }

    /** The final pair of a chain. */
    method FinishUnary(single: Ref, v: Slot, ghost t: M.State)
      requires Unary(t, single) && v == t.heap[single].slots[0] && Detached(t, single)
      modifies this
      ensures Links() && held == old(held) && S() == PairResult(t, single)
    {
      hide Linked, DropHeap, PairResult, Unary, M.Drop;
      PairByDrop(t, single);
      DropTurn(S(), v, !turn);
      turn := !turn;
      assert Links() by { Unlinked(heap); }
      var _ := Drop(v);
      turn := !turn;
      FinishTask(single);
      active := None;
    }

    /** The contiguous run of an active List's owner slots, ended by the first
        newly dead nonleaf. */
    method ListRun(budget: nat, work0: nat, ghost s0: M.State) returns (work: nat)
      requires Valid() && Progress(s0, S(), work0) && work0 < budget
      requires active.Some? && recent == [] && pending != 0 && M.At(S(), active.value)
      modifies this
      ensures Valid() && held == old(held) && Progress(s0, S(), work) && work0 <= work <= budget
      ensures work == work0 ==> S() == old(S())
      ensures work0 < work <==> old(cursor < |heap[active.value].slots|)
    {
      hide Inv, Progress, M.ObjectUnit, DropHeap, LinkAt;
      work := work0;
      var slots := heap[active.value].slots;
      var available := if cursor < |slots| then |slots| - cursor else 0;
      var count := if budget - work > available then available else budget - work;
      var end := cursor + count;
      while cursor < end
        invariant Valid() && held == old(held) && Progress(s0, S(), work)
        invariant active == old(active) && recent == [] && M.At(S(), active.value) && heap[active.value].slots == slots
        invariant end <= |slots| || count == 0
        invariant cursor <= end && work + (end - cursor) == work0 + count
        invariant work == work0 ==> S() == old(S())
      {
        var stop := ListVisit(s0, work);
        work := work + 1;
        if stop { break; }
      }
    }

    method ListVisit(ghost s0: M.State, ghost work: nat) returns (stop: bool)
      requires Valid() && Progress(s0, S(), work)
      requires active.Some? && recent == [] && M.At(S(), active.value) && cursor < |heap[active.value].slots|
      modifies this
      ensures Valid() && held == old(held) && Progress(s0, S(), work + 1)
      ensures active == old(active) && cursor == old(cursor) + 1 && M.At(S(), active.value)
      ensures heap[active.value].slots == old(heap[active.value].slots)
      ensures stop <==> recent != []
    {
      hide Inv, Linked, M.Drop, DropHeap, M.ObjectUnit, Progress;
      ListVisitUnit(S(), held);
      ObjectUnitInv(S(), held);
      ObjectUnitProgress(s0, S(), held, work);
      turn := !turn;
      var value := heap[active.value].slots[cursor];
      cursor := cursor + 1;
      if value.Some? && value.value < |heap| && heap[value.value].Object?
         && heap[value.value].header == Owned(1) && heap[value.value].kind == ScalarRecord {
        ScalarDrop(S(), value.value);
        var _ := FreeLeaf(value.value);
        return false;
      }
      var _ := Drop(value);
      LinkedEmpty(heap, recent, recentHead, recentTail);
      return recentHead.Some?;
    }

    /** A poll with no frame or chunk waiting. */
    method PollObjects(budget: nat) returns (work: nat)
      requires Valid() && retired == [] && chunks == []
      modifies this
      ensures Valid() && held == old(held)
      ensures S() == M.Iterate(old(S()), budget) && work == M.Work(old(S()), budget)
    {
      hide Inv, M.ObjectUnit, M.Unit, DropHeap, Linked, Unary, LinkAt;
      ghost var s0 := S();
      work := 0;
      while work < budget && pending != 0
        invariant Valid() && held == old(held) && Progress(s0, S(), work) && work <= budget
        decreases budget - work
      {
        work := PollStep(budget, work, s0);
      }
      ObjectsDone(s0, S(), work, budget);
      if work != 0 {
        NextQueueInv(S(), held, 1);
        nextQueue := 1;
      }
    }

    /** One turn of the object-only loop: a unary chain, a List run or one unit. */
    method PollStep(budget: nat, work0: nat, ghost s0: M.State) returns (work: nat)
      requires Valid() && Progress(s0, S(), work0) && work0 < budget && pending != 0
      modifies this
      ensures Valid() && held == old(held) && Progress(s0, S(), work) && work0 < work <= budget
    {
      hide Inv, M.ObjectUnit, DropHeap, Linked, Unary, M.Iterate, M.Work;
      if budget - work0 >= 2 && pending == 1 && active.None? {
        var single := SoleHead();
        if single.Some? {
          work := UnaryChain(single.value, budget, work0, s0);
          return;
        }
      }
      work := work0;
      if recentHead.None? && active.Some? {
        LinkedEmpty(heap, recent, recentHead, recentTail);
        ActiveIsDead(S(), held);
        if heap[active.value].kind == References {
          var count := |heap[active.value].slots| - cursor;
          work := ListRun(budget, work0, s0);
          if count > 0 { return; }
        }
      }
      ObjectReady(S(), held);
      ObjectUnitProgress(s0, S(), held, work);
      ObjectUnit();
      work := work + 1;
    }

    method SoleHead() returns (single: Option<Ref>)
      requires Valid() && OnlyObjects(S()) && pending == 1 && active.None?
      ensures single.Some? ==> Unary(S(), single.value)
    {
      LinkedEmpty(heap, batch, head, tail);
      LinkedEmpty(heap, recent, recentHead, recentTail);
      single := if head.Some? then head else recentHead;
      if single.Some? {
        SoleTask(S(), held, single.value);
        hide Inv, LinkAt;
        var c := heap[single.value];
        if !(c.kind == Record && |c.slots| == 1 && c.spare == 0) { single := None; }
      }
    }

    /** The three-way round robin. */
    method PollAll(budget: nat) returns (work: nat)
      requires Valid()
      modifies this
      ensures Valid() && held == old(held)
      ensures S() == M.Iterate(old(S()), budget) && work == M.Work(old(S()), budget)
    {
      hide Inv, M.Unit, Linked;
      ghost var s0 := S();
      work := 0;
      while work < budget && pending != 0
        invariant Valid() && held == old(held) && work <= budget
        invariant S() == M.Iterate(s0, work) && work == M.Work(s0, work)
      {
        UnitStep();
        work := work + 1;
      }
      if work < budget { D.IterateIdle(s0, work, budget); }
    }

    method UnitStep()
      requires Valid() && pending != 0
      modifies this
      ensures Valid() && held == old(held)
      ensures S() == M.Unit(old(S()))
    {
      hide Inv, Linked, M.ObjectUnit, M.FrameUnit, M.ChunkUnit, M.Pick;
      ReadyQueue(S(), held);
      var queue := SelectQueue();
      NextQueueInv(S(), held, (queue + 1) % 3);
      nextQueue := (queue + 1) % 3;
      if queue == 0 { ObjectUnit(); } else if queue == 1 { FrameUnit(); } else { ChunkUnit(); }
    }

    method SelectQueue() returns (queue: nat)
      requires Links() && nextQueue < 3
      ensures queue == M.Pick(S())
    {
      hide Linked;
      LinkedEmpty(heap, batch, head, tail);
      LinkedEmpty(heap, recent, recentHead, recentTail);
      queue := nextQueue;
      var tries := 0;
      while tries < 3
        invariant tries <= 3 && queue == (nextQueue + tries) % 3
        invariant tries > 0 ==> !M.Ready(S(), nextQueue)
        invariant tries > 1 ==> !M.Ready(S(), (nextQueue + 1) % 3)
        invariant tries > 2 ==> !M.Ready(S(), (nextQueue + 2) % 3)
      {
        if (queue == 0 && (active.Some? || head.Some? || recentHead.Some?)) ||
           (queue == 1 && retired != []) || (queue == 2 && chunks != []) { break; }
        queue := (queue + 1) % 3;
        tries := tries + 1;
      }
    }

    /** `minyar_rc_poll`: whatever it batches, it ends where the unit-at-a-time
        scheduler would and reports the same work. */
    method Poll(budget: nat) returns (work: nat)
      requires Valid()
      modifies this
      ensures Valid() && held == old(held)
      ensures var b := if budget > limit then limit else budget;
        S() == M.Iterate(old(S()), b) && work == M.Work(old(S()), b)
    {
      var b := if budget > limit then limit else budget;
      if retired == [] && chunks == [] { work := PollObjects(b); } else { work := PollAll(b); }
    }

    /* ---- operations of running code ---- */

    /** `rc_service_pending`. */
    method Service(budget: nat) returns (work: nat)
      requires Valid() && budget <= limit
      modifies this
      ensures Valid() && held == old(held)
      ensures S() == M.Iterate(old(S()), budget) && work == M.Work(old(S()), budget)
    {
      hide Inv, Linked, M.Unit;
      if pending != 0 {
        work := Poll(budget);
      } else {
        D.IterateIdle(S(), 0, budget);
        work := 0;
      }
    }

    method SetCell(a: Ref, c: Cell)
      requires Links() && a < |heap| && !IsDead(heap[a])
      modifies this
      ensures Links() && held == old(held)
      ensures S() == old(S()).(heap := old(heap)[a := c])
    {
      LinkedOwned(heap, a, c, batch, head, tail);
      LinkedOwned(heap, a, c, recent, recentHead, recentTail);
      heap := heap[a := c];
    }

    /** `minyar_rc_retain`. */
    method Retain(v: Slot)
      requires Valid() && Usable(S(), v)
      modifies this
      ensures Valid() && held == Add(old(held), v) && S() == RcMutator.Retain(old(S()), v)
    {
      hide Inv, Linked;
      RetainInv(S(), held, v);
      if v.Some? && IsOwned(heap[v.value]) {
        SetCell(v.value, heap[v.value].(header := Owned(heap[v.value].header.count + 1)));
      }
      held := Add(held, v);
    }

    /** `minyar_rc_release`: at most the poll budget of work in all, unless the budget is
        one and a Text view dies with its backing. */
    method Release(v: Slot) returns (work: nat)
      requires Valid() && (v.Some? ==> v.value in held)
      modifies this
      ensures Valid() && old(held) == Add(held, v)
      ensures S() == Released(old(S()), v, limit) && work == ReleaseWork(old(S()), v, limit)
      ensures work <= limit <==> limit >= 2 || !LastViewOfLastBacking(old(heap), v)
      ensures work <= if limit < 2 then 2 else limit
    {
      hide Inv, Linked, DropHeap, M.Drop, M.Unit, M.Iterate, M.Work, LastViewOfLastBacking;
      ReleaseWithinLimit(S(), held, v, limit);
      ReleaseInv(S(), held, v);
      LinkedEnds(heap, recent, recentHead, recentTail);
      var done := Drop(v);
      held := Without(held, v);
      var budget := if done < limit then limit - done else 0;
      var polled := Service(budget);
      work := done + polled;
    }

    /** `rc_allocate_object`: clean up first, then take any free cell. */
    method Allocate(c: Cell, backing: Slot) returns (r: Ref)
      requires Valid() && (backing.Some? ==> backing.value in held)
      requires Fresh(heap, c, backing)
      modifies this
      ensures Valid() && Add(held, backing) == Add(old(held), Some(r))
      ensures var t := M.Iterate(old(S()), limit);
        && r <= |t.heap| && (r < |t.heap| ==> t.heap[r].Free?)
        && S() == RcMutator.Allocate(t, r, c)
    {
      hide Inv, Linked, M.Unit, M.Iterate;
      FreshAfter(S(), held, limit, c, backing);
      var _ := Service(limit);
      r :| 0 <= r <= |heap| && (r < |heap| ==> heap[r].Free?);
      ghost var rest := if backing.Some? then held - multiset{backing.value} else held;
      assert held == Add(rest, backing);
      AllocateInv(S(), rest, r, c, backing);
      AllocateLinked(heap, r, c, batch, head, tail);
      AllocateLinked(heap, r, c, recent, recentHead, recentTail);
      heap := if r == |heap| then heap + [c] else heap[r := c];
      held := Add(rest, Some(r));
    }

    /** The value is null, immortal, or owned by a frame or the running code, so
        that no cleanup in between can take it away. */
    ghost predicate Protected(v: Slot)
      reads this
    {
      v.Some? ==> v.value < |heap| && (IsImmortal(heap[v.value]) || Q.Roots(S(), held, v.value) > 0)
    }

    /** `minyar_list_add` (with a retain) and `minyar_list_add_take` (without), on a List
        of references: room first, then the store, then service. */
    method ListAdd(a: Ref, v: Slot, retain: bool)
      requires Valid() && Protected(Some(a)) && Protected(v) && ReferenceList(S(), a)
      requires !retain && v.Some? ==> v.value in held
      modifies this
      ensures Valid() && old(held) == if retain then held else Add(held, v)
      ensures var full := |old(heap)[a].slots| == old(heap)[a].spare;
        var t := if full then GrowList(M.Iterate(old(S()), limit), a) else old(S());
        && ReferenceList(t, a)
        && S() == M.Iterate(AppendReference(t, a, v, retain), limit)
      ensures B.Rewritten(old(heap), heap, a, old(heap)[a].slots + [v])
      ensures retain || v != Some(a) ==> Live(S(), a)
    {
      hide Inv, Linked, M.Unit, DropHeap, M.Iterate, Protected, AppendReference, GrowList, B.Rewritten, B.Rooted;
      ghost var s, held0 := S(), held;
      ProtectedRooted(a);
      if |heap[a].slots| == heap[a].spare {
        ListGrow(a, v);
      }
      ghost var t := S();
      ProtectedLive(v);
      ListStore(a, v, retain);
      AddedMembers(s, held0, t, held, a, v, retain, limit);
      var _ := Service(limit);
    }

    /** Promote, count or take over, and append. */
    method ListStore(a: Ref, v: Slot, retain: bool)
      requires Valid() && Usable(S(), v) && ReferenceList(S(), a) && (!retain && v.Some? ==> v.value in held)
      modifies this
      ensures Valid() && old(held) == if retain then held else Add(held, v)
      ensures S() == AppendReference(old(S()), a, v, retain)
    {
      hide Inv, Linked, AppendSlot;
      ListStoreKind(a, v);
      if heap[a].kind == References {
        if retain { Retain(v); }
        ListAppend(a, v);
        if retain { AddCancel(old(held), held, v); }
      } else {
        ListAppendUncounted(a, v, !retain);
      }
    }

    /** Move an owner into the new slot of a counted List. */
    method ListAppend(a: Ref, v: Slot)
      requires Valid() && Owning(S(), a) && (v.Some? ==> v.value in held)
      modifies this
      ensures Valid() && old(held) == Add(held, v) && S() == AppendSlot(old(S()), a, v)
    {
      hide Inv, Linked, Add, Without;
      HeldAgain(held, v);
      AppendSlotInv(S(), Without(held, v), a, v);
      SetCell(a, heap[a].(slots := heap[a].slots + [v]));
      held := Without(held, v);
    }

    /** Append to an immortal-only List. */
    method ListAppendUncounted(a: Ref, v: Slot, ghost taken: bool)
      requires Valid() && Live(S(), a) && heap[a].kind == ImmortalReferences && Usable(S(), v) && !Mortal(S(), v)
      requires taken && v.Some? ==> v.value in held
      modifies this
      ensures Valid() && S() == AppendSlot(old(S()), a, v)
      ensures old(held) == if taken then Add(held, v) else held
    {
      hide Inv, Linked;
      AppendImmortalInv(S(), held, a, v);
      if taken {
        HeldAgain(held, v);
        ForgetImmortal(AppendSlot(S(), a, v), held, v);
      }
      SetCell(a, heap[a].(slots := heap[a].slots + [v]));
      if taken { held := Without(held, v); }
    }

    /** `list_grow`: cleanup, then room for more members. */
    method ListGrow(a: Ref, ghost v: Slot)
      requires Valid() && Protected(Some(a)) && Protected(v) && ReferenceList(S(), a)
      modifies this
      ensures Valid() && held == old(held) && Protected(Some(a)) && Protected(v) && ReferenceList(S(), a)
      ensures ReferenceList(M.Iterate(old(S()), limit), a) && S() == GrowList(M.Iterate(old(S()), limit), a)
    {
      hide Inv, Linked, M.Unit, M.Iterate;
      ghost var s := S();
      SurvivesPoll(s, held, limit, Some(a));
      SurvivesPoll(s, held, limit, v);
      var _ := Service(limit);
      ProtectedLive(Some(a));
      SpareInv(S(), held, a, if heap[a].spare == 0 then 3 else heap[a].spare * 2 + 1);
      SetCell(a, heap[a].(spare := if heap[a].spare == 0 then 3 else heap[a].spare * 2 + 1));
    }

    lemma ProtectedRooted(a: Ref)
      requires Protected(Some(a))
      ensures B.Rooted(S(), held, a)
    {
    }

    lemma ProtectedLive(v: Slot)
      requires Valid() && Protected(v)
      ensures Usable(S(), v)
    {
      if v.Some? { assert InvAt(S(), held, v.value); }
    }

    /** `list_store_kind`. */
    method ListStoreKind(a: Ref, v: Slot)
      requires Valid() && Live(S(), a)
      modifies this
      ensures Valid() && held == old(held) && S() == Promote(old(S()), a, v)
    {
      hide Inv, Linked;
      PromoteInv(S(), held, a, v);
      if heap[a].kind == ImmortalReferences && v.Some? && v.value < |heap| && IsOwned(heap[v.value]) {
        SetCell(a, heap[a].(kind := References));
      }
    }

    /** `minyar_list_set` (with a retain) and `minyar_list_set_take` (without):
        out of range stops the program; a counted List gives up its old member. */
    method ListSet(a: Ref, i: int, v: Slot, retain: bool) returns (ok: bool, work: nat)
      requires Valid() && ReferenceList(S(), a) && Usable(S(), v)
      requires !retain && v.Some? ==> v.value in held
      modifies this
      ensures Valid() && (ok <==> 0 <= i < |old(heap)[a].slots|)
      ensures !ok ==> S() == old(S()) && held == old(held)
      ensures ok ==> old(held) == if retain then held else Add(held, v)
      ensures ok && Promote(old(S()), a, v).heap[a].kind == References ==>
        var t := Promote(old(S()), a, v);
        var u := SetSlot(if retain then RcMutator.Retain(t, v) else t, a, i, v);
        && S() == Released(u, old(heap)[a].slots[i], limit)
        && (work <= limit <==> limit >= 2 || !LastViewOfLastBacking(u.heap, old(heap)[a].slots[i]))
      ensures work <= if limit < 2 then 2 else limit
      ensures ok && Promote(old(S()), a, v).heap[a].kind != References ==>
        S() == SetSlot(old(S()), a, i, v) && work == 0
      ensures ok ==> B.Rewritten(old(heap), heap, a, old(heap)[a].slots[i := v])
      ensures ok && old(Protected(Some(a))) && (retain || v != Some(a)) ==> Live(S(), a)
    {
      hide Inv, Linked, Released, SetSlot, Without, LastViewOfLastBacking, B.Rewritten, B.Rooted;
      if i < 0 || i >= |heap[a].slots| { return false, 0; }
      ok, work := true, 0;
      ghost var s := S();
      ListStoreKind(a, v);
      if heap[a].kind == References {
        if retain { Retain(v); }
        CountedMembers(s, a, v, retain);
        ghost var t := S();
        work := ListReplace(a, i, v);
        if retain { AddCancel(old(held), held, v); }
        B.RewrittenAgain(s.heap, t.heap, heap, a, s.heap[a].slots, s.heap[a].slots[i := v]);
        if old(Protected(Some(a))) && (retain || v != Some(a)) { StillRooted(s, old(held), t, held, a); }
        return;
      }
      SetMembers(s, a, i, v);
      ListOverwrite(a, i, v, !retain);
    }

    /** Exchange a counted member; the old one is released. */
    method ListReplace(a: Ref, i: nat, v: Slot) returns (work: nat)
      requires Valid() && Owning(S(), a) && i < |heap[a].slots| && (v.Some? ==> v.value in held)
      modifies this
      ensures Valid() && old(held) == Add(held, v)
      ensures var u := SetSlot(old(S()), a, i, v); var previous := old(heap)[a].slots[i];
        && S() == Released(u, previous, limit)
        && (work <= limit <==> limit >= 2 || !LastViewOfLastBacking(u.heap, previous))
      ensures work <= if limit < 2 then 2 else limit
      ensures B.Rewritten(old(heap), heap, a, old(heap)[a].slots[i := v])
      ensures B.Rooted(old(S()), held, a) ==> Live(S(), a)
    {
      hide Inv, Linked, Released, ReleaseWork, LastViewOfLastBacking, B.Rewritten, B.Rooted;
      var previous := heap[a].slots[i];
      ghost var s := S();
      ghost var rest := Without(held, v);
      HeldAgain(held, v);
      SetSlotInv(S(), rest, a, i, v);
      SetCell(a, heap[a].(slots := heap[a].slots[i := v]));
      held := Add(rest, previous);
      ReplacedMembers(s, rest, a, i, v, limit);
      work := Release(previous);
      AddCancel(rest, held, previous);
    }

    /** Overwrite an uncounted member of an immortal-only List. */
    method ListOverwrite(a: Ref, i: nat, v: Slot, ghost taken: bool)
      requires Valid() && Live(S(), a) && heap[a].kind == ImmortalReferences && Usable(S(), v) && !Mortal(S(), v)
      requires i < |heap[a].slots| && (taken && v.Some? ==> v.value in held)
      modifies this
      ensures Valid() && S() == SetSlot(old(S()), a, i, v)
      ensures old(held) == if taken then Add(held, v) else held
    {
      hide Inv, Linked;
      SetImmortalInv(S(), held, a, i, v);
      if taken {
        HeldAgain(held, v);
        ForgetImmortal(SetSlot(S(), a, i, v), held, v);
      }
      SetCell(a, heap[a].(slots := heap[a].slots[i := v]));
      if taken { held := Without(held, v); }
    }

    /** `minyar_record_set_take`: nothing is released, so what the field held stays
        counted as if somebody still held it. */
    method RecordSetTake(a: Ref, i: int, v: Slot) returns (ok: bool)
      requires Valid() && Live(S(), a) && heap[a].kind == Record
      requires v.Some? ==> v.value in held
      modifies this
      ensures Valid() && (ok <==> 0 <= i < |old(heap)[a].slots|)
      ensures !ok ==> S() == old(S()) && held == old(held)
      ensures ok ==> Add(held, v) == Add(old(held), old(heap)[a].slots[i])
      ensures ok ==> S() == M.Iterate(SetSlot(old(S()), a, i, v), limit)
      ensures ok ==> B.Rewritten(old(heap), heap, a, old(heap)[a].slots[i := v])
      ensures ok && old(Protected(Some(a))) && v != Some(a) ==> Live(S(), a)
    {
      hide Inv, Linked, M.Iterate, B.Rewritten, B.Rooted;
      if i < 0 || i >= |heap[a].slots| { return false; }
      ok := true;
      ghost var s := S();
      ghost var rest := Without(held, v);
      HeldAgain(held, v);
      SetSlotInv(s, rest, a, i, v);
      held := Add(rest, heap[a].slots[i]);
      AddWithout(old(held), v, heap[a].slots[i], a);
      if old(Protected(Some(a))) && v != Some(a) { StillRooted(s, old(held), s, held, a); }
      SetCell(a, heap[a].(slots := heap[a].slots[i := v]));
      StoredMembers(s, held, a, i, v, limit);
      var _ := Poll(limit);
    }

    /** `minyar_rc_enter`: `bytes` is what the frame's storage is charged. */
    method Enter(locals: nat, bytes: nat)
      requires Valid()
      modifies this
      ensures Valid() && held == old(held)
      ensures var t := M.Iterate(old(S()), limit);
        S() == Push(Uncache(t), NewFrame(locals, false, bytes))
      ensures |frames| > 0 && frames[1..] == old(frames) && EmptyFrame(frames[0], locals, false)
    {
      hide Inv, Linked, M.Iterate;
      Q.IterateEvolves(S(), limit, held);
      var _ := Poll(limit);
      UncacheInv(S(), held);
      if cache != [] {
        cachedBytes := cachedBytes - cache[0];
        cache := cache[1..];
      }
      PushInv(S(), held, locals, false, bytes);
      frames := [NewFrame(locals, false, bytes)] + frames;
    }

    /** `minyar_rc_leave` of a heap-backed frame. */
    method Leave()
      requires Valid() && frames != [] && !frames[0].onStack
      modifies this
      ensures Valid() && held == old(held)
      ensures S() == M.Iterate(RcMutator.Detach(old(S())), limit)
      ensures frames == old(frames)[1..]
    {
      hide Inv, Linked, M.Iterate;
      DetachInv(S(), held);
      Q.IterateEvolves(RcMutator.Detach(S()), limit, held);
      RetireTop();
      retired := retired + [frames[0]];
      frames := frames[1..];
      pending := pending + 1;
      var _ := Poll(limit);
    }

    /** `rc_bounded_retire_temporaries`. */
    method RetireTop()
      requires Valid() && frames != []
      modifies this
      ensures Valid() && held == old(held) && S() == RetireTemporaries(old(S())) && frames != []
    {
      hide Inv, Linked;
      RetireTemporariesInv(S(), held);
      var f := frames[0];
      if f.chunks == [] { return; }
      chunks := chunks + f.chunks;
      pending := pending + f.kept / M.CHUNK_SLOTS + (if f.kept % M.CHUNK_SLOTS != 0 then 1 else 0);
      frames := [f.(chunks := [], kept := 0)] + frames[1..];
    }

    /** `minyar_rc_step`. */
    method Step()
      requires Valid() && frames != []
      modifies this
      ensures Valid() && held == old(held)
      ensures S() == M.Iterate(RetireTemporaries(old(S())), limit)
      ensures |frames| == |old(frames)| && frames[1..] == old(frames)[1..] && frames[0].chunks == []
      ensures frames[0].locals == old(frames)[0].locals && frames[0].written == old(frames)[0].written
    {
      hide Inv, Linked, M.Iterate;
      RetireTemporariesInv(S(), held);
      Q.IterateEvolves(RetireTemporaries(S()), limit, held);
      RetireTop();
      var _ := Poll(limit);
    }

    /** `minyar_rc_keep`: null and immortal values need no owner. */
    method Keep(v: Slot)
      requires Valid() && frames != [] && (v.Some? ==> v.value in held)
      modifies this
      ensures Valid() && old(held) == Add(held, v)
      ensures var f := old(frames)[0];
        var fullChunk := f.chunks == [] || |f.chunks[|f.chunks| - 1]| == M.CHUNK_SLOTS;
        var t := if fullChunk then M.Iterate(old(S()), limit) else old(S());
        if !Mortal(old(S()), v) then S() == old(S())
        else t.frames != [] && S() == M.Iterate(RcMutator.Keep(t, v.value), limit)
      ensures |frames| == |old(frames)| && frames[1..] == old(frames)[1..]
      ensures frames[0].locals == old(frames)[0].locals && frames[0].written == old(frames)[0].written
      ensures Flat(frames[0].chunks) == Flat(old(frames)[0].chunks) + if Mortal(old(S()), v) then [v.value] else []
    {
      hide Inv, Linked, M.Iterate;
      HeldAgain(held, v);
      if v.None? || v.value >= |heap| || !IsOwned(heap[v.value]) {
        ForgetImmortal(S(), held, v);
        held := Without(held, v);
        return;
      }
      var f := frames[0];
      if f.chunks == [] || |f.chunks[|f.chunks| - 1]| == M.CHUNK_SLOTS {
        Q.IterateEvolves(S(), limit, held);
        var _ := Service(limit);
      }
      KeepOrder(frames[0].chunks, v.value);
      KeepMortal(v.value);
    }

    /** Enter an owned value among the frame's temporaries, then serve. */
    method KeepMortal(r: Ref)
      requires Valid() && frames != [] && held == Add(Without(held, Some(r)), Some(r))
      modifies this
      ensures Valid() && held == Without(old(held), Some(r))
      ensures S() == M.Iterate(RcMutator.Keep(old(S()), r), limit)
      ensures frames == RcMutator.Keep(old(S()), r).frames
    {
      hide Inv, Linked, M.Iterate, Add, Without, KeepIn;
      KeepInv(S(), Without(held, Some(r)), r);
      var f := frames[0];
      frames := [f.(chunks := KeepIn(f.chunks, r), kept := f.kept + 1)] + frames[1..];
      held := Without(held, Some(r));
      Q.IterateEvolves(S(), limit, held);
      var _ := Service(limit);
    }

    /** `minyar_rc_local_take`. */
    method LocalTake(i: nat, v: Slot) returns (work: nat)
      requires Valid() && frames != [] && i < |frames[0].locals| && (v.Some? ==> v.value in held)
      modifies this
      ensures Valid() && old(held) == Add(held, v)
      ensures var previous := old(frames)[0].locals[i].value;
        && S() == Released(SetTop(old(S()), StoreIn(old(frames)[0], i, v)), previous, limit)
        && (work <= limit <==> limit >= 2 || !LastViewOfLastBacking(old(heap), previous))
      ensures work <= if limit < 2 then 2 else limit
      ensures |frames| == |old(frames)| && frames[1..] == old(frames)[1..]
      ensures Placed(old(frames)[0], frames[0], i, v)
      ensures frames[0].written == old(frames)[0].written +
          if v.Some? && !old(frames)[0].locals[i].tagged then [i] else []
    {
      hide Inv, Linked, Released, ReleaseWork, LastViewOfLastBacking, Placed, StoreIn;
      HeldAgain(held, v);
      ghost var rest := Without(held, v);
      StoreInv(S(), rest, i, v);
      StorePlaces(S(), held, i, v);
      var f := frames[0];
      var previous := f.locals[i].value;
      frames := [StoreIn(f, i, v)] + frames[1..];
      held := Add(rest, previous);
      ReleasedFrames(S(), rest, previous, limit);
      work := Release(previous);
      AddCancel(rest, held, previous);
    }

    /** `minyar_rc_local_move`: the local's count passes to the running code. */
    method LocalMove(i: nat) returns (v: Slot)
      requires Valid() && frames != [] && i < |frames[0].locals|
      modifies this
      ensures Valid() && v == old(frames)[0].locals[i].value && held == Add(old(held), v)
      ensures S() == SetTop(old(S()), MoveFrom(old(frames)[0], i))
      ensures Placed(old(frames)[0], frames[0], i, None) && frames[0].written == old(frames)[0].written
    {
      hide Inv, Linked;
      MoveInv(S(), held, i);
      v := frames[0].locals[i].value;
      frames := [MoveFrom(frames[0], i)] + frames[1..];
      held := Add(held, v);
    }

    /** `minyar_rc_enter_stack_v1`: small frames use the caller's storage. */
    method EnterStack(locals: nat, bytes: nat)
      requires Valid()
      modifies this
      ensures Valid() && held == old(held) && frames != []
      ensures var t := M.Iterate(old(S()), limit);
        S() == if 0 < locals <= 8 && locals < limit then Push(t, NewFrame(locals, true, bytes))
               else Push(Uncache(t), NewFrame(locals, false, bytes))
      ensures frames[1..] == old(frames) && EmptyFrame(frames[0], locals, 0 < locals <= 8 && locals < limit)
    {
      hide Inv, Linked, M.Iterate;
      if 0 < locals <= 8 && locals < limit {
        Q.IterateEvolves(S(), limit, held);
        var _ := Poll(limit);
        PushInv(S(), held, locals, true, bytes);
        frames := [NewFrame(locals, true, bytes)] + frames;
        return;
      }
      Enter(locals, bytes);
    }

    /** `minyar_rc_leave_stack_v1` of a stack frame: its owners are dropped here
        and now, each counted as one visit, and no queue or cache ever sees it. */
    method LeaveStack() returns (work: nat)
      requires Valid() && frames != [] && frames[0].onStack && |frames[0].locals| < limit
      modifies this
      ensures Valid() && held == old(held) && frames == old(frames)[1..] && work <= limit
      ensures var t := RetireTemporaries(old(S())); var f := t.frames[0]; var n := |f.written|;
        var u := DropEach(t.(frames := t.frames[1..]), f, n);
        n < limit && S() == M.Iterate(u, limit - n) && work == n + M.Work(u, limit - n)
    {
      hide Inv, Linked, M.Iterate, M.Work, DropHeap, M.Drop, WrittenOwners, DropEach;
      ghost var outer := held;
      WrittenFits(S(), held);
      RetireTop();
      RetiredTop(old(S()));
      var f := frames[0];
      UnlinkInv(S(), held) by { RetireTemporariesInv(old(S()), held); }
      held := held + WrittenOwners(f.locals, f.written);
      frames := frames[1..];
      DropWritten(f, outer);
      WorkAtMost(S(), limit - |f.written|);
      Q.IterateEvolves(S(), limit - |f.written|, held);
      var polled := Poll(limit - |f.written|);
      work := |f.written| + polled;
    }

    /** Drop what each written slot of an unlinked frame owns, the last first. */
    method DropWritten(f: M.Frame, ghost outer: multiset<Ref>)
      requires Valid() && held == outer + WrittenOwners(f.locals, f.written)
      modifies this
      ensures Valid() && held == outer && frames == old(frames) && S() == DropEach(old(S()), f, |f.written|)
    {
      hide Inv, Linked, DropHeap, M.Drop, WrittenOwners;
      var left := |f.written|;
      assert f.written[..left] == f.written;
      while left > 0
        invariant left <= |f.written| && Valid() && frames == old(frames)
        invariant DropEach(S(), f, left) == DropEach(old(S()), f, |f.written|)
        invariant held == outer + WrittenOwners(f.locals, f.written[..left])
      {
        left := left - 1;
        WrittenLast(f, left, outer);
        DropOwner(M.LocalValue(f, f.written[left]), outer + WrittenOwners(f.locals, f.written[..left]));
      }
      WrittenNone(f.locals);
    }

    /** A drop of one held owner, without cleanup. */
    method DropOwner(v: Slot, ghost rest: multiset<Ref>)
      requires Valid() && held == Add(rest, v)
      modifies this
      ensures Valid() && held == rest && S() == M.Drop(old(S()), v) && frames == old(frames)
    {
      hide Inv, Linked, DropHeap;
      DropInv(S(), v, rest);
      var _ := Drop(v);
      held := rest;
    }
  }

  lemma WrittenLast(f: M.Frame, k: nat, outer: multiset<Ref>)
    requires k < |f.written|
    ensures outer + WrittenOwners(f.locals, f.written[..k + 1])
         == Add(outer + WrittenOwners(f.locals, f.written[..k]), M.LocalValue(f, f.written[k]))
  {
    assert f.written[..k + 1][..k] == f.written[..k];
  }

  lemma WrittenNone(locals: seq<M.Local>)
    ensures WrittenOwners(locals, []) == multiset{}
  {
  }

  lemma AddCancel(held: multiset<Ref>, held': multiset<Ref>, v: Slot)
    requires Add(held, v) == Add(held', v)
    ensures held == held'
  {
    if v.Some? {
      forall r: Ref ensures held[r] == held'[r] { assert Add(held, v)[r] == Add(held', v)[r]; }
    }
  }

  lemma ReleaseInv(s: M.State, held: multiset<Ref>, v: Slot)
    requires Inv(s, held) && (v.Some? ==> v.value in held)
    ensures Inv(M.Drop(s, v), Without(held, v)) && held == Add(Without(held, v), v)
  {
    hide Inv, DropHeap;
    assert held == Add(Without(held, v), v);
    DropInv(s, v, Without(held, v));
  }

  lemma {:induction false} WorkAtMost(s: M.State, n: nat)
    ensures M.Work(s, n) <= n
  {
    hide M.Unit;
    if n > 0 { WorkAtMost(s, n - 1); }
  }

  /** A live List of references, promoted or not. */
  predicate ReferenceList(s: M.State, a: Ref) {
    Live(s, a) && (s.heap[a].kind == References || s.heap[a].kind == ImmortalReferences)
  }

  function GrowList(s: M.State, a: Ref): M.State {
    if !M.At(s, a) then s
    else s.(heap := s.heap[a := s.heap[a].(spare := if s.heap[a].spare == 0 then 3 else s.heap[a].spare * 2 + 1)])
  }

  /** Promote if need be, count the new member if the List counts and nobody gives an
      owner up for it, append. */
  function AppendReference(s: M.State, a: Ref, v: Slot, retain: bool): M.State
    requires M.At(s, a)
  {
    var t := Promote(s, a, v);
    var u := if retain && t.heap[a].kind == References then RcMutator.Retain(t, v) else t;
    AppendSlot(u, a, v)
  }

  /** A store rewrites the member at its position. */
  lemma SetMembers(s: M.State, a: Ref, i: nat, v: Slot)
    requires M.At(s, a) && i < |s.heap[a].slots|
    ensures var t := SetSlot(s, a, i, v);
      && t.frames == s.frames && t.heap[a].slots == s.heap[a].slots[i := v] && M.At(t, a)
      && B.Rewritten(s.heap, t.heap, a, s.heap[a].slots[i := v])
      && t.heap[a].header == s.heap[a].header
  {
  }

  /** Promoting and counting rewrite none. */
  lemma CountedMembers(s: M.State, a: Ref, v: Slot, retain: bool)
    requires M.At(s, a)
    ensures var p := Promote(s, a, v); var t := if retain then RcMutator.Retain(p, v) else p;
      && M.At(t, a) && t.frames == s.frames && t.heap[a].slots == s.heap[a].slots
      && B.Rewritten(s.heap, t.heap, a, s.heap[a].slots)
      && (IsImmortal(s.heap[a]) ==> IsImmortal(t.heap[a]))
  {
  }

  lemma StillRooted(s: M.State, held: multiset<Ref>, t: M.State, held': multiset<Ref>, a: Ref)
    requires a < |s.heap| && (IsImmortal(s.heap[a]) || Q.Roots(s, held, a) > 0)
    requires t.frames == s.frames && |t.heap| == |s.heap| && held'[a] >= held[a]
    requires IsImmortal(s.heap[a]) ==> IsImmortal(t.heap[a])
    ensures B.Rooted(t, held', a)
  {
  }

  /** The release after a store rewrites none either. */
  lemma ReplacedMembers(s: M.State, held: multiset<Ref>, a: Ref, i: nat, v: Slot, limit: nat)
    requires M.At(s, a) && i < |s.heap[a].slots| && Inv(SetSlot(s, a, i, v), Add(held, s.heap[a].slots[i]))
    ensures var t := Released(SetSlot(s, a, i, v), s.heap[a].slots[i], limit);
      && B.Rewritten(s.heap, t.heap, a, s.heap[a].slots[i := v])
      && (B.Rooted(s, held, a) ==> Live(t, a))
  {
    hide Inv, M.Iterate, M.Drop, DropHeap, SetSlot, B.Rewritten;
    var was, slots := s.heap[a].slots[i], s.heap[a].slots[i := v];
    var t := SetSlot(s, a, i, v);
    var u := M.Drop(t, was);
    var done := DropHeap(t.heap, was, M.First(t.recent)).finished;
    SetMembers(s, a, i, v);
    B.DropMembers(t, was, held, a, slots);
    B.RewrittenAgain(s.heap, t.heap, u.heap, a, slots, slots);
    B.RewrittenHolds(s.heap, u.heap, a, slots);
    DropInv(t, was, held);
    B.PollMembers(u, held, if done < limit then limit - done else 0, a, slots);
    B.RewrittenAgain(s.heap, u.heap, Released(t, was, limit).heap, a, slots, slots);
  }

  lemma AddWithout(held: multiset<Ref>, v: Slot, w: Slot, a: Ref)
    requires v.Some? ==> v.value in held
    ensures Add(Add(Without(held, v), w), v) == Add(held, w)
    ensures v != Some(a) ==> Add(Without(held, v), w)[a] >= held[a]
  {
    if v.Some? && w.Some? {
      assert held - multiset{v.value} + multiset{w.value} + multiset{v.value} == held + multiset{w.value};
    }
  }

  /** Nor does the poll after a store, which leaves what is rooted. */
  lemma StoredMembers(s: M.State, held: multiset<Ref>, a: Ref, i: nat, v: Slot, n: nat)
    requires M.At(s, a) && i < |s.heap[a].slots| && Inv(SetSlot(s, a, i, v), held)
    ensures var t := M.Iterate(SetSlot(s, a, i, v), n);
      && B.Rewritten(s.heap, t.heap, a, s.heap[a].slots[i := v])
      && (B.Rooted(s, held, a) ==> Live(t, a))
  {
    hide Inv, M.Iterate, SetSlot, B.Rewritten;
    var t, slots := SetSlot(s, a, i, v), s.heap[a].slots[i := v];
    SetMembers(s, a, i, v);
    B.PollMembers(t, held, n, a, slots);
    B.RewrittenAgain(s.heap, t.heap, M.Iterate(t, n).heap, a, slots, slots);
  }

  /** `n` null locals never written, and no temporaries. */
  predicate EmptyFrame(f: M.Frame, n: nat, onStack: bool) {
    && |f.locals| == n && f.onStack == onStack && f.written == [] && f.chunks == []
    && forall j :: 0 <= j < n ==> f.locals[j] == M.Local(None, false)
  }

  /** Local `i` holds `v`; the other locals, their tags, and the temporaries are the same. */
  predicate Placed(f: M.Frame, g: M.Frame, i: nat, v: Slot) {
    && |g.locals| == |f.locals| && g.chunks == f.chunks && g.onStack == f.onStack
    && forall j :: 0 <= j < |f.locals| ==>
         if j == i then g.locals[j].value == v && (g.locals[j].tagged <==> f.locals[j].tagged || v.Some?)
         else g.locals[j] == f.locals[j]
  }

  /** Storing null where nothing was ever stored leaves null there. */
  lemma StorePlaces(s: M.State, held: multiset<Ref>, i: nat, v: Slot)
    requires Inv(s, held) && s.frames != [] && i < |s.frames[0].locals|
    ensures var f := s.frames[0]; var g := StoreIn(f, i, v);
      Placed(f, g, i, v) && g.written == f.written + if v.Some? && !f.locals[i].tagged then [i] else []
  {
    assert FrameOk(s.frames[0]);
    assert LocalOk(s.frames[0], i);
  }

  lemma ReleasedFrames(s: M.State, held: multiset<Ref>, v: Slot, limit: nat)
    requires Inv(s, Add(held, v))
    ensures Released(s, v, limit).frames == s.frames
  {
    hide Inv, M.Drop, DropHeap, M.Iterate;
    DropInv(s, v, held);
    Q.DropEvolves(s, v);
    var done := DropHeap(s.heap, v, M.First(s.recent)).finished;
    Q.IterateEvolves(M.Drop(s, v), if done < limit then limit - done else 0, held);
  }

  lemma GrowListMembers(s: M.State, a: Ref)
    requires M.At(s, a)
    ensures var t := GrowList(s, a);
      && M.At(t, a) && t.frames == s.frames && t.heap[a].slots == s.heap[a].slots
      && B.Rewritten(s.heap, t.heap, a, t.heap[a].slots)
      && (IsImmortal(s.heap[a]) ==> IsImmortal(t.heap[a]))
  {
  }

  lemma AppendReferenceMembers(s: M.State, a: Ref, v: Slot, retain: bool)
    requires M.At(s, a)
    ensures var t := AppendReference(s, a, v, retain);
      && M.At(t, a) && t.frames == s.frames && t.heap[a].slots == s.heap[a].slots + [v]
      && B.Rewritten(s.heap, t.heap, a, t.heap[a].slots)
      && (IsImmortal(s.heap[a]) ==> IsImmortal(t.heap[a]))
  {
  }

  /** Growing, storing and serving cleanup in between put the member after the others. */
  lemma AddedMembers(s: M.State, held: multiset<Ref>, t: M.State, held': multiset<Ref>, a: Ref, v: Slot,
                     retain: bool, limit: nat)
    requires Inv(s, held) && B.Rooted(s, held, a) && M.At(s, a) && M.At(t, a)
    requires t == s || t == GrowList(M.Iterate(s, limit), a)
    requires Inv(AppendReference(t, a, v, retain), held')
    ensures var u := M.Iterate(AppendReference(t, a, v, retain), limit);
      && B.Rewritten(s.heap, u.heap, a, s.heap[a].slots + [v])
      && (held'[a] >= held[a] ==> Live(u, a))
  {
    hide Inv, M.Iterate, AppendReference, GrowList, B.Rewritten;
    var p, u := M.Iterate(s, limit), AppendReference(t, a, v, retain);
    var was, slots := s.heap[a].slots, s.heap[a].slots + [v];
    B.PollMembers(s, held, limit, a, was);
    B.RewrittenHolds(s.heap, p.heap, a, was);
    Q.IterateEvolves(s, limit, held);
    GrowListMembers(p, a);
    AppendReferenceMembers(t, a, v, retain);
    B.PollMembers(u, held', limit, a, slots);
    if t != s {
      B.RewrittenAgain(s.heap, p.heap, t.heap, a, was, was);
      B.RewrittenAgain(s.heap, t.heap, u.heap, a, was, slots);
    }
    B.RewrittenAgain(s.heap, u.heap, M.Iterate(u, limit).heap, a, slots, slots);
  }

  lemma SpareInv(s: M.State, held: multiset<Ref>, a: Ref, n: nat)
    requires Inv(s, held) && ReferenceList(s, a)
    ensures Inv(s.(heap := s.heap[a := s.heap[a].(spare := n)]), held)
  {
    var o := s.heap[a];
    KindedHere(s, held, a);
    assert IsOwned(o) ==> o.header.count > 0 by { assert InvAt(s, held, a); }
    hide Inv;
    CellInv(s, held, held, a, o.(spare := n));
  }

  /** What a root owns outlives any cleanup, unchanged but for its count. */
  lemma SurvivesPoll(s: M.State, held: multiset<Ref>, n: nat, v: Slot)
    requires Inv(s, held)
    requires v.Some? ==> v.value < |s.heap| && (IsImmortal(s.heap[v.value]) || Q.Roots(s, held, v.value) > 0)
    ensures var t := M.Iterate(s, n); v.Some? ==>
      && v.value < |t.heap| && (IsImmortal(t.heap[v.value]) || Q.Roots(t, held, v.value) > 0)
      && Live(t, v.value) && s.heap[v.value].Object? && t.heap[v.value].kind == s.heap[v.value].kind
      && t.heap[v.value].slots == s.heap[v.value].slots
  {
    IterateInv(s, n, held);
    Q.IterateEvolves(s, n, held);
    var t := M.Iterate(s, n);
    if v.Some? {
      assert InvAt(t, held, v.value);
      assert Q.EvolvedAt(s.heap[v.value], t.heap[v.value]);
    }
  }

  lemma FreshAfter(s: M.State, held: multiset<Ref>, n: nat, c: Cell, backing: Slot)
    requires Inv(s, held) && Fresh(s.heap, c, backing) && (backing.Some? ==> backing.value in held)
    ensures Fresh(M.Iterate(s, n).heap, c, backing)
  {
    hide Inv;
    if backing.Some? { SurvivesPoll(s, held, n, backing); }
  }

  lemma AllocateLinked(h: Heap, r: Ref, c: Cell, q: seq<Ref>, first: Option<Ref>, last: Option<Ref>)
    requires Linked(h, q, first, last) && r <= |h| && (r < |h| ==> h[r].Free?)
    ensures Linked(if r == |h| then h + [c] else h[r := c], q, first, last)
  {
    var h' := if r == |h| then h + [c] else h[r := c];
    forall i | 0 <= i < |q| ensures LinkAt(h', q, i) { assert LinkAt(h, q, i); }
  }

  /** One drop finishes at most a view and its backing, and both exactly when each had
      its last owner. */
  lemma FinishesAtMostTwo(s: M.State, held: multiset<Ref>, v: Slot)
    requires Inv(s, held)
    ensures DropHeap(s.heap, v, M.First(s.recent)).finished <= 2
    ensures DropHeap(s.heap, v, M.First(s.recent)).finished == 2 <==> LastViewOfLastBacking(s.heap, v)
  {
    hide Inv;
    if Drops(s.heap, v) {
      var r := v.value;
      KindedHere(s, held, r);
      CountedHere(s, held, r);
      if s.heap[r].kind == Text && s.heap[r].slots != [] {
        var h := s.heap[r := Free];
        var b := s.heap[r].slots[0];
        CountedHere(s, held, b.value);
        assert s.heap[r].header.count <= 1 ==> DropHeap(h, b, M.First(s.recent)).finished <= 1 by {
          if Drops(h, b) {
            assert h[b.value].slots == [];
            assert DropHeap(h[b.value := Free], None, M.First(s.recent)).finished == 0;
          }
        }
      }
    }
  }

  lemma ObjectReady(s: M.State, held: multiset<Ref>)
    requires Inv(s, held) && OnlyObjects(s) && s.pending != 0
    ensures M.Ready(s, 0)
  {
  }

  lemma ReadyQueue(s: M.State, held: multiset<Ref>)
    requires Inv(s, held) && s.pending != 0
    ensures s.nextQueue < 3 && M.Pick(s) < 3 && M.Ready(s, M.Pick(s))
  {
  }
}
