/** The type guard on the counted heap: in every run whose stores obey it, cleanup
    that runs to the end leaves exactly what the program can reach. */
module RcTyped {
  import opened Wrappers
  import opened RcHeap
  import opened RcMachine
  import opened RcInvariant
  import opened RcMutator
  import opened RcDebt
  import opened RcQuiescence
  import opened RcRuns
  import G = Graph
  import T = TypeGuard

  /** A live object's slot refers to `b`. */
  ghost predicate Link(h: Heap, a: Ref, b: Ref) {
    a < |h| && h[a].Object? && !IsDead(h[a]) && Some(b) in h[a].slots
  }

  /** The owning edges of live objects. */
  function LiveGraph(h: Heap): G.Graph {
    seq(|h|, i requires 0 <= i < |h| => if IsDead(h[i]) then [] else Row(h[i]))
  }

  /** Each object's type, and the moment its construction was completed: none while
      its fields or elements are still being evaluated. */
  datatype Typing = Typing(ty: seq<nat>, born: seq<Option<nat>>, clock: nat)

  /** An unfinished object is younger than every finished one. */
  function Ages(t: Typing): seq<nat> {
    seq(|t.born|, i requires 0 <= i < |t.born| => if t.born[i].Some? then t.born[i].value else t.clock)
  }

  ghost predicate Finished(t: Typing, b: Ref) { b < |t.born| && t.born[b].Some? }

  /** Only finished objects are referred to, by links their age or the guard permits. */
  ghost predicate LinkOk(types: G.Graph, mutable: set<nat>, t: Typing, a: Ref, b: Ref) {
    Finished(t, b) && T.Permitted(types, mutable, t.ty, Ages(t), a, b)
  }

  ghost predicate Stamped(t: Typing) {
    |t.ty| == |t.born| && forall r :: 0 <= r < |t.born| && t.born[r].Some? ==> t.born[r].value < t.clock
  }

  ghost predicate Typed(types: G.Graph, mutable: set<nat>, h: Heap, t: Typing) {
    && |t.ty| == |h| && Stamped(t)
    && forall a: Ref, b: Ref :: Link(h, a, b) ==> LinkOk(types, mutable, t, a, b)
  }

  lemma {:induction false} TargetsAre(slots: seq<Slot>, b: Ref)
    ensures b in Targets(slots) <==> Some(b) in slots
  {
    if slots != [] { TargetsAre(slots[1..], b); }
  }

  lemma TypedIsAcyclic(types: G.Graph, mutable: set<nat>, h: Heap, t: Typing)
    requires Typed(types, mutable, h, t)
    ensures G.Acyclic(LiveGraph(h))
  {
    var g := LiveGraph(h);
    forall a, b | 0 <= a < |g| && b in g[a] ensures Link(h, a, b) { TargetsAre(h[a].slots, b); }
    assert forall a: Ref, b: Ref :: Link(h, a, b) ==> LinkOk(types, mutable, t, a, b);
    T.GuardKeepsAcyclic(types, mutable, t.ty, Ages(t), g);
  }

  /* ---- what each event does to links ---- */

  /** A heap with no new links stays typed. */
  lemma FewerLinks(types: G.Graph, mutable: set<nat>, h: Heap, h': Heap, t: Typing)
    requires Typed(types, mutable, h, t) && |h'| == |h|
    requires forall a: Ref, b: Ref :: Link(h', a, b) ==> Link(h, a, b)
    ensures Typed(types, mutable, h', t)
  {
  }

  lemma EvolvedLinks(h: Heap, h': Heap)
    requires Evolved(h, h')
    ensures |h'| == |h| && forall a: Ref, b: Ref :: Link(h', a, b) ==> Link(h, a, b)
  {
    forall a: Ref, b: Ref | Link(h', a, b) ensures Link(h, a, b) { assert EvolvedAt(h[a], h'[a]); }
  }

  /** One slot more. */
  lemma OneLink(types: G.Graph, mutable: set<nat>, h: Heap, h': Heap, t: Typing, x: Ref, v: Slot)
    requires Typed(types, mutable, h, t) && |h'| == |h|
    requires v.Some? ==> LinkOk(types, mutable, t, x, v.value)
    requires forall a: Ref, b: Ref :: Link(h', a, b) ==> Link(h, a, b) || (a == x && v == Some(b))
    ensures Typed(types, mutable, h', t)
  {
  }

  /** Nothing live refers to a cell that is free or not yet there. */
  lemma NoLinkToFree(s: State, held: multiset<Ref>, a: Ref, b: Ref)
    requires Inv(s, held) && Link(s.heap, a, b)
    ensures b < |s.heap| && s.heap[b].Object?
  {
    var h := View(s);
    if s.active.Some? { ActiveIsDead(s, held); }
    assert h[a] == s.heap[a];
    assert Kinded(h, h[a]) && InvAt(s, held, b);
    hide Inv;
    if !Scalar(h[a].kind) {
      TargetsAre(h[a].slots, b);
      TargetsRefs(h[a].slots, b);
      HeapRefsAtLeast(h, a, b);
    }
  }

  /** A new object at `r`, not finished yet. */
  function Begun(t: Typing, r: Ref, ty: nat): Typing
    requires r <= |t.ty| == |t.born|
  {
    if r == |t.ty| then t.(ty := t.ty + [ty], born := t.born + [None])
    else t.(ty := t.ty[r := ty], born := t.born[r := None])
  }

  /** Construction of `a` ends now. */
  function Ended(t: Typing, a: Ref): Typing
    requires a < |t.born|
  {
    t.(born := t.born[a := Some(t.clock)], clock := t.clock + 1)
  }

  lemma CreateTyped(types: G.Graph, mutable: set<nat>, w: World, t: Typing, r: Ref, c: Cell, backing: Slot, ty: nat)
    requires Inv(w.s, w.held) && Typed(types, mutable, w.s.heap, t) && Allowed(w, Create(r, c, backing))
    requires backing.Some? ==> Finished(t, backing.value) && G.Edge(types, ty, t.ty[backing.value])
    ensures Typed(types, mutable, Allocate(w.s, r, c).heap, Begun(t, r, ty))
  {
    var h, h', t' := w.s.heap, Allocate(w.s, r, c).heap, Begun(t, r, ty);
    forall a: Ref, b: Ref | Link(h', a, b) ensures LinkOk(types, mutable, t', a, b) {
      if a == r {
        assert backing == Some(b);
      } else {
        assert Link(h, a, b);
        NoLinkToFree(w.s, w.held, a, b);
        assert LinkOk(types, mutable, t, a, b);
      }
    }
  }

  /** Completing an object keeps every link permitted: what it refers to is finished,
      and nothing refers to it yet. */
  lemma CompleteTyped(types: G.Graph, mutable: set<nat>, h: Heap, t: Typing, x: Ref)
    requires Typed(types, mutable, h, t) && x < |h| && t.born[x].None?
    ensures Typed(types, mutable, h, Ended(t, x))
  {
    var t' := Ended(t, x);
    forall a: Ref, b: Ref | Link(h, a, b) ensures LinkOk(types, mutable, t', a, b) {
      assert LinkOk(types, mutable, t, a, b);
      assert b != x && Ages(t')[b] == Ages(t)[b] && Ages(t')[a] >= Ages(t)[a];
    }
  }

  /* ---- guarded runs ---- */

  /** Only finished objects are stored or viewed; an object still under construction
      takes any of them its type admits, a finished one only what the guard lets in. */
  ghost predicate GuardAllows(types: G.Graph, mutable: set<nat>, t: Typing, e: Event, ty: nat) {
    match e
    case Create(_, _, backing) =>
      backing.Some? ==> Finished(t, backing.value) && backing.value < |t.ty| && G.Edge(types, ty, t.ty[backing.value])
    case Complete(a) => a < |t.born| && t.born[a].None?
    case Append(a, v) => Storable(types, mutable, t, a, v)
    case Assign(a, _, v) => Storable(types, mutable, t, a, v)
    case AppendUncounted(a, v) => Storable(types, mutable, t, a, v)
    case AssignUncounted(a, _, v) => Storable(types, mutable, t, a, v)
    case _ => true
  }

  ghost predicate Storable(types: G.Graph, mutable: set<nat>, t: Typing, a: Ref, v: Slot) {
    v.Some? ==>
      && |t.ty| == |t.born| && a < |t.ty| && Finished(t, v.value) && G.Edge(types, t.ty[a], t.ty[v.value])
      && (Finished(t, a) ==> t.ty[a] in mutable && !G.Reaches(types, t.ty[v.value], t.ty[a]))
  }

  lemma StorableLink(types: G.Graph, mutable: set<nat>, t: Typing, a: Ref, v: Slot)
    requires Stamped(t) && Storable(types, mutable, t, a, v) && v.Some?
    ensures LinkOk(types, mutable, t, a, v.value)
  {
  }

  function NextTyping(t: Typing, e: Event, ty: nat): Typing {
    if e.Create? && e.r <= |t.ty| == |t.born| then Begun(t, e.r, ty)
    else if e.Complete? && e.a < |t.born| then Ended(t, e.a)
    else t
  }

  lemma AppendLinks(s: State, a: Ref, v: Slot)
    requires At(s, a)
    ensures var h' := AppendSlot(s, a, v).heap;
      |h'| == |s.heap| && forall x: Ref, b: Ref :: Link(h', x, b) ==> Link(s.heap, x, b) || (x == a && v == Some(b))
  {
    hide Row;
    var h' := AppendSlot(s, a, v).heap;
    forall x: Ref, b: Ref | Link(h', x, b) ensures Link(s.heap, x, b) || (x == a && v == Some(b)) { }
  }

  lemma AssignLinks(s: State, a: Ref, i: nat, v: Slot)
    requires At(s, a) && i < |s.heap[a].slots|
    ensures var h' := SetSlot(s, a, i, v).heap;
      |h'| == |s.heap| && forall x: Ref, b: Ref :: Link(h', x, b) ==> Link(s.heap, x, b) || (x == a && v == Some(b))
  {
    var h' := SetSlot(s, a, i, v).heap;
    forall x: Ref, b: Ref | Link(h', x, b) ensures Link(s.heap, x, b) || (x == a && v == Some(b)) {
      if x == a {
        var k :| 0 <= k < |h'[a].slots| && h'[a].slots[k] == Some(b);
        assert k == i || s.heap[a].slots[k] == Some(b);
      }
    }
  }

  lemma SameLinks(s: State, a: Ref, v: Slot)
    ensures var h' := Retain(s, v).heap;
      |h'| == |s.heap| && forall x: Ref, b: Ref :: Link(h', x, b) ==> Link(s.heap, x, b)
    ensures At(s, a) ==>
      var h' := Promote(s, a, v).heap;
      |h'| == |s.heap| && forall x: Ref, b: Ref :: Link(h', x, b) ==> Link(s.heap, x, b)
  {
  }

  lemma MarkLinks(s: State, a: Ref)
    requires At(s, a)
    ensures var h' := MarkReferences(s, a).heap;
      |h'| == |s.heap| && forall x: Ref, b: Ref :: Link(h', x, b) ==> Link(s.heap, x, b)
  {
  }

  lemma CacheLinks(s: State, a: Ref)
    requires FreshText(s, a)
    ensures var h' := MakeImmortal(s, a).heap;
      |h'| == |s.heap| && forall x: Ref, b: Ref :: Link(h', x, b) ==> Link(s.heap, x, b)
  {
  }

  /** Every event of a guarded run keeps the heap typed. */
  lemma StepTyped(types: G.Graph, mutable: set<nat>, w: World, t: Typing, e: Event, ty: nat)
    requires Inv(w.s, w.held) && Typed(types, mutable, w.s.heap, t) && Allowed(w, e) &&
        GuardAllows(types, mutable, t, e, ty)
    ensures Typed(types, mutable, Next(w, e).s.heap, NextTyping(t, e, ty))
  {
    if e.Create? {
      CreateTyped(types, mutable, w, t, e.r, e.c, e.backing, ty);
      return;
    }
    if e.Complete? {
      CompleteTyped(types, mutable, w.s.heap, t, e.a);
      return;
    }
    if e.Append? || e.AppendUncounted? || e.Assign? || e.AssignUncounted? {
      StoreTyped(types, mutable, w, t, e, ty);
      return;
    }
    hide Inv, Typed, Link, Drop, Unit, Retain, Promote, MarkReferences, MakeImmortal, Evolved, LinkOk, AppendSlot,
        SetSlot;
    var h, h' := w.s.heap, Next(w, e).s.heap;
    match e
    case Tick =>
      if w.s.pending != 0 { UnitEvolves(w.s, w.held); EvolvedLinks(h, h'); FewerLinks(types, mutable, h, h', t); }
    case Release(v) => DropEvolves(w.s, v); EvolvedLinks(h, h'); FewerLinks(types, mutable, h, h', t);
    case Borrow(v) => SameLinks(w.s, 0, v); FewerLinks(types, mutable, h, h', t);
    case Cache(a) => CacheLinks(w.s, a); FewerLinks(types, mutable, h, h', t);
    case MarkList(a) => MarkLinks(w.s, a); FewerLinks(types, mutable, h, h', t);
    case Mark(a, v) => SameLinks(w.s, a, v); FewerLinks(types, mutable, h, h', t);
    case _ =>
  }

  /** A store adds one link, which the guard has looked at. */
  lemma StoreTyped(types: G.Graph, mutable: set<nat>, w: World, t: Typing, e: Event, ty: nat)
    requires Typed(types, mutable, w.s.heap, t) && Allowed(w, e) && GuardAllows(types, mutable, t, e, ty)
    requires e.Append? || e.AppendUncounted? || e.Assign? || e.AssignUncounted?
    ensures Typed(types, mutable, Next(w, e).s.heap, t)
  {
    if e.v.Some? { StorableLink(types, mutable, t, e.a, e.v); }
    hide Typed, Link, LinkOk, AppendSlot, SetSlot;
    if e.Append? || e.AppendUncounted? { AppendLinks(w.s, e.a, e.v); } else { AssignLinks(w.s, e.a, e.i, e.v); }
    OneLink(types, mutable, w.s.heap, Next(w, e).s.heap, t, e.a, e.v);
  }

  /** A run in which every store passes the type guard. */
  ghost predicate GuardedRun(types: G.Graph, mutable: set<nat>, ws: seq<World>, es: seq<Event>, ts: seq<Typing>,
                             tys: seq<nat>) {
    && Run(ws, es) && |ts| == |ws| && |tys| == |es|
    && |ts[0].ty| == |ws[0].s.heap| && Stamped(ts[0])
    && forall i :: 0 <= i < |es| ==>
         GuardAllows(types, mutable, ts[i], es[i], tys[i]) && ts[i + 1] == NextTyping(ts[i], es[i], tys[i])
  }

  lemma {:induction false} RunTyped(types: G.Graph, mutable: set<nat>, ws: seq<World>, es: seq<Event>,
                                    ts: seq<Typing>, tys: seq<nat>, i: nat)
    requires GuardedRun(types, mutable, ws, es, ts, tys) && i < |ws|
    ensures Typed(types, mutable, ws[i].s.heap, ts[i])
  {
    if i == 0 {
      var h :| Literals(h) && ws[0] == Start(h);
      assert forall a: Ref, b: Ref :: !Link(h, a, b);
    } else {
      hide Inv, Typed, Allowed, Next, GuardAllows, NextTyping, Literals;
      RunTyped(types, mutable, ws, es, ts, tys, i - 1);
      RunInv(ws, es, i - 1);
      StepTyped(types, mutable, ws[i - 1], ts[i - 1], es[i - 1], tys[i - 1]);
    }
  }

  /* ---- complete reclamation ---- */

  lemma LiveAcyclicEvolves(s: State, t: State, held: multiset<Ref>)
    requires Inv(t, held) && t.pending == 0 && Evolved(s.heap, t.heap) && G.Acyclic(LiveGraph(s.heap))
    ensures G.Acyclic(HeapGraph(t.heap))
  {
    QuietState(t, held);
    hide Inv;
    var g, g' := LiveGraph(s.heap), HeapGraph(t.heap);
    forall p ensures !G.Cycle(g', p) {
      assert !G.Cycle(g, p);
    }
  }

  /** No leak and no early free, in any guarded run: wherever it is stopped, draining
      the queues from there ends, and keeps exactly the counted objects the program
      could still reach. */
  lemma {:induction false} GuardedRunReclaims(types: G.Graph, mutable: set<nat>, ws: seq<World>, es: seq<Event>,
                                              ts: seq<Typing>, tys: seq<nat>,
                                              i: nat, n: nat, r: Ref)
    requires GuardedRun(types, mutable, ws, es, ts, tys) && i < |ws| && n >= Debt(ws[i].s)
    ensures var s := ws[i].s; var t := Iterate(s, n);
      && t.pending == 0
      && (r < |t.heap| && IsOwned(t.heap[r]) <==> r < |s.heap| && IsOwned(s.heap[r]) && Reached(s, ws[i].held, r))
  {
    var s, held := ws[i].s, ws[i].held;
    RunInv(ws, es, i);
    RunTyped(types, mutable, ws, es, ts, tys, i);
    TypedIsAcyclic(types, mutable, s.heap, ts[i]);
    hide Inv, Debt, Reached, Iterate, Typed, GuardedRun, LiveGraph, HeapGraph;
    var t := Iterate(s, n);
    IterateInv(s, n, held);
    IterateEvolves(s, n, held);
    DrainTerminates(s, n, held);
    LiveAcyclicEvolves(s, t, held);
    QuiescentIsReachable(t, held, r);
    SameReached(s, t, held, r);
  }
}
