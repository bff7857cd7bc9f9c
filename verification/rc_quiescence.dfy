/** Exact counting plus acyclicity is complete reclamation: once nothing is
    pending, the surviving mortal objects are those the program can reach. */
module RcQuiescence {
  import opened Wrappers
  import opened RcHeap
  import opened RcMachine
  import opened RcInvariant
  import opened RcDebt
  import G = Graph

  function Targets(slots: seq<Slot>): seq<nat> {
    if slots == [] then []
    else (if slots[0].Some? then [slots[0].value] else []) + Targets(slots[1..])
  }

  /** The owning edges of a cell. */
  function Row(c: Cell): seq<nat> {
    if c.Free? || Scalar(c.kind) then [] else Targets(c.slots)
  }

  function HeapGraph(h: Heap): G.Graph { seq(|h|, i requires 0 <= i < |h| => Row(h[i])) }

  lemma {:induction false} TargetsRefs(slots: seq<Slot>, r: Ref)
    ensures r in Targets(slots) <==> Refs(slots, r) > 0
  {
    if slots != [] { TargetsRefs(slots[1..], r); }
  }

  lemma {:induction false} HeapRefsWitness(h: Heap, r: Ref)
    requires HeapRefs(h, r) > 0
    ensures exists i :: 0 <= i < |h| && CellRefs(h[i], r) > 0
  {
    var n := |h| - 1;
    if CellRefs(h[n], r) == 0 {
      HeapRefsWitness(h[..n], r);
      var i :| 0 <= i < n && CellRefs(h[..n][i], r) > 0;
      assert CellRefs(h[i], r) > 0;
    }
  }

  /** Owners in the hands of the program: live frames and running code. */
  function Roots(s: State, held: multiset<Ref>, r: Ref): nat { FramesRefs(s.frames, r) + held[r] }

  ghost predicate Reached(s: State, held: multiset<Ref>, r: Ref) {
    exists a: Ref :: Roots(s, held, a) > 0 && G.Reaches(HeapGraph(s.heap), a, r)
  }

  lemma QuietState(s: State, held: multiset<Ref>)
    requires Inv(s, held) && s.pending == 0
    ensures View(s) == s.heap && s.retired == [] && s.chunks == []
    ensures forall r: Ref :: Outside(s, held, r) == Roots(s, held, r)
    ensures forall r: Ref :: r < |s.heap| ==> !IsDead(s.heap[r])
  {
    forall r: Ref | r < |s.heap| ensures !IsDead(s.heap[r]) {
      assert InvAt(s, held, r);
    }
  }

  /** Something owns each survivor, and following owners up cannot go on forever. */
  lemma SurvivorsAreReached(s: State, held: multiset<Ref>)
    requires Inv(s, held) && s.pending == 0 && G.Acyclic(HeapGraph(s.heap))
    ensures forall r: Ref :: r < |s.heap| && IsOwned(s.heap[r]) ==> Reached(s, held, r)
  {
    var g := HeapGraph(s.heap);
    var lost := set r: Ref | r < |s.heap| && IsOwned(s.heap[r]) && !Reached(s, held, r);
    forall b | b in lost ensures G.HasPredecessor(g, lost, b) {
      LostHasLostOwner(s, held, b);
      var a: Ref :| a < |s.heap| && IsOwned(s.heap[a]) && !Reached(s, held, a) && G.Edge(g, a, b);
      assert a in lost;
    }
    hide Inv, Reached;
    if lost != {} { G.SourcelessIsCyclic(g, lost); }
    forall r: Ref | r < |s.heap| && IsOwned(s.heap[r]) ensures Reached(s, held, r) {
      assert r !in lost;
    }
  }

  lemma LostHasLostOwner(s: State, held: multiset<Ref>, b: Ref)
    requires Inv(s, held) && s.pending == 0
    requires b < |s.heap| && IsOwned(s.heap[b]) && !Reached(s, held, b)
    ensures exists a: Ref ::
      a < |s.heap| && IsOwned(s.heap[a]) && !Reached(s, held, a) && G.Edge(HeapGraph(s.heap), a, b)
  {
    var h := s.heap;
    QuietState(s, held);
    assert InvAt(s, held, b);
    if Roots(s, held, b) > 0 {
      G.SelfReach(HeapGraph(h), b);
    }
    HeapRefsWitness(h, b);
    var a :| 0 <= a < |h| && CellRefs(h[a], b) > 0;
    assert Kinded(h, h[a]);
    TargetsRefs(h[a].slots, b);
    assert G.Edge(HeapGraph(h), a, b);
    if Reached(s, held, a) {
      var x: Ref :| Roots(s, held, x) > 0 && G.Reaches(HeapGraph(h), x, a);
      G.ExtendReach(HeapGraph(h), x, a, b);
    }
  }

  /** Along a path of owning slots from an allocated object, all is allocated. */
  lemma EdgeKeepsAllocated(s: State, held: multiset<Ref>, a: Ref, b: Ref)
    requires Inv(s, held) && a < |s.heap| && (IsOwned(s.heap[a]) || IsImmortal(s.heap[a]))
    requires G.Edge(HeapGraph(s.heap), a, b)
    ensures IsOwned(s.heap[a]) && b < |s.heap| && (IsOwned(s.heap[b]) || IsImmortal(s.heap[b]))
  {
    if s.active == Some(a) { ActiveIsDead(s, held); }
    var h := View(s);
    assert h[a] == s.heap[a];
    assert Kinded(h, h[a]);
    TargetsRefs(h[a].slots, b);
    HeapRefsAtLeast(h, a, b);
    assert InvAt(s, held, b);
  }

  lemma {:induction false} PathAllocated(s: State, held: multiset<Ref>, p: seq<nat>)
    requires Inv(s, held) && G.Path(HeapGraph(s.heap), p)
    requires IsOwned(s.heap[p[0]]) || IsImmortal(s.heap[p[0]])
    ensures p[|p| - 1] < |s.heap| && (IsOwned(s.heap[p[|p| - 1]]) || IsImmortal(s.heap[p[|p| - 1]]))
    decreases |p|
  {
    hide Inv, Row;
    if |p| > 1 {
      assert G.Edge(HeapGraph(s.heap), p[0], p[1]);
      EdgeKeepsAllocated(s, held, p[0], p[1]);
      PathAllocated(s, held, p[1..]);
    }
  }

  lemma ReachedIsAllocated(s: State, held: multiset<Ref>, r: Ref)
    requires Inv(s, held) && Reached(s, held, r)
    ensures r < |s.heap| && (IsOwned(s.heap[r]) || IsImmortal(s.heap[r]))
  {
    var a: Ref :| Roots(s, held, a) > 0 && G.Reaches(HeapGraph(s.heap), a, r);
    var p :| G.Path(HeapGraph(s.heap), p) && G.From(p, a, r);
    assert InvAt(s, held, a);
    PathAllocated(s, held, p);
  }

  /** Quiescence equals reachability. */
  lemma QuiescentIsReachable(s: State, held: multiset<Ref>, r: Ref)
    requires Inv(s, held) && s.pending == 0 && G.Acyclic(HeapGraph(s.heap))
    ensures r < |s.heap| && IsOwned(s.heap[r]) <==> Reached(s, held, r) && !(r < |s.heap| && IsImmortal(s.heap[r]))
  {
    hide Inv, Reached;
    SurvivorsAreReached(s, held);
    if Reached(s, held, r) { ReachedIsAllocated(s, held, r); }
  }

  /* ---- what collection leaves of the heap it started from ---- */

  /** Collection only frees cells and lowers counts: no dead object comes back
      and no surviving object's kind or slots change. */
  predicate EvolvedAt(c: Cell, c': Cell) {
    && (c'.Object? ==> c.Object? && c'.kind == c.kind && c'.slots == c.slots)
    && (IsOwned(c') ==> IsOwned(c) && c' == c.(header := c'.header))
    && (IsImmortal(c) <==> IsImmortal(c')) && (IsImmortal(c) ==> c' == c)
  }

  ghost predicate Evolved(h: Heap, h': Heap) {
    |h'| == |h| && forall i :: 0 <= i < |h| ==> EvolvedAt(h[i], h'[i])
  }

  lemma DropEvolves(s: State, v: Slot)
    ensures Evolved(s.heap, Drop(s, v).heap) && Drop(s, v).frames == s.frames
  {
  }

  lemma ActiveUnitEvolves(s: State, held: multiset<Ref>)
    requires Inv(s, held) && s.active.Some?
    ensures At(s, s.active.value)
    ensures Evolved(s.heap, ActiveUnit(s).heap) && ActiveUnit(s).frames == s.frames
  {
    hide Inv, DropHeap;
    ActiveIsDead(s, held);
    var slots := s.heap[s.active.value].slots;
    if s.cursor < |slots| { DropEvolves(s.(cursor := s.cursor + 1), slots[s.cursor]); }
  }

  lemma ObjectUnitEvolves(s: State, held: multiset<Ref>)
    requires Inv(s, held)
    ensures Evolved(s.heap, ObjectUnit(s).heap) && ObjectUnit(s).frames == s.frames
  {
    hide Inv, Drop, ActiveUnit;
    var u := Capture(s).(turn := !s.turn);
    CaptureInv(s, held);
    if s.turn && u.recent != [] && !UnaryParent(u) {
      RecentIsDead(u, held);
      var a := u.recent[0];
      var o := u.heap[a];
      if o.spare < |o.slots| {
        DropEvolves(u.(heap := u.heap[a := o.(spare := o.spare + 1)]), o.slots[o.spare]);
      }
    } else if u.active.Some? {
      ActiveUnitEvolves(u, held);
    } else if u.batch != [] {
      ActivateInv(u, held);
      ActiveIsDead(Activate(u), held);
      ActiveUnitEvolves(Activate(u), held);
    }
  }

  lemma UnitEvolves(s: State, held: multiset<Ref>)
    requires Inv(s, held)
    ensures Evolved(s.heap, Unit(s).heap) && Unit(s).frames == s.frames
  {
    hide Inv, ObjectUnit, Drop, Ready;
    var q := Pick(s);
    NextQueueInv(s, held, (q + 1) % 3);
    var t := s.(nextQueue := (q + 1) % 3);
    ObjectUnitEvolves(t, held);
    if q == 1 && s.retired != [] && s.retired[0].written != [] {
      var f := s.retired[0];
      var n := |f.written| - 1;
      DropEvolves(t.(retired := [f.(written := f.written[..n])] + s.retired[1..]), LocalValue(f, f.written[n]));
    } else if q != 0 && q != 1 && s.chunks != [] && s.chunks[0] != [] {
      var c := s.chunks[0];
      DropEvolves(t.(chunks := [c[..|c| - 1]] + s.chunks[1..]), Some(c[|c| - 1]));
    }
  }

  lemma {:induction false} IterateEvolves(s: State, n: nat, held: multiset<Ref>)
    requires Inv(s, held)
    ensures Evolved(s.heap, Iterate(s, n).heap) && Iterate(s, n).frames == s.frames
  {
    hide Inv, Unit;
    if n > 0 {
      IterateEvolves(s, n - 1, held);
      var t := Iterate(s, n - 1);
      IterateInv(s, n - 1, held);
      if t.pending != 0 { UnitEvolves(t, held); }
    }
  }

  lemma EvolvedEdge(h: Heap, h': Heap, a: nat, b: nat)
    requires Evolved(h, h') && G.Edge(HeapGraph(h'), a, b)
    ensures G.Edge(HeapGraph(h), a, b)
  {
  }

  lemma EvolvedPath(h: Heap, h': Heap, p: seq<nat>)
    requires Evolved(h, h') && G.Path(HeapGraph(h'), p)
    ensures G.Path(HeapGraph(h), p)
  {
    hide Evolved;
    forall i | 0 < i < |p| ensures G.Edge(HeapGraph(h), p[i - 1], p[i]) {
      EvolvedEdge(h, h', p[i - 1], p[i]);
    }
    assert |h| == |h'| by { EvolvedSize(h, h'); }
  }

  lemma EvolvedSize(h: Heap, h': Heap)
    requires Evolved(h, h')
    ensures |h| == |h'|
  {
  }

  lemma EvolvedAcyclic(h: Heap, h': Heap)
    requires Evolved(h, h') && G.Acyclic(HeapGraph(h))
    ensures G.Acyclic(HeapGraph(h'))
  {
    hide Evolved;
    forall p ensures !G.Cycle(HeapGraph(h'), p) {
      assert !G.Cycle(HeapGraph(h), p);
      if G.Cycle(HeapGraph(h'), p) {
        EvolvedPath(h, h', p);
      }
    }
  }

  /** A path from a root that survives survives whole. */
  lemma {:induction false} PathSurvives(s: State, t: State, held: multiset<Ref>, p: seq<nat>)
    requires Inv(t, held) && Evolved(s.heap, t.heap) && G.Path(HeapGraph(s.heap), p)
    requires IsOwned(t.heap[p[0]]) || IsImmortal(t.heap[p[0]])
    ensures G.Path(HeapGraph(t.heap), p)
    decreases |p|
  {
    hide Inv;
    if |p| > 1 {
      assert G.Edge(HeapGraph(s.heap), p[0], p[1]);
      assert G.Edge(HeapGraph(t.heap), p[0], p[1]);
      EdgeKeepsAllocated(t, held, p[0], p[1]);
      PathSurvives(s, t, held, p[1..]);
      assert p == [p[0]] + p[1..];
      G.ConsPath(HeapGraph(t.heap), p[0], p[1..]);
    }
  }

  lemma SameReached(s: State, t: State, held: multiset<Ref>, r: Ref)
    requires Inv(t, held) && Evolved(s.heap, t.heap) && t.frames == s.frames
    ensures Reached(s, held, r) <==> Reached(t, held, r)
  {
    if Reached(s, held, r) {
      var a: Ref :| Roots(s, held, a) > 0 && G.Reaches(HeapGraph(s.heap), a, r);
      var p :| G.Path(HeapGraph(s.heap), p) && G.From(p, a, r);
      assert InvAt(t, held, a);
      hide Inv;
      PathSurvives(s, t, held, p);
      assert Roots(t, held, a) > 0 && G.Reaches(HeapGraph(t.heap), a, r);
    }
    if Reached(t, held, r) {
      var a: Ref :| Roots(t, held, a) > 0 && G.Reaches(HeapGraph(t.heap), a, r);
      var p :| G.Path(HeapGraph(t.heap), p) && G.From(p, a, r);
      EvolvedPath(s.heap, t.heap, p);
      assert Roots(s, held, a) > 0 && G.Reaches(HeapGraph(s.heap), a, r);
    }
  }

  /** From any state of an acyclic heap, draining frees every mortal object the
      program could no longer reach and keeps every one it could. */
  lemma DrainKeepsExactlyTheReached(s: State, n: nat, held: multiset<Ref>, r: Ref)
    requires Inv(s, held) && n >= Debt(s) && G.Acyclic(HeapGraph(s.heap))
    ensures var t := Iterate(s, n);
      r < |t.heap| && IsOwned(t.heap[r]) <==>
      r < |s.heap| && IsOwned(s.heap[r]) && Reached(s, held, r)
  {
    hide Inv, Debt, Reached, Iterate;
    var t := Iterate(s, n);
    IterateInv(s, n, held);
    IterateEvolves(s, n, held);
    DrainTerminates(s, n, held);
    EvolvedAcyclic(s.heap, t.heap);
    QuiescentIsReachable(t, held, r);
    SameReached(s, t, held, r);
  }
}
