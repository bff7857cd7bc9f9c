/** The eager profile: one release destroys everything it orphans before it
    returns. The deferred collector, once drained, leaves the same heap. */
module RcEager {
  import opened Wrappers
  import opened RcHeap
  import opened RcMachine
  import opened RcInvariant
  import opened RcDebt
  import opened RcQuiescence
  import G = Graph

  /** Kinds the eager drop destroys on the spot. */
  predicate Immediate(kind: Kind) { kind == Text || kind == ScalarList || kind == ScalarRecord }

  /** `rc_drop` of the eager profile: as the deferred one, except that every List
      of references and every record waits on the worklist, even an empty one. */
  function EagerDrop(h: Heap, v: Slot): (d: Dropped)
    ensures |d.heap| == |h|
    ensures d.queued.Some? ==> d.queued.value < |h| && IsOwned(h[d.queued.value])
    ensures d.queued.Some? ==> d.heap[d.queued.value] == h[d.queued.value].(header := Dead(None), spare := 0)
    ensures d.queued.Some? ==> !Immediate(h[d.queued.value].kind)
    ensures forall i {:trigger d.heap[i]} {:trigger h[i]} :: 0 <= i < |h| ==>
      if d.queued == Some(i) then true
      else if !IsOwned(h[i]) then d.heap[i] == h[i]
      else d.heap[i].Free? || (IsOwned(d.heap[i]) && d.heap[i] == h[i].(header := d.heap[i].header))
    ensures Allocated(d.heap) <= Allocated(h)
    decreases Allocated(h)
  {
    if !Drops(h, v) then Dropped(h, None, 0)
    else
      var r := v.value;
      var o := h[r];
      if o.header.count > 1 then
        AllocatedKeep(h, r, o.(header := Owned(o.header.count - 1)));
        Dropped(h[r := o.(header := Owned(o.header.count - 1))], None, 0)
      else if o.kind == Text then
        AllocatedFree(h, r);
        EagerDrop(h[r := Free], if o.slots == [] then None else o.slots[0])
      else if Immediate(o.kind) then
        AllocatedFree(h, r);
        Dropped(h[r := Free], None, 0)
      else
        AllocatedKeep(h, r, o.(header := Dead(None), spare := 0));
        Dropped(h[r := o.(header := Dead(None), spare := 0)], Some(r), 0)
  }

  lemma {:induction false} AllocatedKeep(h: Heap, i: nat, c: Cell)
    requires i < |h| && h[i].Object? && c.Object?
    ensures Allocated(h[i := c]) == Allocated(h)
  {
    var n := |h| - 1;
    if i == n {
      assert h[i := c][..n] == h[..n];
    } else {
      AllocatedKeep(h[..n], i, c);
      assert h[i := c][..n] == h[..n][i := c];
    }
  }

  lemma {:induction false} EagerDropExact(h: Heap, v: Slot, r: Ref, outside: nat)
    requires Shaped(h) && ExactAt(h, r, outside + One(v, r))
    ensures ExactAt(EagerDrop(h, v).heap, r, outside)
    decreases Allocated(h)
  {
    hide HeapRefs, Allocated;
    if Drops(h, v) {
      var x := v.value;
      var o := h[x];
      if o.header.count > 1 {
        HeapRefsUpdate(h, x, o.(header := Owned(o.header.count - 1)), r);
      } else if o.kind == Text {
        HeapRefsUpdate(h, x, Free, r);
        AllocatedFree(h, x);
        var next: Slot := if o.slots == [] then None else o.slots[0];
        assert CellRefs(o, r) == One(next, r) by {
          if o.slots != [] { assert o.slots[1..] == [] && Refs(o.slots[1..], r) == 0; }
        }
        EagerDropExact(h[x := Free], next, r, outside);
      } else if Immediate(o.kind) {
        HeapRefsUpdate(h, x, Free, r);
      } else {
        assert o.slots[0..] == o.slots;
        HeapRefsUpdate(h, x, o.(header := Dead(None), spare := 0), r);
      }
    }
  }

  /** The shapes this profile relies on: a Text has at most one backing and no
      List is marked immortal-only. */
  ghost predicate Shaped(h: Heap) {
    forall i :: 0 <= i < |h| && h[i].Object? ==>
      (h[i].kind == Text ==> |h[i].slots| <= 1) && h[i].kind != ImmortalReferences
  }

  /** Exact everywhere, with the dead exactly on the worklist and unvisited. */
  ghost predicate EagerInv(h: Heap, pending: seq<Ref>, outside: Ref -> nat) {
    && Shaped(h)
    && (forall r: Ref :: ExactAt(h, r, outside(r)))
    && (forall r: Ref :: CountIn(pending, r) == if r < |h| && IsDead(h[r]) then 1 else 0)
    && (forall i :: 0 <= i < |h| && IsDead(h[i]) ==> h[i].spare == 0 && !Immediate(h[i].kind))
  }

  ghost predicate Kept(h: Heap, h': Heap) {
    |h'| == |h| && forall i :: 0 <= i < |h| ==>
      && (h'[i].Object? ==> h[i].Object? && h'[i] == h[i].(header := h'[i].header, spare := h'[i].spare))
      && (IsOwned(h'[i]) ==> IsOwned(h[i]) && h'[i].spare == h[i].spare)
      && (IsImmortal(h[i]) <==> IsImmortal(h'[i])) && (IsImmortal(h[i]) ==> h'[i] == h[i])
  }

  ghost function AlsoSlots(outside: Ref -> nat, slots: seq<Slot>): Ref -> nat {
    (r: Ref) => outside(r) + Refs(slots, r)
  }

  lemma SlotsStep(outside: Ref -> nat, slots: seq<Slot>, r: Ref)
    requires slots != []
    ensures AlsoSlots(outside, slots)(r) == AlsoSlots(outside, slots[1..])(r) + One(slots[0], r)
  {
    assert Refs(slots, r) == One(slots[0], r) + Refs(slots[1..], r);
  }

  lemma EagerStep(h: Heap, pending: seq<Ref>, v: Slot, slots: seq<Slot>, outside: Ref -> nat)
    requires slots != [] && slots[0] == v && EagerInv(h, pending, AlsoSlots(outside, slots))
    ensures var d := EagerDrop(h, v);
      EagerInv(d.heap, if d.queued.Some? then pending + [d.queued.value] else pending, AlsoSlots(outside, slots[1..]))
  {
    hide ExactAt, HeapRefs;
    var d := EagerDrop(h, v);
    var before, after := AlsoSlots(outside, slots), AlsoSlots(outside, slots[1..]);
    forall r: Ref ensures ExactAt(d.heap, r, after(r)) {
      assert ExactAt(h, r, before(r));
      SlotsStep(outside, slots, r);
      EagerDropExact(h, v, r, after(r));
    }
    var next := if d.queued.Some? then pending + [d.queued.value] else pending;
    forall r: Ref ensures CountIn(next, r) == if r < |d.heap| && IsDead(d.heap[r]) then 1 else 0 {
      assert CountIn(pending, r) == if r < |h| && IsDead(h[r]) then 1 else 0;
      if d.queued.Some? { CountInAppend(pending, d.queued.value, r); }
    }
  }

  /** A drop neither sees nor touches a cell without a count. */
  lemma {:induction false} EagerDropIgnores(h: Heap, v: Slot, a: Ref)
    requires a < |h| && IsDead(h[a])
    ensures EagerDrop(h[a := Free], v) == EagerDrop(h, v).(heap := EagerDrop(h, v).heap[a := Free])
    decreases Allocated(h)
  {
    if Drops(h, v) {
      var x := v.value;
      var o := h[x];
      assert x != a && h[a := Free][x] == o;
      if o.header.count > 1 {
        var c := o.(header := Owned(o.header.count - 1));
        assert h[a := Free][x := c] == h[x := c][a := Free];
      } else if o.kind == Text {
        AllocatedFree(h, x);
        assert h[a := Free][x := Free] == h[x := Free][a := Free];
        EagerDropIgnores(h[x := Free], if o.slots == [] then None else o.slots[0], a);
      } else if Immediate(o.kind) {
        assert h[a := Free][x := Free] == h[x := Free][a := Free];
      } else {
        var dead := o.(header := Dead(None), spare := 0);
        assert h[a := Free][x := dead] == h[x := dead][a := Free];
      }
    }
  }

  /** Taking an object off the worklist puts its slots up for dropping. */
  lemma PopInv(h: Heap, pending: seq<Ref>, outside: Ref -> nat)
    requires pending != [] && EagerInv(h, pending, outside)
    ensures pending[|pending| - 1] < |h| && IsDead(h[pending[|pending| - 1]])
    ensures var a := pending[|pending| - 1];
      EagerInv(h[a := Free], pending[..|pending| - 1], AlsoSlots(outside, h[a].slots))
  {
    var n := |pending| - 1;
    var a := pending[n];
    CountInLast(pending, a);
    assert CountIn(pending, a) > 0;
    var h' := h[a := Free];
    var after := AlsoSlots(outside, h[a].slots);
    forall r: Ref ensures ExactAt(h', r, after(r)) {
      assert ExactAt(h, r, outside(r));
      HeapRefsUpdate(h, a, Free, r);
      assert h[a].slots[0..] == h[a].slots;
    }
    forall r: Ref ensures CountIn(pending[..n], r) == if r < |h'| && IsDead(h'[r]) then 1 else 0 {
      CountInLast(pending, r);
      assert CountIn(pending, r) == if r < |h| && IsDead(h[r]) then 1 else 0;
    }
  }

  lemma SameOutside(h: Heap, pending: seq<Ref>, f: Ref -> nat, g: Ref -> nat)
    requires EagerInv(h, pending, f) && forall r: Ref :: f(r) == g(r)
    ensures EagerInv(h, pending, g)
  {
    forall r: Ref ensures ExactAt(h, r, g(r)) { assert ExactAt(h, r, f(r)); }
  }

  lemma KeptDrop(h0: Heap, h: Heap, v: Slot)
    requires Kept(h0, h)
    ensures Kept(h0, EagerDrop(h, v).heap)
  {
  }

  lemma KeptFree(h0: Heap, h: Heap, a: Ref)
    requires Kept(h0, h) && a < |h| && IsDead(h[a])
    ensures Kept(h0, h[a := Free])
  {
  }

  lemma DropKeepsDead(h: Heap, v: Slot, a: Ref)
    requires a < |h| && IsDead(h[a])
    ensures EagerDrop(h, v).heap[a] == h[a]
  {
  }

  /** Drop every slot of a dead object that stays allocated meanwhile. */
  method DropSlots(h1: Heap, pending1: seq<Ref>, a: Ref, ghost h0: Heap, ghost outside: Ref -> nat)
    returns (h: Heap, pending: seq<Ref>)
    requires a < |h1| && IsDead(h1[a]) && Kept(h0, h1)
    requires EagerInv(h1[a := Free], pending1, AlsoSlots(outside, h1[a].slots))
    ensures |h| == |h1| && h[a] == h1[a] && Kept(h0, h) && Allocated(h) <= Allocated(h1)
    ensures EagerInv(h[a := Free], pending, outside)
  {
    hide EagerInv, EagerDrop, Kept;
    h, pending := h1, pending1;
    var slots := h[a].slots;
    assert slots[0..] == slots;
    for i := 0 to |slots|
      invariant |h| == |h1| && h[a] == h1[a] && Kept(h0, h)
      invariant EagerInv(h[a := Free], pending, AlsoSlots(outside, slots[i..]))
      invariant Allocated(h) <= Allocated(h1)
    {
      assert slots[i..][1..] == slots[i + 1..];
      EagerStep(h[a := Free], pending, slots[i], slots[i..], outside);
      EagerDropIgnores(h, slots[i], a);
      KeptDrop(h0, h, slots[i]);
      DropKeepsDead(h, slots[i], a);
      var d := EagerDrop(h, slots[i]);
      h := d.heap;
      if d.queued.Some? { pending := pending + [d.queued.value]; }
    }
    assert slots[|slots|..] == [];
    SameOutside(h[a := Free], pending, AlsoSlots(outside, slots[|slots|..]), outside);
  }

  /** `minyar_rc_release` of the eager profile. */
  method EagerRelease(h0: Heap, v: Slot, ghost outside: Ref -> nat) returns (h: Heap)
    requires EagerInv(h0, [], AlsoSlots(outside, [v]))
    ensures EagerInv(h, [], outside) && Kept(h0, h)
  {
    assert Kept(h0, h0);
    hide EagerInv, EagerDrop, Kept;
    EagerStep(h0, [], v, [v], outside);
    KeptDrop(h0, h0, v);
    var d := EagerDrop(h0, v);
    h := d.heap;
    var pending := if d.queued.Some? then [] + [d.queued.value] else [];
    SameOutside(h, pending, AlsoSlots(outside, [v][1..]), outside);
    while pending != []
      invariant EagerInv(h, pending, outside) && Kept(h0, h)
      decreases Allocated(h)
    {
      var a := pending[|pending| - 1];
      PopInv(h, pending, outside);
      h, pending := DropSlots(h, pending[..|pending| - 1], a, h0, outside);
      AllocatedFree(h, a);
      KeptFree(h0, h, a);
      h := h[a := Free];
    }
  }

  /* ---- both profiles agree ---- */

  /** What owns an object from outside the heap. */
  ghost function Owners(s: State, held: multiset<Ref>): Ref -> nat { (r: Ref) => Outside(s, held, r) }

  /** A heap the eager release leaves, put in place of a quiet state's. */
  lemma EagerStateInv(s: State, held: multiset<Ref>, v: Slot, h: Heap)
    requires Inv(s, Add(held, v)) && s.pending == 0
    requires EagerInv(h, [], Owners(s, held)) && Kept(s.heap, h)
    ensures Inv(s.(heap := h), held) && Evolved(s.heap, h)
  {
    var t := s.(heap := h);
    QuietState(s, Add(held, v));
    assert View(t) == h;
    var outside := Owners(s, held);
    forall r: Ref ensures InvAt(t, held, r) {
      assert ExactAt(h, r, outside(r));
      assert CountIn([], r) == if r < |h| && IsDead(h[r]) then 1 else 0;
      assert Outside(t, held, r) == outside(r);
    }
    assert forall i :: 0 <= i < |h| ==> !IsDead(h[i]) by {
      forall i | 0 <= i < |h|
        ensures !IsDead(h[i])
      {
        assert CountIn([], i) == if i < |h| && IsDead(h[i]) then 1 else 0;
      }
    }
    forall i | 0 <= i < |h| ensures Kinded(h, h[i]) {
      SurvivorKinded(s, h, outside, i);
    }
  }

  lemma SurvivorKinded(s: State, h: Heap, outside: Ref -> nat, i: nat)
    requires AllKinded(s.heap) && EagerInv(h, [], outside) && Kept(s.heap, h) && i < |h| && !IsDead(h[i])
    ensures Kinded(h, h[i])
  {
    var c := h[i];
    assert Kinded(s.heap, s.heap[i]);
    if c.Object? && c.kind == Text && c.slots != [] {
      var b := c.slots[0].value;
      HeapRefsAtLeast(h, i, b);
      assert CellRefs(c, b) >= 1;
      assert ExactAt(h, b, outside(b));
      assert Kinded(s.heap, s.heap[b]);
    }
  }

  lemma {:induction false} SameHeapRefs(h: Heap, h': Heap, r: Ref)
    requires |h| == |h'| && forall i :: 0 <= i < |h| ==> CellRefs(h[i], r) == CellRefs(h'[i], r)
    ensures HeapRefs(h, r) == HeapRefs(h', r)
  {
    if h != [] { SameHeapRefs(h[..|h| - 1], h'[..|h| - 1], r); }
  }

  /** Exact counts leave no freedom: the survivors fix the whole heap. */
  lemma SurvivorsFixHeap(s: State, t: State, u: State, held: multiset<Ref>)
    requires Inv(t, held) && Inv(u, held) && t.pending == 0 && u.pending == 0
    requires Evolved(s.heap, t.heap) && Evolved(s.heap, u.heap)
    requires t.frames == u.frames
    requires forall r: Ref :: r < |s.heap| ==> (IsOwned(t.heap[r]) <==> IsOwned(u.heap[r]))
    ensures t.heap == u.heap
  {
    QuietState(t, held);
    QuietState(u, held);
    forall i | 0 <= i < |s.heap|
      ensures t.heap[i].Free? == u.heap[i].Free?
      ensures forall r: Ref :: CellRefs(t.heap[i], r) == CellRefs(u.heap[i], r)
    {
      assert EvolvedAt(s.heap[i], t.heap[i]) && EvolvedAt(s.heap[i], u.heap[i]);
    }
    forall i | 0 <= i < |s.heap| ensures t.heap[i] == u.heap[i] {
      SameHeapRefs(t.heap, u.heap, i);
      assert InvAt(t, held, i) && InvAt(u, held, i);
      assert EvolvedAt(s.heap[i], t.heap[i]) && EvolvedAt(s.heap[i], u.heap[i]);
    }
  }

  /** Releasing from a quiet, acyclic state: draining the deferred collector
      leaves exactly the heap the eager release leaves, counts included. */
  lemma EagerEqualsDeferred(s: State, held: multiset<Ref>, v: Slot, h: Heap, n: nat)
    requires Inv(s, Add(held, v)) && s.pending == 0 && G.Acyclic(HeapGraph(s.heap))
    requires EagerInv(h, [], Owners(s, held)) && Kept(s.heap, h)
    requires n >= Debt(Drop(s, v))
    ensures Iterate(Drop(s, v), n).heap == h
  {
    hide Inv, EagerInv, Kept, Reached, Iterate, Debt, DropHeap;
    var d := Drop(s, v);
    var t, u := Iterate(d, n), s.(heap := h);
    DropInv(s, v, held);
    DropEvolves(s, v);
    EvolvedAcyclic(s.heap, d.heap);
    IterateInv(d, n, held);
    IterateEvolves(d, n, held);
    DrainTerminates(d, n, held);
    EagerStateInv(s, held, v, h);
    EvolvedAcyclic(s.heap, h);
    EvolvedAcyclic(d.heap, t.heap);
    forall r: Ref | r < |s.heap| ensures IsOwned(t.heap[r]) <==> IsOwned(u.heap[r]) {
      QuiescentIsReachable(t, held, r);
      QuiescentIsReachable(u, held, r);
      SameReached(s, u, held, r);
      SameReached(s, d, held, r);
      SameReached(d, t, held, r);
    }
    SurvivorsFixHeap(s, t, u, held);
  }

  lemma OwnersAlso(s: State, held: multiset<Ref>, v: Slot, r: Ref)
    ensures AlsoSlots(Owners(s, held), [v])(r) == Outside(s, Add(held, v), r)
  {
    assert [v][1..] == [] && Refs([v], r) == One(v, r) + Refs([v][1..], r);
  }

  /** A quiet state of this profile's shapes meets the eager release's contract. */
  lemma QuietStartsEager(s: State, held: multiset<Ref>, v: Slot)
    requires Inv(s, Add(held, v)) && s.pending == 0 && Shaped(s.heap)
    ensures EagerInv(s.heap, [], AlsoSlots(Owners(s, held), [v]))
  {
    QuietState(s, Add(held, v));
    var outside := AlsoSlots(Owners(s, held), [v]);
    forall r: Ref ensures ExactAt(s.heap, r, outside(r)) && (r < |s.heap| ==> !IsDead(s.heap[r])) {
      OwnersAlso(s, held, v, r);
      assert InvAt(s, Add(held, v), r);
    }
  }

  /** The two profiles side by side: from any quiet, acyclic state, the heap the eager
      worklist returns is the heap the deferred collector drains to. */
  method EagerReleaseAgrees(h0: Heap, v: Slot, ghost s: State, ghost held: multiset<Ref>, ghost n: nat)
      returns (h: Heap)
    requires Inv(s, Add(held, v)) && s.pending == 0 && Shaped(s.heap) && G.Acyclic(HeapGraph(s.heap))
    requires h0 == s.heap && n >= Debt(Drop(s, v))
    ensures h == Iterate(Drop(s, v), n).heap
  {
    hide Inv, EagerInv, Kept, Iterate, Debt, Drop, Shaped;
    QuietStartsEager(s, held, v);
    h := EagerRelease(h0, v, Owners(s, held));
    EagerEqualsDeferred(s, held, v, h, n);
  }
}
