/** A recursive literal with its children written in place is a guarded run: the record
    is allocated first, then the List its field holds, then the elements are stored. */
module RcLiteral {
  import opened Wrappers
  import opened RcHeap
  import opened RcMachine
  import opened RcInvariant
  import opened RcMutator
  import opened RcRuns
  import opened RcTyped
  import G = Graph

  /** Some guarded run ends in this world with these ages. */
  ghost predicate Arrives(types: G.Graph, mutable: set<nat>, w: World, t: Typing) {
    exists ws, es, ts, tys ::
      GuardedRun(types, mutable, ws, es, ts, tys) && ws[|ws| - 1] == w && ts[|ts| - 1] == t
  }

  lemma ArrivesFirst(types: G.Graph, mutable: set<nat>)
    ensures Arrives(types, mutable, Start([]), Typing([], [], 0))
  {
    var w, t := Start([]), Typing([], [], 0);
    assert Literals([]);
    assert GuardedRun(types, mutable, [w], [], [t], []);
    assert [w][|[w]| - 1] == w && [t][|[t]| - 1] == t;
  }

  /** One more event. */
  lemma ArrivesNext(types: G.Graph, mutable: set<nat>, w: World, t: Typing, e: Event, ty: nat)
    requires Arrives(types, mutable, w, t) && Allowed(w, e) && GuardAllows(types, mutable, t, e, ty)
    ensures Arrives(types, mutable, Next(w, e), NextTyping(t, e, ty))
  {
    hide Allowed, GuardAllows, Next, NextTyping, Stamped;
    var ws, es, ts, tys :| GuardedRun(types, mutable, ws, es, ts, tys) && ws[|ws| - 1] == w && ts[|ts| - 1] == t;
    var ws', es' := ws + [Next(w, e)], es + [e];
    var ts', tys' := ts + [NextTyping(t, e, ty)], tys + [ty];
    RunNext(ws, es, e);
    assert ts'[0] == ts[0] && ws'[0] == ws[0];
    forall i | 0 <= i < |es'|
      ensures GuardAllows(types, mutable, ts'[i], es'[i], tys'[i]) && ts'[i + 1] == NextTyping(ts'[i], es'[i], tys'[i])
    {
      if i < |es| { assert ts'[i] == ts[i] && tys'[i] == tys[i] && ts'[i + 1] == ts[i + 1]; }
    }
    assert GuardedRun(types, mutable, ws', es', ts', tys');
  }

  /* ---- record Node { value: Integer; children: List<Node> } ---- */

  const NODE: nat := 0
  const NODES: nat := 1

  /** A Node leads to its List of children, which leads to Nodes. */
  const TYPES: G.Graph := [[NODES], [NODE]]

  function Node(count: nat, children: Slot): Cell { Object(Owned(count), Record, [None, children], 0) }

  function Children(kind: Kind, slots: seq<Slot>): Cell { Object(Owned(1), kind, slots, 0) }

  function Here(h: Heap, held: multiset<Ref>): World { World(Start([]).s.(heap := h), held) }

  /* ---- one event at a time ---- */

  lemma CreateStep(mutable: set<nat>, h: Heap, held: multiset<Ref>, t: Typing, c: Cell, ty: nat)
    requires Arrives(TYPES, mutable, Here(h, held), t) && |t.ty| == |t.born| == |h| && Fresh(h, c, None)
    ensures Arrives(TYPES, mutable, Here(h + [c], held + multiset{|h|}), t.(ty := t.ty + [ty], born := t.born + [None]))
  {
    hide Arrives, Fresh;
    ArrivesNext(TYPES, mutable, Here(h, held), t, Create(|h|, c, None), ty);
  }

  lemma MarkListStep(mutable: set<nat>, h: Heap, held: multiset<Ref>, t: Typing, a: Ref)
    requires Arrives(TYPES, mutable, Here(h, held), t) && a < |h| && IsOwned(h[a]) && h[a].kind == ScalarList
    ensures Arrives(TYPES, mutable, Here(h[a := h[a].(kind := ImmortalReferences)], held), t)
  {
    hide Arrives;
    ArrivesNext(TYPES, mutable, Here(h, held), t, MarkList(a), 0);
  }

  lemma CompleteStep(mutable: set<nat>, h: Heap, held: multiset<Ref>, t: Typing, a: Ref)
    requires Arrives(TYPES, mutable, Here(h, held), t) && a < |h| == |t.born| && IsOwned(h[a]) && t.born[a].None?
    ensures Arrives(TYPES, mutable, Here(h, held), t.(born := t.born[a := Some(t.clock)], clock := t.clock + 1))
  {
    hide Arrives;
    ArrivesNext(TYPES, mutable, Here(h, held), t, Complete(a), 0);
  }

  lemma BorrowStep(mutable: set<nat>, h: Heap, held: multiset<Ref>, t: Typing, r: Ref)
    requires Arrives(TYPES, mutable, Here(h, held), t) && r < |h| && IsOwned(h[r])
    ensures Arrives(TYPES, mutable, Here(h[r := h[r].(header := Owned(h[r].header.count + 1))], held + multiset{r}), t)
  {
    hide Arrives;
    ArrivesNext(TYPES, mutable, Here(h, held), t, Borrow(Some(r)), 0);
  }

  lemma MarkStep(mutable: set<nat>, h: Heap, held: multiset<Ref>, t: Typing, a: Ref, r: Ref)
    requires Arrives(TYPES, mutable, Here(h, held), t) && a < |h| && IsOwned(h[a]) && r < |h| && IsOwned(h[r])
    requires h[a].kind == ImmortalReferences || h[a].kind == References
    ensures Arrives(TYPES, mutable, Here(h[a := h[a].(kind := References)], held), t)
  {
    hide Arrives;
    ArrivesNext(TYPES, mutable, Here(h, held), t, Mark(a, Some(r)), 0);
    assert h[a].kind == References ==> h[a := h[a].(kind := References)] == h;
  }

  lemma AppendStep(mutable: set<nat>, h: Heap, held: multiset<Ref>, t: Typing, a: Ref, r: Ref)
    requires Arrives(TYPES, mutable, Here(h, held), t) && Owning(Here(h, held).s, a) && r in held
    requires Storable(TYPES, mutable, t, a, Some(r))
    ensures Arrives(TYPES, mutable, Here(h[a := h[a].(slots := h[a].slots + [Some(r)])], held - multiset{r}), t)
  {
    hide Arrives, Storable;
    ArrivesNext(TYPES, mutable, Here(h, held), t, Append(a, Some(r)), 0);
  }

  lemma AssignStep(mutable: set<nat>, h: Heap, held: multiset<Ref>, t: Typing, a: Ref, i: nat, r: Ref)
    requires Arrives(TYPES, mutable, Here(h, held), t) && Owning(Here(h, held).s, a) && r in held
    requires i < |h[a].slots| && h[a].slots[i].None? && Storable(TYPES, mutable, t, a, Some(r))
    ensures Arrives(TYPES, mutable, Here(h[a := h[a].(slots := h[a].slots[i := Some(r)])], held - multiset{r}), t)
  {
    hide Arrives, Storable;
    ArrivesNext(TYPES, mutable, Here(h, held), t, Assign(a, i, Some(r)), 0);
  }

  /* ---- the literal ---- */

  /** A new Node and the List of its children, both unfinished. */
  lemma BothCreated(mutable: set<nat>, h: Heap, held: multiset<Ref>, t: Typing)
    requires Arrives(TYPES, mutable, Here(h, held), t) && |t.ty| == |t.born| == |h|
    ensures Arrives(TYPES, mutable,
                    Here(h + [Node(1, None), Children(ImmortalReferences, [])], held + multiset{|h|, |h| + 1}),
                    t.(ty := t.ty + [NODE, NODES], born := t.born + [None, None]))
  {
    hide Arrives, Here;
    var n := |h|;
    CreateStep(mutable, h, held, t, Node(1, None), NODE);
    var h1, t1 := h + [Node(1, None)], t.(ty := t.ty + [NODE], born := t.born + [None]);
    CreateStep(mutable, h1, held + multiset{n}, t1, Children(ScalarList, []), NODES);
    var h2, t2 := h1 + [Children(ScalarList, [])], t1.(ty := t1.ty + [NODES], born := t1.born + [None]);
    MarkListStep(mutable, h2, held + multiset{n} + multiset{n + 1}, t2, n + 1);
    assert h2[n + 1 := Children(ImmortalReferences, [])] == h + [Node(1, None), Children(ImmortalReferences, [])];
    assert held + multiset{n} + multiset{n + 1} == held + multiset{n, n + 1};
    assert t2.ty == t.ty + [NODE, NODES] && t2.born == t.born + [None, None];
  }

  /** The List is completed, stored in its Node, and the Node is completed. */
  lemma BothCompleted(mutable: set<nat>, h: Heap, held: multiset<Ref>, t: Typing, n: Ref)
    requires Arrives(TYPES, mutable, Here(h, held), t) && n + 1 < |t.ty| == |t.born| == |h| && n + 1 in held
    requires h[n] == Node(1, None) && IsOwned(h[n + 1])
    requires t.ty[n] == NODE && t.ty[n + 1] == NODES && t.born[n].None? && t.born[n + 1].None?
    ensures Arrives(TYPES, mutable, Here(h[n := Node(1, Some(n + 1))], held - multiset{n + 1}),
                    t.(born := t.born[n + 1 := Some(t.clock)][n := Some(t.clock + 1)], clock := t.clock + 2))
  {
    hide Arrives;
    CompleteStep(mutable, h, held, t, n + 1);
    var t1 := t.(born := t.born[n + 1 := Some(t.clock)], clock := t.clock + 1);
    assert G.Edge(TYPES, NODE, NODES);
    AssignStep(mutable, h, held, t1, n, 1, n + 1);
    assert h[n].slots[1 := Some(n + 1)] == [None, Some(n + 1)];
    CompleteStep(mutable, h[n := Node(1, Some(n + 1))], held - multiset{n + 1}, t1, n);
  }

  /** `Node { value: 1; children: [] }` */
  lemma LeafArrives(mutable: set<nat>)
    ensures Arrives(TYPES, mutable, Here([Node(1, Some(1)), Children(ImmortalReferences, [])], multiset{0}),
                    Typing([NODE, NODES], [Some(1), Some(0)], 2))
  {
    hide Arrives;
    ArrivesFirst(TYPES, mutable);
    var none: Heap := [];
    var t := Typing([], [], 0);
    assert Here(none, multiset{}) == Start([]);
    BothCreated(mutable, none, multiset{}, t);
    var h, held := [Node(1, None), Children(ImmortalReferences, [])], multiset{0, 1};
    var t1 := Typing([NODE, NODES], [None, None], 0);
    assert none + h == h && multiset{} + held == held;
    assert t.ty + [NODE, NODES] == t1.ty && t.born + [None, None] == t1.born;
    BothCompleted(mutable, h, held, t1, 0);
    assert h[0 := Node(1, Some(1))] == [Node(1, Some(1)), Children(ImmortalReferences, [])] &&
      held - multiset{1} == multiset{0};
    assert t1.born[1 := Some(0)][0 := Some(1)] == [Some(1), Some(0)];
  }

  function Leaves(k: nat): seq<Slot> { if k == 0 then [] else Leaves(k - 1) + [Some(0)] }

  /** The leaf, owned by the program and by `k` elements, and the List that takes one
      more. */
  function Growing(k: nat): Heap {
    [Node(1 + k, Some(1)), Children(ImmortalReferences, []), Node(1, None),
     Children(if k == 0 then ImmortalReferences else References, Leaves(k))]
  }

  const OPEN: Typing := Typing([NODE, NODES, NODE, NODES], [Some(1), Some(0), None, None], 2)

  /** An element: the leaf is retained, the List starts to count, the owner moves in. */
  lemma ElementStored(mutable: set<nat>, k: nat)
    requires Arrives(TYPES, mutable, Here(Growing(k), multiset{0, 2, 3}), OPEN)
    ensures Arrives(TYPES, mutable, Here(Growing(k + 1), multiset{0, 2, 3}), OPEN)
  {
    hide Arrives;
    var held, more := multiset{0, 2, 3}, multiset{0, 2, 3} + multiset{0};
    var h := Growing(k);
    BorrowStep(mutable, h, held, OPEN, 0);
    var h1 := h[0 := Node(2 + k, Some(1))];
    MarkStep(mutable, h1, more, OPEN, 3, 0);
    var h2 := h1[3 := Children(References, Leaves(k))];
    assert G.Edge(TYPES, NODES, NODE);
    AppendStep(mutable, h2, more, OPEN, 3, 0);
    assert more - multiset{0} == held;
    assert h2[3 := Children(References, Leaves(k) + [Some(0)])] == Growing(k + 1);
  }

  lemma Grown()
    ensures Growing(0) ==
      [Node(1, Some(1)), Children(ImmortalReferences, [])] + [Node(1, None), Children(ImmortalReferences, [])]
    ensures Growing(2)[2 := Node(1, Some(3))] ==
      [Node(3, Some(1)), Children(ImmortalReferences, []), Node(1, Some(3)), Children(References, [Some(0), Some(0)])]
  {
    assert Leaves(1) == [Some(0)];
    assert Leaves(2) == [Some(0), Some(0)];
  }

  /** The documentation's own literal, `Node { value: 2; children: [leaf, leaf] }`, is
      built by a guarded run, whichever types are mutable: its Node is allocated before
      the List its field will hold, and both before they are completed. */
  lemma RecursiveLiteralIsGuarded(mutable: set<nat>)
    ensures Arrives(TYPES, mutable,
                    Here([Node(3, Some(1)), Children(ImmortalReferences, []), Node(1, Some(3)),
                          Children(References, [Some(0), Some(0)])],
                         multiset{0, 2}),
                    Typing([NODE, NODES, NODE, NODES], [Some(1), Some(0), Some(3), Some(2)], 4))
  {
    hide Arrives, Growing, Here;
    Grown();
    GrowingShape(2);
    LeafArrives(mutable);
    var leaf, t := [Node(1, Some(1)), Children(ImmortalReferences, [])], Typing([NODE, NODES], [Some(1), Some(0)], 2);
    BothCreated(mutable, leaf, multiset{0}, t);
    assert multiset{0} + multiset{2, 3} == multiset{0, 2, 3};
    assert t.ty + [NODE, NODES] == OPEN.ty && t.born + [None, None] == OPEN.born;
    ElementStored(mutable, 0);
    ElementStored(mutable, 1);
    BothCompleted(mutable, Growing(2), multiset{0, 2, 3}, OPEN, 2);
    assert multiset{0, 2, 3} - multiset{3} == multiset{0, 2};
    assert OPEN.born[3 := Some(2)][2 := Some(3)] == [Some(1), Some(0), Some(3), Some(2)];
  }

  lemma GrowingShape(k: nat)
    ensures |Growing(k)| == 4 && Growing(k)[2] == Node(1, None) && IsOwned(Growing(k)[3])
  {
  }
}
