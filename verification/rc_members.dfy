/** What objects hold: only the program's own stores write members, each where it says. */
module RcMembers {
  import opened Wrappers
  import opened RcHeap
  import opened RcMachine
  import opened RcInvariant
  import opened RcMutator
  import Q = RcQuiescence
  import P = RcProgress
  import R = RcRuns

  /** Every object still there was there before, with the same members in the same order,
      but `a` now holds `slots`. */
  ghost predicate Rewritten(h: Heap, h': Heap, a: Ref, slots: seq<Slot>) {
    && |h'| == |h|
    && forall b :: 0 <= b < |h'| && h'[b].Object? ==>
         h[b].Object? && h'[b].slots == if b == a then slots else h[b].slots
  }

  lemma RewrittenAgain(h: Heap, h1: Heap, h2: Heap, a: Ref, slots1: seq<Slot>, slots2: seq<Slot>)
    requires Rewritten(h, h1, a, slots1) && Rewritten(h1, h2, a, slots2)
    ensures Rewritten(h, h2, a, slots2)
  {
  }

  /** What `a` holds, if it is still there. */
  predicate Holds(h: Heap, a: Ref, slots: seq<Slot>) { a < |h| && h[a].Object? ==> h[a].slots == slots }

  lemma RewrittenHolds(h: Heap, h': Heap, a: Ref, slots: seq<Slot>)
    requires Rewritten(h, h', a, slots)
    ensures Holds(h', a, slots)
  {
  }

  /** Cleanup rewrites nothing. */
  lemma EvolvedMembers(h: Heap, h': Heap, a: Ref, slots: seq<Slot>)
    requires Q.Evolved(h, h') && Holds(h, a, slots)
    ensures Rewritten(h, h', a, slots)
  {
    forall b | 0 <= b < |h'| && h'[b].Object? ensures h[b].Object? && h'[b].slots == h[b].slots {
      assert Q.EvolvedAt(h[b], h'[b]);
    }
  }

  /** Owned by a frame or running code, or immortal. */
  ghost predicate Rooted(s: State, held: multiset<Ref>, a: Ref) {
    a < |s.heap| && (IsImmortal(s.heap[a]) || Q.Roots(s, held, a) > 0)
  }

  /** A poll rewrites no member, and leaves what is rooted. */
  lemma PollMembers(s: State, held: multiset<Ref>, n: nat, a: Ref, slots: seq<Slot>)
    requires Inv(s, held) && Holds(s.heap, a, slots)
    ensures Rewritten(s.heap, Iterate(s, n).heap, a, slots)
    ensures Rooted(s, held, a) ==> Rooted(Iterate(s, n), held, a) && Live(Iterate(s, n), a)
  {
    hide Inv, Unit, Iterate;
    var t := Iterate(s, n);
    IterateInv(s, n, held);
    Q.IterateEvolves(s, n, held);
    EvolvedMembers(s.heap, t.heap, a, slots);
    if Rooted(s, held, a) {
      assert Q.EvolvedAt(s.heap[a], t.heap[a]);
      RootedLive(t, held, a);
    }
  }

  lemma RootedLive(s: State, held: multiset<Ref>, a: Ref)
    requires Inv(s, held) && Rooted(s, held, a)
    ensures Live(s, a)
  {
    assert InvAt(s, held, a);
  }

  lemma DropMembers(s: State, v: Slot, held: multiset<Ref>, a: Ref, slots: seq<Slot>)
    requires Holds(s.heap, a, slots)
    ensures Rewritten(s.heap, Drop(s, v).heap, a, slots)
    ensures Rooted(s, held, a) ==> Rooted(Drop(s, v), held, a)
  {
    hide Drop;
    Q.DropEvolves(s, v);
    EvolvedMembers(s.heap, Drop(s, v).heap, a, slots);
    if Rooted(s, held, a) { assert Q.EvolvedAt(s.heap[a], Drop(s, v).heap[a]); }
  }

  /* ---- whole runs ---- */

  /** What one event leaves in the members of `b`. */
  function Stored(e: R.Event, b: Ref, slots: seq<Slot>): seq<Slot> {
    match e
    case Append(a, v) => if a == b then slots + [v] else slots
    case AppendUncounted(a, v) => if a == b then slots + [v] else slots
    case Assign(a, i, v) => if a == b && i < |slots| then slots[i := v] else slots
    case AssignUncounted(a, i, v) => if a == b && i < |slots| then slots[i := v] else slots
    case _ => slots
  }

  lemma TickMembers(w: R.World, b: Ref)
    requires Inv(w.s, w.held)
    ensures var t := R.Next(w, R.Tick).s; At(t, b) && b < |w.s.heap| ==>
        w.s.heap[b].Object? && t.heap[b].slots == w.s.heap[b].slots
  {
    hide Inv, Unit;
    if w.s.pending != 0 && At(Unit(w.s), b) && b < |w.s.heap| {
      Q.UnitEvolves(w.s, w.held);
      assert Q.EvolvedAt(w.s.heap[b], Unit(w.s).heap[b]);
    }
  }

  lemma ReleaseMembers(s: State, v: Slot, b: Ref)
    requires b < |s.heap| && At(Drop(s, v), b)
    ensures s.heap[b].Object? && Drop(s, v).heap[b].slots == s.heap[b].slots
  {
    hide Drop;
    Q.DropEvolves(s, v);
    assert Q.EvolvedAt(s.heap[b], Drop(s, v).heap[b]);
  }

  predicate StoreEvent(e: R.Event) { e.Append? || e.AppendUncounted? || e.Assign? || e.AssignUncounted? }

  lemma StoreMembers(w: R.World, e: R.Event, b: Ref)
    requires R.Allowed(w, e) && StoreEvent(e) && At(w.s, b) && At(R.Next(w, e).s, b)
    ensures R.Next(w, e).s.heap[b].slots == Stored(e, b, w.s.heap[b].slots)
  {
    hide Kinded, R.Owns, Usable, Add, Without;
  }

  lemma OtherMembers(w: R.World, e: R.Event, b: Ref)
    requires R.Allowed(w, e) && P.ObjectEvent(e) && !StoreEvent(e) && At(w.s, b) && At(R.Next(w, e).s, b)
    ensures R.Next(w, e).s.heap[b].slots == w.s.heap[b].slots
  {
    hide Drop, Kinded, R.Owns, R.Uncounted, Owning, Usable, Add, Without;
    if e.Release? { ReleaseMembers(w.s, e.v, b); }
  }

  /** Of an object that an event leaves in place, the members change only by a store into it. */
  lemma EventMembers(w: R.World, e: R.Event, b: Ref)
    requires Inv(w.s, w.held) && R.Allowed(w, e) && At(w.s, b) && At(R.Next(w, e).s, b)
    ensures R.Next(w, e).s.heap[b].slots == Stored(e, b, w.s.heap[b].slots)
  {
    hide Inv, R.Allowed, R.Next;
    if e.Tick? {
      TickMembers(w, b);
    } else if P.ObjectEvent(e) {
      if StoreEvent(e) { StoreMembers(w, e, b); } else { OtherMembers(w, e, b); }
    } else {
      P.OwnersMove(w, e);
    }
  }

  function Stores(es: seq<R.Event>, b: Ref, slots: seq<Slot>): seq<Slot> {
    if es == [] then slots else Stored(es[|es| - 1], b, Stores(es[..|es| - 1], b, slots))
  }

  /** In any run, for as long as an object stands, its members are what the program's stores
      into it made of them, in order and in place, however cleanup runs in between. */
  lemma {:induction false} MembersInRun(ws: seq<R.World>, es: seq<R.Event>, i: nat, j: nat, b: Ref)
    requires R.Run(ws, es) && i <= j < |ws| && forall k :: i <= k <= j ==> At(ws[k].s, b)
    ensures At(ws[i].s, b) && At(ws[j].s, b)
    ensures ws[j].s.heap[b].slots == Stores(es[i..j], b, ws[i].s.heap[b].slots)
    decreases j
  {
    hide Inv, R.Allowed, R.Next;
    if i < j {
      MembersInRun(ws, es, i, j - 1, b);
      R.RunInv(ws, es, j - 1);
      assert ws[j] == R.Next(ws[j - 1], es[j - 1]) && At(ws[j].s, b);
      EventMembers(ws[j - 1], es[j - 1], b);
      assert es[i..j][..j - 1 - i] == es[i..j - 1];
    } else {
      assert es[i..j] == [];
    }
  }
}
