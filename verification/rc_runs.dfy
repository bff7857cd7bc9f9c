/** Whole runs: any program that obeys the ownership rules, interleaved with cleanup
    in any way, keeps exact ownership throughout. */
module RcRuns {
  import opened Wrappers
  import opened RcHeap
  import opened RcMachine
  import opened RcInvariant
  import opened RcMutator

  /** The collector's state and the references the running code owns. */
  datatype World = World(s: State, held: multiset<Ref>)

  /** What can happen next: a unit of cleanup, or a step of the program. `Complete` is
      where a literal's construction ends; the runtime does nothing there. `Cache` makes
      a fresh Text immortal. */
  datatype Event =
    | Tick
    | Borrow(v: Slot)
    | Release(v: Slot)
    | Create(r: Ref, c: Cell, backing: Slot)
    | Complete(a: Ref)
    | Cache(a: Ref)
    | MarkList(a: Ref)
    | Mark(a: Ref, v: Slot)
    | Append(a: Ref, v: Slot)
    | Assign(a: Ref, i: nat, v: Slot)
    | AppendUncounted(a: Ref, v: Slot)
    | AssignUncounted(a: Ref, i: nat, v: Slot)
    | EnterFrame(locals: nat, onStack: bool, bytes: nat)
    | LeaveFrame
    | UnlinkStackFrame
    | StepFrame
    | KeepTemporary(x: Ref)
    | TakeLocal(i: nat, v: Slot)
    | MoveLocal(i: nat)

  predicate Owns(w: World, v: Slot) { v.Some? ==> v.value in w.held }

  /** An immortal-only List may take an immortal member without counting it. */
  predicate Uncounted(w: World, a: Ref, v: Slot) {
    Live(w.s, a) && w.s.heap[a].kind == ImmortalReferences && Usable(w.s, v) && !Mortal(w.s, v)
  }

  /** What the runtime asks of its callers. A value is given away only by who owns
      it, and counted stores take that owner over, handing back the old value's: a List
      store releases it next, a record store never does. */
  predicate Allowed(w: World, e: Event) {
    match e
    case Tick => true
    case Borrow(v) => Usable(w.s, v)
    case Release(v) => Owns(w, v)
    case Create(r, c, backing) =>
      Owns(w, backing) && Fresh(w.s.heap, c, backing) && (r == |w.s.heap| || (r < |w.s.heap| && w.s.heap[r].Free?))
    case Complete(a) => Live(w.s, a)
    case Cache(a) => a in w.held && FreshText(w.s, a)
    case MarkList(a) => Live(w.s, a) && w.s.heap[a].kind == ScalarList
    case Mark(a, v) => Live(w.s, a)
    case Append(a, v) => Owns(w, v) && Owning(w.s, a)
    case Assign(a, i, v) => Owns(w, v) && Owning(w.s, a) && i < |w.s.heap[a].slots|
    case AppendUncounted(a, v) => Uncounted(w, a, v)
    case AssignUncounted(a, i, v) => Uncounted(w, a, v) && i < |w.s.heap[a].slots|
    case EnterFrame(n, onStack, _) => onStack ==> 0 < n <= 8
    case LeaveFrame => w.s.frames != [] && !w.s.frames[0].onStack
    case UnlinkStackFrame => w.s.frames != [] && w.s.frames[0].onStack && w.s.frames[0].chunks == []
    case StepFrame => w.s.frames != []
    case KeepTemporary(x) => x in w.held && w.s.frames != []
    case TakeLocal(i, v) => Owns(w, v) && w.s.frames != [] && i < |w.s.frames[0].locals|
    case MoveLocal(i) => w.s.frames != [] && i < |w.s.frames[0].locals|
  }

  function Next(w: World, e: Event): World
    requires Allowed(w, e)
  {
    var s := w.s;
    match e
    case Tick => World(if s.pending == 0 then s else Unit(s), w.held)
    case Borrow(v) => World(Retain(s, v), Add(w.held, v))
    case Release(v) => World(Drop(s, v), Without(w.held, v))
    case Create(r, c, backing) => World(Allocate(s, r, c), Add(Without(w.held, backing), Some(r)))
    case Complete(_) => w
    case Cache(a) => World(MakeImmortal(s, a), Without(w.held, Some(a)))
    case MarkList(a) => World(MarkReferences(s, a), w.held)
    case Mark(a, v) => World(Promote(s, a, v), w.held)
    case Append(a, v) => World(AppendSlot(s, a, v), Without(w.held, v))
    case Assign(a, i, v) => World(SetSlot(s, a, i, v), Add(Without(w.held, v), s.heap[a].slots[i]))
    case AppendUncounted(a, v) => World(AppendSlot(s, a, v), w.held)
    case AssignUncounted(a, i, v) => World(SetSlot(s, a, i, v), w.held)
    case EnterFrame(n, onStack, bytes) => World(Push(if onStack then s else Uncache(s), NewFrame(n, onStack, bytes)),
                                                w.held)
    case LeaveFrame => World(Detach(s), w.held)
    case UnlinkStackFrame =>
      World(s.(frames := s.frames[1..]), w.held + WrittenOwners(s.frames[0].locals, s.frames[0].written))
    case StepFrame => World(RetireTemporaries(s), w.held)
    case KeepTemporary(x) => World(Keep(s, x), Without(w.held, Some(x)))
    case TakeLocal(i, v) =>
      World(SetTop(s, StoreIn(s.frames[0], i, v)), Add(Without(w.held, v), s.frames[0].locals[i].value))
    case MoveLocal(i) => World(SetTop(s, MoveFrom(s.frames[0], i)), Add(w.held, s.frames[0].locals[i].value))
  }

  /** No step the rules allow, and no unit of cleanup, breaks exact ownership. */
  lemma StepInv(w: World, e: Event)
    requires Inv(w.s, w.held) && Allowed(w, e)
    ensures Inv(Next(w, e).s, Next(w, e).held)
  {
    hide Inv, Add, Without, Unit, Drop, Retain, Allocate, Promote, MarkReferences, MakeImmortal, AppendSlot, SetSlot,
        Detach,
        RetireTemporaries, Keep, StoreIn, MoveFrom, Fresh;
    var s, held := w.s, w.held;
    match e
    case Tick => if s.pending != 0 { UnitInv(s, held); }
    case Borrow(v) => RetainInv(s, held, v);
    case Release(v) => HeldAgain(held, v); DropInv(s, v, Without(held, v));
    case Create(r, c, backing) =>
      HeldAgain(held, backing);
      AllocateInv(s, Without(held, backing), r, c, backing);
    case Complete(_) =>
    case Cache(a) => HeldAgain(held, Some(a)); MakeImmortalInv(s, Without(held, Some(a)), a);
    case MarkList(a) => MarkReferencesInv(s, held, a);
    case Mark(a, v) => PromoteInv(s, held, a, v);
    case Append(a, v) => HeldAgain(held, v); AppendSlotInv(s, Without(held, v), a, v);
    case Assign(a, i, v) => HeldAgain(held, v); SetSlotInv(s, Without(held, v), a, i, v);
    case AppendUncounted(a, v) => AppendImmortalInv(s, held, a, v);
    case AssignUncounted(a, i, v) => SetImmortalInv(s, held, a, i, v);
    case EnterFrame(n, onStack, bytes) =>
      UncacheInv(s, held);
      PushInv(if onStack then s else Uncache(s), held, n, onStack, bytes);
    case LeaveFrame => DetachInv(s, held);
    case UnlinkStackFrame => UnlinkInv(s, held);
    case StepFrame => RetireTemporariesInv(s, held);
    case KeepTemporary(x) => HeldAgain(held, Some(x)); KeepInv(s, Without(held, Some(x)), x);
    case TakeLocal(i, v) => HeldAgain(held, v); StoreInv(s, Without(held, v), i, v);
    case MoveLocal(i) => MoveInv(s, held, i);
  }

  /** A program starts with its literals, which no count ever frees. */
  ghost predicate Literals(h: Heap) {
    AllKinded(h) && forall i :: 0 <= i < |h| ==> h[i].Object? && IsImmortal(h[i]) && h[i].slots == []
  }

  function Start(h: Heap): World {
    World(State(h, None, 0, [], [], false, [], [], 0, 0, [], [], 0), multiset{})
  }

  lemma {:induction false} LiteralRefs(h: Heap, r: Ref)
    requires forall i :: 0 <= i < |h| ==> h[i].Object? && IsImmortal(h[i]) && h[i].slots == []
    ensures HeapRefs(h, r) == 0
  {
    if h != [] { LiteralRefs(h[..|h| - 1], r); }
  }

  lemma StartInv(h: Heap)
    requires Literals(h)
    ensures Inv(Start(h).s, Start(h).held)
  {
    var s := Start(h).s;
    forall r: Ref ensures InvAt(s, multiset{}, r) { LiteralRefs(h, r); }
  }

  /** The worlds of a run, each after an allowed event. */
  ghost predicate Run(ws: seq<World>, es: seq<Event>) {
    && |ws| == |es| + 1
    && (exists h :: Literals(h) && ws[0] == Start(h))
    && forall i :: 0 <= i < |es| ==> Allowed(ws[i], es[i]) && ws[i + 1] == Next(ws[i], es[i])
  }

  /** Exact ownership over whole runs. */
  lemma {:induction false} RunInv(ws: seq<World>, es: seq<Event>, i: nat)
    requires Run(ws, es) && i < |ws|
    ensures Inv(ws[i].s, ws[i].held)
  {
    if i == 0 {
      var h :| Literals(h) && ws[0] == Start(h);
      StartInv(h);
    } else {
      RunInv(ws, es, i - 1);
      hide Inv, Allowed, Next;
      StepInv(ws[i - 1], es[i - 1]);
    }
  }

  /** Who owns `r`: running code, a frame's written local or temporary, or a slot of an
      object that is not freed and has not passed it. */
  ghost predicate Owned(w: World, r: Ref) {
    Outside(w.s, w.held, r) > 0 || HeapRefs(View(w.s), r) > 0
  }

  /** Nothing is freed early, kept late or queued twice: throughout a run, a counted
      object is owned exactly as often as its count says, an owned object is allocated
      and not queued, and a dead one has no owner and stands in exactly one queue. */
  lemma {:induction false} RunSafe(ws: seq<World>, es: seq<Event>, i: nat, r: Ref)
    requires Run(ws, es) && i < |ws|
    ensures var w := ws[i]; var h := w.s.heap;
      && (Owned(w, r) ==> r < |h| && h[r].Object? && !IsDead(h[r]))
      && (r < |h| && IsOwned(h[r]) ==> h[r].header.count == Outside(w.s, w.held, r) + HeapRefs(View(w.s), r) > 0)
      && (r < |h| && IsDead(h[r]) ==> !Owned(w, r) && Occurrences(w.s, r) == 1)
      && (!(r < |h| && IsDead(h[r])) ==> Occurrences(w.s, r) == 0)
  {
    RunInv(ws, es, i);
    assert InvAt(ws[i].s, ws[i].held, r);
    hide Inv, HeapRefs, Outside, Occurrences;
  }

  /** Some run ends here. */
  ghost predicate Reachable(w: World) { exists ws, es :: Run(ws, es) && ws[|ws| - 1] == w }

  lemma ReachableStart(h: Heap)
    requires Literals(h)
    ensures Reachable(Start(h))
  {
    var ws: seq<World>, es: seq<Event> := [Start(h)], [];
    assert Run(ws, es) && ws[|ws| - 1] == Start(h);
  }

  lemma ReachableNext(w: World, e: Event)
    requires Reachable(w) && Allowed(w, e)
    ensures Reachable(Next(w, e))
  {
    hide Allowed, Next;
    var ws, es :| Run(ws, es) && ws[|ws| - 1] == w;
    RunNext(ws, es, e);
    var ws' := ws + [Next(w, e)];
    assert ws'[|ws'| - 1] == Next(w, e);
  }

  lemma RunNext(ws: seq<World>, es: seq<Event>, e: Event)
    requires Run(ws, es) && Allowed(ws[|ws| - 1], e)
    ensures Run(ws + [Next(ws[|ws| - 1], e)], es + [e])
  {
    hide Allowed, Next;
    var ws', es' := ws + [Next(ws[|ws| - 1], e)], es + [e];
    assert ws'[0] == ws[0];
    forall i | 0 <= i < |es'| ensures Allowed(ws'[i], es'[i]) && ws'[i + 1] == Next(ws'[i], es'[i]) {
      if i < |es| { assert ws'[i] == ws[i] && es'[i] == es[i] && ws'[i + 1] == ws[i + 1]; }
    }
  }

  lemma ReachableInv(w: World)
    requires Reachable(w)
    ensures Inv(w.s, w.held)
  {
    var ws, es :| Run(ws, es) && ws[|ws| - 1] == w;
    RunInv(ws, es, |ws| - 1);
  }
}
