/** The deferred collector as a step machine: one unit visits one owner slot or
    retires one task. Nothing here batches units. */
module RcMachine {
  import opened Wrappers
  import opened RcHeap

  const CHUNK_SLOTS: nat := 8
  const FRAME_CACHE_BYTES: nat := 256 * 1024

  /** A local owner slot; the tag is the low bit that says its index has been
      entered in the frame's written index. */
  datatype Local = Local(value: Slot, tagged: bool)

  /** An ownership frame: locals, the indices of those ever written, chunks of
      kept temporaries and their total number. */
  datatype Frame = Frame(locals: seq<Local>, written: seq<nat>, chunks: seq<seq<Ref>>, kept: nat,
                         onStack: bool, bytes: nat)

  /** `batch` is the captured batch, `recent` the stack of newer dead objects,
      `retired` and `chunks` the detached frames and temporary chunks. `cache`
      lists the byte charges of frames kept for reuse. */
  datatype State = State(
    heap: Heap,
    active: Option<Ref>, cursor: nat, batch: seq<Ref>, recent: seq<Ref>, turn: bool,
    retired: seq<Frame>, chunks: seq<seq<Ref>>, nextQueue: nat, pending: int,
    frames: seq<Frame>, cache: seq<nat>, cachedBytes: int)

  function First<T>(q: seq<T>): Option<T> { if q == [] then None else Some(q[0]) }

  /** `rc_drop` on the whole state: a newly dead nonleaf is pushed on the recent
      stack. */
  function Drop(s: State, v: Slot): State {
    var d := DropHeap(s.heap, v, First(s.recent));
    if d.queued.Some? then
      s.(heap := d.heap, recent := [d.queued.value] + s.recent, pending := s.pending + 1)
    else s.(heap := d.heap)
  }

  predicate At(s: State, r: Ref) { r < |s.heap| && s.heap[r].Object? }

  /** Take the head of the captured batch and load its saved cursor. */
  function Activate(s: State): State
    requires s.batch != [] && At(s, s.batch[0])
  {
    var a := s.batch[0];
    s.(active := Some(a), batch := s.batch[1..], cursor := s.heap[a].spare,
       heap := s.heap[a := s.heap[a].(header := Dead(None))])
  }

  function ActiveUnit(s: State): State
    requires s.active.Some? && At(s, s.active.value)
  {
    var a := s.active.value;
    var slots := s.heap[a].slots;
    if s.cursor < |slots| then Drop(s.(cursor := s.cursor + 1), slots[s.cursor])
    else s.(heap := s.heap[a := Free], pending := s.pending - 1, active := None)
  }

  /** `rc_bounded_old_object_unit`. */
  function OldUnit(s: State): State {
    if s.active.Some? then (if At(s, s.active.value) then ActiveUnit(s) else s)
    else if s.batch != [] && At(s, s.batch[0]) then ActiveUnit(Activate(s))
    else s
  }

  /** `rc_bounded_recent_object_unit`: the task stays linked and its cursor is
      saved before the drop, so newly dead children preempt it. */
  function RecentUnit(s: State): State {
    if s.recent != [] && At(s, s.recent[0]) then
      var a := s.recent[0];
      var o := s.heap[a];
      if o.spare < |o.slots| then
        Drop(s.(heap := s.heap[a := o.(spare := o.spare + 1)]), o.slots[o.spare])
      else
        s.(recent := s.recent[1..], heap := s.heap[a := Free], pending := s.pending - 1)
    else s
  }

  function Capture(s: State): State {
    if s.active.None? && s.batch == [] then s.(batch := s.recent, recent := []) else s
  }

  /** The sole captured task is a unary record whose field has been visited. */
  predicate UnaryParent(s: State) {
    && s.batch == [] && s.active.Some? && At(s, s.active.value)
    && s.heap[s.active.value].kind == Record
    && |s.heap[s.active.value].slots| == 1 && s.cursor == 1
  }

  /** `rc_bounded_object_unit`. */
  function ObjectUnit(s: State): State {
    var t := Capture(s);
    var u := t.(turn := !t.turn);
    if t.turn && t.recent != [] && !UnaryParent(u) then RecentUnit(u) else OldUnit(u)
  }

  function LocalValue(f: Frame, i: nat): Slot {
    if i < |f.locals| then f.locals[i].value else None
  }

  /** `rc_bounded_frame_unit`: drop the last written local, or retire the frame
      into the bounded cache. */
  function FrameUnit(s: State): State {
    if s.retired == [] then s
    else
      var f := s.retired[0];
      if f.written != [] then
        var n := |f.written| - 1;
        Drop(s.(retired := [f.(written := f.written[..n])] + s.retired[1..]), LocalValue(f, f.written[n]))
      else
        var t := s.(retired := s.retired[1..], pending := s.pending - 1);
        if f.bytes <= FRAME_CACHE_BYTES && s.cachedBytes <= FRAME_CACHE_BYTES - f.bytes then
          t.(cache := [f.bytes] + s.cache, cachedBytes := s.cachedBytes + f.bytes)
        else t
  }

  /** `rc_bounded_chunk_unit`. */
  function ChunkUnit(s: State): State {
    if s.chunks == [] then s
    else
      var c := s.chunks[0];
      if c != [] then
        var n := |c| - 1;
        Drop(s.(chunks := [c[..n]] + s.chunks[1..]), Some(c[n]))
      else s.(chunks := s.chunks[1..], pending := s.pending - 1)
  }

  predicate Ready(s: State, queue: nat) {
    if queue == 0 then s.active.Some? || s.batch != [] || s.recent != []
    else if queue == 1 then s.retired != []
    else s.chunks != []
  }

  function Pick(s: State): nat {
    var q := s.nextQueue;
    if Ready(s, q) then q
    else if Ready(s, (q + 1) % 3) then (q + 1) % 3
    else if Ready(s, (q + 2) % 3) then (q + 2) % 3
    else q
  }

  /** One unit of the three-queue round robin. */
  function Unit(s: State): State {
    var q := Pick(s);
    var t := s.(nextQueue := (q + 1) % 3);
    if q == 0 then ObjectUnit(t) else if q == 1 then FrameUnit(t) else ChunkUnit(t)
  }

  /** Up to `n` units, stopping early when nothing is pending. */
  function Iterate(s: State, n: nat): State {
    if n == 0 then s
    else
      var t := Iterate(s, n - 1);
      if t.pending == 0 then t else Unit(t)
  }

  /** The number of units `Iterate` performs. */
  function Work(s: State, n: nat): nat {
    if n == 0 then 0 else Work(s, n - 1) + (if Iterate(s, n - 1).pending == 0 then 0 else 1)
  }
}

/** Exact ownership: what every unit keeps. */
module RcInvariant {
  import opened Wrappers
  import opened RcHeap
  import opened RcMachine

  /** The heap with the active cursor written back where the other dead objects
      keep theirs. */
  function View(s: State): Heap {
    if s.active.Some? && At(s, s.active.value) then
      s.heap[s.active.value := s.heap[s.active.value].(spare := s.cursor)]
    else s.heap
  }

  function CountIn(q: seq<Ref>, r: Ref): nat {
    if q == [] then 0 else (if q[0] == r then 1 else 0) + CountIn(q[1..], r)
  }

  /** References to `r` held through the locals a frame has written. */
  function LocalRefs(locals: seq<Local>, written: seq<nat>, r: Ref): nat {
    if written == [] then 0
    else
      var n := |written| - 1;
      LocalRefs(locals, written[..n], r) +
      (if written[n] < |locals| then One(locals[written[n]].value, r) else 0)
  }

  function ChunksRefs(chunks: seq<seq<Ref>>, r: Ref): nat {
    if chunks == [] then 0 else CountIn(chunks[0], r) + ChunksRefs(chunks[1..], r)
  }

  function FrameRefs(f: Frame, r: Ref): nat {
    LocalRefs(f.locals, f.written, r) + ChunksRefs(f.chunks, r)
  }

  function FramesRefs(frames: seq<Frame>, r: Ref): nat {
    if frames == [] then 0 else FrameRefs(frames[0], r) + FramesRefs(frames[1..], r)
  }

  /** Owners of `r` outside the heap: live frames, retired frames, detached
      chunks, and the references `held` by the running code. */
  function Outside(s: State, held: multiset<Ref>, r: Ref): nat {
    FramesRefs(s.frames, r) + FramesRefs(s.retired, r) + ChunksRefs(s.chunks, r) + held[r]
  }

  function Occurrences(s: State, r: Ref): nat {
    (if s.active == Some(r) then 1 else 0) + CountIn(s.batch, r) + CountIn(s.recent, r)
  }

  /** Exact count, and dead exactly when queued, exactly once. */
  ghost predicate InvAt(s: State, held: multiset<Ref>, r: Ref) {
    && ExactAt(View(s), r, Outside(s, held, r))
    && Occurrences(s, r) == (if r < |s.heap| && IsDead(s.heap[r]) then 1 else 0)
  }

  function Tasks(s: State): nat {
    (if s.active.Some? then 1 else 0) + |s.batch| + |s.recent| + |s.retired| + |s.chunks|
  }

  function Sum(ns: seq<nat>): nat { if ns == [] then 0 else ns[0] + Sum(ns[1..]) }

  /** All temporary chunks but the last are full and none is empty. */
  predicate ChunksOk(chunks: seq<seq<Ref>>, kept: nat) {
    if chunks == [] then kept == 0
    else if |chunks| == 1 then 1 <= kept == |chunks[0]| <= CHUNK_SLOTS
    else |chunks[0]| == CHUNK_SLOTS && kept > CHUNK_SLOTS && ChunksOk(chunks[1..], kept - CHUNK_SLOTS)
  }

  /** The written index lists each tagged local exactly once, an untagged local
      owns nothing, and only small frames live on the stack. */
  ghost predicate FrameOk(f: Frame) {
    && (forall k :: 0 <= k < |f.written| ==> f.written[k] < |f.locals|)
    && (forall i :: 0 <= i < |f.locals| ==> LocalOk(f, i))
    && ChunksOk(f.chunks, f.kept)
    && (f.onStack ==> 0 < |f.locals| <= 8)
  }

  predicate LocalOk(f: Frame, i: nat)
    requires i < |f.locals|
  {
    && CountIn(f.written, i) == (if f.locals[i].tagged then 1 else 0)
    && (!f.locals[i].tagged ==> f.locals[i].value.None?)
  }

  /** A queued frame was heap-backed and has no temporaries left. */
  predicate RetiredOk(f: Frame) { f.chunks == [] && !f.onStack }

  ghost predicate Books(s: State) {
    && (forall i :: 0 <= i < |s.frames| ==> FrameOk(s.frames[i]))
    && (forall i :: 0 <= i < |s.retired| ==> RetiredOk(s.retired[i]))
    && s.cachedBytes == Sum(s.cache) <= FRAME_CACHE_BYTES
  }

  ghost predicate Inv(s: State, held: multiset<Ref>) {
    && AllKinded(View(s))
    && Books(s)
    && s.pending == Tasks(s)
    && s.nextQueue < 3
    && forall r: Ref :: InvAt(s, held, r)
  }

  function Add(held: multiset<Ref>, v: Slot): multiset<Ref> {
    if v.Some? then held + multiset{v.value} else held
  }

  lemma {:induction false} HeapRefsAtLeast(h: Heap, i: nat, r: Ref)
    requires i < |h|
    ensures HeapRefs(h, r) >= CellRefs(h[i], r)
  {
    if i < |h| - 1 { HeapRefsAtLeast(h[..|h| - 1], i, r); }
  }

  /** A dead cell is out of a drop's reach, so its cursor may be written back
      before or after. */
  lemma {:induction false} DropLeavesDead(h: Heap, v: Slot, link: Option<Ref>, a: Ref, c: Cell)
    requires a < |h| && IsDead(h[a]) && IsDead(c)
    ensures DropHeap(h[a := c], v, link) == DropHeap(h, v, link).(heap := DropHeap(h, v, link).heap[a := c])
    decreases Allocated(h)
  {
    if Drops(h, v) {
      var x := v.value;
      assert x != a && h[a := c][x] == h[x];
      if h[x].header.count > 1 {
        assert h[a := c][x := h[x].(header := Owned(h[x].header.count - 1))] ==
          h[x := h[x].(header := Owned(h[x].header.count - 1))][a := c];
      } else if h[x].kind == Text {
        AllocatedFree(h, x);
        assert h[a := c][x := Free] == h[x := Free][a := c];
        DropLeavesDead(h[x := Free], if h[x].slots == [] then None else h[x].slots[0], link, a, c);
      } else if !Nonleaf(h[x]) {
        assert h[a := c][x := Free] == h[x := Free][a := c];
      } else {
        var dead := h[x].(header := Dead(link), spare := 0);
        assert h[a := c][x := dead] == h[x := dead][a := c];
      }
    }
  }

  lemma DropView(s: State, v: Slot)
    requires s.active.Some? ==> At(s, s.active.value) && IsDead(s.heap[s.active.value])
    ensures View(Drop(s, v)) == DropHeap(View(s), v, First(s.recent)).heap
    ensures DropHeap(View(s), v, First(s.recent)).queued == DropHeap(s.heap, v, First(s.recent)).queued
  {
    if s.active.Some? {
      var a := s.active.value;
      DropLeavesDead(s.heap, v, First(s.recent), a, s.heap[a].(spare := s.cursor));
    }
  }

  /** Whatever an owning slot refers to is allocated. */
  ghost predicate NoStale(h: Heap, r: Ref) {
    HeapRefs(h, r) > 0 ==> r < |h| && (IsOwned(h[r]) || IsImmortal(h[r]))
  }

  /** A drop keeps each kind's shape: a Text freed by it had no view left. */
  lemma DropKinded(h: Heap, v: Slot, link: Option<Ref>, i: nat)
    requires AllKinded(h) && i < |h|
    requires forall r: Ref :: NoStale(DropHeap(h, v, link).heap, r)
    ensures Kinded(DropHeap(h, v, link).heap, DropHeap(h, v, link).heap[i])
  {
    var h' := DropHeap(h, v, link).heap;
    var c := h'[i];
    assert Kinded(h, h[i]);
    if c.Object? && c.kind == Text && c.slots != [] {
      var b := c.slots[0].value;
      HeapRefsAtLeast(h', i, b);
      assert CellRefs(c, b) >= 1;
      assert NoStale(h', b);
      assert Kinded(h, h[b]);
      assert h'[b].Object?;
    }
  }

  lemma DropOccurs(s: State, v: Slot, r: Ref)
    ensures var d := DropHeap(s.heap, v, First(s.recent));
      Occurrences(Drop(s, v), r) == Occurrences(s, r) + (if d.queued == Some(r) then 1 else 0)
  {
    hide DropHeap;
    var d := DropHeap(s.heap, v, First(s.recent));
    if d.queued.Some? { assert Drop(s, v).recent[1..] == s.recent; }
  }

  predicate DeadAt(h: Heap, r: Ref) { r < |h| && IsDead(h[r]) }

  /** A drop kills exactly the object it queues. */
  lemma {:induction false} DropKills(h: Heap, v: Slot, link: Option<Ref>, r: Ref)
    ensures var d := DropHeap(h, v, link);
      && |d.heap| == |h|
      && (DeadAt(d.heap, r) <==> DeadAt(h, r) || d.queued == Some(r))
      && (d.queued == Some(r) ==> !DeadAt(h, r))
    decreases Allocated(h)
  {
    if Drops(h, v) && h[v.value].header.count <= 1 && h[v.value].kind == Text {
      var x := v.value;
      AllocatedFree(h, x);
      DropKills(h[x := Free], if h[x].slots == [] then None else h[x].slots[0], link, r);
    }
  }

  lemma TextShape(h: Heap)
    requires AllKinded(h)
    ensures forall i :: 0 <= i < |h| && h[i].Object? && h[i].kind == Text ==> |h[i].slots| <= 1
  {
    forall i | 0 <= i < |h| && h[i].Object? && h[i].kind == Text ensures |h[i].slots| <= 1 { assert Kinded(h, h[i]); }
  }

  lemma DropOutside(s: State, v: Slot, held: multiset<Ref>, r: Ref)
    ensures Outside(Drop(s, v), held, r) == Outside(s, held, r)
    ensures Outside(s, Add(held, v), r) == Outside(s, held, r) + One(v, r)
  {
  }

  lemma DropInvAt(s: State, v: Slot, held: multiset<Ref>, r: Ref)
    requires s.active.Some? ==> At(s, s.active.value) && IsDead(s.heap[s.active.value])
    requires AllKinded(View(s)) && InvAt(s, Add(held, v), r)
    ensures InvAt(Drop(s, v), held, r)
  {
    hide AllKinded, Occurrences, Outside, DropHeap, ExactAt, View, Drop;
    TextShape(View(s));
    DropView(s, v);
    DropOutside(s, v, held, r);
    DropExact(View(s), v, First(s.recent), r, Outside(s, held, r));
    DropOccurs(s, v, r);
    DropKills(s.heap, v, First(s.recent), r);
    DropSame(s, v);
  }

  lemma DropSame(s: State, v: Slot)
    ensures Drop(s, v).heap == DropHeap(s.heap, v, First(s.recent)).heap
  {
  }

  /** A drop takes one held owner away and leaves everything else exact. */
  lemma DropInv(s: State, v: Slot, held: multiset<Ref>)
    requires Inv(s, Add(held, v))
    ensures Inv(Drop(s, v), held)
  {
    var t := Drop(s, v);
    if s.active.Some? { ActiveIsDead(s, Add(held, v)); }
    forall r: Ref ensures InvAt(t, held, r) {
      assert InvAt(s, Add(held, v), r);
      DropInvAt(s, v, held, r);
    }
    DropView(s, v);
    forall r: Ref ensures NoStale(View(t), r) {
      assert InvAt(t, held, r);
    }
    forall i | 0 <= i < |View(t)| ensures Kinded(View(t), View(t)[i]) {
      DropKinded(View(s), v, First(s.recent), i);
    }
  }

  lemma ActiveIsDead(s: State, held: multiset<Ref>)
    requires Inv(s, held) && s.active.Some?
    ensures At(s, s.active.value) && IsDead(s.heap[s.active.value])
  {
    assert InvAt(s, held, s.active.value);
  }

  lemma RecentIsDead(s: State, held: multiset<Ref>)
    requires Inv(s, held) && s.recent != []
    ensures var a := s.recent[0];
      At(s, a) && s.active != Some(a) && IsDead(s.heap[a]) && View(s)[a] == s.heap[a] &&
      Nonleaf(s.heap[a]) && s.heap[a].spare <= |s.heap[a].slots|
  {
    var a := s.recent[0];
    assert InvAt(s, held, a);
    assert Kinded(View(s), View(s)[a]);
  }

  /** Passing a slot turns the slot's owner into one still to be dropped. */
  lemma AdvanceExact(h: Heap, a: Ref, r: Ref, outside: nat)
    requires a < |h| && IsDead(h[a]) && Nonleaf(h[a]) && h[a].spare < |h[a].slots|
    requires ExactAt(h, r, outside)
    ensures ExactAt(h[a := h[a].(spare := h[a].spare + 1)], r, outside + One(h[a].slots[h[a].spare], r))
  {
    var o := h[a];
    HeapRefsUpdate(h, a, o.(spare := o.spare + 1), r);
    assert o.slots[o.spare..][1..] == o.slots[o.spare + 1..];
  }

  /** A task whose cursor has passed every slot owns nothing. */
  lemma FinishExact(h: Heap, a: Ref, r: Ref, outside: nat)
    requires a < |h| && IsDead(h[a]) && h[a].spare == |h[a].slots|
    requires ExactAt(h, r, outside)
    ensures ExactAt(h[a := Free], r, outside)
  {
    HeapRefsUpdate(h, a, Free, r);
  }

  lemma ChangeKinded(h: Heap, a: Ref, c: Cell)
    requires AllKinded(h) && a < |h| && IsDead(h[a])
    requires c.Object? ==> Kinded(h, c) && IsDead(c)
    ensures AllKinded(h[a := c])
  {
    assert Kinded(h, h[a]);
    var h' := h[a := c];
    forall i | 0 <= i < |h'| ensures Kinded(h', h'[i]) {
      assert Kinded(h, h[i]);
    }
  }

  lemma ActivateAt(s: State, held: multiset<Ref>, a: Ref, r: Ref)
    requires s.active.None? && s.batch != [] && s.batch[0] == a && At(s, a) && IsDead(s.heap[a]) && InvAt(s, held, r)
    ensures InvAt(Activate(s), held, r)
  {
    hide HeapRefs, FramesRefs, ChunksRefs;
    var t := Activate(s);
    var c := s.heap[a].(header := Dead(None));
    assert View(t) == View(s)[a := c];
    HeapRefsUpdate(View(s), a, c, r);
  }

  lemma ActivateInv(s: State, held: multiset<Ref>)
    requires Inv(s, held) && s.active.None? && s.batch != []
    ensures At(s, s.batch[0]) && IsDead(s.heap[s.batch[0]]) && Inv(Activate(s), held)
  {
    var a := s.batch[0];
    assert InvAt(s, held, a);
    assert Kinded(View(s), View(s)[a]);
    hide Books, InvAt, Outside, HeapRefs;
    var t := Activate(s);
    var c := s.heap[a].(header := Dead(None));
    assert View(t) == View(s)[a := c];
    ChangeKinded(View(s), a, c);
    SameBooks(s, t);
    forall r: Ref ensures InvAt(t, held, r) { ActivateAt(s, held, a, r); }
  }

  lemma ActiveVisitAt(s: State, held: multiset<Ref>, a: Ref, r: Ref)
    requires s.active == Some(a) && At(s, a) && IsDead(s.heap[a]) && Nonleaf(s.heap[a]) && s.cursor < |s.heap[a].slots|
    requires InvAt(s, held, r)
    ensures InvAt(s.(cursor := s.cursor + 1), Add(held, s.heap[a].slots[s.cursor]), r)
  {
    hide Outside, HeapRefs, CellRefs, CountIn, Add;
    var h, t, v := View(s), s.(cursor := s.cursor + 1), s.heap[a].slots[s.cursor];
    assert View(t) == h[a := h[a].(spare := s.cursor + 1)];
    AdvanceExact(h, a, r, Outside(s, held, r));
    OutsideAdd(s, t, held, v, r);
  }

  lemma ActiveVisitInv(s: State, held: multiset<Ref>, a: Ref)
    requires Inv(s, held) && s.active == Some(a) && At(s, a) && s.cursor < |s.heap[a].slots|
    ensures Inv(s.(cursor := s.cursor + 1), Add(held, s.heap[a].slots[s.cursor]))
  {
    ActiveIsDead(s, held);
    var h := View(s);
    assert Kinded(h, h[a]);
    hide Books, InvAt, Outside, Add, HeapRefs;
    var t := s.(cursor := s.cursor + 1);
    var c := h[a].(spare := s.cursor + 1);
    assert View(t) == h[a := c];
    ChangeKinded(h, a, c);
    SameBooks(s, t);
    forall r: Ref ensures InvAt(t, Add(held, s.heap[a].slots[s.cursor]), r) {
      ActiveVisitAt(s, held, a, r);
    }
  }

  lemma ActiveFinishAt(s: State, held: multiset<Ref>, a: Ref, r: Ref)
    requires s.active == Some(a) && At(s, a) && IsDead(s.heap[a]) && s.cursor == |s.heap[a].slots| && InvAt(s, held, r)
    ensures InvAt(ActiveUnit(s), held, r)
  {
    hide HeapRefs, CellRefs, CountIn, FramesRefs, ChunksRefs;
    assert View(ActiveUnit(s)) == View(s)[a := Free];
    FinishExact(View(s), a, r, Outside(s, held, r));
  }

  lemma ActiveFinishInv(s: State, held: multiset<Ref>, a: Ref)
    requires Inv(s, held) && s.active == Some(a) && At(s, a) && s.cursor == |s.heap[a].slots|
    ensures Inv(ActiveUnit(s), held)
  {
    ActiveIsDead(s, held);
    hide Books, InvAt, Kinded;
    var t := ActiveUnit(s);
    assert View(t) == View(s)[a := Free];
    ChangeKinded(View(s), a, Free);
    SameBooks(s, t);
    forall r: Ref ensures InvAt(t, held, r) { ActiveFinishAt(s, held, a, r); }
  }

  lemma ActiveShape(s: State, held: multiset<Ref>)
    requires Inv(s, held) && s.active.Some?
    ensures var a := s.active.value;
      At(s, a) && IsDead(s.heap[a]) && Nonleaf(s.heap[a]) && s.cursor <= |s.heap[a].slots|
  {
    ActiveIsDead(s, held);
    assert Kinded(View(s), View(s)[s.active.value]);
  }

  lemma ActiveUnitInv(s: State, held: multiset<Ref>)
    requires Inv(s, held) && s.active.Some?
    ensures At(s, s.active.value) && Inv(ActiveUnit(s), held)
  {
    hide Inv, Drop;
    var a := s.active.value;
    ActiveShape(s, held);
    if s.cursor < |s.heap[a].slots| {
      ActiveVisitInv(s, held, a);
      DropInv(s.(cursor := s.cursor + 1), s.heap[a].slots[s.cursor], held);
    } else {
      ActiveFinishInv(s, held, a);
    }
  }

  lemma OldUnitInv(s: State, held: multiset<Ref>)
    requires Inv(s, held)
    ensures Inv(OldUnit(s), held)
  {
    if s.active.Some? {
      ActiveUnitInv(s, held);
    } else if s.batch != [] {
      ActivateInv(s, held);
      ActiveUnitInv(Activate(s), held);
    }
  }

  lemma RecentVisitAt(s: State, held: multiset<Ref>, a: Ref, r: Ref)
    requires s.active.Some? ==> At(s, s.active.value)
    requires At(s, a) && IsDead(s.heap[a]) && Nonleaf(s.heap[a]) && s.active != Some(a) &&
        s.heap[a].spare < |s.heap[a].slots|
    requires InvAt(s, held, r)
    ensures var o := s.heap[a];
      InvAt(s.(heap := s.heap[a := o.(spare := o.spare + 1)]), Add(held, o.slots[o.spare]), r)
  {
    hide Outside, HeapRefs, CellRefs, CountIn, Add;
    var h, o := View(s), s.heap[a];
    var t := s.(heap := s.heap[a := o.(spare := o.spare + 1)]);
    assert View(t) == h[a := o.(spare := o.spare + 1)];
    AdvanceExact(h, a, r, Outside(s, held, r));
    OutsideAdd(s, t, held, o.slots[o.spare], r);
  }

  lemma RecentVisitInv(s: State, held: multiset<Ref>, a: Ref)
    requires Inv(s, held) && At(s, a) && IsDead(s.heap[a]) && s.active != Some(a)
    requires s.heap[a].spare < |s.heap[a].slots|
    ensures var o := s.heap[a];
      Inv(s.(heap := s.heap[a := o.(spare := o.spare + 1)]), Add(held, o.slots[o.spare]))
  {
    hide Books, Outside, HeapRefs, CellRefs, Add;
    if s.active.Some? { ActiveIsDead(s, held); }
    var h := View(s);
    var o := s.heap[a];
    assert h[a] == o && Kinded(h, h[a]);
    hide InvAt;
    var c := o.(spare := o.spare + 1);
    var t := s.(heap := s.heap[a := c]);
    assert View(t) == h[a := c];
    ChangeKinded(h, a, c);
    SameBooks(s, t);
    forall r: Ref ensures InvAt(t, Add(held, o.slots[o.spare]), r) { RecentVisitAt(s, held, a, r); }
  }

  lemma OutsideAdd(s: State, t: State, held: multiset<Ref>, v: Slot, r: Ref)
    requires t.frames == s.frames && t.retired == s.retired && t.chunks == s.chunks
    ensures Outside(t, Add(held, v), r) == Outside(s, held, r) + One(v, r)
  {
  }

  lemma RecentFinishAt(s: State, held: multiset<Ref>, a: Ref, r: Ref)
    requires s.active.Some? ==> At(s, s.active.value)
    requires s.recent != [] && s.recent[0] == a && At(s, a) && IsDead(s.heap[a]) && s.active != Some(a)
    requires s.heap[a].spare == |s.heap[a].slots| && InvAt(s, held, r)
    ensures InvAt(RecentUnit(s), held, r)
  {
    hide HeapRefs, CellRefs, FramesRefs, ChunksRefs;
    assert View(RecentUnit(s)) == View(s)[a := Free];
    FinishExact(View(s), a, r, Outside(s, held, r));
  }

  lemma RecentFinishInv(s: State, held: multiset<Ref>, a: Ref)
    requires Inv(s, held) && s.recent != [] && s.recent[0] == a && At(s, a) && IsDead(s.heap[a]) && s.active != Some(a)
    requires s.heap[a].spare == |s.heap[a].slots|
    ensures Inv(RecentUnit(s), held)
  {
    if s.active.Some? { ActiveIsDead(s, held); }
    hide Books, InvAt, Kinded;
    var t := RecentUnit(s);
    assert View(t) == View(s)[a := Free];
    ChangeKinded(View(s), a, Free);
    SameBooks(s, t);
    forall r: Ref ensures InvAt(t, held, r) { RecentFinishAt(s, held, a, r); }
  }

  lemma RecentUnitInv(s: State, held: multiset<Ref>)
    requires Inv(s, held) && s.recent != []
    ensures At(s, s.recent[0]) && Inv(RecentUnit(s), held)
  {
    hide Inv, Drop;
    var a := s.recent[0];
    RecentIsDead(s, held);
    var o := s.heap[a];
    if o.spare < |o.slots| {
      RecentVisitInv(s, held, a);
      DropInv(s.(heap := s.heap[a := o.(spare := o.spare + 1)]), o.slots[o.spare], held);
    } else {
      RecentFinishInv(s, held, a);
    }
  }

  lemma CaptureInv(s: State, held: multiset<Ref>)
    requires Inv(s, held)
    ensures Inv(Capture(s).(turn := !s.turn), held)
  {
    var u := Capture(s).(turn := !s.turn);
    assert View(u) == View(s);
    forall r: Ref ensures InvAt(u, held, r) {
      assert InvAt(s, held, r);
    }
  }

  lemma ObjectUnitInv(s: State, held: multiset<Ref>)
    requires Inv(s, held)
    ensures Inv(ObjectUnit(s), held)
  {
    hide Inv;
    var t := Capture(s);
    var u := t.(turn := !t.turn);
    CaptureInv(s, held);
    if t.turn && t.recent != [] && !UnaryParent(u) {
      RecentUnitInv(u, held);
    } else {
      OldUnitInv(u, held);
    }
  }

  lemma {:induction false} CountInLast(c: seq<Ref>, r: Ref)
    requires c != []
    ensures CountIn(c, r) == CountIn(c[..|c| - 1], r) + (if c[|c| - 1] == r then 1 else 0)
  {
    if |c| > 1 {
      CountInLast(c[1..], r);
      assert c[1..][..|c| - 2] == c[..|c| - 1][1..];
    }
  }

  lemma CountInAppend(q: seq<Ref>, x: Ref, r: Ref)
    ensures CountIn(q + [x], r) == CountIn(q, r) + (if x == r then 1 else 0)
  {
    CountInLast(q + [x], r);
    assert (q + [x])[..|q|] == q;
  }

  predicate SameObjects(s: State, t: State) {
    && t.heap == s.heap && t.active == s.active && t.cursor == s.cursor
    && t.batch == s.batch && t.recent == s.recent
  }

  /** Moving owners between frames, chunks and running code. */
  lemma Reowned(s: State, t: State, held: multiset<Ref>, held': multiset<Ref>)
    requires Inv(s, held) && SameObjects(s, t)
    requires Books(t) && t.pending == Tasks(t) && t.nextQueue < 3
    requires forall r: Ref :: Outside(t, held', r) == Outside(s, held, r)
    ensures Inv(t, held')
  {
    hide Outside, Books, HeapRefs;
    assert View(t) == View(s);
    forall r: Ref ensures InvAt(t, held', r) {
      assert InvAt(s, held, r);
    }
  }

  lemma FrameVisitOutside(s: State, t: State, held: multiset<Ref>, f: Frame, r: Ref)
    requires s.retired != [] && f == s.retired[0] && f.written != []
    requires var n := |f.written| - 1; t == s.(retired := [f.(written := f.written[..n])] + s.retired[1..])
    ensures Outside(t, Add(held, LocalValue(f, f.written[|f.written| - 1])), r) == Outside(s, held, r)
  {
    assert t.retired[1..] == s.retired[1..];
  }

  lemma FrameVisitBooks(s: State, t: State, f: Frame)
    requires Books(s) && s.retired != [] && RetiredOk(f) == RetiredOk(s.retired[0])
    requires t == s.(retired := [f] + s.retired[1..])
    ensures Books(t)
  {
  }

  lemma FrameVisitInv(s: State, held: multiset<Ref>)
    requires Inv(s, held) && s.retired != [] && s.retired[0].written != []
    ensures var f := s.retired[0]; var n := |f.written| - 1;
      Inv(s.(retired := [f.(written := f.written[..n])] + s.retired[1..]), Add(held, LocalValue(f, f.written[n])))
  {
    hide InvAt, AllKinded, Books, Outside, LocalValue, Add;
    var f := s.retired[0];
    var n := |f.written| - 1;
    var v := LocalValue(f, f.written[n]);
    var t := s.(retired := [f.(written := f.written[..n])] + s.retired[1..]);
    FrameVisitBooks(s, t, f.(written := f.written[..n]));
    forall r: Ref ensures Outside(t, Add(held, v), r) == Outside(s, held, r) { FrameVisitOutside(s, t, held, f, r); }
    Reowned(s, t, held, Add(held, v));
  }

  lemma FrameUnitInv(s: State, held: multiset<Ref>)
    requires Inv(s, held)
    ensures Inv(FrameUnit(s), held)
  {
    if s.retired != [] {
      var f := s.retired[0];
      if f.written != [] {
        hide Inv, Drop, LocalValue;
        var n := |f.written| - 1;
        FrameVisitInv(s, held);
        DropInv(s.(retired := [f.(written := f.written[..n])] + s.retired[1..]), LocalValue(f, f.written[n]), held);
      } else {
        hide InvAt, AllKinded, FrameOk;
        Reowned(s, FrameUnit(s), held, held);
      }
    }
  }

  /** A frame with nothing left to drop is kept exactly when the cache with it stays
      within the limit. */
  lemma FrameCached(s: State, held: multiset<Ref>)
    requires Inv(s, held) && s.retired != [] && s.retired[0].written == []
    ensures var t := FrameUnit(s); var kept := [s.retired[0].bytes] + s.cache;
      t.retired == s.retired[1..] && t.cache == if Sum(kept) <= FRAME_CACHE_BYTES then kept else s.cache
  {
    hide Inv, InvAt, AllKinded;
    assert Books(s) by { BooksOf(s, held); }
    assert ([s.retired[0].bytes] + s.cache)[1..] == s.cache;
  }

  lemma BooksOf(s: State, held: multiset<Ref>)
    requires Inv(s, held)
    ensures Books(s)
  {
  }

  lemma ChunkVisitInv(s: State, held: multiset<Ref>)
    requires Inv(s, held) && s.chunks != [] && s.chunks[0] != []
    ensures var c := s.chunks[0]; var n := |c| - 1;
      Inv(s.(chunks := [c[..n]] + s.chunks[1..]), Add(held, Some(c[n])))
  {
    hide InvAt, AllKinded, Books;
    var c := s.chunks[0];
    var n := |c| - 1;
    var t := s.(chunks := [c[..n]] + s.chunks[1..]);
    assert t.chunks[1..] == s.chunks[1..];
    forall r: Ref ensures Outside(t, Add(held, Some(c[n])), r) == Outside(s, held, r) { CountInLast(c, r); }
    SameBooks(s, t);
    Reowned(s, t, held, Add(held, Some(c[n])));
  }

  lemma ChunkUnitInv(s: State, held: multiset<Ref>)
    requires Inv(s, held)
    ensures Inv(ChunkUnit(s), held)
  {
    if s.chunks != [] {
      var c := s.chunks[0];
      if c != [] {
        hide Inv, Drop;
        var n := |c| - 1;
        ChunkVisitInv(s, held);
        DropInv(s.(chunks := [c[..n]] + s.chunks[1..]), Some(c[n]), held);
      } else {
        hide InvAt, AllKinded, Books;
        SameBooks(s, ChunkUnit(s));
        Reowned(s, ChunkUnit(s), held, held);
      }
    }
  }

  lemma SameBooks(s: State, t: State)
    requires t.frames == s.frames && t.retired == s.retired && t.cache == s.cache && t.cachedBytes == s.cachedBytes
    ensures Books(t) == Books(s)
  {
  }

  lemma NextQueueInv(s: State, held: multiset<Ref>, q: nat)
    requires Inv(s, held) && q < 3
    ensures Inv(s.(nextQueue := q), held)
  {
    var t := s.(nextQueue := q);
    assert View(t) == View(s);
    forall r: Ref ensures InvAt(t, held, r) {
      assert InvAt(s, held, r);
    }
  }

  /** Every unit of the scheduler keeps exact ownership. */
  lemma UnitInv(s: State, held: multiset<Ref>)
    requires Inv(s, held)
    ensures Inv(Unit(s), held)
  {
    hide Inv, ObjectUnit, FrameUnit, ChunkUnit, Ready;
    var q := Pick(s);
    var t := s.(nextQueue := (q + 1) % 3);
    NextQueueInv(s, held, (q + 1) % 3);
    if q == 0 { ObjectUnitInv(t, held); }
    else if q == 1 { FrameUnitInv(t, held); }
    else { ChunkUnitInv(t, held); }
  }

  lemma {:induction false} IterateInv(s: State, n: nat, held: multiset<Ref>)
    requires Inv(s, held)
    ensures Inv(Iterate(s, n), held)
  {
    hide Inv, Unit;
    if n > 0 {
      IterateInv(s, n - 1, held);
      if Iterate(s, n - 1).pending != 0 { UnitInv(Iterate(s, n - 1), held); }
    }
  }
}
