/** What running code does to the counted heap and its frames, one primitive at a
    time; `held` are the references the code itself owns. */
module RcMutator {
  import opened Wrappers
  import opened RcHeap
  import opened RcMachine
  import opened RcInvariant

  predicate Live(s: State, r: Ref) { At(s, r) && !s.heap[r].header.Dead? }

  /** A value running code may use: null or a live object. */
  predicate Usable(s: State, v: Slot) { v.Some? ==> Live(s, v.value) }

  predicate Mortal(s: State, v: Slot) { v.Some? && v.value < |s.heap| && IsOwned(s.heap[v.value]) }

  /** What is held once `v` is given away. */
  function Without(held: multiset<Ref>, v: Slot): multiset<Ref> {
    if v.Some? then held - multiset{v.value} else held
  }

  lemma HeldAgain(held: multiset<Ref>, v: Slot)
    requires v.Some? ==> v.value in held
    ensures held == Add(Without(held, v), v)
  {
  }

  /* ---- changing one live cell ---- */

  /** References `c` owns to `r`, less the count it holds if it is `r` itself. */
  function Balance(c: Cell, a: Ref, r: Ref): int {
    CellRefs(c, r) - (if r == a && IsOwned(c) then c.header.count else 0)
  }

  /** The change from `c` to `c'` is paid for by `held` becoming `held'`. */
  ghost predicate Balanced(s: State, a: Ref, c': Cell, held: multiset<Ref>, held': multiset<Ref>)
    requires a < |s.heap|
  {
    forall r: Ref :: (r < |s.heap| && IsImmortal(s.heap[r])) ||
                     Balance(c', a, r) + held'[r] == Balance(s.heap[a], a, r) + held[r]
  }

  /** A live cell may become another of the same standing. */
  predicate Becomes(h: Heap, c: Cell, c': Cell) {
    && c.Object? && c'.Object? && !c'.header.Dead? && Kinded(h, c')
    && (c.header.Immortal? ==> c'.header.Immortal?) && (IsOwned(c') ==> c'.header.count > 0)
    && (c.kind == Text ==> c'.kind == Text && c'.slots == c.slots)
  }

  lemma CellInv(s: State, held: multiset<Ref>, held': multiset<Ref>, a: Ref, c': Cell)
    requires Inv(s, held) && Live(s, a) && Becomes(s.heap, s.heap[a], c') && Balanced(s, a, c', held, held')
    ensures Inv(s.(heap := s.heap[a := c']), held')
  {
    var t := s.(heap := s.heap[a := c']);
    if s.active.Some? { ActiveIsDead(s, held); }
    assert View(t) == View(s)[a := c'];
    CellExact(s, t, held, held', a, c');
    CellKinded(View(s), a, c');
  }

  lemma CellExact(s: State, t: State, held: multiset<Ref>, held': multiset<Ref>, a: Ref, c': Cell)
    requires Inv(s, held) && Live(s, a) && Becomes(s.heap, s.heap[a], c') && t == s.(heap := s.heap[a := c'])
    requires View(t) == View(s)[a := c'] && View(s)[a] == s.heap[a] && Balanced(s, a, c', held, held')
    ensures forall r: Ref :: InvAt(t, held', r)
  {
    hide Kinded, Books, HeapRefs, CellRefs, FramesRefs, ChunksRefs;
    forall r: Ref ensures InvAt(t, held', r) {
      assert InvAt(s, held, r);
      HeapRefsUpdate(View(s), a, c', r);
    }
  }

  lemma CellKinded(h: Heap, a: Ref, c': Cell)
    requires AllKinded(h) && a < |h| && h[a].Object? && c'.Object? && Kinded(h, c')
    requires h[a].header.Immortal? ==> c'.header.Immortal?
    requires h[a].kind == Text ==> c'.kind == Text && c'.slots == h[a].slots
    ensures AllKinded(h[a := c'])
  {
    var h' := h[a := c'];
    forall i | 0 <= i < |h'| ensures Kinded(h', h'[i]) {
      assert Kinded(h, h[i]);
    }
  }

  lemma KindedHere(s: State, held: multiset<Ref>, a: Ref)
    requires Inv(s, held) && Live(s, a)
    ensures Kinded(s.heap, s.heap[a])
  {
    if s.active.Some? { ActiveIsDead(s, held); }
    assert View(s)[a] == s.heap[a];
    assert Kinded(View(s), View(s)[a]);
  }

  lemma CountedHere(s: State, held: multiset<Ref>, a: Ref)
    requires Inv(s, held)
    ensures a < |s.heap| && IsOwned(s.heap[a]) ==> s.heap[a].header.count > 0
  {
    if a < |s.heap| && IsOwned(s.heap[a]) { assert InvAt(s, held, a); }
  }

  /** `minyar_rc_retain`. */
  function Retain(s: State, v: Slot): State {
    if Mortal(s, v) then
      var o := s.heap[v.value];
      s.(heap := s.heap[v.value := o.(header := Owned(o.header.count + 1))])
    else s
  }

  lemma RetainInv(s: State, held: multiset<Ref>, v: Slot)
    requires Inv(s, held) && Usable(s, v)
    ensures Inv(Retain(s, v), Add(held, v)) && Usable(Retain(s, v), v)
  {
    if v.Some? {
      var r := v.value;
      var o := s.heap[r];
      hide Inv;
      KindedHere(s, held, r);
      CountedHere(s, held, r);
      if o.header.Owned? {
        CellInv(s, held, Add(held, v), r, o.(header := Owned(o.header.count + 1)));
      } else {
        CellInv(s, held, Add(held, v), r, o);
        assert s.heap[r := o] == s.heap;
      }
    }
  }

  /* ---- slots ---- */

  lemma {:induction false} RefsUpdate(slots: seq<Slot>, i: nat, v: Slot, r: Ref)
    requires i < |slots|
    ensures Refs(slots[i := v], r) + One(slots[i], r) == Refs(slots, r) + One(v, r)
  {
    if i > 0 {
      RefsUpdate(slots[1..], i - 1, v, r);
      assert slots[i := v][1..] == slots[1..][i - 1 := v];
    } else {
      assert slots[i := v][1..] == slots[1..];
    }
  }

  lemma {:induction false} RefsAppend(slots: seq<Slot>, v: Slot, r: Ref)
    ensures Refs(slots + [v], r) == Refs(slots, r) + One(v, r)
  {
    if slots == [] {
      assert (slots + [v])[1..] == [];
      assert Refs((slots + [v])[1..], r) == 0;
    } else {
      RefsAppend(slots[1..], v, r);
      assert (slots + [v])[1..] == slots[1..] + [v];
    }
  }

  /** An aggregate whose slots carry counts. */
  predicate Owning(s: State, a: Ref) {
    Live(s, a) && (s.heap[a].kind == References || s.heap[a].kind == Record)
  }

  function SetSlot(s: State, a: Ref, i: nat, v: Slot): State
    requires At(s, a) && i < |s.heap[a].slots|
  {
    s.(heap := s.heap[a := s.heap[a].(slots := s.heap[a].slots[i := v])])
  }

  /** Exchanging a slot's value exchanges what running code owns. */
  lemma SetSlotInv(s: State, held: multiset<Ref>, a: Ref, i: nat, v: Slot)
    requires Inv(s, Add(held, v)) && Owning(s, a) && i < |s.heap[a].slots|
    ensures Inv(SetSlot(s, a, i, v), Add(held, s.heap[a].slots[i]))
  {
    var o := s.heap[a];
    var c' := o.(slots := o.slots[i := v]);
    hide Inv;
    KindedHere(s, Add(held, v), a);
    CountedHere(s, Add(held, v), a);
    forall r: Ref ensures Balance(c', a, r) + Add(held, o.slots[i])[r] == Balance(o, a, r) + Add(held, v)[r] {
      RefsUpdate(o.slots, i, v, r);
    }
    CellInv(s, Add(held, v), Add(held, o.slots[i]), a, c');
  }

  /** Nothing counts references to an immortal. */
  lemma ForgetImmortal(s: State, held: multiset<Ref>, v: Slot)
    requires Inv(s, held) && !Mortal(s, v) && (v.Some? ==> v.value in held)
    ensures Inv(s, Without(held, v))
  {
    if v.Some? {
      assert InvAt(s, held, v.value);
      forall r: Ref ensures InvAt(s, Without(held, v), r) { assert InvAt(s, held, r); }
    }
  }

  /** Overwriting a record's field without releasing what it held keeps ownership exact
      exactly when the field held nothing counted. */
  lemma SetFieldExact(s: State, held: multiset<Ref>, a: Ref, i: nat, v: Slot)
    requires Inv(s, Add(held, v)) && Owning(s, a) && i < |s.heap[a].slots|
    ensures Inv(SetSlot(s, a, i, v), held) <==> !Mortal(s, s.heap[a].slots[i])
  {
    var was, t := s.heap[a].slots[i], SetSlot(s, a, i, v);
    SetSlotInv(s, held, a, i, v);
    if Mortal(s, was) {
      assert InvAt(t, Add(held, was), was.value);
      assert !InvAt(t, held, was.value);
    } else {
      ForgetImmortal(t, Add(held, was), was);
      assert Without(Add(held, was), was) == held;
    }
  }

  function AppendSlot(s: State, a: Ref, v: Slot): State
    requires At(s, a)
  {
    s.(heap := s.heap[a := s.heap[a].(slots := s.heap[a].slots + [v])])
  }

  lemma AppendSlotInv(s: State, held: multiset<Ref>, a: Ref, v: Slot)
    requires Inv(s, Add(held, v)) && Owning(s, a)
    ensures Inv(AppendSlot(s, a, v), held)
  {
    var o := s.heap[a];
    var c' := o.(slots := o.slots + [v]);
    hide Inv;
    KindedHere(s, Add(held, v), a);
    CountedHere(s, Add(held, v), a);
    forall r: Ref ensures Balance(c', a, r) + held[r] == Balance(o, a, r) + Add(held, v)[r] {
      RefsAppend(o.slots, v, r);
    }
    CellInv(s, Add(held, v), held, a, c');
  }

  /** A List marked immortal-only takes an immortal or null member uncounted. */
  lemma AppendImmortalInv(s: State, held: multiset<Ref>, a: Ref, v: Slot)
    requires Inv(s, held) && Live(s, a) && s.heap[a].kind == ImmortalReferences && Usable(s, v) && !Mortal(s, v)
    ensures Inv(AppendSlot(s, a, v), held)
  {
    var o := s.heap[a];
    hide Inv;
    KindedHere(s, held, a);
    CountedHere(s, held, a);
    CellInv(s, held, held, a, o.(slots := o.slots + [v]));
  }

  lemma SetImmortalInv(s: State, held: multiset<Ref>, a: Ref, i: nat, v: Slot)
    requires Inv(s, held) && Live(s, a) && s.heap[a].kind == ImmortalReferences && Usable(s, v) && !Mortal(s, v)
    requires i < |s.heap[a].slots|
    ensures Inv(SetSlot(s, a, i, v), held)
  {
    var o := s.heap[a];
    hide Inv;
    KindedHere(s, held, a);
    CountedHere(s, held, a);
    CellInv(s, held, held, a, o.(slots := o.slots[i := v]));
  }

  /** Immortal members carry no counts, so counting them changes nothing. */
  lemma {:induction false} ImmortalSlots(h: Heap, slots: seq<Slot>, r: Ref)
    requires forall i :: 0 <= i < |slots| && slots[i].Some? ==> slots[i].value < |h| && IsImmortal(h[slots[i].value])
    requires Refs(slots, r) > 0
    ensures r < |h| && IsImmortal(h[r])
  {
    if slots[0] != Some(r) { ImmortalSlots(h, slots[1..], r); }
  }

  /** `list_store_kind`: the first mortal member promotes the List for good. */
  function Promote(s: State, a: Ref, v: Slot): State
    requires At(s, a)
  {
    if s.heap[a].kind == ImmortalReferences && Mortal(s, v) then
      s.(heap := s.heap[a := s.heap[a].(kind := References)])
    else s
  }

  lemma PromoteInv(s: State, held: multiset<Ref>, a: Ref, v: Slot)
    requires Inv(s, held) && Live(s, a)
    ensures Inv(Promote(s, a, v), held)
  {
    var o := s.heap[a];
    if o.kind == ImmortalReferences && Mortal(s, v) {
      KindedHere(s, held, a);
      assert IsOwned(o) ==> o.header.count > 0 by { assert InvAt(s, held, a); }
      hide Inv;
      var c' := o.(kind := References);
      forall r: Ref ensures (r < |s.heap| && IsImmortal(s.heap[r])) || Balance(c', a, r) == Balance(o, a, r) {
        if Refs(o.slots, r) > 0 { ImmortalSlots(s.heap, o.slots, r); }
      }
      CellInv(s, held, held, a, c');
    }
  }

  /** `minyar_list_references` on a List that is still empty. */
  function MarkReferences(s: State, a: Ref): State
    requires At(s, a)
  {
    s.(heap := s.heap[a := s.heap[a].(kind := ImmortalReferences)])
  }

  lemma MarkReferencesInv(s: State, held: multiset<Ref>, a: Ref)
    requires Inv(s, held) && Live(s, a) && s.heap[a].kind == ScalarList
    ensures Inv(MarkReferences(s, a), held)
  {
    var o := s.heap[a];
    hide Inv;
    KindedHere(s, held, a);
    CountedHere(s, held, a);
    CellInv(s, held, held, a, o.(kind := ImmortalReferences));
  }

  /** A Text nobody else refers to yet is put in a cache and never counted again. */
  function MakeImmortal(s: State, a: Ref): State
    requires At(s, a)
  {
    s.(heap := s.heap[a := s.heap[a].(header := Immortal)])
  }

  predicate FreshText(s: State, a: Ref) {
    At(s, a) && s.heap[a].header == Owned(1) && s.heap[a].kind == Text && s.heap[a].slots == []
  }

  lemma MakeImmortalInv(s: State, held: multiset<Ref>, a: Ref)
    requires Inv(s, Add(held, Some(a))) && FreshText(s, a)
    ensures Inv(MakeImmortal(s, a), held)
  {
    hide Inv;
    KindedHere(s, Add(held, Some(a)), a);
    CellInv(s, Add(held, Some(a)), held, a, s.heap[a].(header := Immortal));
  }

  /* ---- allocation ---- */

  /** Put an object in a free cell, or in a new one at the end. */
  function Allocate(s: State, r: Ref, c: Cell): State
    requires r <= |s.heap|
  {
    s.(heap := if r == |s.heap| then s.heap + [c] else s.heap[r := c])
  }

  /** A constructor's result: no reference fields set yet, or a Text view that
      takes over one reference to its flattened backing. */
  predicate Fresh(h: Heap, c: Cell, backing: Slot) {
    && c.Object? && c.header == Owned(1) && c.spare == 0
    && if backing.Some? then c.kind == Text && c.slots == [backing] && Backing(h, backing)
       else (forall i :: 0 <= i < |c.slots| ==> c.slots[i].None?) && (c.kind != Record ==> c.slots == [])
  }

  lemma {:induction false} NullSlots(slots: seq<Slot>, r: Ref)
    requires forall i :: 0 <= i < |slots| ==> slots[i].None?
    ensures Refs(slots, r) == 0
  {
    if slots != [] { NullSlots(slots[1..], r); }
  }

  lemma FreshRefs(h: Heap, c: Cell, backing: Slot, r: Ref)
    requires Fresh(h, c, backing)
    ensures CellRefs(c, r) == One(backing, r)
  {
    if backing.None? { NullSlots(c.slots, r); } else { assert c.slots[1..] == [] && Refs(c.slots[1..], r) == 0; }
  }

  lemma AllocateRefs(h: Heap, r: Ref, c: Cell, x: Ref)
    requires r <= |h| && (r < |h| ==> h[r].Free?)
    ensures HeapRefs(if r == |h| then h + [c] else h[r := c], x) == HeapRefs(h, x) + CellRefs(c, x)
  {
    if r == |h| { assert (h + [c])[..|h|] == h; } else { HeapRefsUpdate(h, r, c, x); }
  }

  lemma AllocateKinded(h: Heap, r: Ref, c: Cell, backing: Slot)
    requires AllKinded(h) && r <= |h| && (r < |h| ==> h[r].Free?) && Fresh(h, c, backing)
    ensures AllKinded(if r == |h| then h + [c] else h[r := c])
  {
    var h' := if r == |h| then h + [c] else h[r := c];
    forall i | 0 <= i < |h'| ensures Kinded(h', h'[i]) {
      if i < |h| { assert Kinded(h, h[i]); }
    }
  }

  lemma AllocateExact(h: Heap, r: Ref, c: Cell, backing: Slot, x: Ref, outside: nat)
    requires ExactAt(h, x, outside + One(backing, x)) && Fresh(h, c, backing)
    requires r == |h| || (r < |h| && h[r].Free?)
    ensures ExactAt(if r == |h| then h + [c] else h[r := c], x, outside + One(Some(r), x))
  {
    hide CellRefs, Backing;
    FreshRefs(h, c, backing, x);
    AllocateRefs(h, r, c, x);
    hide HeapRefs;
  }

  lemma AllocateView(s: State, r: Ref, c: Cell)
    requires (s.active.Some? ==> At(s, s.active.value)) && r <= |s.heap| && (r < |s.heap| ==> s.heap[r].Free?)
    ensures View(Allocate(s, r, c)) == if r == |s.heap| then View(s) + [c] else View(s)[r := c]
    ensures |View(s)| == |s.heap| && (r < |s.heap| ==> View(s)[r].Free?)
  {
  }

  lemma AllocateInvAt(s: State, held: multiset<Ref>, r: Ref, c: Cell, backing: Slot, x: Ref)
    requires InvAt(s, Add(held, backing), x) && Fresh(View(s), c, backing)
    requires s.active.Some? ==> At(s, s.active.value)
    requires r == |s.heap| || (r < |s.heap| && s.heap[r].Free?)
    ensures InvAt(Allocate(s, r, c), Add(held, Some(r)), x)
  {
    hide HeapRefs, FramesRefs, ChunksRefs, View, Fresh;
    AllocateView(s, r, c);
    AllocateExact(View(s), r, c, backing, x, Outside(s, held, x));
    assert c.header == Owned(1) by { FreshHeader(View(s), c, backing); }
  }

  lemma FreshHeader(h: Heap, c: Cell, backing: Slot)
    requires Fresh(h, c, backing)
    ensures c.Object? && c.header == Owned(1)
  {
  }

  /** Allocation hands one reference to the new object to running code. */
  lemma AllocateInv(s: State, held: multiset<Ref>, r: Ref, c: Cell, backing: Slot)
    requires Inv(s, Add(held, backing)) && Fresh(s.heap, c, backing)
    requires r == |s.heap| || (r < |s.heap| && s.heap[r].Free?)
    ensures Inv(Allocate(s, r, c), Add(held, Some(r)))
  {
    hide HeapRefs, InvAt, Kinded;
    if s.active.Some? { ActiveIsDead(s, Add(held, backing)); }
    AllocateView(s, r, c);
    assert Fresh(View(s), c, backing);
    AllocateKinded(View(s), r, c, backing);
    hide View, Fresh;
    forall x: Ref ensures InvAt(Allocate(s, r, c), Add(held, Some(r)), x) {
      AllocateInvAt(s, held, r, c, backing, x);
    }
  }

  /* ---- frames ---- */

  /** The top of the frame stack is `frames[0]`. */
  function Push(s: State, f: Frame): State { s.(frames := [f] + s.frames) }

  /** Reuse the newest cached frame, if any. */
  function Uncache(s: State): State {
    if s.cache == [] then s else s.(cache := s.cache[1..], cachedBytes := s.cachedBytes - s.cache[0])
  }

  lemma UncacheInv(s: State, held: multiset<Ref>)
    requires Inv(s, held)
    ensures Inv(Uncache(s), held)
  {
    hide InvAt, AllKinded, FrameOk;
    Reowned(s, Uncache(s), held, held);
  }

  function NewFrame(n: nat, onStack: bool, bytes: nat): Frame {
    Frame(seq(n, _ => Local(None, false)), [], [], 0, onStack, bytes)
  }

  lemma PushInv(s: State, held: multiset<Ref>, n: nat, onStack: bool, bytes: nat)
    requires Inv(s, held) && (onStack ==> 0 < n <= 8)
    ensures Inv(Push(s, NewFrame(n, onStack, bytes)), held)
  {
    var f := NewFrame(n, onStack, bytes);
    var t := Push(s, f);
    hide InvAt, AllKinded;
    assert FrameOk(f);
    assert t.frames[1..] == s.frames;
    Reowned(s, t, held, held);
  }

  /** `rc_bounded_retire_temporaries`: the top frame's chunks join the queue, and
      the pending count grows by the ceiling of an eighth of the kept values. */
  function RetireTemporaries(s: State): State
    requires s.frames != []
  {
    var f := s.frames[0];
    if f.chunks == [] then s
    else s.(chunks := s.chunks + f.chunks,
            pending := s.pending + f.kept / CHUNK_SLOTS + (if f.kept % CHUNK_SLOTS != 0 then 1 else 0),
            frames := [f.(chunks := [], kept := 0)] + s.frames[1..])
  }

  /** The ceiling is exact because only the last chunk may be partial. */
  lemma {:induction false} ChunkCount(chunks: seq<seq<Ref>>, kept: nat)
    requires ChunksOk(chunks, kept)
    ensures |chunks| == kept / CHUNK_SLOTS + (if kept % CHUNK_SLOTS != 0 then 1 else 0)
  {
    if |chunks| > 1 { ChunkCount(chunks[1..], kept - CHUNK_SLOTS); }
  }

  lemma {:induction false} ChunksRefsConcat(a: seq<seq<Ref>>, b: seq<seq<Ref>>, r: Ref)
    ensures ChunksRefs(a + b, r) == ChunksRefs(a, r) + ChunksRefs(b, r)
  {
    if a == [] {
      assert a + b == b;
    } else {
      ChunksRefsConcat(a[1..], b, r);
      assert (a + b)[1..] == a[1..] + b;
    }
  }

  lemma RetireTemporariesInv(s: State, held: multiset<Ref>)
    requires Inv(s, held) && s.frames != []
    ensures Inv(RetireTemporaries(s), held) && RetireTemporaries(s).frames[0].chunks == []
  {
    var f := s.frames[0];
    var t := RetireTemporaries(s);
    hide InvAt, AllKinded;
    assert FrameOk(f);
    if f.chunks != [] {
      ChunkCount(f.chunks, f.kept);
      assert t.frames[1..] == s.frames[1..];
      assert FrameOk(t.frames[0]) by {
        forall i | 0 <= i < |f.locals| ensures LocalOk(t.frames[0], i) { assert LocalOk(f, i); }
      }
      forall r: Ref ensures Outside(t, held, r) == Outside(s, held, r) { ChunksRefsConcat(s.chunks, f.chunks, r); }
      hide FrameOk, Outside;
      Reowned(s, t, held, held);
    }
  }

  /** The detaching half of `minyar_rc_leave`. */
  function Detach(s: State): State
    requires s.frames != []
  {
    var t := RetireTemporaries(s);
    t.(frames := t.frames[1..], retired := t.retired + [t.frames[0]], pending := t.pending + 1)
  }

  lemma {:induction false} FramesRefsAppend(fs: seq<Frame>, f: Frame, r: Ref)
    ensures FramesRefs(fs + [f], r) == FramesRefs(fs, r) + FrameRefs(f, r)
  {
    if fs == [] {
      assert (fs + [f])[1..] == [];
      assert FramesRefs((fs + [f])[1..], r) == 0;
    } else {
      FramesRefsAppend(fs[1..], f, r);
      assert (fs + [f])[1..] == fs[1..] + [f];
    }
  }

  lemma DetachInv(s: State, held: multiset<Ref>)
    requires Inv(s, held) && s.frames != [] && !s.frames[0].onStack
    ensures Inv(Detach(s), held)
  {
    RetireTemporariesInv(s, held);
    var u := RetireTemporaries(s);
    var t := Detach(s);
    hide InvAt, AllKinded, FrameOk, RetireTemporaries;
    assert u.frames[0].onStack == s.frames[0].onStack by { RetiredTop(s); }
    forall r: Ref ensures Outside(t, held, r) == Outside(u, held, r) { FramesRefsAppend(u.retired, u.frames[0], r); }
    Reowned(u, t, held, held);
  }

  lemma RetiredTop(s: State)
    requires s.frames != []
    ensures var f := RetireTemporaries(s).frames[0];
      f.onStack == s.frames[0].onStack && f.locals == s.frames[0].locals && f.written == s.frames[0].written
  {
  }

  /** `minyar_rc_keep` of a mortal value: the newest chunk takes it, or a new one. */
  function KeepIn(chunks: seq<seq<Ref>>, v: Ref): seq<seq<Ref>> {
    var n := |chunks| - 1;
    if chunks == [] || |chunks[n]| == CHUNK_SLOTS then chunks + [[v]] else chunks[n := chunks[n] + [v]]
  }

  function Keep(s: State, v: Ref): State
    requires s.frames != []
  {
    var f := s.frames[0];
    s.(frames := [f.(chunks := KeepIn(f.chunks, v), kept := f.kept + 1)] + s.frames[1..])
  }

  lemma {:induction false} KeepInOk(chunks: seq<seq<Ref>>, kept: nat, v: Ref)
    requires ChunksOk(chunks, kept)
    ensures ChunksOk(KeepIn(chunks, v), kept + 1) && KeepIn(chunks, v) != []
  {
    if |chunks| > 1 {
      KeepInOk(chunks[1..], kept - CHUNK_SLOTS, v);
      assert KeepIn(chunks, v)[1..] == KeepIn(chunks[1..], v);
    } else if |chunks| == 1 && |chunks[0]| == CHUNK_SLOTS {
      assert KeepIn(chunks, v)[1..] == [[v]];
    }
  }

  lemma {:induction false} KeepInRefs(chunks: seq<seq<Ref>>, v: Ref, r: Ref)
    ensures ChunksRefs(KeepIn(chunks, v), r) == ChunksRefs(chunks, r) + One(Some(v), r)
  {
    if |chunks| > 1 {
      KeepInRefs(chunks[1..], v, r);
      assert KeepIn(chunks, v)[1..] == KeepIn(chunks[1..], v);
    } else if |chunks| == 1 && |chunks[0]| != CHUNK_SLOTS {
      CountInLast(chunks[0] + [v], r);
      assert (chunks[0] + [v])[..|chunks[0]|] == chunks[0];
    } else {
      ChunksRefsConcat(chunks, [[v]], r);
      assert CountIn([v], r) == One(Some(v), r);
    }
  }

  /** The kept values, oldest first. */
  function Flat(chunks: seq<seq<Ref>>): seq<Ref> {
    if chunks == [] then [] else Flat(chunks[..|chunks| - 1]) + chunks[|chunks| - 1]
  }

  /** The kept values stay in the order they were kept. */
  lemma KeepOrder(chunks: seq<seq<Ref>>, v: Ref)
    ensures Flat(KeepIn(chunks, v)) == Flat(chunks) + [v]
  {
    var n := |chunks| - 1;
    if chunks == [] || |chunks[n]| == CHUNK_SLOTS {
      assert (chunks + [[v]])[..|chunks|] == chunks;
    } else {
      assert chunks[n := chunks[n] + [v]][..n] == chunks[..n];
    }
  }

  lemma KeepInv(s: State, held: multiset<Ref>, v: Ref)
    requires Inv(s, Add(held, Some(v))) && s.frames != []
    ensures Inv(Keep(s, v), held)
  {
    var f := s.frames[0];
    var t := Keep(s, v);
    hide InvAt, AllKinded;
    assert FrameOk(f);
    KeepInOk(f.chunks, f.kept, v);
    assert FrameOk(t.frames[0]) by {
      forall i | 0 <= i < |f.locals| ensures LocalOk(t.frames[0], i) { assert LocalOk(f, i); }
    }
    assert t.frames[1..] == s.frames[1..];
    forall r: Ref ensures Outside(t, held, r) == Outside(s, Add(held, Some(v)), r) { KeepInRefs(f.chunks, v, r); }
    hide FrameOk, Outside;
    Reowned(s, t, Add(held, Some(v)), held);
  }

  /* ---- locals ---- */

  /** The storing half of `minyar_rc_local_take`: the first non-null store enters
      the slot in the written index; a null into an unwritten slot does nothing. */
  function StoreIn(f: Frame, i: nat, v: Slot): Frame
    requires i < |f.locals|
  {
    var was := f.locals[i];
    f.(written := if !was.tagged && v.Some? then f.written + [i] else f.written,
       locals := if v.Some? || was.tagged then f.locals[i := Local(v, true)] else f.locals)
  }

  /** `minyar_rc_local_move`: the value leaves, the tag stays. */
  function MoveFrom(f: Frame, i: nat): Frame
    requires i < |f.locals|
  {
    f.(locals := f.locals[i := Local(None, f.locals[i].tagged)])
  }

  function SetTop(s: State, f: Frame): State
    requires s.frames != []
  {
    s.(frames := [f] + s.frames[1..])
  }

  lemma {:induction false} LocalRefsUpdate(locals: seq<Local>, written: seq<nat>, i: nat, l: Local, r: Ref)
    requires i < |locals| && CountIn(written, i) <= 1
    ensures CountIn(written, i) == 0 ==> LocalRefs(locals[i := l], written, r) == LocalRefs(locals, written, r)
    ensures CountIn(written, i) == 1 ==>
      LocalRefs(locals[i := l], written, r) + One(locals[i].value, r) == LocalRefs(locals, written, r) + One(l.value, r)
  {
    if written != [] {
      CountInLast(written, i);
      LocalRefsUpdate(locals, written[..|written| - 1], i, l, r);
    }
  }

  lemma StoreInOk(f: Frame, i: nat, v: Slot)
    requires FrameOk(f) && i < |f.locals|
    ensures FrameOk(StoreIn(f, i, v))
  {
    var g := StoreIn(f, i, v);
    forall j | 0 <= j < |g.locals| ensures LocalOk(g, j) {
      assert LocalOk(f, j);
      CountInAppend(f.written, i, j);
    }
  }

  lemma StoreInRefs(f: Frame, i: nat, v: Slot, r: Ref)
    requires FrameOk(f) && i < |f.locals|
    ensures FrameRefs(StoreIn(f, i, v), r) + One(f.locals[i].value, r) == FrameRefs(f, r) + One(v, r)
  {
    assert LocalOk(f, i);
    LocalRefsUpdate(f.locals, f.written, i, Local(v, true), r);
    assert (f.written + [i])[..|f.written|] == f.written;
  }

  lemma StoreInv(s: State, held: multiset<Ref>, i: nat, v: Slot)
    requires Inv(s, Add(held, v)) && s.frames != [] && i < |s.frames[0].locals|
    ensures Inv(SetTop(s, StoreIn(s.frames[0], i, v)), Add(held, s.frames[0].locals[i].value))
  {
    var f := s.frames[0];
    assert FrameOk(f);
    StoreInOk(f, i, v);
    forall r: Ref ensures FrameRefs(StoreIn(f, i, v), r) + One(f.locals[i].value, r) == FrameRefs(f, r) + One(v, r) {
      StoreInRefs(f, i, v, r);
    }
    TopInv(s, Add(held, v), StoreIn(f, i, v), Add(held, f.locals[i].value));
  }

  lemma MoveInv(s: State, held: multiset<Ref>, i: nat)
    requires Inv(s, held) && s.frames != [] && i < |s.frames[0].locals|
    ensures Inv(SetTop(s, MoveFrom(s.frames[0], i)), Add(held, s.frames[0].locals[i].value))
  {
    var f := s.frames[0];
    var g := MoveFrom(f, i);
    assert FrameOk(f);
    assert LocalOk(f, i);
    assert FrameOk(g) by {
      forall j | 0 <= j < |g.locals| ensures LocalOk(g, j) { assert LocalOk(f, j); }
    }
    forall r: Ref ensures FrameRefs(g, r) + One(f.locals[i].value, r) == FrameRefs(f, r) {
      LocalRefsUpdate(f.locals, f.written, i, Local(None, f.locals[i].tagged), r);
    }
    TopInv(s, held, g, Add(held, f.locals[i].value));
  }

  /** Changing the top frame, paid for by what running code holds. */
  lemma TopInv(s: State, held: multiset<Ref>, g: Frame, held': multiset<Ref>)
    requires Inv(s, held) && s.frames != [] && FrameOk(g)
    requires forall r: Ref :: FrameRefs(g, r) + held'[r] == FrameRefs(s.frames[0], r) + held[r]
    ensures Inv(SetTop(s, g), held')
  {
    hide InvAt, AllKinded, FrameOk, FrameRefs;
    var t := SetTop(s, g);
    assert t.frames[1..] == s.frames[1..];
    Reowned(s, t, held, held');
  }

  /* ---- leaving a frame that lives on the native stack ---- */

  /** The owners a frame's written locals account for. */
  function WrittenOwners(locals: seq<Local>, written: seq<nat>): multiset<Ref> {
    if written == [] then multiset{}
    else
      var n := |written| - 1;
      Add(WrittenOwners(locals, written[..n]), if written[n] < |locals| then locals[written[n]].value else None)
  }

  lemma {:induction false} WrittenOwnersCount(locals: seq<Local>, written: seq<nat>, r: Ref)
    ensures WrittenOwners(locals, written)[r] == LocalRefs(locals, written, r)
  {
    if written != [] { WrittenOwnersCount(locals, written[..|written| - 1], r); }
  }

  /** Unlinking the top frame leaves its written locals in the leaver's hands. */
  lemma UnlinkInv(s: State, held: multiset<Ref>)
    requires Inv(s, held) && s.frames != [] && s.frames[0].chunks == []
    ensures Inv(s.(frames := s.frames[1..]), held + WrittenOwners(s.frames[0].locals, s.frames[0].written))
  {
    hide InvAt, AllKinded, FrameOk;
    var f := s.frames[0];
    var t := s.(frames := s.frames[1..]);
    var held' := held + WrittenOwners(f.locals, f.written);
    forall r: Ref ensures Outside(t, held', r) == Outside(s, held, r) { WrittenOwnersCount(f.locals, f.written, r); }
    hide Outside;
    Reowned(s, t, held, held');
  }
}
