/** The counted heap: objects with an ownership word, reference slots and a saved
    cursor, and what dropping one owner does to it. */
module RcHeap {
  import opened Wrappers

  type Ref = nat
  type Slot = Option<Ref>

  /** The low three bits of an ownership word. `Record` may own references,
      `ScalarRecord` never does, and an `ImmortalReferences` List has only held
      immortal members so far. */
  datatype Kind = Text | ScalarList | References | Record | ScalarRecord | ImmortalReferences

  /** The rest of the ownership word: zero for literals and caches, a positive
      count while owned, and a queue link once the object is dead. */
  datatype Header = Immortal | Owned(count: nat) | Dead(link: Option<Ref>)

  /** `slots` are a List's members, a record's fields (`None` for an unflagged
      field) or a Text view's backing. `spare` is the storage a dead object
      lends to its cursor: a List's capacity, the high bits of a record's map. */
  datatype Cell = Free | Object(header: Header, kind: Kind, slots: seq<Slot>, spare: nat)

  type Heap = seq<Cell>

  predicate Nonleaf(c: Cell) {
    c.Object? && (c.kind == References || c.kind == Record) && c.slots != []
  }

  predicate Scalar(kind: Kind) {
    kind == ScalarList || kind == ScalarRecord || kind == ImmortalReferences
  }

  predicate IsOwned(c: Cell) { c.Object? && c.header.Owned? }

  predicate IsDead(c: Cell) { c.Object? && c.header.Dead? }

  predicate IsImmortal(c: Cell) { c.Object? && c.header.Immortal? }

  /* ---- owners ---- */

  function One(v: Slot, r: Ref): nat {
    if v == Some(r) then 1 else 0
  }

  /** How many of `slots` refer to `r`. */
  function Refs(slots: seq<Slot>, r: Ref): nat {
    if slots == [] then 0 else One(slots[0], r) + Refs(slots[1..], r)
  }

  /** The references to `r` a cell still owns: all of them while it lives, those
      its cursor has not passed once it is dead. */
  function CellRefs(c: Cell, r: Ref): nat {
    if c.Free? || Scalar(c.kind) then 0
    else if c.header.Dead? then (if c.spare <= |c.slots| then Refs(c.slots[c.spare..], r) else 0)
    else Refs(c.slots, r)
  }

  function HeapRefs(h: Heap, r: Ref): nat {
    if h == [] then 0 else HeapRefs(h[..|h| - 1], r) + CellRefs(h[|h| - 1], r)
  }

  lemma {:induction false} HeapRefsUpdate(h: Heap, i: nat, c: Cell, r: Ref)
    requires i < |h|
    ensures HeapRefs(h[i := c], r) + CellRefs(h[i], r) == HeapRefs(h, r) + CellRefs(c, r)
  {
    var n := |h| - 1;
    if i == n {
      assert h[i := c][..n] == h[..n];
    } else {
      HeapRefsUpdate(h[..n], i, c, r);
      assert h[i := c][..n] == h[..n][i := c];
    }
  }

  /** With `outside` owners of `r` besides the heap's own slots: a live mortal
      count equals the number of owners and is positive, and nothing dead, freed
      or never allocated has an owner. */
  ghost predicate ExactAt(h: Heap, r: Ref, outside: nat) {
    if r < |h| && IsOwned(h[r]) then h[r].header.count == HeapRefs(h, r) + outside > 0
    else (r < |h| && IsImmortal(h[r])) || HeapRefs(h, r) + outside == 0
  }

  predicate Backing(h: Heap, v: Slot) {
    v.Some? && v.value < |h| && h[v.value].Object? && h[v.value].kind == Text && h[v.value].slots == []
  }

  /** What the constructors guarantee of each kind. A Text view points straight
      at an owning Text; literals and caches are flat Texts; a List marked
      immortal-only holds nothing mortal; a live record's map has no cursor. */
  predicate Kinded(h: Heap, c: Cell) {
    c.Object? ==>
      && (c.kind == Text ==> |c.slots| <= 1)
      && (c.kind == Text && c.slots != [] ==> Backing(h, c.slots[0]))
      && (c.kind == ScalarList || c.kind == ScalarRecord ==> c.slots == [])
      && (c.kind == ImmortalReferences ==>
          forall i :: 0 <= i < |c.slots| && c.slots[i].Some? ==>
            c.slots[i].value < |h| && IsImmortal(h[c.slots[i].value]))
      && (c.header.Immortal? ==> c.kind == Text && c.slots == [])
      && (c.header.Owned? && c.kind == Record ==> c.spare == 0)
      && (c.header.Dead? ==> Nonleaf(c) && c.spare <= |c.slots|)
  }

  ghost predicate AllKinded(h: Heap) {
    forall i :: 0 <= i < |h| ==> Kinded(h, h[i])
  }

  /* ---- dropping one owner ---- */

  function Allocated(h: Heap): nat {
    if h == [] then 0 else Allocated(h[..|h| - 1]) + (if h[|h| - 1].Object? then 1 else 0)
  }

  lemma {:induction false} AllocatedFree(h: Heap, i: nat)
    requires i < |h| && h[i].Object?
    ensures Allocated(h[i := Free]) == Allocated(h) - 1
  {
    var n := |h| - 1;
    if i == n {
      assert h[i := Free][..n] == h[..n];
    } else {
      AllocatedFree(h[..n], i);
      assert h[i := Free][..n] == h[..n][i := Free];
    }
  }

  /** The heap after a drop, the object that died with work left (it must be
      queued), and how many leaves were finished on the spot. */
  datatype Dropped = Dropped(heap: Heap, queued: Option<Ref>, finished: nat)

  predicate Drops(h: Heap, v: Slot) {
    v.Some? && v.value < |h| && IsOwned(h[v.value])
  }

  /** `rc_drop`. A null, immortal or (impossible) stale reference is left alone;
      a shared object loses one count; the last owner of a leaf frees it, a Text
      view then dropping its backing; the last owner of a nonleaf marks it dead
      with its link set and cursor cleared. */
  function DropHeap(h: Heap, v: Slot, link: Option<Ref>): (d: Dropped)
    ensures |d.heap| == |h|
    ensures d.queued.Some? ==> d.queued.value < |h| && IsOwned(h[d.queued.value]) && Nonleaf(h[d.queued.value])
    ensures d.queued.Some? ==> d.heap[d.queued.value] == h[d.queued.value].(header := Dead(link), spare := 0)
    ensures forall i {:trigger d.heap[i]} {:trigger h[i]} :: 0 <= i < |h| ==>
      if d.queued == Some(i) then true
      else if !IsOwned(h[i]) then d.heap[i] == h[i]
      else d.heap[i].Free? || (IsOwned(d.heap[i]) && d.heap[i] == h[i].(header := d.heap[i].header))
    decreases Allocated(h)
  {
    if !Drops(h, v) then Dropped(h, None, 0)
    else
      var r := v.value;
      var o := h[r];
      if o.header.count > 1 then Dropped(h[r := o.(header := Owned(o.header.count - 1))], None, 0)
      else if o.kind == Text then
        AllocatedFree(h, r);
        var d := DropHeap(h[r := Free], if o.slots == [] then None else o.slots[0], link);
        d.(finished := d.finished + 1)
      else if !Nonleaf(o) then Dropped(h[r := Free], None, 1)
      else Dropped(h[r := o.(header := Dead(link), spare := 0)], Some(r), 0)
  }

  /** Dropping consumes exactly the owner it is given. */
  lemma {:induction false} DropExact(h: Heap, v: Slot, link: Option<Ref>, r: Ref, outside: nat)
    requires forall i :: 0 <= i < |h| && h[i].Object? && h[i].kind == Text ==> |h[i].slots| <= 1
    requires ExactAt(h, r, outside + One(v, r))
    ensures ExactAt(DropHeap(h, v, link).heap, r, outside)
    decreases Allocated(h)
  {
    hide HeapRefs, Allocated;
    if Drops(h, v) {
      var x := v.value;
      var o := h[x];
      if o.header.count > 1 {
        HeapRefsUpdate(h, x, o.(header := Owned(o.header.count - 1)), r);
      } else if o.kind == Text {
        HeapRefsUpdate(h, x, Free, r);
        AllocatedFree(h, x);
        var next: Slot := if o.slots == [] then None else o.slots[0];
        assert CellRefs(o, r) == One(next, r) by {
          if o.slots != [] { assert o.slots[1..] == [] && Refs(o.slots[1..], r) == 0; }
        }
        DropExact(h[x := Free], next, link, r, outside);
      } else if !Nonleaf(o) {
        HeapRefsUpdate(h, x, Free, r);
      } else {
        assert o.slots[0..] == o.slots;
        HeapRefsUpdate(h, x, o.(header := Dead(link), spare := 0), r);
      }
    }
  }
}
