/** The buddy allocator over its state map, free lists and memory. Sizes are in
    bytes, offsets and memory in 32-byte units. */
module Pool {
  import opened Wrappers
  import opened PoolMap
  import opened PoolLists
  import C = PoolComplete
  import H = PoolHold

  const UNIT: nat := 32

  /** The least order whose block holds `size` bytes. */
  function OrderFor(size: nat): nat { if size <= UNIT then 0 else 1 + OrderFor((size + 1) / 2) }

  lemma {:induction false} OrderForIs(size: nat, o: nat)
    requires size <= UNIT * Pow2(o) && (o > 0 ==> UNIT * Pow2(o - 1) < size)
    ensures OrderFor(size) == o
  {
    if o > 0 {
      if o == 1 { assert Pow2(0) == 1; } else { assert Pow2(o - 1) == 2 * Pow2(o - 2); }
      OrderForIs((size + 1) / 2, o - 1);
    }
  }

  /** The allocated entries away from `u` are the same in both maps. */
  ghost predicate SameOthers(m: seq<nat>, m': seq<nat>, u: nat) {
    && |m| == |m'|
    && forall w :: 0 <= w < |m| && w != u && (IsAllocated(m[w]) || IsAllocated(m'[w])) ==> m[w] == m'[w]
  }

  /** Both memories hold the same in the units of `p`. */
  ghost predicate Agree(memory: seq<Word>, memory': seq<Word>, p: set<nat>) {
    forall v :: v in p ==> v < |memory| && v < |memory'| && memory'[v] == memory[v]
  }

  /** A block resized where it is: it shrinks, or its free upper buddies let it grow. */
  ghost predicate Stays(m: seq<nat>, u: nat, wanted: nat)
    requires u < |m| && IsAllocated(m[u])
  {
    wanted <= Order(m[u]) || (Aligned(u, wanted) && Absorbable(m, u, Order(m[u]), wanted))
  }

  /** Its free buddies on either side let it grow. */
  ghost predicate Merges(m: seq<nat>, u: nat, wanted: nat)
    requires u < |m| && IsAllocated(m[u])
  {
    wanted > Order(m[u]) && Absorbable(m, u, Order(m[u]), wanted)
  }

  /** The free block at `u` is the smallest, or one of them, that holds order `o`. */
  ghost predicate SmallestFit(m: seq<nat>, u: nat, o: nat) {
    && u < |m| && IsFree(m[u]) && o <= Order(m[u])
    && forall w :: 0 <= w < |m| && IsFree(m[w]) && o <= Order(m[w]) ==> Order(m[u]) <= Order(m[w])
  }

  /** Only the block of order `k` at `u` has changed, and from order `o` on its upper halves
      are free. */
  ghost predicate Carved(m: seq<nat>, m': seq<nat>, u: nat, o: nat, k: nat) {
    && |m'| == |m|
    && (forall w :: 0 <= w < |m| && !(u <= w < u + Pow2(k)) ==> m'[w] == m[w])
    && (forall j :: o <= j < k ==> HasBlock(m', u + Pow2(j), FreeEntry(j)))
  }

  class Pool {
    const top: nat
    const state: array<nat>
    const memory: array<Word>
    const heads: array<Option<nat>>
    var mask: set<nat>
    var used: nat
    var highWater: nat
    ghost var lists: seq<seq<nat>>

    ghost predicate Shape()
      reads this
    {
      top < 58 && state.Length == memory.Length == Pow2(top) && heads.Length == ORDERS
    }

    ghost predicate Lists()
      reads this, state, memory, heads
    {
      ListsOk(state[..], memory[..], heads[..], mask, lists)
    }

    ghost predicate Valid()
      reads this, state, memory, heads
    {
      && Shape() && Lists() && Good(state[..], top)
      && used == UNIT * C.AllocatedUnits(state[..]) && used <= highWater
    }

    /** `pool_insert`. */
    method Insert(u: nat, o: nat)
      requires Shape() && Lists() && u < state.Length && o < ORDERS && !IsFree(state[u])
      modifies this`mask, this`lists, state, memory, heads
      ensures Shape() && Lists() && state[..] == old(state[..])[u := FreeEntry(o)]
      ensures forall v :: 0 <= v < memory.Length && v != u && !IsFree(old(state[v])) ==> memory[v] == old(memory[v])
    {
      InsertLists(state[..], memory[..], heads[..], mask, lists, u, o);
      ghost var q := lists[o];
      ghost var memory0, heads0, state0 := memory[..], heads[..], state[..];
      assert HeadOk(heads0[o], mask, q, o) && ListOk(state0, memory0, q, o);
      assert q != [] ==> HasBlock(state0, q[0], FreeEntry(o));
      hide ListsOk, ListOk;
      var head := heads[o];
      memory[u] := Links(None, head);
      if head.Some? {
        memory[head.value] := Links(Some(u), memory[head.value].next);
      }
      heads[o] := Some(u);
      mask := mask + {o};
      state[u] := FreeEntry(o);
      lists := lists[o := [u] + q];
      assert memory[..] == Inserted(memory0, q, u);
      assert heads[..] == heads0[o := Some(u)] && state[..] == state0[u := FreeEntry(o)];
    }

    /** `pool_remove`. */
    method Remove(u: nat, o: nat)
      requires Shape() && Lists() && o < ORDERS && u < state.Length && state[u] == FreeEntry(o)
      modifies this`mask, this`lists, state, memory, heads
      ensures Shape() && Lists() && state[..] == old(state[..])[u := 0]
      ensures forall v :: 0 <= v < memory.Length && !IsFree(old(state[v])) ==> memory[v] == old(memory[v])
    {
      ghost var memory0, heads0, state0 := memory[..], heads[..], state[..];
      ghost var q := lists[o];
      ghost var i := FindNode(state0, memory0, heads0, mask, lists, u, o);
      RemoveLists(state0, memory0, heads0, mask, lists, o, i);
      hide ListsOk;
      var node := memory[u];
      if node.previous.Some? {
        memory[node.previous.value] := Links(memory[node.previous.value].previous, node.next);
      } else {
        heads[o] := node.next;
      }
      if node.next.Some? {
        memory[node.next.value] := Links(node.previous, memory[node.next.value].next);
      }
      if heads[o].None? { mask := mask - {o}; }
      state[u] := 0;
      lists := lists[o := Without(q, i)];
      assert memory[..] == Unlinked(memory0, q, i);
      assert heads[..] == (if i == 0 then heads0[o := After(q, 0)] else heads0) && state[..] == state0[u := 0];
    }

    /** The request's order, one step per doubling. */
    static method SizeOrder(size: nat) returns (order: nat)
      ensures order == OrderFor(size)
    {
      order := 0;
      var block := UNIT;
      while block < size
        invariant block == UNIT * Pow2(order) && (order > 0 ==> UNIT * Pow2(order - 1) < size)
      {
        block := block * 2;
        order := order + 1;
      }
      OrderForIs(size, order);
    }

    /** Halve the block in hand until it has order `to`, freeing upper halves. */
    method SplitDown(u: nat, from: nat, to: nat, ghost units: nat, ghost p: set<nat>) returns (steps: nat)
      requires Shape() && Lists() && to <= from && H.Holding(state[..], top, u, u, from, units, p)
      modifies this`mask, this`lists, state, memory, heads
      ensures Shape() && Lists() && H.Holding(state[..], top, u, u, to, units, p) && steps == from - to
      ensures SameOthers(old(state[..]), state[..], u) && state[u] == old(state[u])
      ensures Carved(old(state[..]), state[..], u, to, from)
      ensures forall v :: v in p && v < memory.Length ==> memory[v] == old(memory[v])
      ensures forall v :: u <= v < u + Pow2(to) && v < memory.Length ==> memory[v] == old(memory[v])
    {
      hide ListsOk, H.Holding, Pow2, Carved;
      var found := from;
      steps := 0;
      ghost var m0 := state[..];
      Untouched(m0, top, u, from, units, p);
      NotCarved(m0, u, from);
      while found > to
        invariant to <= found <= from && steps == from - found
        invariant Shape() && Lists() && H.Holding(state[..], top, u, u, found, units, p)
        invariant SameOthers(m0, state[..], u) && u < state.Length && state[u] == m0[u]
        invariant Carved(m0, state[..], u, found, from)
        invariant forall v :: v in p && v < memory.Length ==> memory[v] == old(memory[v])
        invariant forall v :: u <= v < u + Pow2(to) && v < memory.Length ==> memory[v] == old(memory[v])
      {
        H.HoldSplit(state[..], top, u, found, units, p);
        Untouched(state[..], top, u, found, units, p);
        Pow2Monotonic(to, found - 1);
        CarveDeeper(m0, state[..], u, found, from);
        found := found - 1;
        Insert(u + Pow2(found), found);
        steps := steps + 1;
      }
    }

    /** `minyar_pool_try_allocate`. It fails exactly when the request exceeds the
        pool or no aligned region of its rounded size is free. It cuts the smallest free
        block that suffices, and nothing else. */
    method TryAllocate(size: nat) returns (r: Option<nat>, steps: nat)
      requires Valid()
      modifies this, state, memory, heads
      ensures Valid() && steps <= top
      ensures r.None? ==> state[..] == old(state[..]) && memory[..] == old(memory[..]) && used == old(used)
      ensures r.None? <==> size > UNIT * Pow2(top) || !exists a: nat :: C.FreeRegion(old(state[..]), a, OrderFor(size))
      ensures r.Some? ==> Granted(old(state[..]), state[..], r.value, OrderFor(size))
      ensures r.Some? ==> SmallestFit(old(state[..]), r.value, OrderFor(size))
      ensures r.Some? ==> steps == Order(old(state[..])[r.value])
      ensures r.Some? ==>
          Carved(old(state[..]), state[..], r.value, OrderFor(size), Order(old(state[..])[r.value]))
      ensures r.Some? ==> Agree(old(memory[..]), memory[..], H.LiveUnits(old(state[..])))
    {
      hide ListsOk, Good, Pow2, C.AllocatedUnits, H.Holding, OrderFor, SmallestFit, Carved;
      if size > UNIT * Pow2(top) { return None, 0; }
      var order := SizeOrder(size);
      steps := order;
      OrderFits(size, top);
      var found := Lowest(mask, order);
      ghost var m := state[..];
      if found.None? {
        NoBlockNoRegion(m, memory[..], heads[..], mask, lists, top, order);
        return None, steps;
      }
      HeadBlock(m, memory[..], heads[..], mask, lists, found.value);
      HeadFits(m, memory[..], heads[..], mask, lists, top, order, found.value);
      var u := heads[found.value].value;
      BlockFits(m, top, u, found.value);
      ghost var p := H.LiveUnits(m);
      H.LiveShielded(m, u);
      LiveNotFree(m, top);
      H.HoldTake(m, top, u, found.value, p);
      C.BlockIsRegion(m, top, u, order);
      Remove(u, found.value);
      var more := SplitDown(u, found.value, order, C.AllocatedUnits(m), p);
      steps := steps + more;
      SameOthersTrans(m, m[u := 0], state[..], u);
      CarvedAround(m, state[..], u, order, found.value);
      Finish(u, order, C.AllocatedUnits(m), p);
      r := Some(u);
    }

    /** Write the block in hand as allocated and account for it. */
    method Finish(u: nat, k: nat, ghost units: nat, ghost p: set<nat>)
      requires Shape() && Lists() && H.Holding(state[..], top, u, u, k, units, p)
      requires used == UNIT * units
      modifies this, state
      ensures Valid() && state[..] == old(state[..])[u := AllocatedEntry(k)] && used == UNIT * (units + Pow2(k))
    {
      HoldingMeans(state[..], top, u, k, units, p);
      hide ListsOk, Good, Pow2, C.AllocatedUnits, H.Holding;
      NotFreeWrite(state[..], memory[..], heads[..], mask, lists, u, AllocatedEntry(k));
      ghost var m := state[..];
      state[u] := AllocatedEntry(k);
      assert state[..] == m[u := AllocatedEntry(k)];
      used := used + UNIT * Pow2(k);
      if used > highWater { highWater := used; }
    }

    /** `minyar_pool_deallocate`: an offset that is not the start of an allocated
        block stops the program; otherwise the block merges with free buddies for
        as long as there is one. */
    method Deallocate(u: int) returns (ok: bool, steps: nat)
      requires Valid()
      modifies this, state, memory, heads
      ensures Valid()
      ensures ok <==> 0 <= u < state.Length && IsAllocated(old(state[..])[u])
      ensures ok ==> Order(old(state[..])[u]) + steps <= top
      ensures !ok ==> state[..] == old(state[..]) && memory[..] == old(memory[..]) && used == old(used)
      ensures ok ==> Released(old(state[..]), state[..], u)
      ensures ok ==> used == old(used) - UNIT * Pow2(Order(old(state[..])[u]))
      ensures ok ==> Agree(old(memory[..]), memory[..], H.OtherUnits(old(state[..]), u))
    {
      hide ListsOk, Good, Pow2, C.AllocatedUnits, H.Holding, Buddy, Low;
      if u < 0 || u >= state.Length || !IsAllocated(state[u]) { return false, 0; }
      ok := true;
      ghost var m := state[..];
      var order := Order(state[u]);
      OwnBlock(m, top, u);
      ghost var p := H.OtherUnits(m, u);
      H.OthersShielded(m, u);
      H.HoldOwn(m, top, u, order, p);
      ghost var units := C.AllocatedUnits(m) - Pow2(order);
      NotFreeWrite(m, memory[..], heads[..], mask, lists, u, 0);
      used := used - UNIT * Pow2(order);
      state[u] := 0;
      assert state[..] == m[u := 0];
      steps := Coalesce(u, order, units, p);
      SameOthersTrans(m, m[u := 0], state[..], u);
    }

    /** Merge the cleared block upwards, then free what it has become. */
    method Coalesce(u: nat, order0: nat, ghost units: nat, ghost p: set<nat>) returns (steps: nat)
      requires Shape() && Lists() && H.Holding(state[..], top, u, u, order0, units, p) && u < state.Length &&
          state[u] == 0
      requires used == UNIT * units <= highWater && order0 <= top
      modifies this`mask, this`lists, state, memory, heads
      ensures Valid() && steps <= top - order0
      ensures SameOthers(old(state[..]), state[..], u) && !IsAllocated(state[u])
      ensures forall v :: v in p && v < memory.Length ==> memory[v] == old(memory[v])
    {
      hide ListsOk, H.Holding, Pow2, Buddy, Low, Good, C.AllocatedUnits;
      var offset: nat, order: nat := u, order0;
      steps := 0;
      ghost var m0 := state[..];
      HeldInRange(m0, top, u, offset, order, units, p);
      while order < top
        invariant order0 <= order <= top && steps == order - order0
        invariant Shape() && Lists() && H.Holding(state[..], top, u, offset, order, units, p)
        invariant SameOthers(m0, state[..], u) && offset < state.Length && state[offset] == 0 && state[u] == 0
        invariant forall v :: v in p && v < memory.Length ==> memory[v] == old(memory[v])
        decreases top - order
      {
        HeldInRange(state[..], top, u, offset, order, units, p);
        var buddy := Buddy(offset, order);
        steps := steps + 1;
        if state[buddy] != FreeEntry(order) { break; }
        H.HoldMerge(state[..], top, u, offset, order, units, p);
        Remove(buddy, order);
        LowIs(offset, order);
        if buddy < offset { offset := buddy; }
        order := order + 1;
      }
      HeldInRange(state[..], top, u, offset, order, units, p);
      H.HoldGive(state[..], top, offset, order, units, p, u);
      Insert(offset, order);
    }

    /* ---- resizing ---- */

    /** The scan of `pool_try_resize_same_base`: every upper buddy up to the
        wanted order is free. It changes nothing. */
    method ScanUpper(u: nat, order: nat, wanted: nat) returns (canGrow: bool, steps: nat)
      requires Shape() && order <= wanted <= top && u < state.Length
      ensures canGrow <==> Aligned(u, wanted) && Absorbable(state[..], u, order, wanted)
      ensures steps <= wanted - order && (!Aligned(u, wanted) ==> steps == 0)
    {
      hide Pow2;
      canGrow := Aligned(u, wanted);
      steps := 0;
      var next := order;
      while canGrow && next < wanted
        invariant order <= next <= wanted && steps == next - order
        invariant Aligned(u, wanted) && canGrow ==> Absorbable(state[..], u, order, next)
        invariant canGrow ==> Aligned(u, wanted)
        invariant !Aligned(u, wanted) ==> steps == 0
        invariant Aligned(u, wanted) && !canGrow ==> next > order && !Absorbable(state[..], u, order, next)
      {
        UpperBuddy(u, order, next, wanted, top);
        canGrow := state[u + Pow2(next)] == FreeEntry(next);
        assert canGrow <==> AbsorbableAt(state[..], u, order, next);
        next := next + 1;
        steps := steps + 1;
      }
      if Aligned(u, wanted) && !canGrow { AbsorbableLess(state[..], u, order, next, wanted); }
    }

    /** The scan of `minyar_pool_try_grow_lower`: whichever half the block is, its
        buddy is free, all the way up. */
    method ScanLower(u: nat, order: nat, wanted: nat) returns (canGrow: bool, steps: nat)
      requires Shape() && order <= wanted <= top && u < state.Length && Aligned(u, order)
      ensures canGrow <==> Absorbable(state[..], u, order, wanted)
      ensures steps <= wanted - order
    {
      hide Pow2, Buddy, Low;
      canGrow := true;
      steps := 0;
      var merged, next := u, order;
      while canGrow && next < wanted
        invariant order <= next <= wanted && steps == next - order
        invariant merged == Climb(u, order, next) && merged < state.Length && Aligned(merged, next)
        invariant canGrow <==> Absorbable(state[..], u, order, next)
      {
        BuddyInPool(merged, next, top);
        ClimbStep(u, order, next);
        LowIs(merged, next);
        LowAligned(merged, next);
        var buddy := Buddy(merged, next);
        canGrow := state[buddy] == FreeEntry(next);
        assert canGrow <==> AbsorbableAt(state[..], u, order, next);
        if buddy < merged { merged := buddy; }
        next := next + 1;
        steps := steps + 1;
      }
      if !canGrow { AbsorbableLess(state[..], u, order, next, wanted); }
    }

    /** Take every scanned buddy out of its list and grow the block in hand. */
    method Absorb(u: nat, order: nat, wanted: nat, ghost units: nat, ghost p: set<nat>) returns (base: nat, steps: nat)
      requires Shape() && Lists() && H.Holding(state[..], top, u, u, order, units, p)
      requires order <= wanted <= top && Absorbable(state[..], u, order, wanted)
      modifies this`mask, this`lists, state, memory, heads
      ensures Shape() && Lists() && base == Climb(u, order, wanted) && steps == wanted - order
      ensures H.Holding(state[..], top, u, base, wanted, units, p) && (base == u || state[base] == 0)
      ensures SameOthers(old(state[..]), state[..], u) && state[u] == old(state[u])
      ensures forall v :: v in p && v < memory.Length ==> memory[v] == old(memory[v])
      ensures forall v :: u <= v < u + Pow2(order) && v < memory.Length ==> memory[v] == old(memory[v])
    {
      hide ListsOk, H.Holding, Pow2, Buddy, Low, Good, C.AllocatedUnits;
      ghost var m0 := state[..];
      HeldInRange(m0, top, u, u, order, units, p);
      Untouched(m0, top, u, order, units, p);
      base := u;
      steps := 0;
      var next := order;
      while next < wanted
        invariant order <= next <= wanted && steps == next - order && base == Climb(u, order, next)
        invariant Shape() && Lists() && H.Holding(state[..], top, u, base, next, units, p)
        invariant base < state.Length && (base == u || state[base] == 0)
        invariant SameOthers(m0, state[..], u) && u < state.Length && state[u] == m0[u]
        invariant forall w :: 0 <= w < |m0| ==> state[w] == m0[w] || (state[w] == 0 && IsFree(m0[w]))
        invariant AbsorbableFrom(state[..], u, order, next, wanted)
        invariant forall v :: v in p && v < memory.Length ==> memory[v] == old(memory[v])
        invariant forall v :: u <= v < u + Pow2(order) && v < memory.Length ==> memory[v] == old(memory[v])
      {
        HeldInRange(state[..], top, u, base, next, units, p);
        ClimbStep(u, order, next);
        LowIs(base, next);
        assert AbsorbableAt(state[..], u, order, next);
        H.HoldMerge(state[..], top, u, base, next, units, p);
        var buddy := Buddy(base, next);
        ghost var before := state[..];
        Remove(buddy, next);
        AbsorbRest(before, u, order, next, wanted, buddy);
        if buddy < base { base := buddy; }
        next := next + 1;
        steps := steps + 1;
      }
    }

    /** `pool_try_resize_same_base`: split in place, or grow through free upper
        buddies; a failed scan changes nothing. */
    method TryResizeSameBase(u: nat, wanted: nat) returns (ok: bool, steps: nat)
      requires Valid() && u < state.Length && IsAllocated(state[u]) && wanted <= top
      modifies this, state, memory, heads
      ensures Valid() && steps <= 2 * (if ok then top else wanted)
      ensures var order := Order(old(state[..])[u]);
        ok <==> wanted <= order || (Aligned(u, wanted) && Absorbable(old(state[..]), u, order, wanted))
      ensures !ok ==> state[..] == old(state[..]) && memory[..] == old(memory[..]) && used == old(used)
      ensures !ok ==> steps + Order(old(state[..])[u]) <= wanted && (!Aligned(u, wanted) ==> steps == 0)
      ensures ok ==> Resized(old(state[..]), state[..], u, u, wanted)
      ensures ok ==> Agree(old(memory[..]), memory[..], H.OtherUnits(old(state[..]), u))
      ensures ok ==> forall v :: u <= v < u + Pow2(Min(wanted, Order(old(state[..])[u]))) && v < memory.Length ==>
          memory[v] == old(memory[v])
    {
      hide ListsOk, Good, Pow2, C.AllocatedUnits, H.Holding, Buddy, Low, Absorbable, Aligned;
      ghost var m := state[..];
      var order := Order(state[u]);
      OwnBlock(m, top, u);
      ghost var p := H.OtherUnits(m, u);
      H.OthersShielded(m, u);
      H.HoldOwn(m, top, u, order, p);
      ghost var units := C.AllocatedUnits(m) - Pow2(order);
      OtherInRange(m, u);
      if wanted <= order {
        used := used - UNIT * Pow2(order);
        steps := SplitDown(u, order, wanted, units, p);
      } else {
        ok, steps := ScanUpper(u, order, wanted);
        if !ok { return; }
        used := used - UNIT * Pow2(order);
        ClimbAligned(u, order, wanted, wanted);
        var base, more := Absorb(u, order, wanted, units, p);
        steps := steps + more;
      }
      ok := true;
      Finish(u, wanted, units, p);
    }

    /** `minyar_pool_try_grow_lower`: absorb buddies on either side. Contents are
        not kept; a failed scan changes nothing. */
    method TryGrowLower(u: nat, wanted: nat) returns (r: Option<nat>, steps: nat)
      requires Valid() && u < state.Length && IsAllocated(state[u]) && Order(state[u]) <= wanted <= top
      modifies this, state, memory, heads
      ensures Valid()
      ensures r.Some? <==> Absorbable(old(state[..]), u, Order(old(state[..])[u]), wanted)
      ensures r.None? ==> state[..] == old(state[..]) && memory[..] == old(memory[..]) && used == old(used)
      ensures r.None? ==> steps + Order(old(state[..])[u]) <= wanted
      ensures r.Some? ==> Resized(old(state[..]), state[..], u, r.value, wanted) && steps <= 2 * wanted
      ensures r.Some? ==> Agree(old(memory[..]), memory[..], H.OtherUnits(old(state[..]), u))
    {
      hide ListsOk, Good, Pow2, C.AllocatedUnits, H.Holding, Buddy, Low, Absorbable, Aligned;
      ghost var m := state[..];
      var order := Order(state[u]);
      OwnBlock(m, top, u);
      OwnAligned(m, top, u);
      ghost var p := H.OtherUnits(m, u);
      H.OthersShielded(m, u);
      OtherInRange(m, u);
      H.HoldOwn(m, top, u, order, p);
      ghost var units := C.AllocatedUnits(m) - Pow2(order);
      var canGrow;
      canGrow, steps := ScanLower(u, order, wanted);
      if !canGrow { return None, steps; }
      used := used - UNIT * Pow2(order);
      var base, more := Absorb(u, order, wanted, units, p);
      steps := steps + more;
      FinishMoved(u, base, wanted, units, p);
      r := Some(base);
    }

    /** Clear the stale start and write the merged block as allocated. */
    method FinishMoved(s: nat, u: nat, k: nat, ghost units: nat, ghost p: set<nat>)
      requires Shape() && Lists() && H.Holding(state[..], top, s, u, k, units, p)
      requires used == UNIT * units
      modifies this, state
      ensures Valid() && u < |old(state[..])| && s < |old(state[..])|
      ensures state[..] == old(state[..])[s := 0][u := AllocatedEntry(k)] && used == UNIT * (units + Pow2(k))
    {
      MovedMeans(state[..], top, s, u, k, units, p);
      hide ListsOk, Good, Pow2, C.AllocatedUnits, H.Holding;
      ghost var m := state[..];
      NotFreeWrite(m, memory[..], heads[..], mask, lists, s, 0);
      NotFreeWrite(m[s := 0], memory[..], heads[..], mask, lists, u, AllocatedEntry(k));
      state[s] := 0;
      state[u] := AllocatedEntry(k);
      assert state[..] == H.Held(m, s, u, k);
      used := used + UNIT * Pow2(k);
      if used > highWater { highWater := used; }
    }

    /** Copy between two distinct allocated blocks. */
    method CopyUnits(from: nat, to: nat, n: nat)
      requires Valid() && from < state.Length && to < state.Length && from != to
      requires IsAllocated(state[from]) && IsAllocated(state[to])
      requires n <= Pow2(Order(state[from])) && n <= Pow2(Order(state[to]))
      modifies memory
      ensures Valid() && to + n <= memory.Length && from + n <= memory.Length
      ensures memory[..] == Copied(old(memory[..]), from, to, n)
    {
      hide ListsOk, Good, Pow2, C.AllocatedUnits, Copied, Order;
      ghost var m := state[..];
      DisjointBlocks(m, top, from, to);
      ghost var memory0 := memory[..];
      CopiedNone(memory0, from, to);
      var k := 0;
      while k < n
        invariant k <= n && Lists() && state[..] == m && memory[..] == Copied(memory0, from, to, k)
      {
        CopiedNext(memory0, from, to, k);
        CopyUnit(from + k, to + k);
        k := k + 1;
      }
    }

    method CopyUnit(from: nat, to: nat)
      requires Shape() && Lists() && from < memory.Length && to < memory.Length && !IsFree(state[to])
      modifies memory
      ensures Lists() && memory[..] == old(memory[..])[to := old(memory[from])]
    {
      hide ListsOk;
      ghost var before := memory[..];
      DataWrite(state[..], before, heads[..], mask, lists, to, memory[from]);
      memory[to] := memory[from];
      assert memory[..] == before[to := before[from]];
    }

    /** `minyar_pool_resize`. It returns nothing where the program would stop: an
        offset that is no allocated block, a size beyond the pool, or no room. */
    method Resize(u: int, oldSize: nat, size: nat) returns (r: Option<nat>, steps: nat)
      requires Valid()
      requires 0 <= u < state.Length && IsAllocated(state[u]) ==> oldSize <= UNIT * Pow2(Order(state[u]))
      modifies this, state, memory, heads
      ensures Valid() && steps <= 4 * top
      ensures r.None? ==> state[..] == old(state[..]) && memory[..] == old(memory[..]) && used == old(used)
      ensures r.Some? <==> 0 <= u < |old(state[..])| && IsAllocated(old(state[..])[u]) && size <= UNIT * Pow2(top)
                           && (Stays(old(state[..]), u, OrderFor(size)) ||
                               exists a: nat :: C.FreeRegion(old(state[..]), a, OrderFor(size)))
      ensures r.Some? && Stays(old(state[..]), u, OrderFor(size)) ==> r.value == u
      ensures r.Some? ==> 0 <= u < state.Length && Resized(old(state[..]), state[..], u, r.value, OrderFor(size))
      ensures r.Some? ==> KeepsPrefix(old(memory[..]), memory[..], u, r.value,
                                      UnitsFor(if oldSize < size then oldSize else size))
      ensures r.Some? ==> Agree(old(memory[..]), memory[..], H.OtherUnits(old(state[..]), u))
    {
      hide ListsOk, Good, Pow2, C.AllocatedUnits, OrderFor, Absorbable, Aligned, H.OtherUnits, H.LiveUnits, Granted,
          Resized, Released;
      if u < 0 || u >= state.Length || !IsAllocated(state[u]) || size > UNIT * Pow2(top) { return None, 0; }
      ghost var m, memory0 := state[..], memory[..];
      var wanted := SizeOrder(size);
      OrderFits(size, top);
      OwnBlock(m, top, u);
      var order := Order(state[u]);
      var ok, more := TryResizeSameBase(u, wanted);
      steps := wanted + more;
      if ok {
        SamePrefix(m, top, memory0, memory[..], u, oldSize, size);
        OtherInRange(m, u);
        return Some(u), steps;
      }
      var block, more' := TryAllocate(size);
      steps := steps + more';
      if block.None? { return None, steps; }
      var n := UnitsFor(if oldSize < size then oldSize else size);
      GrantApart(m, state[..], top, u, block.value, wanted);
      ghost var m1, memory1 := state[..], memory[..];
      FitsUnits(oldSize, size, order, wanted);
      CopyUnits(u, block.value, n);
      ghost var memory2 := memory[..];
      var freed, more'' := Deallocate(u);
      steps := steps + more'';
      r := block;
      MovedMap(m, m1, state[..], u, block.value, wanted);
      MovedMemory(m, m1, top, memory0, memory1, memory2, memory[..], u, block.value, n, wanted);
    }

    /** `minyar_pool_resize_discard`: the old contents need not survive, so a block
        that is an upper half may also absorb its lower buddies. */
    method ResizeDiscard(u: int, size: nat) returns (r: Option<nat>, steps: nat)
      requires Valid()
      modifies this, state, memory, heads
      ensures Valid() && steps <= 4 * top
      ensures r.None? ==> state[..] == old(state[..]) && memory[..] == old(memory[..]) && used == old(used)
      ensures r.Some? <==> 0 <= u < |old(state[..])| && IsAllocated(old(state[..])[u]) && size <= UNIT * Pow2(top)
                           && (Stays(old(state[..]), u, OrderFor(size)) || Merges(old(state[..]), u, OrderFor(size))
                               || exists a: nat :: C.FreeRegion(old(state[..]), a, OrderFor(size)))
      ensures r.Some? && Stays(old(state[..]), u, OrderFor(size)) ==> r.value == u
      ensures r.Some? ==> 0 <= u < state.Length && Resized(old(state[..]), state[..], u, r.value, OrderFor(size))
      ensures r.Some? ==> Agree(old(memory[..]), memory[..], H.OtherUnits(old(state[..]), u))
    {
      hide ListsOk, Good, Pow2, C.AllocatedUnits, OrderFor, Absorbable, Aligned, H.OtherUnits, H.LiveUnits, Granted,
          Resized, Released;
      if u < 0 || u >= state.Length || !IsAllocated(state[u]) || size > UNIT * Pow2(top) { return None, 0; }
      ghost var m := state[..];
      var wanted := SizeOrder(size);
      OrderFits(size, top);
      OwnBlock(m, top, u);
      var order := Order(state[u]);
      var ok, more := TryResizeSameBase(u, wanted);
      steps := wanted + more;
      if ok { return Some(u), steps; }
      if !Aligned(u, wanted) {
        var merged, more := TryGrowLower(u, wanted);
        steps := steps + more;
        if merged.Some? { return merged, steps; }
      }
      var block, more' := TryAllocate(size);
      steps := steps + more';
      if block.None? { return None, steps; }
      GrantApart(m, state[..], top, u, block.value, wanted);
      ghost var m1, memory1 := state[..], memory[..];
      var freed, more'' := Deallocate(u);
      steps := steps + more'';
      r := block;
      MovedMap(m, m1, state[..], u, block.value, wanted);
      MovedOthers(m, m1, top, old(memory[..]), memory1, memory[..], u, block.value, wanted);
    }

    /** `minyar_pool_initialize`. */
    constructor (top: nat)
      requires top < 58
      ensures Valid() && this.top == top && state[..] == C.Initial(top) && used == 0
      ensures fresh(state) && fresh(memory) && fresh(heads)
    {
      this.top := top;
      var units := Pow2(top);
      state := new nat[units](_ => 0);
      memory := new Word[units](_ => Data(0));
      heads := new Option<nat>[ORDERS](_ => None);
      mask := {};
      used := 0;
      highWater := 0;
      lists := seq(ORDERS, _ => []);
      new;
      assert Lists() by {
        forall o | 0 <= o < ORDERS ensures ListOk(state[..], memory[..], lists[o], o) { assert lists[o] == []; }
      }
      Insert(0, top);
      assert state[..] == C.Initial(top);
      C.InitialGood(top);
      C.InitialUnits(top);
    }
  }

  lemma MovedOthers(m: seq<nat>, m1: seq<nat>, top: nat, memory0: seq<Word>, memory1: seq<Word>, memory3: seq<Word>,
                    u: nat, b: nat, o: nat)
    requires Good(m, top) && Good(m1, top) && Granted(m, m1, b, o) && u < |m| && u != b && o < 64
    requires Agree(memory0, memory1, H.LiveUnits(m)) && Agree(memory1, memory3, H.OtherUnits(m1, u))
    ensures Agree(memory0, memory3, H.OtherUnits(m, u))
  {
    hide Good, Pow2, Granted, H.LiveUnits, H.OtherUnits;
    forall v | v in H.OtherUnits(m, u) ensures v < |memory0| && v < |memory3| && memory3[v] == memory0[v] {
      OtherStays(m, m1, top, u, b, o, v);
    }
  }

  /** Units that hold the first `bytes` bytes. */
  function UnitsFor(bytes: nat): nat { (bytes + UNIT - 1) / UNIT }

  ghost predicate KeepsPrefix(memory: seq<Word>, memory': seq<Word>, u: nat, base: nat, n: nat) {
    u + n <= |memory| && base + n <= |memory'| && memory'[base..base + n] == memory[u..u + n]
  }

  lemma {:induction false} UnitsForOrder(size: nat, o: nat)
    requires size <= UNIT * Pow2(o)
    ensures UnitsFor(size) <= Pow2(o)
  {
  }

  lemma {:induction false} OrderForHolds(size: nat)
    ensures size <= UNIT * Pow2(OrderFor(size))
  {
    if size > UNIT { OrderForHolds((size + 1) / 2); }
  }

  lemma FitsUnits(oldSize: nat, size: nat, order: nat, wanted: nat)
    requires oldSize <= UNIT * Pow2(order) && wanted == OrderFor(size)
    ensures UnitsFor(if oldSize < size then oldSize else size) <= Min(Pow2(order), Pow2(wanted))
    ensures UnitsFor(if oldSize < size then oldSize else size) <= Pow2(Min(order, wanted))
  {
    OrderForHolds(size);
    hide Pow2, OrderFor;
    UnitsForOrder(oldSize, order);
    UnitsForOrder(size, wanted);
  }

  lemma SamePrefix(m: seq<nat>, top: nat, memory: seq<Word>, memory': seq<Word>, u: nat, oldSize: nat, size: nat)
    requires Good(m, top) && u < |m| && IsAllocated(m[u]) && oldSize <= UNIT * Pow2(Order(m[u]))
    requires |memory| == |memory'| == |m|
    requires forall v :: u <= v < u + Pow2(Min(OrderFor(size), Order(m[u]))) && v < |m| ==> memory'[v] == memory[v]
    ensures KeepsPrefix(memory, memory', u, u, UnitsFor(if oldSize < size then oldSize else size))
  {
    FitsUnits(oldSize, size, Order(m[u]), OrderFor(size));
    assert BlockAt(m, top, u);
    hide Pow2, OrderFor, Tiled;
  }

  lemma GrantApart(m: seq<nat>, m': seq<nat>, top: nat, u: nat, b: nat, o: nat)
    requires Granted(m, m', b, o) && u < |m| && IsAllocated(m[u]) && o < 64
    ensures b != u && b < |m'| && IsAllocated(m'[b]) && Order(m'[b]) == o && m'[u] == m[u]
  {
    assert C.Inside(m, u, u);
  }

  lemma MovedMap(m: seq<nat>, m1: seq<nat>, m2: seq<nat>, u: nat, b: nat, o: nat)
    requires Granted(m, m1, b, o) && Released(m1, m2, u) && u != b && u < |m| && IsAllocated(m1[b])
    ensures Resized(m, m2, u, b, o)
  {
    hide C.FreeRegion;
  }

  lemma MovedMemory(m: seq<nat>, m1: seq<nat>, top: nat, memory0: seq<Word>, memory1: seq<Word>, memory2: seq<Word>,
                    memory3: seq<Word>,
                    u: nat, b: nat, n: nat, o: nat)
    requires Good(m, top) && Good(m1, top) && Granted(m, m1, b, o) && u < |m| && u != b && IsAllocated(m[u]) && o < 64
    requires |memory0| == |memory1| == |memory3| == |m| && n <= Pow2(Order(m[u])) && n <= Pow2(o)
    requires u + n <= |m| && b + n <= |m| && memory2 == Copied(memory1, u, b, n)
    requires Agree(memory0, memory1, H.LiveUnits(m)) && Agree(memory2, memory3, H.OtherUnits(m1, u))
    ensures KeepsPrefix(memory0, memory3, u, b, n)
    ensures Agree(memory0, memory3, H.OtherUnits(m, u))
  {
    hide Good, Pow2, Granted, H.LiveUnits, H.OtherUnits;
    var was, now := memory0[u..u + n], memory3[b..b + n];
    forall k | 0 <= k < n ensures now[k] == was[k] {
      MovedUnit(m, m1, u, b, o, k);
      assert memory2[b + k] == memory1[u + k];
    }
    forall v | v in H.OtherUnits(m, u) ensures v < |m| && memory3[v] == memory0[v] {
      OtherStays(m, m1, top, u, b, o, v);
      assert memory2[v] == memory1[v];
    }
  }

  lemma MovedUnit(m: seq<nat>, m1: seq<nat>, u: nat, b: nat, o: nat, k: nat)
    requires Granted(m, m1, b, o) && u < |m| && u != b && IsAllocated(m[u]) && o < 64
    requires k < Pow2(Order(m[u])) && k < Pow2(o) && u + k < |m| && b + k < |m|
    ensures u + k in H.LiveUnits(m) && b + k in H.OtherUnits(m1, u)
  {
    hide Pow2, C.FreeRegion;
    assert C.Inside(m, u, u + k);
    assert H.LiveUnit(m, u + k);
    assert C.Inside(m1, b, b + k);
    assert H.ShieldedUnit(m1, u, b + k);
  }

  /** A third block lies outside the new one and stays allocated. */
  lemma OtherStays(m: seq<nat>, m1: seq<nat>, top: nat, u: nat, b: nat, o: nat, v: nat)
    requires Good(m, top) && Good(m1, top) && Granted(m, m1, b, o) && u < |m| && u != b && o < 64 &&
        v in H.OtherUnits(m, u)
    ensures v < |m| && v in H.LiveUnits(m) && v in H.OtherUnits(m1, u) && !(b <= v < b + Pow2(o))
  {
    assert H.ShieldedUnit(m, u, v);
    var w: nat :| w != u && C.Inside(m, w, v) && IsAllocated(m[w]);
    assert H.LiveUnit(m, v);
    assert C.Inside(m, w, w);
    assert w != b;
    assert C.Inside(m1, w, v);
    assert H.ShieldedUnit(m1, u, v);
  }

  /** `memory` with the first `n` units of one block copied over another. */
  function Copied(memory: seq<Word>, from: nat, to: nat, n: nat): seq<Word>
    requires from + n <= |memory| && to + n <= |memory|
  {
    memory[..to] + memory[from..from + n] + memory[to + n..]
  }

  lemma CopiedNone(memory: seq<Word>, from: nat, to: nat)
    requires from <= |memory| && to <= |memory|
    ensures Copied(memory, from, to, 0) == memory
  {
  }

  lemma CopiedNext(memory: seq<Word>, from: nat, to: nat, k: nat)
    requires from + k < |memory| && to + k < |memory| && (from + k < to || to + k < from)
    ensures Copied(memory, from, to, k)[from + k] == memory[from + k]
    ensures Copied(memory, from, to, k)[to + k := memory[from + k]] == Copied(memory, from, to, k + 1)
  {
    var c, d := Copied(memory, from, to, k), Copied(memory, from, to, k + 1);
    assert |c| == |memory| == |d|;
    forall v | 0 <= v < |c| ensures c[to + k := memory[from + k]][v] == d[v] { }
  }

  lemma OwnAligned(m: seq<nat>, top: nat, u: nat)
    requires Good(m, top) && u < |m| && IsAllocated(m[u])
    ensures Aligned(u, Order(m[u]))
  {
    assert BlockAt(m, top, u);
  }

  lemma MovedMeans(m: seq<nat>, top: nat, s: nat, u: nat, k: nat, units: nat, p: set<nat>)
    requires H.Holding(m, top, s, u, k, units, p)
    ensures s < |m| && u < |m| && !IsFree(m[u]) && !IsFree(m[s]) && k <= top
    ensures Good(m[s := 0][u := AllocatedEntry(k)], top)
    ensures C.AllocatedUnits(m[s := 0][u := AllocatedEntry(k)]) == units + Pow2(k)
  {
    hide Good, C.AllocatedUnits, H.Shielded, Pow2;
  }

  lemma DisjointBlocks(m: seq<nat>, top: nat, a: nat, b: nat)
    requires Good(m, top) && a < |m| && b < |m| && a != b && IsAllocated(m[a]) && IsAllocated(m[b])
    ensures a + Pow2(Order(m[a])) <= |m| && b + Pow2(Order(m[b])) <= |m|
    ensures a + Pow2(Order(m[a])) <= b || b + Pow2(Order(m[b])) <= a
    ensures forall v :: b <= v < b + Pow2(Order(m[b])) ==> !IsFree(m[v])
  {
    hide Pow2, Aligned, Coalesced;
    assert BlockAt(m, top, a);
    assert BlockAt(m, top, b);
  }

  /** Program data may go anywhere but into a free block's links. */
  lemma DataWrite(m: seq<nat>, memory: seq<Word>, heads: seq<Option<nat>>, mask: set<nat>, lists: seq<seq<nat>>,
                  v: nat, w: Word)
    requires ListsOk(m, memory, heads, mask, lists) && v < |m| && !IsFree(m[v])
    ensures ListsOk(m, memory[v := w], heads, mask, lists)
  {
    hide ListOk;
    forall o | 0 <= o < ORDERS ensures ListOk(m, memory[v := w], lists[o], o) {
      assert ListOk(m, memory, lists[o], o);
      OtherList(m, memory, lists[o], o, m, memory[v := w]);
    }
  }

  function Min(a: nat, b: nat): nat { if a < b then a else b }

  /** The block at `u` now starts at `base` with order `o`; nothing else moved. */
  ghost predicate Resized(m: seq<nat>, m': seq<nat>, u: nat, base: nat, o: nat) {
    && |m| == |m'| && base < |m'| && m'[base] == AllocatedEntry(o) && (u < |m'| && u != base ==> !IsAllocated(m'[u]))
    && forall w :: 0 <= w < |m| && w != u && w != base && (IsAllocated(m[w]) || IsAllocated(m'[w])) ==> m[w] == m'[w]
  }

  lemma OtherInRange(m: seq<nat>, u: nat)
    ensures forall v :: v in H.OtherUnits(m, u) ==> v < |m|
  {
  }

  /** Where the block at `u` starts once it has merged from order `o` to `n`. */
  function Climb(u: nat, o: nat, n: nat): nat {
    if n <= o then u else Low(Climb(u, o, n - 1), n - 1)
  }

  lemma ClimbStep(u: nat, o: nat, n: nat)
    requires o <= n
    ensures Climb(u, o, n + 1) == Low(Climb(u, o, n), n)
  {
  }

  predicate AbsorbableAt(m: seq<nat>, u: nat, o: nat, n: nat) {
    HasBlock(m, Buddy(Climb(u, o, n), n), FreeEntry(n))
  }

  ghost predicate AbsorbableFrom(m: seq<nat>, u: nat, o: nat, from: nat, wanted: nat) {
    forall n :: from <= n < wanted ==> AbsorbableAt(m, u, o, n)
  }

  /** Every buddy met on the way up is free. */
  ghost predicate Absorbable(m: seq<nat>, u: nat, o: nat, wanted: nat) { AbsorbableFrom(m, u, o, o, wanted) }

  lemma AbsorbableLess(m: seq<nat>, u: nat, o: nat, n: nat, wanted: nat)
    requires n <= wanted && !Absorbable(m, u, o, n)
    ensures !Absorbable(m, u, o, wanted)
  {
  }

  /** Taking one buddy away leaves the later ones free. */
  lemma AbsorbRest(m: seq<nat>, u: nat, o: nat, next: nat, wanted: nat, buddy: nat)
    requires AbsorbableFrom(m, u, o, next, wanted) && next < wanted && HasBlock(m, buddy, FreeEntry(next))
    ensures AbsorbableFrom(m[buddy := 0], u, o, next + 1, wanted)
  {
    hide Climb, Buddy;
    var m' := m[buddy := 0];
    forall n | next + 1 <= n < wanted ensures AbsorbableAt(m', u, o, n) { assert AbsorbableAt(m, u, o, n); }
  }

  lemma LowAligned(u: nat, o: nat)
    requires Aligned(u, o)
    ensures Aligned(Low(u, o), o + 1) && Low(u, o) <= u
  {
    BuddyFacts(u, o);
  }

  /** A base aligned for the wanted order climbs in place. */
  lemma {:induction false} ClimbAligned(u: nat, o: nat, n: nat, wanted: nat)
    requires Aligned(u, wanted) && n <= wanted
    ensures Climb(u, o, n) == u
  {
    if n > o {
      ClimbAligned(u, o, n - 1, wanted);
      AlignedDown(u, wanted, n);
      AlignedDown(u, wanted, n - 1);
      BuddyFacts(u, n - 1);
    }
  }

  lemma UpperBuddy(u: nat, o: nat, n: nat, wanted: nat, top: nat)
    requires Aligned(u, wanted) && o <= n < wanted <= top && u < Pow2(top)
    ensures Buddy(Climb(u, o, n), n) == u + Pow2(n) < Pow2(top)
  {
    ClimbAligned(u, o, n, wanted);
    AlignedDown(u, wanted, n + 1);
    AlignedDown(u, wanted, n);
    BuddyFacts(u, n);
    BuddyInPool(u, n, top);
  }

  /** The block at `u` is gone and nothing else that was allocated has changed. */
  ghost predicate Released(m: seq<nat>, m': seq<nat>, u: nat) {
    u < |m'| && !IsAllocated(m'[u]) && SameOthers(m, m', u)
  }

  lemma OwnBlock(m: seq<nat>, top: nat, u: nat)
    requires Good(m, top) && u < |m| && IsAllocated(m[u])
    ensures Order(m[u]) <= top < 64 && HasBlock(m, u, AllocatedEntry(Order(m[u])))
  {
    assert BlockAt(m, top, u);
  }

  lemma LowIs(u: nat, o: nat)
    ensures Low(u, o) == if Buddy(u, o) < u then Buddy(u, o) else u
  {
  }

  /** The block in hand lies in the pool, and so does its buddy. */
  lemma HeldInRange(m: seq<nat>, top: nat, s: nat, u: nat, k: nat, units: nat, p: set<nat>)
    requires H.Holding(m, top, s, u, k, units, p)
    ensures u < |m| && k <= top < 64 && !IsFree(m[u])
    ensures forall v :: v in p && v < |m| && v != s && v != u ==> !IsFree(m[v])
    ensures forall v :: v in p ==> v != u
    ensures k < top ==> Buddy(u, k) < |m|
  {
    hide C.AllocatedUnits, Coalesced, H.Shielded;
    var h := H.Held(m, s, u, k);
    assert BlockAt(h, top, u);
    if k < top { BuddyInPool(u, k, top); }
    hide Tiled, Pow2, Aligned;
    forall v | v in p ensures v != u && (v < |m| && v != s ==> !IsFree(m[v])) { H.ShieldedNotFree(h, top, u, p, v); }
  }

  lemma BuddyInPool(u: nat, k: nat, top: nat)
    requires Aligned(u, k) && k < top && u < Pow2(top)
    ensures Buddy(u, k) < Pow2(top)
  {
    BuddyFacts(u, k);
    AlignedZero(top);
    AlignedNest(0, top, Low(u, k), k + 1);
  }

  /** A new block of order `o` at `u`, taken from free space; nothing else moved. */
  ghost predicate Granted(m: seq<nat>, m': seq<nat>, u: nat, o: nat) {
    && u < |m'| && m'[u] == AllocatedEntry(o) && SameOthers(m, m', u)
    && C.FreeRegion(m, u, o)
  }

  lemma HoldingMeans(m: seq<nat>, top: nat, u: nat, k: nat, units: nat, p: set<nat>)
    requires H.Holding(m, top, u, u, k, units, p)
    ensures u < |m| && !IsFree(m[u]) && k <= top
    ensures Good(m[u := AllocatedEntry(k)], top) && C.AllocatedUnits(m[u := AllocatedEntry(k)]) == units + Pow2(k)
  {
    hide Good, C.AllocatedUnits, H.Shielded, Pow2;
    assert H.Held(m, u, u, k) == m[u := AllocatedEntry(k)];
  }

  lemma NotFreeWrite(m: seq<nat>, memory: seq<Word>, heads: seq<Option<nat>>, mask: set<nat>, lists: seq<seq<nat>>,
                     u: nat, e: nat)
    requires ListsOk(m, memory, heads, mask, lists) && u < |m| && !IsFree(m[u]) && !IsFree(e)
    ensures ListsOk(m[u := e], memory, heads, mask, lists)
  {
    hide ListOk;
    forall o | 0 <= o < ORDERS ensures ListOk(m[u := e], memory, lists[o], o) {
      assert ListOk(m, memory, lists[o], o);
      OtherList(m, memory, lists[o], o, m[u := e], memory);
    }
  }

  lemma {:induction false} OrderFits(size: nat, top: nat)
    requires size <= UNIT * Pow2(top)
    ensures OrderFor(size) <= top
  {
    if size > UNIT && top > 0 { OrderFits((size + 1) / 2, top - 1); }
  }

  lemma BlockFits(m: seq<nat>, top: nat, u: nat, o: nat)
    requires Good(m, top) && o < ORDERS && HasBlock(m, u, FreeEntry(o))
    ensures o <= top && Tiled(m, top) && !IsAllocated(m[u]) && IsFree(m[u]) && Order(m[u]) == o
  {
    assert BlockAt(m, top, u);
  }

  lemma LiveNotFree(m: seq<nat>, top: nat)
    requires Good(m, top)
    ensures forall v :: v in H.LiveUnits(m) ==> !IsFree(m[v])
  {
    hide Good;
    forall v | v in H.LiveUnits(m) ensures !IsFree(m[v]) { LiveUnitNotFree(m, top, v); }
  }

  lemma LiveUnitNotFree(m: seq<nat>, top: nat, v: nat)
    requires Good(m, top) && v < |m| && H.LiveUnit(m, v)
    ensures !IsFree(m[v])
  {
    hide Pow2, Aligned, Coalesced;
    var w: nat :| C.Inside(m, w, v) && IsAllocated(m[w]);
    assert BlockAt(m, top, w);
  }

  lemma SameOthersTrans(m: seq<nat>, m1: seq<nat>, m2: seq<nat>, u: nat)
    requires SameOthers(m, m1, u) && SameOthers(m1, m2, u)
    ensures SameOthers(m, m2, u)
  {
  }

  /** Neither shielded units nor the held block's own carry links. */
  lemma Untouched(m: seq<nat>, top: nat, u: nat, k: nat, units: nat, p: set<nat>)
    requires H.Holding(m, top, u, u, k, units, p)
    ensures u < |m| && k <= top < 64
    ensures forall v :: v in p && v < |m| ==> !IsFree(m[v])
    ensures forall v :: u <= v < u + Pow2(k) && v < |m| ==> !IsFree(m[v])
  {
    hide Pow2, Aligned, H.Shielded, C.AllocatedUnits, Coalesced;
    var h := H.Held(m, u, u, k);
    assert BlockAt(h, top, u) && Order(h[u]) == k;
    forall v | u <= v < u + Pow2(k) && v < |m| ensures !IsFree(m[v]) { assert v != u ==> h[v] == m[v]; }
    forall v | v in p && v < |m| ensures !IsFree(m[v]) { hide Tiled; H.ShieldedNotFree(h, top, u, p, v); }
  }

  /** The lowest set bit at or above `o` (`__builtin_ctzll` of the masked word). */
  function Lowest(mask: set<nat>, o: nat): (r: Option<nat>)
    ensures r.Some? ==> r.value in mask && o <= r.value < ORDERS
    ensures forall k :: o <= k < (if r.Some? then r.value else ORDERS) ==> k !in mask
    decreases ORDERS - o
  {
    if o >= ORDERS then None else if o in mask then Some(o) else Lowest(mask, o + 1)
  }

  lemma HeadBlock(m: seq<nat>, memory: seq<Word>, heads: seq<Option<nat>>, mask: set<nat>, lists: seq<seq<nat>>, o: nat)
    requires ListsOk(m, memory, heads, mask, lists) && o in mask
    ensures o < ORDERS && heads[o].Some? && HasBlock(m, heads[o].value, FreeEntry(o))
  {
    assert HeadOk(heads[o], mask, lists[o], o) && ListOk(m, memory, lists[o], o);
    assert HasBlock(m, lists[o][0], FreeEntry(o));
  }

  /** The lowest set bit is the least order of a free block that suffices. */
  lemma HeadFits(m: seq<nat>, memory: seq<Word>, heads: seq<Option<nat>>, mask: set<nat>, lists: seq<seq<nat>>,
                 top: nat, o: nat, found: nat)
    requires ListsOk(m, memory, heads, mask, lists) && Good(m, top) && found in mask && o <= found < ORDERS
    requires forall k :: o <= k < found ==> k !in mask
    ensures heads[found].Some? && SmallestFit(m, heads[found].value, o)
  {
    HeadBlock(m, memory, heads, mask, lists, found);
    forall w | 0 <= w < |m| && IsFree(m[w]) && o <= Order(m[w]) ensures found <= Order(m[w]) {
      assert BlockAt(m, top, w);
      var k := Order(m[w]);
      assert HeadOk(heads[k], mask, lists[k], k) && ListOk(m, memory, lists[k], k);
      assert HasBlock(m, w, FreeEntry(k));
    }
  }

  lemma NotCarved(m: seq<nat>, u: nat, k: nat)
    ensures Carved(m, m, u, k, k)
  {
  }

  lemma CarveDeeper(m: seq<nat>, m': seq<nat>, u: nat, o: nat, k: nat)
    requires Carved(m, m', u, o, k) && 0 < o <= k && u + Pow2(o - 1) < |m|
    ensures Carved(m, m'[u + Pow2(o - 1) := FreeEntry(o - 1)], u, o - 1, k)
  {
    hide Pow2;
    Pow2Monotonic(o - 1, k);
    forall j | o <= j < k ensures Pow2(o - 1) < Pow2(j) { Pow2Monotonic(o - 1, j); }
  }

  /** The start itself is written before and after. */
  lemma CarvedAround(m: seq<nat>, m': seq<nat>, u: nat, o: nat, k: nat)
    requires u < |m| && Carved(m[u := 0], m', u, o, k)
    ensures Carved(m, m'[u := AllocatedEntry(o)], u, o, k)
  {
    hide Pow2;
  }

  /** Every other free block stays. */
  lemma CarvedElsewhere(m: seq<nat>, m': seq<nat>, top: nat, u: nat, o: nat, w: nat)
    requires Tiled(m, top) && SmallestFit(m, u, o) && Carved(m, m', u, o, Order(m[u]))
    requires w < |m| && w != u && m[w] != 0
    ensures m'[w] == m[w]
  {
    hide Pow2, Aligned;
    assert BlockAt(m, top, u) && BlockAt(m, top, w);
  }

  /** A request whose own order has a free block splits nothing: that block changes hands
      and the map is otherwise the same. */
  lemma OwnOrderWhole(m: seq<nat>, m': seq<nat>, top: nat, u: nat, o: nat, w: nat)
    requires Good(m, top) && Good(m', top) && Granted(m, m', u, o) && SmallestFit(m, u, o)
    requires Carved(m, m', u, o, Order(m[u])) && w < |m| && IsFree(m[w]) && Order(m[w]) == o
    ensures m[u] == FreeEntry(o) && m' == m[u := AllocatedEntry(o)]
  {
    hide Pow2, Good, C.FreeRegion, SameOthers, Carved;
    HollowAt(m, top, u);
    HollowAt(m', top, u);
    WholeBlock(m, m', u, o);
  }

  lemma HollowAt(m: seq<nat>, top: nat, u: nat)
    requires Good(m, top) && u < |m| && m[u] != 0
    ensures IsEntry(m[u], top) && u + Pow2(Order(m[u])) <= |m| == Pow2(top)
    ensures Hollow(m, u, u + Pow2(Order(m[u])))
  {
    assert BlockAt(m, top, u);
  }

  lemma WholeBlock(m: seq<nat>, m': seq<nat>, u: nat, o: nat)
    requires u + Pow2(o) <= |m| == |m'| && Hollow(m, u, u + Pow2(o)) && Hollow(m', u, u + Pow2(o))
    requires Carved(m, m', u, o, o)
    ensures m' == m[u := m'[u]]
  {
    hide Pow2;
  }

  /** No bit set means no free block, and so no free region, of the order. */
  lemma NoBlockNoRegion(m: seq<nat>, memory: seq<Word>, heads: seq<Option<nat>>, mask: set<nat>, lists: seq<seq<nat>>,
                        top: nat, o: nat)
    requires ListsOk(m, memory, heads, mask, lists) && Good(m, top) && forall k :: o <= k < ORDERS ==> k !in mask
    ensures !exists a: nat :: C.FreeRegion(m, a, o)
  {
    if exists u :: 0 <= u < |m| && IsFree(m[u]) && o <= Order(m[u]) {
      var u :| 0 <= u < |m| && IsFree(m[u]) && o <= Order(m[u]);
      assert BlockAt(m, top, u);
      var k := Order(m[u]);
      assert HeadOk(heads[k], mask, lists[k], k) && ListOk(m, memory, lists[k], k);
      assert HasBlock(m, u, FreeEntry(k));
    }
    C.RegionIffBlock(m, top, o);
  }

  /** Where a free block stands in its list, and its neighbours' links. */
  lemma FindNode(m: seq<nat>, memory: seq<Word>, heads: seq<Option<nat>>, mask: set<nat>, lists: seq<seq<nat>>,
                 u: nat, o: nat)
    returns (i: nat)
    requires ListsOk(m, memory, heads, mask, lists) && o < ORDERS && HasBlock(m, u, FreeEntry(o))
    ensures var q := lists[o];
      && i < |q| && q[i] == u && memory[u] == Links(Before(q, i), After(q, i)) && heads[o] == Some(q[0]) && o in mask
      && (i > 0 ==> HasBlock(m, q[i - 1], FreeEntry(o)) && memory[q[i - 1]] == Links(Before(q, i - 1), Some(u)))
      && (i + 1 < |q| ==> HasBlock(m, q[i + 1], FreeEntry(o)) && memory[q[i + 1]] == Links(Some(u), After(q, i + 1)))
      && (0 < i && i + 1 < |q| ==> q[i - 1] != q[i + 1])
  {
    var q := lists[o];
    assert ListOk(m, memory, q, o) && HeadOk(heads[o], mask, q, o);
    i :| 0 <= i < |q| && q[i] == u;
    assert NodeAt(memory, q, i);
    if i > 0 { assert NodeAt(memory, q, i - 1); }
    if i + 1 < |q| { assert NodeAt(memory, q, i + 1); }
  }

  /** Freeing what was just allocated restores the map exactly. */
  lemma AllocateThenFree(m: seq<nat>, m1: seq<nat>, m2: seq<nat>, top: nat, u: nat, o: nat)
    requires Good(m, top) && Good(m2, top) && Granted(m, m1, u, o) && Released(m1, m2, u)
    ensures m2 == m
  {
    hide Good;
    assert IsAllocated(m[u]) ==> C.Inside(m, u, u);
    C.AllocatedFixMap(m, m2, top);
  }
}
