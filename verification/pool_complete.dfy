/** Completeness of coalescing: free space is never hidden by the way it is cut
    up, and the free blocks are determined by the allocated ones. */
module PoolComplete {
  import opened PoolMap

  /** Unit `v` belongs to the block that starts at `u`. */
  ghost predicate Inside(m: seq<nat>, u: nat, v: nat) {
    u < |m| && (IsFree(m[u]) || IsAllocated(m[u])) && u <= v < u + Pow2(Order(m[u]))
  }

  /** Every unit belongs to some block. */
  lemma {:induction false} Cover(m: seq<nat>, top: nat, v: nat) returns (u: nat)
    requires Tiled(m, top) && v < |m|
    ensures Inside(m, u, v)
  {
    hide Pow2, Aligned;
    if m[v] != 0 {
      assert BlockAt(m, top, v);
      u := v;
    } else {
      u := Cover(m, top, v - 1);
      assert BlockAt(m, top, u);
    }
  }

  lemma CoverUnique(m: seq<nat>, top: nat, u: nat, w: nat, v: nat)
    requires Tiled(m, top) && Inside(m, u, v) && Inside(m, w, v)
    ensures u == w
  {
    hide Pow2, Aligned;
    assert BlockAt(m, top, u);
    assert BlockAt(m, top, w);
  }

  /** An aligned region of order `k` with no allocated unit. */
  ghost predicate FreeRegion(m: seq<nat>, a: nat, k: nat) {
    && Aligned(a, k) && a + Pow2(k) <= |m|
    && forall u: nat, v: nat :: a <= v < a + Pow2(k) && Inside(m, u, v) ==> IsFree(m[u])
  }

  /** It lies in one free block. */
  ghost predicate HoldsRegion(m: seq<nat>, u: nat, a: nat, k: nat) {
    u < |m| && IsFree(m[u]) && k <= Order(m[u]) && u <= a && a + Pow2(k) <= u + Pow2(Order(m[u]))
  }

  lemma {:induction false} RegionInOneBlock(m: seq<nat>, top: nat, a: nat, k: nat) returns (u: nat)
    requires Good(m, top) && FreeRegion(m, a, k)
    ensures HoldsRegion(m, u, a, k)
    decreases k
  {
    if k == 0 {
      u := Cover(m, top, a);
      assert Inside(m, u, a);
    } else {
      var mid := a + Pow2(k - 1);
      HalvesFree(m, a, k);
      var left := RegionInOneBlock(m, top, a, k - 1);
      var right := RegionInOneBlock(m, top, mid, k - 1);
      u := JoinHalves(m, top, a, k, left, right);
    }
  }

  lemma HalvesFree(m: seq<nat>, a: nat, k: nat)
    requires FreeRegion(m, a, k) && k > 0
    ensures FreeRegion(m, a, k - 1) && FreeRegion(m, a + Pow2(k - 1), k - 1)
  {
    AlignedDown(a, k, k - 1);
    AlignedShift(a, k - 1);
    DoublePow2(k - 1);
    hide Pow2, Aligned, Inside;
  }

  /** Two halves in two blocks would be free buddies. */
  lemma JoinHalves(m: seq<nat>, top: nat, a: nat, k: nat, left: nat, right: nat) returns (u: nat)
    requires Good(m, top) && k > 0 && Aligned(a, k) && a + Pow2(k) <= |m|
    requires HoldsRegion(m, left, a, k - 1) && HoldsRegion(m, right, a + Pow2(k - 1), k - 1)
    ensures HoldsRegion(m, u, a, k)
  {
    hide Pow2, Aligned, Buddy, BlockAt;
    assert BlockAt(m, top, left);
    assert BlockAt(m, top, right);
    if Order(m[left]) >= k {
      WithinLarger(m, top, left, a, k, a);
      return left;
    }
    if Order(m[right]) >= k {
      WithinLarger(m, top, right, a, k, a + Pow2(k - 1));
      return right;
    }
    if k > top { Pow2Monotonic(top, k); }
    HalvesAreBuddies(m, top, a, k);
    assert false;
  }

  lemma WithinLarger(m: seq<nat>, top: nat, u: nat, a: nat, k: nat, v: nat)
    requires u < |m| && IsFree(m[u]) && BlockAt(m, top, u) && 0 < k <= Order(m[u]) && Aligned(a, k)
    requires (v == a || v == a + Pow2(k - 1)) && u <= v < u + Pow2(Order(m[u]))
    ensures HoldsRegion(m, u, a, k)
  {
    if v != a { ReachesDown(u, Order(m[u]), a, k); }
    AlignedNest(u, Order(m[u]), a, k);
  }

  lemma HalvesAreBuddies(m: seq<nat>, top: nat, a: nat, k: nat)
    requires Coalesced(m, top) && 0 < k <= top && Aligned(a, k) && a + Pow2(k - 1) < |m|
    ensures !(m[a] == FreeEntry(k - 1) && m[a + Pow2(k - 1)] == FreeEntry(k - 1))
  {
    AlignedDown(a, k, k - 1);
    BuddyFacts(a, k - 1);
  }

  /** A large aligned block holding the middle of a small one starts at or before
      the small one. */
  lemma ReachesDown(u: nat, o: nat, a: nat, k: nat)
    requires 0 < k <= o && Aligned(u, o) && Aligned(a, k) && u <= a + Pow2(k - 1) < u + Pow2(o)
    ensures u <= a
  {
    if u > a {
      DoublePow2(k - 1);
      AlignedDown(u, o, k);
      AlignedNest(a, k, u, k);
    }
  }

  /** A free block is itself a free region, of its order and of every smaller. */
  lemma BlockIsRegion(m: seq<nat>, top: nat, u: nat, k: nat)
    requires Tiled(m, top) && u < |m| && IsFree(m[u]) && k <= Order(m[u])
    ensures FreeRegion(m, u, k)
  {
    assert BlockAt(m, top, u);
    AlignedDown(u, Order(m[u]), k);
    Pow2Monotonic(k, Order(m[u]));
    forall w: nat, v: nat | u <= v < u + Pow2(k) && Inside(m, w, v) ensures IsFree(m[w]) {
      assert Inside(m, u, v);
      CoverUnique(m, top, u, w, v);
    }
  }

  /** A region of order `k` is free exactly when some free block has that order or
      more: fragmentation of free space alone never makes a request fail. */
  lemma RegionIffBlock(m: seq<nat>, top: nat, k: nat)
    requires Good(m, top)
    ensures (exists a: nat :: FreeRegion(m, a, k)) <==> (exists u :: 0 <= u < |m| && IsFree(m[u]) && k <= Order(m[u]))
  {
    if a: nat :| FreeRegion(m, a, k) {
      var u := RegionInOneBlock(m, top, a, k);
    }
    if u :| 0 <= u < |m| && IsFree(m[u]) && k <= Order(m[u]) {
      BlockIsRegion(m, top, u, k);
    }
  }

  /* ---- the free map is a function of the allocated blocks ---- */

  ghost predicate SameAllocated(m: seq<nat>, m': seq<nat>) {
    |m| == |m'| && forall u :: 0 <= u < |m| && (IsAllocated(m[u]) || IsAllocated(m'[u])) ==> m[u] == m'[u]
  }

  lemma RegionCarries(m: seq<nat>, m': seq<nat>, top: nat, a: nat, k: nat)
    requires Tiled(m, top) && Tiled(m', top) && SameAllocated(m, m') && FreeRegion(m, a, k)
    ensures FreeRegion(m', a, k)
  {
    hide Aligned, Pow2;
    forall w: nat, v: nat | a <= v < a + Pow2(k) && Inside(m', w, v) ensures IsFree(m'[w]) {
      if IsAllocated(m'[w]) { assert Inside(m, w, v); }
    }
  }

  lemma SameFreeBlock(m: seq<nat>, m': seq<nat>, top: nat, u: nat)
    requires Good(m, top) && Good(m', top) && SameAllocated(m, m') && u < |m| && IsFree(m[u])
    ensures m'[u] == m[u]
  {
    var o := Order(m[u]);
    BlockIsRegion(m, top, u, o);
    RegionCarries(m, m', top, u, o);
    var w := RegionInOneBlock(m', top, u, o);
    var k := Order(m'[w]);
    BlockIsRegion(m', top, w, k);
    RegionCarries(m', m, top, w, k);
    var x := RegionInOneBlock(m, top, w, k);
    assert Inside(m, x, u) && Inside(m, u, u);
    CoverUnique(m, top, x, u, u);
  }

  /** History does not matter: the allocated blocks fix the whole map. */
  lemma AllocatedFixMap(m: seq<nat>, m': seq<nat>, top: nat)
    requires Good(m, top) && Good(m', top) && SameAllocated(m, m')
    ensures m == m'
  {
    hide Good;
    forall u | 0 <= u < |m| ensures m[u] == m'[u] {
      if IsFree(m[u]) { SameFreeBlock(m, m', top, u); }
      if IsFree(m'[u]) { SameFreeBlock(m', m, top, u); }
      EntryOrZero(m, top, u);
      EntryOrZero(m', top, u);
    }
  }

  lemma EntryOrZero(m: seq<nat>, top: nat, u: nat)
    requires Good(m, top) && u < |m|
    ensures m[u] == 0 || IsFree(m[u]) || IsAllocated(m[u])
  {
    if m[u] != 0 { assert BlockAt(m, top, u); }
  }

  /** The map after initialization: one free block of the highest order. */
  function Initial(top: nat): seq<nat> { seq(Pow2(top), i => if i == 0 then FreeEntry(top) else 0) }

  lemma InitialGood(top: nat)
    requires top < 64
    ensures Good(Initial(top), top)
  {
    AlignedZero(top);
    hide Aligned, Buddy;
  }

  /** Freeing everything leaves one maximal block. */
  lemma NothingAllocated(m: seq<nat>, top: nat)
    requires Good(m, top) && forall u :: 0 <= u < |m| ==> !IsAllocated(m[u])
    ensures m == Initial(top)
  {
    InitialGood(top);
    AllocatedFixMap(m, Initial(top), top);
  }

  /* ---- accounting ---- */

  function EntryUnits(e: nat): nat { if IsAllocated(e) then Pow2(Order(e)) else 0 }

  function AllocatedUnits(m: seq<nat>): nat {
    if m == [] then 0 else AllocatedUnits(m[..|m| - 1]) + EntryUnits(m[|m| - 1])
  }

  lemma {:induction false} AllocatedUnitsUpdate(m: seq<nat>, u: nat, e: nat)
    requires u < |m|
    ensures AllocatedUnits(m[u := e]) + EntryUnits(m[u]) == AllocatedUnits(m) + EntryUnits(e)
  {
    var n := |m| - 1;
    if u == n {
      assert m[u := e][..n] == m[..n];
    } else {
      AllocatedUnitsUpdate(m[..n], u, e);
      assert m[u := e][..n] == m[..n][u := e];
    }
  }

  lemma {:induction false} NoUnits(m: seq<nat>)
    requires forall u :: 0 <= u < |m| ==> !IsAllocated(m[u])
    ensures AllocatedUnits(m) == 0
  {
    if m != [] { NoUnits(m[..|m| - 1]); }
  }

  lemma InitialUnits(top: nat)
    requires top < 64
    ensures AllocatedUnits(Initial(top)) == 0
  {
    NoUnits(Initial(top));
  }
}
