/** The buddy pool's state map: one entry per 32-byte unit, zero inside a block,
    order + 1 at the start of a free block, with bit seven added when allocated. */
module PoolMap {

  const ALLOCATED: nat := 0x80

  function Pow2(o: nat): (p: nat)
    ensures p > 0
  {
    if o == 0 then 1 else 2 * Pow2(o - 1)
  }

  predicate IsFree(e: nat) { 0 < e < ALLOCATED }

  predicate IsAllocated(e: nat) { e > ALLOCATED }

  /** The order a start entry records. */
  function Order(e: nat): nat
    requires IsFree(e) || IsAllocated(e)
  {
    if e < ALLOCATED then e - 1 else e - ALLOCATED - 1
  }

  function FreeEntry(o: nat): nat { o + 1 }

  function AllocatedEntry(o: nat): nat { ALLOCATED + o + 1 }

  /** The low `o` bits of `u` are zero. */
  predicate Aligned(u: nat, o: nat) {
    o == 0 || (u % 2 == 0 && Aligned(u / 2, o - 1))
  }

  /** `u` with bit `o` flipped: the other half of the enclosing block. */
  function Buddy(u: nat, o: nat): nat {
    if o == 0 then (if u % 2 == 0 then u + 1 else u - 1) else 2 * Buddy(u / 2, o - 1) + u % 2
  }

  /* ---- aligned blocks ---- */

  lemma {:induction false} Pow2Monotonic(k: nat, o: nat)
    requires k <= o
    ensures Pow2(k) <= Pow2(o) && (k < o ==> 2 * Pow2(k) <= Pow2(o))
  {
    if k < o { Pow2Monotonic(k, o - 1); }
  }

  /** An offset aligned for a large block is aligned for a smaller one. */
  lemma {:induction false} AlignedDown(u: nat, o: nat, k: nat)
    requires Aligned(u, o) && k <= o
    ensures Aligned(u, k)
  {
    if k > 0 { AlignedDown(u / 2, o - 1, k - 1); }
  }

  /** Aligned blocks nest: one starting inside a larger one stays inside it. */
  lemma {:induction false} AlignedNest(u: nat, o: nat, a: nat, k: nat)
    requires Aligned(u, o) && Aligned(a, k) && k <= o && u <= a < u + Pow2(o)
    ensures a + Pow2(k) <= u + Pow2(o)
  {
    if k > 0 { AlignedNest(u / 2, o - 1, a / 2, k - 1); }
  }

  lemma {:induction false} AlignedShift(u: nat, o: nat)
    requires Aligned(u, o)
    ensures Aligned(u + Pow2(o), o)
  {
    if o > 0 { AlignedShift(u / 2, o - 1); }
  }

  /** The buddy is the other half of one enclosing aligned block. */
  lemma {:induction false} BuddyFacts(u: nat, o: nat)
    requires Aligned(u, o)
    ensures var b := Buddy(u, o); var low := if b < u then b else u;
      && Aligned(b, o) && Buddy(b, o) == u && Aligned(low, o + 1)
      && (if b < u then u == b + Pow2(o) else b == u + Pow2(o))
    ensures Buddy(u, o) > u <==> Aligned(u, o + 1)
  {
    if o > 0 {
      var h := u / 2;
      BuddyFacts(h, o - 1);
      var b := Buddy(h, o - 1);
      Doubled(h, o - 1);
      Doubled(b, o - 1);
      Doubled(h, o);
      Doubled(b, o);
      hide Aligned, Buddy;
    }
  }

  lemma Doubled(x: nat, o: nat)
    ensures Aligned(2 * x, o + 1) == Aligned(x, o) && Buddy(2 * x, o + 1) == 2 * Buddy(x, o) &&
        Pow2(o + 1) == 2 * Pow2(o)
  {
    assert 2 * x / 2 == x && 2 * x % 2 == 0;
  }

  lemma {:induction false} AlignedZero(o: nat)
    ensures Aligned(0, o)
  {
    if o > 0 { AlignedZero(o - 1); }
  }

  /* ---- the invariant ---- */

  predicate IsEntry(e: nat, top: nat) { (IsFree(e) || IsAllocated(e)) && Order(e) <= top }

  ghost predicate Hollow(m: seq<nat>, low: nat, high: nat)
    requires high <= |m|
  {
    forall v :: low < v < high ==> m[v] == 0
  }

  /** A block starts at `u`: aligned, hollow, and followed by the next block. */
  ghost predicate BlockAt(m: seq<nat>, top: nat, u: nat)
    requires u < |m|
  {
    && IsEntry(m[u], top) && Aligned(u, Order(m[u])) && u + Pow2(Order(m[u])) <= |m|
    && Hollow(m, u, u + Pow2(Order(m[u])))
    && (u + Pow2(Order(m[u])) < |m| ==> m[u + Pow2(Order(m[u]))] != 0)
  }

  /** The starts tile the pool. */
  ghost predicate Tiled(m: seq<nat>, top: nat) {
    && top < 64 && |m| == Pow2(top) && m[0] != 0
    && forall u :: 0 <= u < |m| && m[u] != 0 ==> BlockAt(m, top, u)
  }

  /** Two free buddies of equal order never coexist. */
  ghost predicate Coalesced(m: seq<nat>, top: nat) {
    forall u, o :: 0 <= u < |m| && 0 <= o < top && m[u] == FreeEntry(o) && Buddy(u, o) < |m| ==>
      m[Buddy(u, o)] != FreeEntry(o)
  }

  ghost predicate Good(m: seq<nat>, top: nat) { Tiled(m, top) && Coalesced(m, top) }

  /* ---- the four moves every operation is made of ---- */

  predicate HasBlock(m: seq<nat>, u: nat, e: nat) { u < |m| && m[u] == e }

  /** A block survives changes that keep its order and where starts are. */
  lemma BlockKeep(m: seq<nat>, m': seq<nat>, top: nat, v: nat)
    requires |m'| == |m| && v < |m| && BlockAt(m, top, v) && IsEntry(m'[v], top) && Order(m'[v]) == Order(m[v])
    requires forall x :: v < x <= v + Pow2(Order(m[v])) && x < |m| ==> (m'[x] == 0 <==> m[x] == 0)
    ensures BlockAt(m', top, v)
  {
    hide Pow2, Aligned;
  }

  lemma TakeGood(m: seq<nat>, top: nat, u: nat, o: nat)
    requires Good(m, top) && HasBlock(m, u, FreeEntry(o)) && o <= top
    ensures Good(m[u := AllocatedEntry(o)], top)
  {
    hide Pow2, Aligned, Buddy, BlockAt;
    var m' := m[u := AllocatedEntry(o)];
    forall v | 0 <= v < |m'| && m'[v] != 0 ensures BlockAt(m', top, v) {
      assert BlockAt(m, top, v);
      IsEntryAt(m, top, v);
      BlockKeep(m, m', top, v);
    }
  }

  lemma IsEntryAt(m: seq<nat>, top: nat, v: nat)
    requires v < |m| && BlockAt(m, top, v)
    ensures IsEntry(m[v], top) && v + Pow2(Order(m[v])) <= |m|
  {
  }

  lemma AlignedAt(m: seq<nat>, top: nat, v: nat)
    requires v < |m| && BlockAt(m, top, v)
    ensures IsEntry(m[v], top) && Aligned(v, Order(m[v]))
  {
  }

  lemma GiveGood(m: seq<nat>, top: nat, u: nat, o: nat)
    requires Good(m, top) && HasBlock(m, u, AllocatedEntry(o)) && o <= top
    requires o < top ==> !HasBlock(m, Buddy(u, o), FreeEntry(o))
    ensures Good(m[u := FreeEntry(o)], top)
  {
    hide Pow2, Aligned, Buddy, BlockAt;
    var m' := m[u := FreeEntry(o)];
    forall v | 0 <= v < |m'| && m'[v] != 0 ensures BlockAt(m', top, v) {
      assert BlockAt(m, top, v);
      IsEntryAt(m, top, v);
      BlockKeep(m, m', top, v);
    }
    forall v, k | 0 <= v < |m'| && 0 <= k < top && m'[v] == FreeEntry(k) && Buddy(v, k) < |m'|
      ensures m'[Buddy(v, k)] != FreeEntry(k)
    {
      assert BlockAt(m, top, v);
      AlignedAt(m, top, v);
      BuddyFacts(v, k);
    }
  }

  /** Cut a held block in two, freeing the upper half. */
  function Split(m: seq<nat>, u: nat, o: nat): seq<nat>
    requires 0 < o && u + Pow2(o) <= |m|
  {
    m[u := AllocatedEntry(o - 1)][u + Pow2(o - 1) := FreeEntry(o - 1)]
  }

  lemma SplitGood(m: seq<nat>, top: nat, u: nat, o: nat)
    requires Good(m, top) && HasBlock(m, u, AllocatedEntry(o)) && 0 < o <= top
    ensures u + Pow2(o) <= |m| && Good(Split(m, u, o), top)
  {
    hide Pow2, Aligned, Buddy, BlockAt;
    assert BlockAt(m, top, u);
    IsEntryAt(m, top, u);
    DoublePow2(o - 1);
    var m' := Split(m, u, o);
    forall v | 0 <= v < |m'| && m'[v] != 0 ensures BlockAt(m', top, v) {
      if v == u || v == u + Pow2(o - 1) { SplitHalves(m, top, u, o); }
      else { assert BlockAt(m, top, v); SplitBlock(m, top, u, o, v); }
    }
    SplitBuddies(m, top, u, o);
    SplitCoalesced(m, top, u, o);
  }

  lemma SplitBuddies(m: seq<nat>, top: nat, u: nat, o: nat)
    requires u < |m| && 0 < o < 64 && m[u] == AllocatedEntry(o) && BlockAt(m, top, u)
    ensures Buddy(u, o - 1) == u + Pow2(o - 1) && Buddy(u + Pow2(o - 1), o - 1) == u
  {
    AlignedDown(u, o, o - 1);
    BuddyFacts(u, o - 1);
  }

  lemma DoublePow2(o: nat)
    ensures Pow2(o + 1) == 2 * Pow2(o)
  {
  }

  lemma SplitCoalesced(m: seq<nat>, top: nat, u: nat, o: nat)
    requires Good(m, top) && 0 < o <= top && u + Pow2(o) <= |m| && Pow2(o - 1) < Pow2(o)
    requires Buddy(u, o - 1) == u + Pow2(o - 1) && Buddy(u + Pow2(o - 1), o - 1) == u
    ensures Coalesced(Split(m, u, o), top)
  {
    hide Pow2, Aligned, Buddy, BlockAt;
    var m' := Split(m, u, o);
    var half := u + Pow2(o - 1);
    forall v, k | 0 <= v < |m'| && 0 <= k < top && m'[v] == FreeEntry(k) && Buddy(v, k) < |m'|
      ensures m'[Buddy(v, k)] != FreeEntry(k)
    {
      if v != half {
        assert BlockAt(m, top, v);
        BuddyBack(m, top, v, k);
      }
    }
  }

  lemma BuddyBack(m: seq<nat>, top: nat, v: nat, k: nat)
    requires v < |m| && k < 64 && m[v] == FreeEntry(k) && BlockAt(m, top, v)
    ensures Buddy(Buddy(v, k), k) == v
  {
    BuddyFacts(v, k);
  }

  lemma SplitHalves(m: seq<nat>, top: nat, u: nat, o: nat)
    requires u < |m| && 0 < o <= top < 64 && u + Pow2(o) <= |m| && m[u] == AllocatedEntry(o) && BlockAt(m, top, u)
    ensures var m' := Split(m, u, o); BlockAt(m', top, u) && BlockAt(m', top, u + Pow2(o - 1))
  {
    DoublePow2(o - 1);
    AlignedDown(u, o, o - 1);
    AlignedShift(u, o - 1);
    hide Pow2, Aligned;
  }

  lemma SplitBlock(m: seq<nat>, top: nat, u: nat, o: nat, v: nat)
    requires u < |m| && 0 < o <= top && u + Pow2(o) <= |m| && m[u] == AllocatedEntry(o) && BlockAt(m, top, u)
    requires v < |m| && v != u && v != u + Pow2(o - 1) && m[v] != 0 && BlockAt(m, top, v)
    ensures BlockAt(Split(m, u, o), top, v)
  {
    DoublePow2(o - 1);
    hide Pow2, Aligned;
    var half := u + Pow2(o - 1);
    assert m[half] == 0;
    var end := v + Pow2(Order(m[v]));
    assert !(v < u < end);
    assert !(v < half <= end);
    BlockKeep(m, Split(m, u, o), top, v);
  }

  /** Join a held block with its free buddy. */
  function Merge(m: seq<nat>, u: nat, o: nat): seq<nat>
    requires u < |m| && Buddy(u, o) < |m|
  {
    var b := Buddy(u, o);
    if b < u then m[u := 0][b := AllocatedEntry(o + 1)] else m[b := 0][u := AllocatedEntry(o + 1)]
  }

  function Low(u: nat, o: nat): nat { if Buddy(u, o) < u then Buddy(u, o) else u }

  lemma MergeGood(m: seq<nat>, top: nat, u: nat, o: nat)
    requires Good(m, top) && HasBlock(m, u, AllocatedEntry(o)) && o < top && HasBlock(m, Buddy(u, o), FreeEntry(o))
    ensures Good(Merge(m, u, o), top) && HasBlock(Merge(m, u, o), Low(u, o), AllocatedEntry(o + 1))
  {
    hide Pow2, Aligned, Buddy, Low, BlockAt;
    assert BlockAt(m, top, u);
    assert BlockAt(m, top, Buddy(u, o));
    LowFacts(m, top, u, o);
    var m' := Merge(m, u, o);
    var low := Low(u, o);
    var high := low + Pow2(o);
    MergeShape(m, u, o);
    forall v | 0 <= v < |m'| && m'[v] != 0 ensures BlockAt(m', top, v) {
      if v == low { MergeBoth(m, top, low, o); }
      else { assert BlockAt(m, top, v); MergeBlock(m, top, low, o, v); }
    }
    assert Coalesced(m', top);
  }

  lemma MergeShape(m: seq<nat>, u: nat, o: nat)
    requires u < |m| && Buddy(u, o) < |m|
    requires (Low(u, o) == u && Buddy(u, o) == u + Pow2(o)) || (Low(u, o) == Buddy(u, o) && u == Buddy(u, o) + Pow2(o))
    ensures Low(u, o) + Pow2(o) < |m|
    ensures Merge(m, u, o) == m[Low(u, o) + Pow2(o) := 0][Low(u, o) := AllocatedEntry(o + 1)]
  {
    hide Pow2, Buddy;
  }

  lemma LowFacts(m: seq<nat>, top: nat, u: nat, o: nat)
    requires u < |m| && o < 64 && m[u] == AllocatedEntry(o) && BlockAt(m, top, u)
    ensures Aligned(Low(u, o), o + 1)
    ensures (Low(u, o) == u && Buddy(u, o) == u + Pow2(o)) || (Low(u, o) == Buddy(u, o) && u == Buddy(u, o) + Pow2(o))
  {
    BuddyFacts(u, o);
  }

  /** Adjacent blocks of one order, the lower aligned for the next. */
  ghost predicate Pair(m: seq<nat>, top: nat, low: nat, o: nat) {
    && o < top < 64 && low + Pow2(o) < |m| && Aligned(low, o + 1)
    && IsEntry(m[low], top) && IsEntry(m[low + Pow2(o)], top) && Order(m[low]) == o == Order(m[low + Pow2(o)])
    && BlockAt(m, top, low) && BlockAt(m, top, low + Pow2(o))
  }

  lemma MergeBoth(m: seq<nat>, top: nat, low: nat, o: nat)
    requires Pair(m, top, low, o)
    ensures BlockAt(m[low + Pow2(o) := 0][low := AllocatedEntry(o + 1)], top, low)
  {
    DoublePow2(o);
    hide Pow2, Aligned;
  }

  lemma MergeBlock(m: seq<nat>, top: nat, low: nat, o: nat, v: nat)
    requires Pair(m, top, low, o)
    requires v < |m| && v != low && v != low + Pow2(o) && m[v] != 0 && BlockAt(m, top, v)
    ensures BlockAt(m[low + Pow2(o) := 0][low := AllocatedEntry(o + 1)], top, v)
  {
    hide Pow2, Aligned;
    var high := low + Pow2(o);
    var end := v + Pow2(Order(m[v]));
    assert !(v < low < end);
    assert low < v ==> high <= v;
    assert !(v < high <= end);
    BlockKeep(m, m[high := 0][low := AllocatedEntry(o + 1)], top, v);
  }
}
