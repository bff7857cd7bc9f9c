/** A block in the hands of an operation: split and merged until it is given back
    as a free or an allocated block, while every other live block is shielded. */
module PoolHold {
  import opened PoolMap
  import opened PoolComplete

  /** The map as it will read once the block of order `k` at `u` is written and
      the stale start `s` is cleared. */
  function Held(m: seq<nat>, s: nat, u: nat, k: nat): seq<nat>
    requires s < |m| && u < |m|
  {
    m[s := 0][u := AllocatedEntry(k)]
  }

  /** Each unit of `p` lies in an allocated block other than `u`'s. */
  ghost predicate Shielded(m: seq<nat>, u: nat, p: set<nat>) {
    forall v :: v in p ==> ShieldedUnit(m, u, v)
  }

  ghost predicate ShieldedUnit(m: seq<nat>, u: nat, v: nat) {
    exists w: nat :: w != u && Inside(m, w, v) && IsAllocated(m[w])
  }

  ghost predicate Holding(m: seq<nat>, top: nat, s: nat, u: nat, k: nat, units: nat, p: set<nat>) {
    && s < |m| && u < |m| && k <= top && !IsFree(m[s]) && !IsFree(m[u])
    && Good(Held(m, s, u, k), top)
    && AllocatedUnits(Held(m, s, u, k)) == units + Pow2(k)
    && Shielded(Held(m, s, u, k), u, p)
  }

  /** No link is ever written into a shielded unit. */
  lemma ShieldedNotFree(m: seq<nat>, top: nat, u: nat, p: set<nat>, v: nat)
    requires Tiled(m, top) && Shielded(m, u, p) && v in p
    ensures v < |m| && !IsFree(m[v])
    ensures u < |m| && m[u] != 0 ==> !Inside(m, u, v)
  {
    assert ShieldedUnit(m, u, v);
    var w: nat :| w != u && Inside(m, w, v) && IsAllocated(m[w]);
    assert BlockAt(m, top, w);
    if u < |m| && Inside(m, u, v) { CoverUnique(m, top, u, w, v); }
  }

  lemma ShieldedKeep(m: seq<nat>, m': seq<nat>, u: nat, u': nat, p: set<nat>)
    requires Shielded(m, u, p) && |m| == |m'|
    requires forall w :: 0 <= w < |m| && w != u && IsAllocated(m[w]) ==> w != u' && m'[w] == m[w]
    ensures Shielded(m', u', p)
  {
    forall v | v in p ensures ShieldedUnit(m', u', v) {
      assert ShieldedUnit(m, u, v);
      var w: nat :| w != u && Inside(m, w, v) && IsAllocated(m[w]);
      assert Inside(m', w, v);
    }
  }

  /** Take a free block out of the map. */
  lemma HoldTake(m: seq<nat>, top: nat, u: nat, o: nat, p: set<nat>)
    requires Good(m, top) && HasBlock(m, u, FreeEntry(o)) && o <= top && Shielded(m, u, p)
    ensures Holding(m[u := 0], top, u, u, o, AllocatedUnits(m), p)
  {
    TakeGood(m, top, u, o);
    AllocatedUnitsUpdate(m, u, AllocatedEntry(o));
    assert top < 64;
    hide Good, Pow2, AllocatedUnits;
    assert Held(m[u := 0], u, u, o) == m[u := AllocatedEntry(o)];
    ShieldedKeep(m, m[u := AllocatedEntry(o)], u, u, p);
  }

  /** Take an allocated block in hand. */
  lemma HoldOwn(m: seq<nat>, top: nat, u: nat, o: nat, p: set<nat>)
    requires Good(m, top) && HasBlock(m, u, AllocatedEntry(o)) && o <= top && Shielded(m, u, p)
    ensures Pow2(o) <= AllocatedUnits(m)
    ensures Holding(m, top, u, u, o, AllocatedUnits(m) - Pow2(o), p)
    ensures Holding(m[u := 0], top, u, u, o, AllocatedUnits(m) - Pow2(o), p)
  {
    hide Good, Pow2, AllocatedUnits;
    Small(m, top);
    AllocatedUnitsUpdate(m, u, 0);
    assert Held(m, u, u, o) == m && Held(m[u := 0], u, u, o) == m;
  }

  lemma Small(m: seq<nat>, top: nat)
    requires Good(m, top)
    ensures top < 64 && |m| == Pow2(top)
  {
  }

  lemma HollowUpper(h: seq<nat>, top: nat, u: nat, k: nat, p: set<nat>)
    requires Good(h, top) && HasBlock(h, u, AllocatedEntry(k)) && 0 < k <= top && Shielded(h, u, p)
    ensures u + Pow2(k) <= |h| && h[u + Pow2(k - 1)] == 0 && u + Pow2(k - 1) !in p
  {
    DoublePow2(k - 1);
    var x := u + Pow2(k - 1);
    assert BlockAt(h, top, u);
    hide Pow2, Aligned, Shielded;
    assert Inside(h, u, x);
    if x in p { ShieldedNotFree(h, top, u, p, x); }
  }

  /** Free the upper half. */
  lemma HoldSplit(m: seq<nat>, top: nat, u: nat, k: nat, units: nat, p: set<nat>)
    requires Holding(m, top, u, u, k, units, p) && k > 0
    ensures u + Pow2(k) <= |m| && Pow2(k) == 2 * Pow2(k - 1)
    ensures var x := u + Pow2(k - 1);
      && m[x] == 0 && x !in p && Holding(m[x := FreeEntry(k - 1)], top, u, u, k - 1, units, p)
  {
    hide Good, AllocatedUnits, Shielded, Pow2;
    var h := Held(m, u, u, k);
    Small(h, top);
    HollowUpper(h, top, u, k, p);
    SplitGood(h, top, u, k);
    DoublePow2(k - 1);
    var x := u + Pow2(k - 1);
    SplitUnits(h, u, k);
    assert Held(m[x := FreeEntry(k - 1)], u, u, k - 1) == Split(h, u, k);
    ShieldedKeep(h, Split(h, u, k), u, u, p);
  }

  lemma SplitUnits(m: seq<nat>, u: nat, k: nat)
    requires 0 < k && u + Pow2(k) <= |m| && m[u] == AllocatedEntry(k) && m[u + Pow2(k - 1)] == 0 && k < 64
    ensures AllocatedUnits(Split(m, u, k)) == AllocatedUnits(m) - Pow2(k - 1)
  {
    DoublePow2(k - 1);
    AllocatedUnitsUpdate(m, u, AllocatedEntry(k - 1));
    AllocatedUnitsUpdate(m[u := AllocatedEntry(k - 1)], u + Pow2(k - 1), FreeEntry(k - 1));
  }

  /** Absorb the free buddy, whose entry `pool_remove` has just cleared. */
  lemma HoldMerge(m: seq<nat>, top: nat, s: nat, u: nat, k: nat, units: nat, p: set<nat>)
    requires Holding(m, top, s, u, k, units, p) && k < top && HasBlock(m, Buddy(u, k), FreeEntry(k))
    requires s == u || m[u] == 0
    ensures Low(u, k) < |m| && Holding(m[Buddy(u, k) := 0], top, s, Low(u, k), k + 1, units, p)
    ensures s == Low(u, k) || m[Buddy(u, k) := 0][Low(u, k)] == 0
  {
    hide Good, AllocatedUnits, Shielded, Pow2, Buddy;
    var h := Held(m, s, u, k);
    var b := Buddy(u, k);
    Small(h, top);
    assert b != s;
    assert b != u && (b < u || u < b);
    DoublePow2(k);
    MergeGood(h, top, u, k);
    MergeUnits(h, top, u, k);
    MergeHeld(m, s, u, k);
    ShieldedKeep(h, Merge(h, u, k), u, Low(u, k), p);
  }

  lemma MergeHeld(m: seq<nat>, s: nat, u: nat, k: nat)
    requires s < |m| && u < |m| && Buddy(u, k) < |m| && Buddy(u, k) != u && Buddy(u, k) != s && (s == u || m[u] == 0)
    ensures Held(m[Buddy(u, k) := 0], s, Low(u, k), k + 1) == Merge(Held(m, s, u, k), u, k)
  {
    hide Buddy;
  }

  lemma MergeUnits(m: seq<nat>, top: nat, u: nat, k: nat)
    requires u < |m| && k < top < 64 && m[u] == AllocatedEntry(k) && HasBlock(m, Buddy(u, k), FreeEntry(k))
    ensures AllocatedUnits(Merge(m, u, k)) == AllocatedUnits(m) + Pow2(k)
  {
    DoublePow2(k);
    hide Pow2, Buddy, AllocatedUnits;
    var b := Buddy(u, k);
    var low, high := Low(u, k), if b < u then u else b;
    AllocatedUnitsUpdate(m, high, 0);
    AllocatedUnitsUpdate(m[high := 0], low, AllocatedEntry(k + 1));
  }

  /** Give the block back as free, once its buddy cannot be absorbed. */
  lemma HoldGive(m: seq<nat>, top: nat, u: nat, k: nat, units: nat, p: set<nat>, s: nat)
    requires Holding(m, top, s, u, k, units, p) && m[s] == 0
    requires k < top ==> !HasBlock(m, Buddy(u, k), FreeEntry(k))
    ensures Good(m[u := FreeEntry(k)], top) && AllocatedUnits(m[u := FreeEntry(k)]) == units
  {
    hide Good, AllocatedUnits, Shielded, Pow2, Buddy;
    var h := Held(m, s, u, k);
    assert h == m[u := AllocatedEntry(k)] by { assert m[s := 0] == m; }
    Small(h, top);
    assert k < top ==> !HasBlock(h, Buddy(u, k), FreeEntry(k));
    GiveGood(h, top, u, k);
    AllocatedUnitsUpdate(h, u, FreeEntry(k));
    assert h[u := FreeEntry(k)] == m[u := FreeEntry(k)];
  }

  /** All allocated units, and those outside the block at `u`. */
  ghost predicate LiveUnit(m: seq<nat>, v: nat) { exists w: nat :: Inside(m, w, v) && IsAllocated(m[w]) }

  ghost function LiveUnits(m: seq<nat>): set<nat> { set v | 0 <= v < |m| && LiveUnit(m, v) }

  ghost function OtherUnits(m: seq<nat>, u: nat): set<nat> {
    set v | 0 <= v < |m| && ShieldedUnit(m, u, v)
  }

  lemma OthersShielded(m: seq<nat>, u: nat)
    ensures Shielded(m, u, OtherUnits(m, u))
  {
  }

  lemma LiveShielded(m: seq<nat>, u: nat)
    requires u < |m| && !IsAllocated(m[u])
    ensures Shielded(m, u, LiveUnits(m)) && OtherUnits(m, u) == LiveUnits(m)
  {
    assert forall v :: v in LiveUnits(m) <==> v in OtherUnits(m, u);
  }
}
