/** The doubly linked free lists, threaded through the first unit of each free
    block. */
module PoolLists {
  import opened Wrappers
  import opened PoolMap

  /** A 32-byte unit of pool memory: program data, or a free block's links. */
  datatype Word = Data(contents: int) | Links(previous: Option<nat>, next: Option<nat>)

  const ORDERS: nat := 64

  function Before(q: seq<nat>, i: nat): Option<nat> { if 0 < i <= |q| then Some(q[i - 1]) else None }

  function After(q: seq<nat>, i: nat): Option<nat> { if i + 1 < |q| then Some(q[i + 1]) else None }

  ghost predicate NodeAt(memory: seq<Word>, q: seq<nat>, i: nat)
    requires i < |q|
  {
    q[i] < |memory| && memory[q[i]] == Links(Before(q, i), After(q, i))
  }

  ghost predicate Distinct(q: seq<nat>) { forall i, j :: 0 <= i < j < |q| ==> q[i] != q[j] }

  /** `q` is the list of order `o`: its nodes are linked both ways and are exactly
      the free starts of that order. */
  ghost predicate ListOk(m: seq<nat>, memory: seq<Word>, q: seq<nat>, o: nat) {
    && (forall i :: 0 <= i < |q| ==> NodeAt(memory, q, i))
    && (forall i :: 0 <= i < |q| ==> HasBlock(m, q[i], FreeEntry(o)))
    && (forall u: nat :: HasBlock(m, u, FreeEntry(o)) ==> u in q)
    && Distinct(q)
  }

  ghost predicate HeadOk(head: Option<nat>, mask: set<nat>, q: seq<nat>, o: nat) {
    head == After([0] + q, 0) && (o in mask <==> q != [])
  }

  ghost predicate ListsOk(m: seq<nat>, memory: seq<Word>, heads: seq<Option<nat>>, mask: set<nat>,
                          lists: seq<seq<nat>>) {
    && |m| == |memory| && |heads| == |lists| == ORDERS
    && (forall o :: 0 <= o < ORDERS ==> ListOk(m, memory, lists[o], o))
    && (forall o :: 0 <= o < ORDERS ==> HeadOk(heads[o], mask, lists[o], o))
    && (forall o :: o in mask ==> o < ORDERS)
  }

  /* ---- one list, one change ---- */

  lemma InsertList(m: seq<nat>, memory: seq<Word>, q: seq<nat>, o: nat, u: nat, memory': seq<Word>)
    requires |m| == |memory| == |memory'| && u < |m| && o < ORDERS && ListOk(m, memory, q, o) && !IsFree(m[u])
    requires memory' == if q == [] then memory[u := Links(None, None)]
                        else memory[u := Links(None, Some(q[0]))][q[0] := Links(Some(u), After(q, 0))]
    ensures ListOk(m[u := FreeEntry(o)], memory', [u] + q, o)
  {
    var p := [u] + q;
    assert forall i :: 0 <= i < |q| ==> q[i] != u by {
      forall i | 0 <= i < |q| ensures q[i] != u { assert HasBlock(m, q[i], FreeEntry(o)); }
    }
    forall i | 0 <= i < |p| ensures NodeAt(memory', p, i) {
      if i > 0 { assert NodeAt(memory, q, i - 1); }
    }
  }

  /** A list no change touches. */
  lemma OtherList(m: seq<nat>, memory: seq<Word>, q: seq<nat>, o: nat, m': seq<nat>, memory': seq<Word>)
    requires ListOk(m, memory, q, o) && |m'| == |m| == |memory| == |memory'|
    requires forall v :: 0 <= v < |m| && m[v] == FreeEntry(o) ==> memory'[v] == memory[v]
    requires forall v :: 0 <= v < |m| ==> (m'[v] == FreeEntry(o) <==> m[v] == FreeEntry(o))
    ensures ListOk(m', memory', q, o)
  {
    forall i | 0 <= i < |q| ensures NodeAt(memory', q, i) {
      assert NodeAt(memory, q, i);
      assert HasBlock(m, q[i], FreeEntry(o));
    }
  }

  function Without(q: seq<nat>, i: nat): seq<nat>
    requires i < |q|
  {
    q[..i] + q[i + 1..]
  }

  /** Unlinking node `i` rewrites the links of its neighbours only. */
  function Unlinked(memory: seq<Word>, q: seq<nat>, i: nat): seq<Word>
    requires i < |q| && forall j :: 0 <= j < |q| ==> q[j] < |memory|
  {
    var m1 := if i > 0 then memory[q[i - 1] := Links(Before(q, i - 1), After(q, i))] else memory;
    if i + 1 < |q| then m1[q[i + 1] := Links(Before(q, i), After(q, i + 1))] else m1
  }

  lemma RemoveList(m: seq<nat>, memory: seq<Word>, q: seq<nat>, o: nat, i: nat)
    requires |m| == |memory| && o < ORDERS && ListOk(m, memory, q, o) && i < |q|
    ensures forall j :: 0 <= j < |q| ==> q[j] < |memory|
    ensures ListOk(m[q[i] := 0], Unlinked(memory, q, i), Without(q, i), o)
  {
    assert forall j :: 0 <= j < |q| ==> q[j] < |memory| by {
      forall j | 0 <= j < |q| ensures q[j] < |memory| { assert NodeAt(memory, q, j); }
    }
    hide NodeAt, Unlinked;
    var p, memory' := Without(q, i), Unlinked(memory, q, i);
    forall j | 0 <= j < |p| ensures NodeAt(memory', p, j) {
      RemovedNode(m, memory, q, o, i, j);
    }
    RemovedStarts(m, q, o, i);
  }

  /** The remaining nodes are the remaining free starts. */
  lemma RemovedStarts(m: seq<nat>, q: seq<nat>, o: nat, i: nat)
    requires i < |q| && q[i] < |m| && Distinct(q)
    requires forall j :: 0 <= j < |q| ==> HasBlock(m, q[j], FreeEntry(o))
    requires forall u: nat :: HasBlock(m, u, FreeEntry(o)) ==> u in q
    ensures var p := Without(q, i);
      && (forall j :: 0 <= j < |p| ==> HasBlock(m[q[i] := 0], p[j], FreeEntry(o)))
      && (forall u: nat :: HasBlock(m[q[i] := 0], u, FreeEntry(o)) ==> u in p)
      && Distinct(p)
  {
    var p := Without(q, i);
    forall j | 0 <= j < |p| ensures HasBlock(m[q[i] := 0], p[j], FreeEntry(o)) {
      var k := if j < i then j else j + 1;
      assert p[j] == q[k] && HasBlock(m, q[k], FreeEntry(o));
    }
    forall u: nat | HasBlock(m[q[i] := 0], u, FreeEntry(o)) ensures u in p {
      assert HasBlock(m, u, FreeEntry(o));
      var k :| 0 <= k < |q| && q[k] == u;
      assert u == p[if k < i then k else k - 1];
    }
  }

  lemma RemovedNode(m: seq<nat>, memory: seq<Word>, q: seq<nat>, o: nat, i: nat, j: nat)
    requires |m| == |memory| && ListOk(m, memory, q, o) && i < |q| && j < |q| - 1
    requires forall k :: 0 <= k < |q| ==> q[k] < |memory|
    ensures NodeAt(Unlinked(memory, q, i), Without(q, i), j)
  {
    var k := if j < i then j else j + 1;
    assert Distinct(q) && NodeAt(memory, q, k);
    hide ListOk, HasBlock;
    WithoutLinks(q, i, j);
    UnlinkedAt(memory, q, i, k);
  }

  /** A node's neighbours once node `i` is gone. */
  lemma WithoutLinks(q: seq<nat>, i: nat, j: nat)
    requires i < |q| && j < |q| - 1
    ensures var k := if j < i then j else j + 1;
      && Without(q, i)[j] == q[k]
      && Before(Without(q, i), j) == (if k == i + 1 then Before(q, i) else Before(q, k))
      && After(Without(q, i), j) == (if k + 1 == i then After(q, i) else After(q, k))
  {
  }

  lemma UnlinkedAt(memory: seq<Word>, q: seq<nat>, i: nat, k: nat)
    requires i < |q| && k < |q| && k != i && Distinct(q) && forall j :: 0 <= j < |q| ==> q[j] < |memory|
    requires memory[q[k]] == Links(Before(q, k), After(q, k))
    ensures Unlinked(memory, q, i)[q[k]] ==
      Links(if k == i + 1 then Before(q, i) else Before(q, k), if k + 1 == i then After(q, i) else After(q, k))
  {
    hide Before, After;
  }

  /* ---- all lists ---- */

  function Inserted(memory: seq<Word>, q: seq<nat>, u: nat): seq<Word>
    requires u < |memory| && (q != [] ==> q[0] < |memory|)
  {
    if q == [] then memory[u := Links(None, None)]
    else memory[u := Links(None, Some(q[0]))][q[0] := Links(Some(u), After(q, 0))]
  }

  lemma InsertLists(m: seq<nat>, memory: seq<Word>, heads: seq<Option<nat>>, mask: set<nat>, lists: seq<seq<nat>>,
                    u: nat, o: nat)
    requires ListsOk(m, memory, heads, mask, lists) && u < |m| && o < ORDERS && !IsFree(m[u])
    ensures lists[o] != [] ==> lists[o][0] < |memory| && lists[o][0] != u
    ensures lists[o] != [] ==> memory[lists[o][0]] == Links(None, After(lists[o], 0))
    ensures ListsOk(m[u := FreeEntry(o)], Inserted(memory, lists[o], u), heads[o := Some(u)], mask + {o},
                    lists[o := [u] + lists[o]])
  {
    var q := lists[o];
    assert ListOk(m, memory, q, o);
    if q != [] { assert NodeAt(memory, q, 0); assert HasBlock(m, q[0], FreeEntry(o)); }
    var m', memory', lists' := m[u := FreeEntry(o)], Inserted(memory, q, u), lists[o := [u] + q];
    InsertList(m, memory, q, o, u, memory');
    hide ListOk, NodeAt;
    forall k | 0 <= k < ORDERS ensures ListOk(m', memory', lists'[k], k) {
      if k != o {
        assert ListOk(m, memory, lists[k], k);
        OtherList(m, memory, lists[k], k, m', memory');
      }
    }
    assert forall k :: 0 <= k < ORDERS ==> HeadOk(heads[k], mask, lists[k], k);
  }

  lemma RemoveLists(m: seq<nat>, memory: seq<Word>, heads: seq<Option<nat>>, mask: set<nat>, lists: seq<seq<nat>>,
                    o: nat, i: nat)
    requires ListsOk(m, memory, heads, mask, lists) && o < ORDERS && i < |lists[o]|
    ensures var q := lists[o];
      && (forall j :: 0 <= j < |q| ==> q[j] < |memory|)
      && ListsOk(m[q[i] := 0], Unlinked(memory, q, i), if i == 0 then heads[o := After(q, 0)] else heads,
                 if |q| == 1 then mask - {o} else mask, lists[o := Without(q, i)])
  {
    var q := lists[o];
    assert ListOk(m, memory, q, o);
    assert forall j :: 0 <= j < |q| ==> HasBlock(m, q[j], FreeEntry(o));
    RemoveList(m, memory, q, o, i);
    var m', memory', lists' := m[q[i] := 0], Unlinked(memory, q, i), lists[o := Without(q, i)];
    hide ListOk, NodeAt;
    forall k | 0 <= k < ORDERS ensures ListOk(m', memory', lists'[k], k) {
      if k != o {
        assert ListOk(m, memory, lists[k], k);
        OtherList(m, memory, lists[k], k, m', memory');
      }
    }
    var heads' := if i == 0 then heads[o := After(q, 0)] else heads;
    var mask' := if |q| == 1 then mask - {o} else mask;
    forall k | 0 <= k < ORDERS
      ensures HeadOk(heads'[k], mask', lists'[k], k)
    {
      assert HeadOk(heads[k], mask, lists[k], k);
    }
  }
}
