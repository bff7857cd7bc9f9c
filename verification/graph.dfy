/** Finite directed graphs: paths, cycles, and the two worklist algorithms of the
    production contract model. */
module Graph {

  /** Row `i` lists the targets of node `i`, each once. */
  type Graph = seq<seq<nat>>

  ghost predicate WellFormed(g: Graph) {
    && (forall i, k :: 0 <= i < |g| && 0 <= k < |g[i]| ==> g[i][k] < |g|)
    && (forall i :: 0 <= i < |g| ==> Distinct(g[i]))
  }

  ghost predicate Distinct(row: seq<nat>) {
    forall j, k :: 0 <= j < k < |row| ==> row[j] != row[k]
  }

  predicate Edge(g: Graph, a: nat, b: nat) { a < |g| && b < |g| && b in g[a] }

  ghost predicate Path(g: Graph, p: seq<nat>) {
    p != [] && p[0] < |g| && forall i :: 0 < i < |p| ==> Edge(g, p[i - 1], p[i])
  }

  ghost predicate From(p: seq<nat>, a: nat, b: nat) { p != [] && p[0] == a && p[|p| - 1] == b }

  /** Reachability, a node reaching itself. */
  ghost predicate Reaches(g: Graph, a: nat, b: nat) {
    exists p :: Path(g, p) && From(p, a, b)
  }

  ghost predicate Cycle(g: Graph, p: seq<nat>) { |p| > 1 && Path(g, p) && p[0] == p[|p| - 1] }

  ghost predicate Acyclic(g: Graph) { forall p :: !Cycle(g, p) }

  /* ---- a nonempty set without a source contains a cycle ---- */

  lemma {:induction false} Pigeonhole(p: seq<nat>, s: set<nat>) returns (i: nat, j: nat)
    requires |p| > |s| && forall k :: 0 <= k < |p| ==> p[k] in s
    ensures i < j < |p| && p[i] == p[j]
  {
    if k :| 0 < k < |p| && p[k] == p[0] { return 0, k; }
    i, j := Pigeonhole(p[1..], s - {p[0]});
    i, j := i + 1, j + 1;
  }

  ghost predicate HasPredecessor(g: Graph, u: set<nat>, b: nat) {
    exists a :: a in u && Edge(g, a, b)
  }

  lemma ConsPath(g: Graph, a: nat, q: seq<nat>)
    requires Path(g, q) && Edge(g, a, q[0])
    ensures Path(g, [a] + q)
  {
  }

  lemma SubPath(g: Graph, p: seq<nat>, i: nat, j: nat)
    requires Path(g, p) && i < j <= |p|
    ensures Path(g, p[i..j])
  {
    if i > 0 { assert Edge(g, p[i - 1], p[i]); }
    var q := p[i..j];
    forall k | 0 < k < |q| ensures Edge(g, q[k - 1], q[k]) {
      assert Edge(g, p[i + k - 1], p[i + k]);
    }
  }

  lemma {:induction false} BackwardWalk(g: Graph, u: set<nat>, n: nat) returns (p: seq<nat>)
    requires u != {} && forall b :: b in u ==> b < |g| && HasPredecessor(g, u, b)
    ensures |p| == n + 1 && Path(g, p) && forall k :: 0 <= k < |p| ==> p[k] in u
  {
    hide Edge;
    if n == 0 {
      var b :| b in u;
      p := [b];
    } else {
      var q := BackwardWalk(g, u, n - 1);
      var a :| a in u && Edge(g, a, q[0]);
      ConsPath(g, a, q);
      p := [a] + q;
    }
  }

  lemma SourcelessIsCyclic(g: Graph, u: set<nat>)
    requires u != {} && forall b :: b in u ==> b < |g| && HasPredecessor(g, u, b)
    ensures !Acyclic(g)
  {
    hide Edge, HasPredecessor, Path;
    var p := BackwardWalk(g, u, |u|);
    var i, j := Pigeonhole(p, u);
    SubPath(g, p, i, j + 1);
    assert Cycle(g, p[i..j + 1]);
  }

  /* ---- `reachable` ---- */

  lemma {:induction false} ClosedContains(g: Graph, s: set<nat>, p: seq<nat>)
    requires Path(g, p) && p[0] in s
    requires forall a, b :: a in s && Edge(g, a, b) ==> b in s
    ensures p[|p| - 1] in s
  {
    if |p| > 1 {
      assert Edge(g, p[0], p[1]);
      ClosedContains(g, s, p[1..]);
    }
  }

  lemma ExtendReach(g: Graph, a: nat, b: nat, c: nat)
    requires Reaches(g, a, b) && Edge(g, b, c)
    ensures Reaches(g, a, c)
  {
    var p :| Path(g, p) && From(p, a, b);
    var q := p + [c];
    assert Path(g, q) && From(q, a, c);
  }

  lemma SelfReach(g: Graph, a: nat)
    requires a < |g|
    ensures Reaches(g, a, a)
  {
    assert Path(g, [a]) && From([a], a, a);
  }

  lemma SubsetSize(s: set<nat>, n: nat)
    requires forall x :: x in s ==> x < n
    ensures |s| <= n
  {
    if n == 0 {
      assert s == {};
    } else {
      SubsetSize(s - {n - 1}, n - 1);
      assert s <= (s - {n - 1}) + {n - 1};
    }
  }

  /** The worklist search, exact in both directions. */
  method Reachable(g: Graph, start: nat, goal: nat) returns (found: bool)
    requires WellFormed(g) && start < |g|
    ensures found <==> Reaches(g, start, goal)
  {
    var pending: seq<nat>, seen: set<nat> := [start], {};
    SelfReach(g, start);
    while pending != []
      invariant forall k :: 0 <= k < |pending| ==> pending[k] < |g| && Reaches(g, start, pending[k])
      invariant forall x :: x in seen ==> x < |g|
      invariant start in seen || start in pending
      invariant goal !in seen
      invariant forall a, b :: a in seen && Edge(g, a, b) ==> b in seen || b in pending
      decreases |g| - |seen|, |pending|
    {
      var node := pending[|pending| - 1];
      var rest := pending[..|pending| - 1];
      assert pending == rest + [node];
      if node == goal { return true; }
      if node !in seen {
        SubsetSize(seen + {node}, |g|);
        forall k | 0 <= k < |g[node]| ensures Reaches(g, start, g[node][k]) {
          ExtendReach(g, start, node, g[node][k]);
        }
        seen := seen + {node};
        pending := rest + g[node];
      } else {
        pending := rest;
      }
    }
    if Reaches(g, start, goal) {
      var p :| Path(g, p) && From(p, start, goal);
      ClosedContains(g, seen, p);
    }
    return false;
  }

  /* ---- `acyclic` (Kahn) ---- */

  /** How many nodes below `n` outside `done` have `b` as a target. */
  ghost function InDegree(g: Graph, done: set<nat>, b: nat, n: nat): nat
    requires n <= |g|
  {
    if n == 0 then 0 else InDegree(g, done, b, n - 1) + (if n - 1 !in done && b in g[n - 1] then 1 else 0)
  }

  lemma {:induction false} InDegreeVisit(g: Graph, done: set<nat>, node: nat, b: nat, n: nat)
    requires n <= |g| && node < |g| && node !in done
    ensures InDegree(g, done + {node}, b, n) ==
            InDegree(g, done, b, n) - (if node < n && b in g[node] then 1 else 0)
  {
    if n > 0 { InDegreeVisit(g, done, node, b, n - 1); }
  }

  lemma {:induction false} InDegreeWitness(g: Graph, done: set<nat>, b: nat, n: nat)
    requires n <= |g|
    ensures InDegree(g, done, b, n) > 0 <==> exists a :: 0 <= a < n && a !in done && b in g[a]
  {
    if n > 0 { InDegreeWitness(g, done, b, n - 1); }
  }

  /** `order` lists nodes so that every edge into it starts earlier in it. */
  ghost predicate Topological(g: Graph, order: seq<nat>) {
    && Distinct(order)
    && forall a, j :: 0 <= j < |order| && Edge(g, a, order[j]) ==> a in order[..j]
  }

  lemma {:induction false} TopologicalPath(g: Graph, order: seq<nat>, p: seq<nat>, j: nat)
    requires Topological(g, order) && Path(g, p) && j < |order| && order[j] == p[|p| - 1]
    ensures |p| > 1 ==> p[0] in order[..j]
    decreases |p|
  {
    if |p| > 1 {
      var q := p[..|p| - 1];
      assert Edge(g, p[|p| - 2], p[|p| - 1]);
      var i :| 0 <= i < j && order[i] == p[|p| - 2];
      TopologicalPath(g, order, q, i);
      if |q| > 1 { assert p[0] in order[..i]; assert order[..i] <= order[..j]; } else { assert order[..j][i] == p[0]; }
    }
  }

  lemma TopologicalIsAcyclic(g: Graph, order: seq<nat>)
    requires Topological(g, order) && forall a :: 0 <= a < |g| ==> a in order
    ensures Acyclic(g)
  {
    forall p ensures !Cycle(g, p) {
      if Cycle(g, p) {
        assert Edge(g, p[|p| - 2], p[|p| - 1]);
        assert p[|p| - 1] in order;
        var j :| 0 <= j < |order| && order[j] == p[|p| - 1];
        TopologicalPath(g, order, p, j);
      }
    }
  }

  ghost function Elements(order: seq<nat>): set<nat> { set x | x in order }

  /** The in-degrees that remain once `order` has been removed. */
  ghost predicate Counted(g: Graph, order: seq<nat>, counts: seq<int>) {
    |counts| == |g| && forall b :: 0 <= b < |g| ==> counts[b] == InDegree(g, Elements(order), b, |g|)
  }

  /** Exactly the unvisited nodes with no remaining predecessor wait, once. */
  ghost predicate Waiting(g: Graph, order: seq<nat>, counts: seq<int>, pending: seq<nat>)
    requires |counts| == |g|
  {
    && Distinct(pending)
    && (forall k :: 0 <= k < |pending| ==> pending[k] < |g| && pending[k] !in order && counts[pending[k]] == 0)
    && (forall b :: 0 <= b < |g| && counts[b] == 0 ==> b in order || b in pending)
  }

  method CountTargets(g: Graph) returns (counts: seq<int>)
    requires WellFormed(g)
    ensures Counted(g, [], counts)
  {
    counts := [];
    for target := 0 to |g|
      invariant |counts| == target
      invariant forall b :: 0 <= b < target ==> counts[b] == InDegree(g, Elements([]), b, |g|)
    {
      var count := 0;
      for i := 0 to |g|
        invariant count == InDegree(g, Elements([]), target, i)
      {
        if target in g[i] { count := count + 1; }
      }
      counts := counts + [count];
    }
  }

  /** Take `node` out of the graph, releasing the targets it was last to hold. */
  method Remove(g: Graph, node: nat, counts0: seq<int>, pending0: seq<nat>, ghost order: seq<nat>)
    returns (counts: seq<int>, pending: seq<nat>)
    requires WellFormed(g) && node < |g| && node !in order
    requires Counted(g, order, counts0) && counts0[node] == 0
    requires Waiting(g, order, counts0, pending0 + [node]) && Topological(g, order)
    ensures Counted(g, order + [node], counts) && Waiting(g, order + [node], counts, pending)
  {
    counts, pending := counts0, pending0;
    var row := g[node];
    assert forall k :: 0 <= k < |pending0| ==> pending0[k] == (pending0 + [node])[k];
    assert (pending0 + [node])[|pending0|] == node;
    forall b | 0 <= b < |g|
      ensures InDegree(g, Elements(order + [node]), b, |g|) == counts0[b] - (if b in row then 1 else 0)
    {
      InDegreeVisit(g, Elements(order), node, b, |g|);
      assert Elements(order + [node]) == Elements(order) + {node};
    }
    for k := 0 to |row|
      invariant |counts| == |g|
      invariant forall b :: 0 <= b < |g| ==> counts[b] == counts0[b] - (if b in row[..k] then 1 else 0)
      invariant Waiting(g, order + [node], counts, pending)
    {
      var target := row[k];
      assert row[..k + 1] == row[..k] + [target];
      assert target !in row[..k];
      InDegreeWitness(g, Elements(order), target, |g|);
      assert counts[target] > 0;
      assert Edge(g, node, target);
      assert target !in order;
      counts := counts[target := counts[target] - 1];
      if counts[target] == 0 { pending := pending + [target]; }
    }
    assert row[..|row|] == row;
  }

  /** Kahn's algorithm, exact in both directions. */
  method IsAcyclic(g: Graph) returns (ok: bool)
    requires WellFormed(g)
    ensures ok <==> Acyclic(g)
  {
    var counts := CountTargets(g);
    var pending: seq<nat> := [];
    for i := 0 to |g|
      invariant Distinct(pending)
      invariant forall k :: 0 <= k < |pending| ==> pending[k] < i && counts[pending[k]] == 0
      invariant forall b :: 0 <= b < i && counts[b] == 0 ==> b in pending
    {
      if counts[i] == 0 { pending := pending + [i]; }
    }
    var visited := 0;
    ghost var order: seq<nat> := [];
    while pending != []
      invariant Counted(g, order, counts) && Waiting(g, order, counts, pending)
      invariant Topological(g, order) && forall k :: 0 <= k < |order| ==> order[k] < |g|
      invariant visited == |order| <= |g|
      decreases |g| - |order|
    {
      var node := pending[|pending| - 1];
      var rest := pending[..|pending| - 1];
      assert pending == rest + [node];
      NoEarlierEdge(g, order, counts, node);
      counts, pending := Remove(g, node, counts, rest, order);
      visited := visited + 1;
      order := order + [node];
      DistinctSize(order, |g|);
    }
    ok := visited == |g|;
    if ok { Everything(order, |g|); TopologicalIsAcyclic(g, order); }
    else { Leftover(g, order, counts); }
  }

  lemma NoEarlierEdge(g: Graph, order: seq<nat>, counts: seq<int>, node: nat)
    requires Counted(g, order, counts) && Topological(g, order)
    requires node < |g| && node !in order && counts[node] == 0
    ensures Topological(g, order + [node])
  {
    var after := order + [node];
    forall a, j | 0 <= j < |after| && Edge(g, a, after[j]) ensures a in after[..j] {
      if j < |order| {
        assert after[..j] == order[..j];
      } else {
        InDegreeWitness(g, Elements(order), node, |g|);
        assert after[..j] == order;
      }
    }
  }

  lemma {:induction false} DistinctSize(order: seq<nat>, n: nat)
    requires Distinct(order) && forall k :: 0 <= k < |order| ==> order[k] < n
    ensures |order| <= n && |Elements(order)| == |order|
  {
    if order != [] {
      var m := |order| - 1;
      DistinctSize(order[..m], n);
      assert Elements(order) == Elements(order[..m]) + {order[m]};
    }
    SubsetSize(Elements(order), n);
  }

  /** A duplicate-free list of `n` nodes below `n` holds them all. */
  lemma Everything(order: seq<nat>, n: nat)
    requires Distinct(order) && |order| == n && forall k :: 0 <= k < |order| ==> order[k] < n
    ensures forall a :: 0 <= a < n ==> a in order
  {
    forall a | 0 <= a < n ensures a in order {
      if a !in order { DistinctSize(order + [a], n); }
    }
  }

  /** What Kahn leaves over has no source, so it holds a cycle. */
  lemma Leftover(g: Graph, order: seq<nat>, counts: seq<int>)
    requires WellFormed(g) && Counted(g, order, counts) && Waiting(g, order, counts, []) && |order| < |g|
    requires Distinct(order) && forall k :: 0 <= k < |order| ==> order[k] < |g|
    ensures !Acyclic(g)
  {
    var u := set b | 0 <= b < |g| && b !in order;
    if u == {} {
      forall b | 0 <= b < |g| ensures b in Elements(order) {
        assert b !in u;
      }
      AllSize(Elements(order), |g|);
      DistinctSize(order, |g|);
      assert false;
    }
    forall b | b in u ensures HasPredecessor(g, u, b) {
      InDegreeWitness(g, Elements(order), b, |g|);
      var a :| 0 <= a < |g| && a !in Elements(order) && b in g[a];
      assert a in u && Edge(g, a, b);
    }
    SourcelessIsCyclic(g, u);
  }

  lemma AllSize(s: set<nat>, n: nat)
    requires forall b :: 0 <= b < n ==> b in s
    ensures |s| >= n
  {
    if n > 0 {
      AllSize(s - {n - 1}, n - 1);
    }
  }
}
