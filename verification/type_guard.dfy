/** Type-guarded mutation: checking types alone keeps every object graph free of
    cycles, for any number of types and objects. */
module TypeGuard {
  import opened Graph

  /** An owning edge the language lets a program create: a constructor points only
      at completed, earlier objects; a mutation is allowed on a mutable type when
      the element's type cannot lead back to the receiver's. `born` orders the
      objects by their construction. */
  ghost predicate Permitted(types: Graph, mutable: set<nat>, typeOf: seq<nat>, born: seq<nat>, a: nat, b: nat) {
    && a < |typeOf| == |born| && b < |typeOf| && Edge(types, typeOf[a], typeOf[b])
    && (born[b] < born[a] || (typeOf[a] in mutable && !Reaches(types, typeOf[b], typeOf[a])))
  }

  ghost predicate Guarded(types: Graph, mutable: set<nat>, typeOf: seq<nat>, born: seq<nat>, g: Graph) {
    && |g| == |typeOf| == |born|
    && (forall a, b :: 0 <= a < |g| && b in g[a] ==> b < |g|)
    && (forall a, b :: Edge(g, a, b) ==> Permitted(types, mutable, typeOf, born, a, b))
  }

  function TypePath(typeOf: seq<nat>, p: seq<nat>): seq<nat>
    requires forall i :: 0 <= i < |p| ==> p[i] < |typeOf|
  {
    seq(|p|, i requires 0 <= i < |p| => typeOf[p[i]])
  }

  lemma PathInRange(g: Graph, p: seq<nat>)
    requires Path(g, p)
    ensures forall i :: 0 <= i < |p| ==> p[i] < |g|
  {
    forall i | 0 <= i < |p| ensures p[i] < |g| {
      if i > 0 { assert Edge(g, p[i - 1], p[i]); }
    }
  }

  lemma TypePathIsPath(types: Graph, mutable: set<nat>, typeOf: seq<nat>, born: seq<nat>, g: Graph, p: seq<nat>)
    requires Guarded(types, mutable, typeOf, born, g) && Path(g, p) && |p| > 1
    ensures forall i :: 0 <= i < |p| ==> p[i] < |typeOf|
    ensures Path(types, TypePath(typeOf, p))
  {
    PathInRange(g, p);
    var q := TypePath(typeOf, p);
    forall i | 0 < i < |p| ensures Edge(types, q[i - 1], q[i]) {
      assert Edge(g, p[i - 1], p[i]);
      assert Permitted(types, mutable, typeOf, born, p[i - 1], p[i]);
    }
    assert Edge(types, q[0], q[1]);
  }

  /** Along a cycle every type leads back to the one before it. */
  lemma CycleLeadsBack(g: Graph, q: seq<nat>, i: nat)
    requires Cycle(g, q) && 0 < i < |q|
    ensures Reaches(g, q[i], q[i - 1])
  {
    var back := q[i..] + q[1..i];
    assert back[|back| - 1] == q[i - 1] by {
      if i == 1 { assert back == q[1..]; }
    }
    SubPath(g, q, i, |q|);
    forall k | 0 < k < |back| ensures Edge(g, back[k - 1], back[k]) {
      if k < |q| - i {
        assert Edge(g, q[i + k - 1], q[i + k]);
      } else {
        var m := k - (|q| - i) + 1;
        assert back[k] == q[m] && back[k - 1] == q[m - 1];
        assert Edge(g, q[m - 1], q[m]);
      }
    }
    assert Path(g, back) && From(back, q[i], q[i - 1]);
  }

  /** So a cycle could only be closed by constructors, which point backwards. */
  lemma GuardKeepsAcyclic(types: Graph, mutable: set<nat>, typeOf: seq<nat>, born: seq<nat>, g: Graph)
    requires Guarded(types, mutable, typeOf, born, g)
    ensures Acyclic(g)
  {
    forall p ensures !Cycle(g, p) {
      if Cycle(g, p) {
        TypePathIsPath(types, mutable, typeOf, born, g, p);
        var q := TypePath(typeOf, p);
        forall i | 0 < i < |p| ensures born[p[i]] < born[p[i - 1]] {
          CycleLeadsBack(types, q, i);
          assert Edge(g, p[i - 1], p[i]);
          assert Permitted(types, mutable, typeOf, born, p[i - 1], p[i]);
        }
        Descending(born, p, |p| - 1);
      }
    }
  }

  lemma {:induction false} Descending(born: seq<nat>, p: seq<nat>, n: nat)
    requires 0 < n < |p| && (forall i :: 0 <= i < |p| ==> p[i] < |born|) && forall i :: 0 < i < |p| ==>
        born[p[i]] < born[p[i - 1]]
    ensures born[p[n]] < born[p[0]]
  {
    if n > 1 { Descending(born, p, n - 1); }
  }

  /* ---- whole programs ---- */

  /** Construct an object of a type over existing objects, or put an element in a
      slot of a receiver (appending when the slot is new). */
  datatype Action = Construct(ty: nat, targets: seq<nat>) | Store(receiver: nat, slot: nat, element: nat)

  datatype Program = Program(typeOf: seq<nat>, graph: Graph)

  /** Objects are numbered in the order they are constructed. */
  function Births(n: nat): seq<nat> { seq(n, i => i) }

  ghost predicate WellGuarded(types: Graph, mutable: set<nat>, m: Program) {
    Guarded(types, mutable, m.typeOf, Births(|m.typeOf|), m.graph)
  }

  ghost predicate Accepted(types: Graph, mutable: set<nat>, m: Program, act: Action)
    requires |m.graph| == |m.typeOf|
  {
    match act
    case Construct(ty, targets) =>
      forall k :: 0 <= k < |targets| ==> targets[k] < |m.typeOf| && Edge(types, ty, m.typeOf[targets[k]])
    case Store(a, slot, b) =>
      && a < |m.typeOf| && b < |m.typeOf| && slot <= |m.graph[a]|
      && Edge(types, m.typeOf[a], m.typeOf[b])
      && m.typeOf[a] in mutable && !Reaches(types, m.typeOf[b], m.typeOf[a])
  }

  function Perform(m: Program, act: Action): Program
    requires |m.graph| == |m.typeOf|
    requires act.Store? ==> act.receiver < |m.graph| && act.slot <= |m.graph[act.receiver]|
  {
    match act
    case Construct(ty, targets) => Program(m.typeOf + [ty], m.graph + [targets])
    case Store(a, slot, b) =>
      var row := m.graph[a];
      m.(graph := m.graph[a := if slot < |row| then row[slot := b] else row + [b]])
  }

  ghost predicate Runs(types: Graph, mutable: set<nat>, m: Program, acts: seq<Action>, m': Program)
    requires |m.graph| == |m.typeOf|
    decreases acts
  {
    if acts == [] then m' == m
    else Accepted(types, mutable, m, acts[0]) && Runs(types, mutable, Perform(m, acts[0]), acts[1..], m')
  }

  lemma PerformGuarded(types: Graph, mutable: set<nat>, m: Program, act: Action)
    requires WellGuarded(types, mutable, m) && Accepted(types, mutable, m, act)
    ensures WellGuarded(types, mutable, Perform(m, act))
  {
    var m' := Perform(m, act);
    forall a, b | 0 <= a < |m'.graph| && b in m'.graph[a] ensures b < |m'.graph| {
      if a < |m.graph| && b !in m.graph[a] { assert act.Store? && b == act.element; }
    }
    forall a: nat, b: nat | Edge(m'.graph, a, b)
      ensures Permitted(types, mutable, m'.typeOf, Births(|m'.typeOf|), a, b)
    {
      match act
      case Construct(ty, targets) =>
        if a < |m.graph| { assert Edge(m.graph, a, b); }
      case Store(r, slot, e) =>
        if a != r || b != e { assert Edge(m.graph, a, b); }
    }
  }

  /** Every state of every accepted program is acyclic. */
  lemma {:induction false} ProgramsStayAcyclic(types: Graph, mutable: set<nat>, m: Program, acts: seq<Action>,
                                               m': Program)
    requires WellGuarded(types, mutable, m) && Runs(types, mutable, m, acts, m')
    ensures Acyclic(m'.graph) && WellGuarded(types, mutable, m')
    decreases acts
  {
    if acts == [] {
      GuardKeepsAcyclic(types, mutable, m.typeOf, Births(|m.typeOf|), m.graph);
    } else {
      PerformGuarded(types, mutable, m, acts[0]);
      ProgramsStayAcyclic(types, mutable, Perform(m, acts[0]), acts[1..], m');
    }
  }

  /** A weaker guard, which looks only at the element's own fields. */
  ghost predicate DirectlyAccepted(types: Graph, mutable: set<nat>, m: Program, act: Action)
    requires |m.graph| == |m.typeOf| && act.Store?
  {
    var a, b := act.receiver, act.element;
    && a < |m.typeOf| && b < |m.typeOf| && act.slot <= |m.graph[a]|
    && Edge(types, m.typeOf[a], m.typeOf[b]) && m.typeOf[a] in mutable && !Edge(types, m.typeOf[b], m.typeOf[a])
  }

  /** It would not do. With `List<A>`, `A`, `List<B>` and `B` leading each to the next and
      round again, four objects constructed in order and one store it accepts make a
      cycle; the real guard rejects that store. */
  lemma DirectCheckIsUnsound()
    ensures var types: Graph := [[1], [2], [3], [0]];
      var m := Program([0, 3, 2, 1], [[], [0], [1], [2]]);
      var act := Store(0, 0, 3);
      && WellGuarded(types, {0}, m) && DirectlyAccepted(types, {0}, m, act) && !Accepted(types, {0}, m, act)
      && Perform(m, act).graph == [[3], [0], [1], [2]] && !Acyclic(Perform(m, act).graph)
  {
    var types: Graph := [[1], [2], [3], [0]];
    var m := Program([0, 3, 2, 1], [[], [0], [1], [2]]);
    forall a: nat, b: nat | Edge(m.graph, a, b) ensures Permitted(types, {0}, m.typeOf, Births(4), a, b) {
      assert a == b + 1;
    }
    assert Path(types, [1, 2, 3, 0]) && From([1, 2, 3, 0], 1, 0);
    var g := [[3], [0], [1], [2]];
    var none: seq<nat> := [];
    assert m.graph[0] == none && none + [3] == [3];
    assert m.graph[0 := [3]] == g;
    assert Perform(m, Store(0, 0, 3)).graph == g;
    assert Cycle(g, [0, 3, 2, 1, 0]);
  }
}
