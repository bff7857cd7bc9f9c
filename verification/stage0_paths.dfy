/** Every path through the emitted blocks, whichever way its branches go: no path
    uses a register before defining it, loads a local before storing it, jumps to a
    missing label, or enters a phi from a block it does not name. */
module Stage0Paths {
  import opened Wrappers
  import opened Stage0Source
  import opened Stage0Check
  import opened Stage0Emit
  import opened Stage0Machine
  import opened Stage0Correct
  import opened Stage0Statements
  import opened Stage0Shape
  import opened Stage0Program

  /** A path under way: where it is, what it has defined and stored, and which way
      its next branches go. It pauses when they run out. */
  datatype Walk =
    | Walking(pc: nat, previous: Label, block: Label, defined: set<Thing>, stored: set<nat>, choices: seq<bool>)
    | Finished
    | Paused
    | Astray

  function Register(v: Operand): set<Thing> {
    match v case Constant(_) => {} case Temporary(n) => {ValueRegister(n)}
  }

  /** The registers a line reads, wherever control came from. */
  function Needs(line: Line): set<Thing> {
    match line
    case StoreTo(v, _) => Register(v)
    case Flip(_, v) => Register(v)
    case WithOverflow(_, _, a, b) => Register(a) + Register(b)
    case ExtractValue(t) => {CheckedRegister(t)}
    case ExtractOverflow(t) => {CheckedRegister(t)}
    case CheckOverflow(t) => {OverflowRegister(t)}
    case CheckDivision(a, b) => Register(a) + Register(b)
    case DivideInto(_, _, a, b) => Register(a) + Register(b)
    case Compare(_, _, a, b) => Register(a) + Register(b)
    case Truncate(_, v) => Register(v)
    case JumpIf(v, _, _) => Register(v)
    case Ret(v) => Register(v)
    case RetExit(v) => Register(v)
    case _ => {}
  }

  function Defined(line: Line): set<Thing> {
    if Defines(line).Some? then {Defines(line).value} else {}
  }

  function Advance(w: Walk, line: Line): Walk
    requires w.Walking?
  {
    w.(pc := w.pc + 1, defined := w.defined + Defined(line))
  }

  function Enter(p: seq<Line>, w: Walk, name: Label): Walk
    requires w.Walking?
  {
    var i := FindLabel(p, name);
    if i.Some? then w.(pc := i.value + 1, previous := w.block, block := name) else Astray
  }

  function WalkStep(p: seq<Line>, w: Walk): Walk {
    if !w.Walking? then w
    else if w.pc >= |p| || !(Needs(p[w.pc]) <= w.defined) then Astray
    else
      match p[w.pc]
      case At(_) => Astray
      case Unreachable => Astray
      case Load(_, i) => if i in w.stored then Advance(w, p[w.pc]) else Astray
      case StoreTo(_, i) => w.(pc := w.pc + 1, stored := w.stored + {i})
      case Phi(_, a, fromA, b, fromB) =>
        if (w.previous == fromA && Register(a) <= w.defined) ||
          (w.previous != fromA && w.previous == fromB && Register(b) <= w.defined)
        then Advance(w, p[w.pc]) else Astray
      case Jump(target) => Enter(p, w, target)
      case JumpIf(_, yes, no) =>
        if w.choices == [] then Paused
        else Enter(p, w.(choices := w.choices[1..]), if w.choices[0] then yes else no)
      case Ret(_) => Finished
      case RetVoid => Finished
      case RetExit(_) => Finished
      case _ => Advance(w, p[w.pc])
  }

  function Walks(p: seq<Line>, w: Walk, n: nat): Walk {
    if n == 0 then w else WalkStep(p, Walks(p, w, n - 1))
  }

  lemma {:induction false} Onward(p: seq<Line>, w: Walk, m: nat, n: nat)
    ensures Walks(p, Walks(p, w, m), n) == Walks(p, w, m + n)
  {
    hide WalkStep;
    if n > 0 { Onward(p, w, m, n - 1); }
  }

  lemma {:induction false} Settled(p: seq<Line>, w: Walk, m: nat, n: nat)
    requires m <= n && !Walks(p, w, m).Walking?
    ensures Walks(p, w, n) == Walks(p, w, m)
    decreases n
  {
    if m < n { Settled(p, w, m, n - 1); }
  }

  lemma OneOn(p: seq<Line>, w: Walk)
    ensures Walks(p, w, 1) == WalkStep(p, w)
  {
    assert Walks(p, w, 0) == w;
  }

  /** The path has ended or paused, or stands at `pc` having lost nothing. */
  ghost predicate Went(w: Walk, w': Walk, pc: nat, block: Label) {
    && w.Walking?
    && (w'.Finished? || w'.Paused?
        || (w'.Walking? && w'.pc == pc && w'.block == block && w.defined <= w'.defined && w.stored <= w'.stored
            && |w'.choices| <= |w.choices|))
  }

  /* ---- straight lines ---- */

  predicate Simple(line: Line) {
    !line.At? && !line.Unreachable? && !line.StoreTo? && !line.Phi? && !IsTerminator(line)
  }

  /** What is defined after simple lines that only use what is there. */
  function Flow(code: seq<Line>, defined: set<Thing>, stored: set<nat>): Option<set<Thing>> {
    if code == [] then Some(defined)
    else if Simple(code[0]) && Needs(code[0]) <= defined && (code[0].Load? ==> code[0].i in stored)
    then Flow(code[1..], defined + Defined(code[0]), stored)
    else None
  }

  lemma SimpleStep(p: seq<Line>, w: Walk, line: Line)
    requires w.Walking? && w.pc < |p| && p[w.pc] == line && Simple(line) && Needs(line) <= w.defined &&
        (line.Load? ==> line.i in w.stored)
    ensures Walks(p, w, 1) == Advance(w, line)
  {
    hide Needs;
    OneOn(p, w);
  }

  lemma {:induction false} StraightWalks(p: seq<Line>, w: Walk, code: seq<Line>)
    requires w.Walking? && Placed(p, w.pc, code) && Flow(code, w.defined, w.stored).Some?
    ensures Walks(p, w, |code|) == w.(pc := w.pc + |code|, defined := Flow(code, w.defined, w.stored).value)
    decreases |code|
  {
    hide WalkStep, Placed, Needs, Simple, Defined, Walks;
    if code == [] { NoSteps(p, w); return; }
    PlacedLine(p, w.pc, code, 0);
    SimpleStep(p, w, code[0]);
    assert code == [code[0]] + code[1..];
    PlacedSplit(p, w.pc, [code[0]], code[1..]);
    StraightWalks(p, Advance(w, code[0]), code[1..]);
    Onward(p, w, 1, |code| - 1);
  }

  lemma NoSteps(p: seq<Line>, w: Walk)
    ensures Walks(p, w, 0) == w
  {
  }

  lemma {:induction false} FlowKeeps(code: seq<Line>, defined: set<Thing>, stored: set<nat>)
    requires Flow(code, defined, stored).Some?
    ensures defined <= Flow(code, defined, stored).value
  {
    if code != [] { FlowKeeps(code[1..], defined + Defined(code[0]), stored); }
  }

  /** Straight-line code leaves the path at its end. */
  lemma StraightWent(p: seq<Line>, w: Walk, code: seq<Line>) returns (n: nat)
    requires w.Walking? && Placed(p, w.pc, code) && Flow(code, w.defined, w.stored).Some?
    ensures var w' := Walks(p, w, n);
      Went(w, w', w.pc + |code|, w.block) && w'.Walking? && w'.defined == Flow(code, w.defined, w.stored).value
  {
    StraightWalks(p, w, code);
    FlowKeeps(code, w.defined, w.stored);
    n := |code|;
  }

  lemma OneFlows(line: Line, defined: set<Thing>, stored: set<nat>)
    requires Simple(line) && Needs(line) <= defined && (line.Load? ==> line.i in stored)
    ensures Flow([line], defined, stored) == Some(defined + Defined(line))
  {
    assert Flow([], defined + Defined(line), stored) == Some(defined + Defined(line));
  }

  lemma {:induction false} FlowSplit(a: seq<Line>, b: seq<Line>, defined: set<Thing>, stored: set<nat>)
    requires Flow(a, defined, stored).Some?
    ensures Flow(a + b, defined, stored) == Flow(b, Flow(a, defined, stored).value, stored)
    decreases |a|
  {
    if a == [] {
      assert a + b == b;
    } else {
      assert (a + b)[1..] == a[1..] + b;
      FlowSplit(a[1..], b, defined + Defined(a[0]), stored);
    }
  }

  lemma TwoFlow(a: Line, b: Line, defined: set<Thing>, stored: set<nat>)
    requires Simple(a) && !a.Load? && Needs(a) <= defined && Simple(b) && !b.Load? && Needs(b) <= defined + Defined(a)
    ensures Flow([a, b], defined, stored) == Some(defined + Defined(a) + Defined(b))
  {
    OneFlows(a, defined, stored);
    OneFlows(b, defined + Defined(a), stored);
    FlowSplit([a], [b], defined, stored);
    assert [a, b] == [a] + [b];
  }

  lemma CheckedFlows(t: nat, op: Operator, a: Operand, b: Operand, defined: set<Thing>, stored: set<nat>)
    requires Register(a) <= defined && Register(b) <= defined
    ensures var f := Flow(CheckedLines(t, op, a, b), defined, stored); f.Some? && ValueRegister(t) in f.value
  {
    var code := CheckedLines(t, op, a, b);
    assert code == [code[0], code[1]] + [code[2], code[3]];
    TwoFlow(code[0], code[1], defined, stored);
    var middle := defined + {CheckedRegister(t)} + {ValueRegister(t)};
    TwoFlow(code[2], code[3], middle, stored);
    FlowSplit([code[0], code[1]], [code[2], code[3]], defined, stored);
  }

  lemma OperatorFlow(t: nat, op: Operator, a: Operand, b: Operand, defined: set<Thing>, stored: set<nat>)
    requires Register(a) <= defined && Register(b) <= defined && !IsLogical(op)
    ensures var f := Flow(OperatorLines(t, op, a, b), defined, stored); f.Some? && ValueRegister(t) in f.value
  {
    hide CheckedLines, Flow;
    if IsArithmetic(op) { CheckedFlows(t, op, a, b, defined, stored); }
    else if IsDivision(op) { TwoFlow(CheckDivision(a, b), DivideInto(t, op, a, b), defined, stored); }
    else { OneFlows(Compare(t, op, a, b), defined, stored); }
  }

  /* ---- jumps ---- */

  lemma EnterLands(p: seq<Line>, w: Walk, i: nat, name: Label)
    requires w.Walking? && Unique(p) && i < |p| && p[i] == At(name)
    ensures Enter(p, w, name) == w.(pc := i + 1, previous := w.block, block := name)
  {
    FoundAt(p, i, name);
  }

  lemma JumpWalks(p: seq<Line>, w: Walk, target: Label, i: nat)
    requires w.Walking? && Unique(p) && w.pc < |p| && p[w.pc] == Jump(target) && i < |p| && p[i] == At(target)
    ensures Walks(p, w, 1) == w.(pc := i + 1, previous := w.block, block := target)
  {
    OneOn(p, w);
    EnterLands(p, w, i, target);
  }

  /** A conditional jump goes the way the path chooses. */
  lemma JumpIfWalks(p: seq<Line>, w: Walk, v: Operand, yes: Label, no: Label, i: nat, j: nat)
    requires w.Walking? && Unique(p) && w.pc < |p| && p[w.pc] == JumpIf(v, yes, no) && Register(v) <= w.defined
    requires i < |p| && p[i] == At(yes) && j < |p| && p[j] == At(no)
    ensures Walks(p, w, 1) ==
      if w.choices == [] then Paused
      else if w.choices[0] then w.(pc := i + 1, previous := w.block, block := yes, choices := w.choices[1..])
      else w.(pc := j + 1, previous := w.block, block := no, choices := w.choices[1..])
  {
    OneOn(p, w);
    if w.choices != [] {
      EnterLands(p, w.(choices := w.choices[1..]), i, yes);
      EnterLands(p, w.(choices := w.choices[1..]), j, no);
    }
  }

  lemma PhiWalks(p: seq<Line>, w: Walk, t: nat, a: Operand, x: Label, b: Operand, y: Label)
    requires w.Walking? && w.pc < |p| && p[w.pc] == Phi(t, a, x, b, y)
    requires (w.previous == x && Register(a) <= w.defined) ||
        (w.previous != x && w.previous == y && Register(b) <= w.defined)
    ensures Walks(p, w, 1) == w.(pc := w.pc + 1, defined := w.defined + {ValueRegister(t)})
  {
    OneOn(p, w);
  }

  /* ---- expressions ---- */

  /** Every slot an expression reads has been stored. */
  predicate Reads(e: Code, stored: set<nat>) {
    match e
    case Slot(i) => i in stored
    case NotCode(e) => Reads(e, stored)
    case NegateCode(e) => Reads(e, stored)
    case BinaryCode(_, left, right) => Reads(left, stored) && Reads(right, stored)
    case _ => true
  }

  lemma {:induction false} ReadsMore(e: Code, stored: set<nat>, more: set<nat>)
    requires Reads(e, stored) && stored <= more
    ensures Reads(e, more)
  {
    match e
    case NotCode(e) => ReadsMore(e, stored, more);
    case NegateCode(e) => ReadsMore(e, stored, more);
    case BinaryCode(_, left, right) =>
      ReadsMore(left, stored, more);
      ReadsMore(right, stored, more);
    case _ =>
  }

  ghost predicate WentTo(w: Walk, w': Walk, m: Emission, v: Operand) {
    && w.Walking? && Went(w, w', w.pc + |m.lines|, m.block)
    && (w'.Walking? ==> Register(v) <= w'.defined)
  }

  /** Along every path, an expression's code ends with its operand defined. */
  lemma {:induction false} ExpressionWalks(p: seq<Line>, w: Walk, e: Code, t: nat, l: nat) returns (n: nat)
    requires w.Walking? && Number(w.block) < l && Unique(p) && Reads(e, w.stored)
    requires Placed(p, w.pc, Emit(e, t, l, w.block).0.lines)
    ensures var (m, v) := Emit(e, t, l, w.block); WentTo(w, Walks(p, w, n), m, v)
    decreases e, 1
  {
    hide WalkStep, Flow, Unique, Placed;
    match e
    case IntegerConstant(_) => n := 0;
    case BooleanConstant(_) => n := 0;
    case Slot(i) =>
      OneFlows(Load(t, i), w.defined, w.stored);
      n := StraightWent(p, w, [Load(t, i)]);
    case NotCode(e') => n := UnaryWalks(p, w, e, e', t, l);
    case NegateCode(e') => n := UnaryWalks(p, w, e, e', t, l);
    case BinaryCode(op, _, _) =>
      if IsLogical(op) { n := LogicalWalks(p, w, e, t, l); } else { n := StrictWalks(p, w, e, t, l); }
  }

  lemma {:induction false} UnaryWalks(p: seq<Line>, w: Walk, e: Code, e': Code, t: nat, l: nat) returns (n: nat)
    requires w.Walking? && Number(w.block) < l && Unique(p) && Reads(e, w.stored) &&
        (e == NotCode(e') || e == NegateCode(e'))
    requires Placed(p, w.pc, Emit(e, t, l, w.block).0.lines)
    ensures var (m, v) := Emit(e, t, l, w.block); WentTo(w, Walks(p, w, n), m, v)
    decreases e, 0
  {
    hide WalkStep, Flow, Unique, Placed, Emit, CheckedLines;
    EmitUnary(e', t, l, w.block);
    var (m, v) := Emit(e', t, l, w.block);
    var zero := Constant(IntegerValue(0));
    var last := if e.NotCode? then [Flip(m.temp, v)] else CheckedLines(m.temp, Subtract, zero, v);
    PlacedSplit(p, w.pc, m.lines, last);
    n := ExpressionWalks(p, w, e', t, l);
    var w1 := Walks(p, w, n);
    if w1.Walking? {
      if e.NotCode? { OneFlows(Flip(m.temp, v), w1.defined, w1.stored); }
      else { CheckedFlows(m.temp, Subtract, zero, v, w1.defined, w1.stored); }
      var k := StraightWent(p, w1, last);
      Onward(p, w, n, k);
      n := n + k;
    }
  }

  lemma {:induction false} StrictWalks(p: seq<Line>, w: Walk, e: Code, t: nat, l: nat) returns (n: nat)
    requires w.Walking? && Number(w.block) < l && Unique(p) && Reads(e, w.stored) && e.BinaryCode? && !IsLogical(e.op)
    requires Placed(p, w.pc, Emit(e, t, l, w.block).0.lines)
    ensures var (m, v) := Emit(e, t, l, w.block); WentTo(w, Walks(p, w, n), m, v)
    decreases e, 0
  {
    hide WalkStep, Flow, Unique, Placed, OperatorLines;
    var (m, v) := Emit(e.left, t, l, w.block);
    var (k, x) := Emit(e.right, m.temp, m.labels, m.block);
    var last := OperatorLines(k.temp, e.op, v, x);
    PlacedSplit(p, w.pc, m.lines, k.lines + last);
    n := ExpressionWalks(p, w, e.left, t, l);
    EmitBlock(e.left, t, l, w.block, Number(w.block));
    var w1 := Walks(p, w, n);
    if w1.Walking? {
      PlacedSplit(p, w1.pc, k.lines, last);
      ReadsMore(e.right, w.stored, w1.stored);
      var n' := ExpressionWalks(p, w1, e.right, m.temp, m.labels);
      Onward(p, w, n, n');
      n := n + n';
      var w2 := Walks(p, w, n);
      if w2.Walking? {
        OperatorFlow(k.temp, e.op, v, x, w2.defined, w2.stored);
        var n'' := StraightWent(p, w2, last);
        Onward(p, w, n, n'');
        n := n + n'';
      }
    }
  }

  lemma {:induction false} LogicalWalks(p: seq<Line>, w: Walk, e: Code, t: nat, l: nat) returns (n: nat)
    requires w.Walking? && Number(w.block) < l && Unique(p) && Reads(e, w.stored) && e.BinaryCode? && IsLogical(e.op)
    requires Placed(p, w.pc, Emit(e, t, l, w.block).0.lines)
    ensures var (m, v) := Emit(e, t, l, w.block); WentTo(w, Walks(p, w, n), m, v)
    decreases e, 0
  {
    hide WalkStep, LogicalHead, LogicalTail, Unique, Placed, Emit;
    EmitLogical(e, t, l, w.block);
    var (m, v) := Emit(e.left, t, l, w.block);
    var (k, x) := Emit(e.right, m.temp, m.labels + 2, LogicalRight(m.labels));
    var head, tail := LogicalHead(e.op, v, m.labels), LogicalTail(e.op, m.labels, k.temp, m.block, x, k.block);
    PlacedSplit(p, w.pc, m.lines, head + (k.lines + tail));
    n := ExpressionWalks(p, w, e.left, t, l);
    EmitBlock(e.left, t, l, w.block, Number(w.block));
    var w1 := Walks(p, w, n);
    if w1.Walking? {
      ReadsMore(e.right, w.stored, w1.stored);
      var k' := RightWalks(p, w1, e, v, m.temp, m.labels);
      Onward(p, w, n, k');
      n := n + k';
      LogicalLength(e, t, l, w.block);
    }
  }

  /** Both ways into the phi bring the operand it will pick. */
  lemma {:induction false} RightWalks(p: seq<Line>, w: Walk, e: Code, v: Operand, t: nat, n: nat) returns (count: nat)
    requires w.Walking? && Number(w.block) < n && Unique(p) && e.BinaryCode? && IsLogical(e.op)
    requires Reads(e.right, w.stored) && Register(v) <= w.defined
    requires var (k, x) := Emit(e.right, t, n + 2, LogicalRight(n));
      Placed(p, w.pc, LogicalHead(e.op, v, n) + (k.lines + LogicalTail(e.op, n, k.temp, w.block, x, k.block)))
    ensures var (k, x) := Emit(e.right, t, n + 2, LogicalRight(n)); var w' := Walks(p, w, count);
      Went(w, w', w.pc + 5 + |k.lines|, LogicalEnd(n + 1)) && (w'.Walking? ==> ValueRegister(k.temp) in w'.defined)
    decreases e.right, 2
  {
    hide LogicalHead, LogicalTail, Emit, WalkStep, Unique, Placed;
    var (k, x) := Emit(e.right, t, n + 2, LogicalRight(n));
    LogicalPlaces(p, w.pc, e.op, v, n, k.lines, k.temp, w.block, x, k.block);
    var end := w.pc + 3 + |k.lines|;
    var decided := Constant(BooleanValue(e.op == Or));
    if e.op == And { JumpIfWalks(p, w, v, LogicalRight(n), LogicalEnd(n + 1), w.pc + 1, end); }
    else { JumpIfWalks(p, w, v, LogicalEnd(n + 1), LogicalRight(n), end, w.pc + 1); }
    count := 1;
    if w.choices == [] { return; }
    var w1 := Walks(p, w, 1);
    if w1.block == LogicalEnd(n + 1) {
      PhiWalks(p, w1, k.temp, decided, w.block, x, k.block);
      Onward(p, w, 1, 1);
      return 2;
    }
    var i := ExpressionWalks(p, w1, e.right, t, n + 2);
    Onward(p, w, 1, i);
    count := 1 + i;
    var w2 := Walks(p, w, count);
    if w2.Walking? {
      EmitBlock(e.right, t, n + 2, LogicalRight(n), n);
      JumpWalks(p, w2, LogicalEnd(n + 1), end);
      PhiWalks(p, Walks(p, w2, 1), k.temp, decided, w.block, x, k.block);
      Onward(p, w2, 1, 1);
      Onward(p, w, count, 2);
      count := count + 2;
    }
  }

  /* ---- statements ---- */

  /** Every slot is stored before it is read, on every way through. */
  predicate Covered(c: Command, stored: set<nat>)
    decreases c, 0
  {
    match c
    case Store(_, e) => Reads(e, stored)
    case Discard(e) => Reads(e, stored)
    case Give(r) => r.Some? ==> Reads(r.value, stored)
    case Branch(e, thenBody, elseBody) => Reads(e, stored) && AllCovered(thenBody, stored) &&
      AllCovered(elseBody, stored)
    case Loop(e, body) => Reads(e, stored) && AllCovered(body, stored)
  }

  predicate AllCovered(cs: seq<Command>, stored: set<nat>)
    decreases cs, 1
  {
    cs == [] || (Covered(cs[0], stored) && AllCovered(cs[1..], if cs[0].Store? then stored + {cs[0].i} else stored))
  }

  lemma {:induction false} CoveredMore(c: Command, stored: set<nat>, more: set<nat>)
    requires Covered(c, stored) && stored <= more
    ensures Covered(c, more)
    decreases c, 0
  {
    match c
    case Store(_, e) => ReadsMore(e, stored, more);
    case Discard(e) => ReadsMore(e, stored, more);
    case Give(r) => if r.Some? { ReadsMore(r.value, stored, more); }
    case Branch(e, thenBody, elseBody) =>
      ReadsMore(e, stored, more);
      AllCoveredMore(thenBody, stored, more);
      AllCoveredMore(elseBody, stored, more);
    case Loop(e, body) =>
      ReadsMore(e, stored, more);
      AllCoveredMore(body, stored, more);
  }

  lemma {:induction false} AllCoveredMore(cs: seq<Command>, stored: set<nat>, more: set<nat>)
    requires AllCovered(cs, stored) && stored <= more
    ensures AllCovered(cs, more)
    decreases cs, 1
  {
    if cs != [] {
      CoveredMore(cs[0], stored, more);
      if cs[0].Store? { AllCoveredMore(cs[1..], stored + {cs[0].i}, more + {cs[0].i}); }
      else { AllCoveredMore(cs[1..], stored, more); }
    }
  }

  /** The path through a statement: past it unless it returned. */
  ghost predicate Passed(w: Walk, w': Walk, m: Emission, returned: bool) {
    w.Walking? && Went(w, w', w.pc + |m.lines|, m.block) && (returned ==> !w'.Walking?)
  }

  lemma StoreWalks(p: seq<Line>, w: Walk, v: Operand, i: nat)
    requires w.Walking? && Placed(p, w.pc, [StoreTo(v, i)]) && Register(v) <= w.defined
    ensures Walks(p, w, 1) == w.(pc := w.pc + 1, stored := w.stored + {i})
  {
    PlacedLine(p, w.pc, [StoreTo(v, i)], 0);
    OneOn(p, w);
  }

  lemma ReturnWalks(p: seq<Line>, w: Walk, isMain: bool, t: nat, v: Operand) returns (n: nat)
    requires w.Walking? && Placed(p, w.pc, ReturnLines(isMain, t, v)) && Register(v) <= w.defined
    ensures Walks(p, w, n) == Finished
  {
    PlacedLine(p, w.pc, ReturnLines(isMain, t, v), 0);
    OneOn(p, w);
    n := 1;
    if isMain {
      PlacedLine(p, w.pc, ReturnLines(isMain, t, v), 1);
      OneOn(p, WalkStep(p, w));
      Onward(p, w, 1, 1);
      n := 2;
    }
  }

  lemma VoidWalks(p: seq<Line>, w: Walk)
    requires w.Walking? && Placed(p, w.pc, [RetVoid])
    ensures Walks(p, w, 1) == Finished
  {
    PlacedLine(p, w.pc, [RetVoid], 0);
    OneOn(p, w);
  }

  lemma SimpleWalks(p: seq<Line>, w: Walk, cmd: Command, t: nat, l: nat, isMain: bool) returns (n: nat)
    requires w.Walking? && Number(w.block) < l && Unique(p) && Covered(cmd, w.stored) && !cmd.Branch? && !cmd.Loop?
    requires Placed(p, w.pc, EmitCommand(cmd, t, l, w.block, isMain).0.lines)
    ensures var w' := Walks(p, w, n);
      && Passed(w, w', EmitCommand(cmd, t, l, w.block, isMain).0, Returns(cmd))
      && (w'.Walking? && cmd.Store? ==> cmd.i in w'.stored)
  {
    hide WalkStep, Unique, Placed, Emit, ReturnLines, Reads;
    if cmd == Give(None) {
      VoidWalks(p, w);
      return 1;
    }
    var e := match cmd case Store(_, e) => e case Discard(e) => e case Give(r) => r.value;
    var (m, v) := Emit(e, t, l, w.block);
    match cmd {
      case Store(i, _) => PlacedSplit(p, w.pc, m.lines, [StoreTo(v, i)]);
      case Discard(_) =>
      case Give(_) => PlacedSplit(p, w.pc, m.lines, ReturnLines(isMain, m.temp, v));
    }
    n := ExpressionWalks(p, w, e, t, l);
    var w1 := Walks(p, w, n);
    if w1.Walking? {
      match cmd
      case Store(i, _) =>
        StoreWalks(p, w1, v, i);
        Onward(p, w, n, 1);
        n := n + 1;
      case Discard(_) =>
      case Give(_) =>
        var k := ReturnWalks(p, w1, isMain, m.temp, v);
        Onward(p, w, n, k);
        n := n + k;
    }
  }

  lemma {:induction false} ArmWalks(p: seq<Line>, w: Walk, cs: seq<Command>, t: nat, l: nat, isMain: bool, at: nat,
                                    target: Label) returns (n: nat)
    requires w.Walking? && Number(w.block) < l && Unique(p) && AllCovered(cs, w.stored)
    requires Placed(p, w.pc, EmitCommands(cs, t, l, w.block, isMain).0.lines)
    requires var end := w.pc + |EmitCommands(cs, t, l, w.block, isMain).0.lines|;
      !ReturnsAll(cs) ==> at < |p| && p[at] == At(target) && end < |p| && p[end] == Jump(target)
    ensures Went(w, Walks(p, w, n), at + 1, target) && (ReturnsAll(cs) ==> !Walks(p, w, n).Walking?)
    decreases |w.choices|, cs, 4
  {
    hide WalkStep, Unique, Placed, EmitCommands, ReturnsAll;
    n := CommandsWalk(p, w, cs, t, l, isMain);
    if Walks(p, w, n).Walking? {
      JumpWalks(p, Walks(p, w, n), target, at);
      Onward(p, w, n, 1);
      n := n + 1;
    }
  }

  lemma {:induction false} CommandsWalk(p: seq<Line>, w: Walk, cs: seq<Command>, t: nat, l: nat, isMain: bool)
      returns (n: nat)
    requires w.Walking? && Number(w.block) < l && Unique(p) && AllCovered(cs, w.stored)
    requires Placed(p, w.pc, EmitCommands(cs, t, l, w.block, isMain).0.lines)
    ensures Passed(w, Walks(p, w, n), EmitCommands(cs, t, l, w.block, isMain).0, ReturnsAll(cs))
    decreases |w.choices|, cs, 3
  {
    hide WalkStep, Unique, Placed, EmitCommand, Returns, Covered;
    if cs == [] { return 0; }
    var (m, returned) := EmitCommand(cs[0], t, l, w.block, isMain);
    FlagIs(cs[0], t, l, w.block, isMain);
    if returned {
      n := CommandWalks(p, w, cs[0], t, l, isMain);
      return;
    }
    var k := EmitCommands(cs[1..], m.temp, m.labels, m.block, isMain).0;
    PlacedSplit(p, w.pc, m.lines, k.lines);
    n := CommandWalks(p, w, cs[0], t, l, isMain);
    var w1 := Walks(p, w, n);
    if w1.Walking? {
      CommandGrows(cs[0], t, l, w.block, isMain);
      AllCoveredMore(cs[1..], if cs[0].Store? then w.stored + {cs[0].i} else w.stored, w1.stored);
      var n' := CommandsWalk(p, w1, cs[1..], m.temp, m.labels, isMain);
      Onward(p, w, n, n');
      n := n + n';
    }
  }

  lemma {:induction false} CommandWalks(p: seq<Line>, w: Walk, cmd: Command, t: nat, l: nat, isMain: bool)
      returns (n: nat)
    requires w.Walking? && Number(w.block) < l && Unique(p) && Covered(cmd, w.stored)
    requires Placed(p, w.pc, EmitCommand(cmd, t, l, w.block, isMain).0.lines)
    ensures var w' := Walks(p, w, n);
      && Passed(w, w', EmitCommand(cmd, t, l, w.block, isMain).0, Returns(cmd))
      && (w'.Walking? && cmd.Store? ==> cmd.i in w'.stored)
    decreases |w.choices|, cmd, 2
  {
    hide WalkStep, Unique, Placed, EmitCommand, Passed, Returns, Covered;
    if cmd.Branch? { n := BranchWalks(p, w, cmd, t, l, isMain); }
    else if cmd.Loop? { n := WhileWalks(p, w, cmd, t, l, isMain); }
    else { n := SimpleWalks(p, w, cmd, t, l, isMain); }
  }

  lemma {:induction false} BranchWalks(p: seq<Line>, w: Walk, cmd: Command, t: nat, l: nat, isMain: bool)
      returns (n: nat)
    requires w.Walking? && Number(w.block) < l && Unique(p) && Covered(cmd, w.stored) && cmd.Branch?
    requires Placed(p, w.pc, EmitCommand(cmd, t, l, w.block, isMain).0.lines)
    ensures Passed(w, Walks(p, w, n), EmitCommand(cmd, t, l, w.block, isMain).0, Returns(cmd))
    decreases |w.choices|, cmd, 1
  {
    hide WalkStep, Unique, Placed, EmitCommand, EmitCommands, Emit, BranchAt, Reads, AllCovered;
    var (m, v) := Emit(cmd.condition, t, l, w.block);
    var elseAt, endAt := BranchPlaces(p, w.pc, cmd, t, l, w.block, isMain);
    n := ExpressionWalks(p, w, cmd.condition, t, l);
    var w1 := Walks(p, w, n);
    if w1.Walking? {
      AllCoveredMore(cmd.thenBody, w.stored, w1.stored);
      AllCoveredMore(cmd.elseBody, w.stored, w1.stored);
      var k := ArmsWalk(p, w1, cmd, v, m.temp, m.labels, isMain, elseAt, endAt);
      Onward(p, w, n, k);
      n := n + k;
    }
  }

  lemma {:induction false} ArmsWalk(p: seq<Line>, w: Walk, cmd: Command, v: Operand, t: nat, n: nat, isMain: bool,
                                    elseAt: nat, endAt: nat)
    returns (count: nat)
    requires w.Walking? && Unique(p) && cmd.Branch? && Register(v) <= w.defined
    requires AllCovered(cmd.thenBody, w.stored) && AllCovered(cmd.elseBody, w.stored)
    requires var x := EmitCommands(cmd.thenBody, t, n + 3, IfThen(n), isMain).0;
      var y := EmitCommands(cmd.elseBody, x.temp, x.labels, IfElse(n + 1), isMain).0;
      BranchAt(p, w.pc, v, n, x.lines, ReturnsAll(cmd.thenBody), cmd.elseBody != [], y.lines,
               ReturnsAll(cmd.elseBody), w.pc + 1, elseAt, endAt)
    ensures Went(w, Walks(p, w, count), endAt + 1, IfEnd(n + 2)) && (Returns(cmd) ==> !Walks(p, w, count).Walking?)
    decreases |w.choices|, cmd, 0
  {
    hide WalkStep, Unique, Placed, EmitCommands, ReturnsAll, AllCovered;
    var x := EmitCommands(cmd.thenBody, t, n + 3, IfThen(n), isMain).0;
    CommandsGrow(cmd.thenBody, t, n + 3, IfThen(n), isMain);
    var hasElse := cmd.elseBody != [];
    JumpIfWalks(p, w, v, IfThen(n), if hasElse then IfElse(n + 1) else IfEnd(n + 2), w.pc + 1,
                if hasElse then elseAt else endAt);
    count := 1;
    if w.choices == [] { return; }
    var w1 := Walks(p, w, 1);
    var k := 0;
    if w.choices[0] { k := ArmWalks(p, w1, cmd.thenBody, t, n + 3, isMain, endAt, IfEnd(n + 2)); }
    else if hasElse { k := ArmWalks(p, w1, cmd.elseBody, x.temp, x.labels, isMain, endAt, IfEnd(n + 2)); }
    Onward(p, w, 1, k);
    count := 1 + k;
  }

  lemma {:induction false} WhileWalks(p: seq<Line>, w: Walk, cmd: Command, t: nat, l: nat, isMain: bool)
      returns (n: nat)
    requires w.Walking? && Number(w.block) < l && Unique(p) && Covered(cmd, w.stored) && cmd.Loop?
    requires Placed(p, w.pc, EmitCommand(cmd, t, l, w.block, isMain).0.lines)
    ensures Passed(w, Walks(p, w, n), EmitCommand(cmd, t, l, w.block, isMain).0, Returns(cmd))
    decreases |w.choices|, cmd, 1
  {
    hide WalkStep, Unique, Placed, EmitCommand, EmitCommands, Emit;
    var endAt := LoopPlaces(p, w.pc, cmd, t, l, w.block, isMain);
    JumpWalks(p, w, WhileCondition(l), w.pc + 1);
    n := LoopWalks(p, Walks(p, w, 1), cmd, t, l, isMain, w.pc, endAt);
    Onward(p, w, 1, n);
    n := 1 + n;
  }

  /** Each time round uses up one choice. */
  lemma {:induction false} LoopWalks(p: seq<Line>, w: Walk, cmd: Command, t: nat, l: nat, isMain: bool, base: nat,
                                     endAt: nat) returns (n: nat)
    requires w.Walking? && w.block == WhileCondition(l) && w.pc == base + 2 && Unique(p) && cmd.Loop?
    requires Reads(cmd.condition, w.stored) && AllCovered(cmd.body, w.stored)
    requires var (m, v) := Emit(cmd.condition, t, l + 3, WhileCondition(l));
      var x := EmitCommands(cmd.body, m.temp, m.labels, WhileBody(l + 1), isMain).0;
      LoopAt(p, base, v, l, m.lines, x.lines, ReturnsAll(cmd.body), endAt)
    ensures Went(w, Walks(p, w, n), endAt + 1, WhileEnd(l + 2))
    decreases |w.choices|, cmd.body, 5
  {
    hide WalkStep, Unique, Placed, EmitCommands, Emit, ReturnsAll, AllCovered, Reads;
    var (m, v) := Emit(cmd.condition, t, l + 3, WhileCondition(l));
    n := ExpressionWalks(p, w, cmd.condition, t, l + 3);
    EmitGrows(cmd.condition, t, l + 3, WhileCondition(l));
    var w1 := Walks(p, w, n);
    if w1.Walking? {
      JumpIfWalks(p, w1, v, WhileBody(l + 1), WhileEnd(l + 2), w1.pc + 1, endAt);
      Onward(p, w, n, 1);
      n := n + 1;
      var w2 := Walks(p, w, n);
      if w2.Walking? && w2.block == WhileBody(l + 1) {
        AllCoveredMore(cmd.body, w.stored, w2.stored);
        var k := ArmWalks(p, w2, cmd.body, m.temp, m.labels, isMain, base + 1, WhileCondition(l));
        Onward(p, w, n, k);
        n := n + k;
        var w3 := Walks(p, w, n);
        if w3.Walking? {
          ReadsMore(cmd.condition, w.stored, w3.stored);
          AllCoveredMore(cmd.body, w.stored, w3.stored);
          var k' := LoopWalks(p, w3, cmd, t, l, isMain, base, endAt);
          Onward(p, w, n, k');
          n := n + k';
        }
      }
    }
  }

  /* ---- checked functions ---- */

  /** The slots of the locals in scope. */
  function ActiveSlots(locals: seq<Local>): set<nat> {
    set i: nat | i < |locals| && locals[i].active
  }

  lemma {:induction false} CheckedReads(locals: seq<Local>, e: Expression)
    requires CheckExpression(locals, e).Some?
    ensures Reads(CheckExpression(locals, e).value.0, ActiveSlots(locals))
  {
    match e
    case Not(e) => CheckedReads(locals, e);
    case Negate(e) => CheckedReads(locals, e);
    case Binary(_, left, right) =>
      CheckedReads(locals, left);
      CheckedReads(locals, right);
    case _ =>
  }

  lemma InertSlots(locals: seq<Local>, locals': seq<Local>)
    requires Inert(locals, locals')
    ensures ActiveSlots(locals') == ActiveSlots(locals)
  {
    forall i: nat | i < |locals'| ensures i in ActiveSlots(locals') <==> i in ActiveSlots(locals) {
      if i < |locals| { assert locals'[..|locals|][i] == locals[i]; }
    }
  }

  /** A checked statement reads only locals in scope, and `let` brings its own in. */
  lemma {:induction false} CheckedCovers(locals: seq<Local>, s: Statement, result: Type)
    requires CheckStatement(locals, s, result).Some?
    ensures var (locals', c) := CheckStatement(locals, s, result).value;
      && Covered(c, ActiveSlots(locals))
      && ActiveSlots(locals') <= (if c.Store? then ActiveSlots(locals) + {c.i} else ActiveSlots(locals))
    decreases s, 0
  {
    match s
    case Let(_, _, e) => CheckedReads(locals, e);
    case Assign(_, e) => CheckedReads(locals, e);
    case Evaluate(e) => CheckedReads(locals, e);
    case Return(None) =>
    case Return(Some(e)) => CheckedReads(locals, e);
    case If(e, thenBody, elseBody) =>
      CheckedReads(locals, e);
      var mid := CheckBlock(locals, thenBody, result).value.0;
      CheckedAllCover(locals, thenBody, result);
      BlockInert(locals, thenBody, result);
      InertSlots(locals, mid);
      CheckedAllCover(mid, elseBody, result);
      BlockInert(mid, elseBody, result);
      InertSlots(mid, CheckBlock(mid, elseBody, result).value.0);
    case While(e, body) =>
      CheckedReads(locals, e);
      CheckedAllCover(locals, body, result);
      BlockInert(locals, body, result);
      InertSlots(locals, CheckBlock(locals, body, result).value.0);
  }

  lemma {:induction false} CheckedAllCover(locals: seq<Local>, ss: seq<Statement>, result: Type)
    requires CheckAll(locals, ss, result).Some?
    ensures AllCovered(CheckAll(locals, ss, result).value.1, ActiveSlots(locals))
    decreases ss, 1
  {
    if ss != [] {
      CheckedCovers(locals, ss[0], result);
      var (next, c) := CheckStatement(locals, ss[0], result).value;
      CheckedAllCover(next, ss[1..], result);
      var cs := CheckAll(next, ss[1..], result).value.1;
      hide Covered, CheckStatement, ActiveSlots;
      AllCoveredMore(cs, ActiveSlots(next), if c.Store? then ActiveSlots(locals) + {c.i} else ActiveSlots(locals));
      assert ([c] + cs)[1..] == cs;
    }
  }

  lemma {:induction false} ParameterSlots(locals: seq<Local>, parameters: seq<(string, Type)>)
    requires AddParameters(locals, parameters).Some? && ActiveSlots(locals) <= Below(|locals|)
    ensures |AddParameters(locals, parameters).value| == |locals| + |parameters|
    ensures ActiveSlots(AddParameters(locals, parameters).value) <= Below(|locals| + |parameters|)
    decreases |parameters|
  {
    if parameters != [] {
      var locals' := locals + [Local(parameters[0].0, parameters[0].1, true)];
      ParameterSlots(locals', parameters[1..]);
    }
  }

  function Below(n: nat): (s: set<nat>)
    ensures forall i: nat :: i in s <==> i < n
  {
    if n == 0 then {} else Below(n - 1) + {n - 1}
  }

  /** A path starts with the arguments stored. */
  function Setting(f: Function, choices: seq<bool>): Walk {
    Walking(1, Entry, Entry, {}, Below(|f.parameters|), choices)
  }

  /** No path through a checked function goes astray. */
  lemma {:induction false} NoPathAstray(f: Function, choices: seq<bool>, n: nat)
    requires CheckFunction(f).Some?
    ensures !Walks(Emitted(f), Setting(f, choices), n).Astray?
  {
    hide WalkStep;
    var p, w := Emitted(f), Setting(f, choices);
    var k := PathEnds(f, choices);
    if k <= n { Settled(p, w, k, n); }
    else if Walks(p, w, n).Astray? { Settled(p, w, n, k); }
  }

  /** A checked body reads its parameters and what it stored itself. */
  lemma {:induction false} FunctionCovered(f: Function)
    requires CheckFunction(f).Some?
    ensures AllCovered(CheckFunction(f).value, Below(|f.parameters|))
  {
    hide CheckAll, FindLocal, AllCovered, Below, Guarantees;
    var locals := AddParameters([], f.parameters).value;
    ParameterSlots([], f.parameters);
    CheckedAllCover(locals, f.body, f.result);
    AllCoveredMore(CheckFunction(f).value, ActiveSlots(locals), Below(|f.parameters|));
  }

  lemma {:induction false} PathEnds(f: Function, choices: seq<bool>) returns (n: nat)
    requires CheckFunction(f).Some?
    ensures var w := Walks(Emitted(f), Setting(f, choices), n); w.Finished? || w.Paused?
  {
    hide WalkStep, EmitCommands, CheckFunction, Unique, Placed, Count, AllCovered, ReturnsAll, Below;
    var cs := CheckFunction(f).value;
    var p, w := Emitted(f), Setting(f, choices);
    FunctionCovered(f);
    FlagsAre(cs, 0, 0, Entry, f.isMain);
    DefinedOnce(cs, f.isMain, f.result);
    if !f.isMain && f.result != NothingType { NoUnreachable(f); }
    var (m, returned) := EmitCommands(cs, 0, 0, Entry, f.isMain);
    var tail := if returned then [] else [Epilogue(f.isMain, f.result)];
    WholePlaced(p);
    PlacedSplit(p, 0, [At(Entry)], m.lines + tail);
    PlacedSplit(p, 1, m.lines, tail);
    n := CommandsWalk(p, w, cs, 0, 0, f.isMain);
    var w1 := Walks(p, w, n);
    if w1.Walking? {
      PlacedLine(p, 1 + |m.lines|, tail, 0);
      EpilogueWalks(p, w1, f.isMain, f.result);
      Onward(p, w, n, 1);
      n := n + 1;
    }
  }

  lemma EpilogueWalks(p: seq<Line>, w: Walk, isMain: bool, result: Type)
    requires w.Walking? && w.pc < |p| && p[w.pc] == Epilogue(isMain, result) && (isMain || result == NothingType)
    ensures Walks(p, w, 1) == Finished
  {
    OneOn(p, w);
  }
}
