/** Statements: running their emitted blocks ends as running the statements does,
    and goes on as long as they do. */
module Stage0Statements {
  import opened Wrappers
  import opened Stage0Source
  import opened Stage0Check
  import opened Stage0Emit
  import opened Stage0Machine
  import opened Stage0Correct

  /** The emitter's returned flag depends on the statement alone. */
  predicate Returns(c: Command)
    decreases c, 0
  {
    match c
    case Give(_) => true
    case Branch(_, thenBody, elseBody) => elseBody != [] && ReturnsAll(thenBody) && ReturnsAll(elseBody)
    case _ => false
  }

  predicate ReturnsAll(cs: seq<Command>)
    decreases cs, 1
  {
    cs != [] && (Returns(cs[0]) || ReturnsAll(cs[1..]))
  }

  lemma {:induction false} FlagIs(c: Command, t: nat, l: nat, b: Label, isMain: bool)
    ensures EmitCommand(c, t, l, b, isMain).1 == Returns(c)
    decreases c, 0
  {
    hide Emit, EmitCommands, ReturnLines, JumpUnless;
    match c
    case Branch(e, thenBody, elseBody) =>
      var m := Emit(e, t, l, b).0;
      FlagsAre(thenBody, m.temp, m.labels + 3, IfThen(m.labels), isMain);
      var x := EmitCommands(thenBody, m.temp, m.labels + 3, IfThen(m.labels), isMain).0;
      FlagsAre(elseBody, x.temp, x.labels, IfElse(m.labels + 1), isMain);
    case _ =>
  }

  lemma {:induction false} FlagsAre(cs: seq<Command>, t: nat, l: nat, b: Label, isMain: bool)
    ensures EmitCommands(cs, t, l, b, isMain).1 == ReturnsAll(cs)
    decreases cs, 1
  {
    if cs != [] {
      FlagIs(cs[0], t, l, b, isMain);
      var m := EmitCommand(cs[0], t, l, b, isMain).0;
      FlagsAre(cs[1..], m.temp, m.labels, m.block, isMain);
    }
  }

  /** A flagged statement does not end normally. */
  lemma {:induction false} FlaggedEnds(c: Command, st: Locals, fuel: nat)
    requires Returns(c)
    ensures !Execute(c, st, fuel).Normal?
    decreases c, 0
  {
    match c
    case Branch(_, thenBody, elseBody) =>
      FlaggedAllEnd(thenBody, st, fuel);
      FlaggedAllEnd(elseBody, st, fuel);
    case _ =>
  }

  lemma {:induction false} FlaggedAllEnd(cs: seq<Command>, st: Locals, fuel: nat)
    requires ReturnsAll(cs)
    ensures !ExecuteAll(cs, st, fuel).Normal?
    decreases cs, 1
  {
    if Returns(cs[0]) { FlaggedEnds(cs[0], st, fuel); }
    var o := Execute(cs[0], st, fuel);
    if o.Normal? { FlaggedAllEnd(cs[1..], o.state, fuel); }
  }

  /* ---- counters only grow, blocks are numbered before what follows ---- */

  lemma {:induction false} CommandGrows(c: Command, t: nat, l: nat, b: Label, isMain: bool)
    requires Number(b) < l
    ensures var m := EmitCommand(c, t, l, b, isMain).0; t <= m.temp && l <= m.labels && Number(m.block) < m.labels
    decreases c, 0
  {
    hide Emit, EmitCommands, ReturnLines, JumpUnless;
    match c
    case Store(i, e) => EmitGrows(e, t, l, b); EmitBlock(e, t, l, b, -1);
    case Discard(e) => EmitGrows(e, t, l, b); EmitBlock(e, t, l, b, -1);
    case Give(None) =>
    case Give(Some(e)) => EmitGrows(e, t, l, b); EmitBlock(e, t, l, b, -1);
    case Branch(e, thenBody, elseBody) =>
      EmitGrows(e, t, l, b);
      var m := Emit(e, t, l, b).0;
      CommandsGrow(thenBody, m.temp, m.labels + 3, IfThen(m.labels), isMain);
      var x := EmitCommands(thenBody, m.temp, m.labels + 3, IfThen(m.labels), isMain).0;
      CommandsGrow(elseBody, x.temp, x.labels, IfElse(m.labels + 1), isMain);
    case Loop(e, body) =>
      EmitGrows(e, t, l + 3, WhileCondition(l));
      var m := Emit(e, t, l + 3, WhileCondition(l)).0;
      CommandsGrow(body, m.temp, m.labels, WhileBody(l + 1), isMain);
  }

  lemma {:induction false} CommandsGrow(cs: seq<Command>, t: nat, l: nat, b: Label, isMain: bool)
    requires Number(b) < l
    ensures var m := EmitCommands(cs, t, l, b, isMain).0; t <= m.temp && l <= m.labels && Number(m.block) < m.labels
    decreases cs, 1
  {
    if cs != [] {
      CommandGrows(cs[0], t, l, b, isMain);
      var m := EmitCommand(cs[0], t, l, b, isMain).0;
      CommandsGrow(cs[1..], m.temp, m.labels, m.block, isMain);
    }
  }

  /* ---- how a run must end ---- */

  /** `main` hands the low 32 bits of its result to the system. */
  function EndingOf(isMain: bool, v: Option<Value>): Ending {
    if isMain && v.Some? && v.value.IntegerValue? then Exited(Low32(v.value.n)) else Gave(v)
  }

  /** Where a return leaves the machine: truncating anything but an Integer is stuck. */
  function ReturnConfig(isMain: bool, v: Option<Value>): Config {
    if isMain && v.Some? && !v.value.IntegerValue? then Broken else Halted(EndingOf(isMain, v))
  }

  /** After `n` steps from `c` the machine stands where outcome `o` says: past the
      code at `pc`, in `block`, if it ended normally. */
  ghost predicate RanTo(c: Config, c': Config, n: nat, o: Outcome<Locals>, pc: nat, block: Label, t: nat,
                        isMain: bool, fuel: nat) {
    && c.Running?
    && match o
       case Normal(st) => c'.Running? && c'.pc == pc && c'.block == block && c'.locals == st &&
         KeepsBelow(c.temps, c'.temps, t)
       case Returned(v) => c' == ReturnConfig(isMain, v)
       case Trapped => c' == Halted(Stopped)
       case OutOfFuel => c'.Running? && n >= fuel
       case Wrong => false
  }

  ghost predicate Ran(c: Config, c': Config, n: nat, o: Outcome<Locals>, m: Emission, t: nat, isMain: bool, fuel: nat) {
    c.Running? && RanTo(c, c', n, o, c.pc + |m.lines|, m.block, t, isMain, fuel)
  }

  lemma StoreRuns(p: seq<Line>, c: Config, v: Operand, i: nat, x: Value)
    requires c.Running? && Placed(p, c.pc, [StoreTo(v, i)]) && ValueOf(c.temps, v) == Some(x)
    ensures Steps(p, c, 1) == c.(pc := c.pc + 1, locals := c.locals[i := x])
  {
    PlacedLine(p, c.pc, [StoreTo(v, i)], 0);
    OneStep(p, c);
  }

  lemma ReturnRuns(p: seq<Line>, c: Config, isMain: bool, t: nat, v: Operand, x: Value) returns (n: nat)
    requires c.Running? && Placed(p, c.pc, ReturnLines(isMain, t, v)) && ValueOf(c.temps, v) == Some(x)
    ensures Steps(p, c, n) == ReturnConfig(isMain, Some(x))
  {
    PlacedLine(p, c.pc, ReturnLines(isMain, t, v), 0);
    OneStep(p, c);
    n := 1;
    if isMain && x.IntegerValue? {
      PlacedLine(p, c.pc, ReturnLines(isMain, t, v), 1);
      OneStep(p, Step(p, c));
      Chain(p, c, 1, 1);
      n := 2;
    }
  }

  lemma SimpleRuns(p: seq<Line>, c: Config, cmd: Command, t: nat, l: nat, isMain: bool, fuel: nat) returns (n: nat)
    requires c.Running? && Number(c.block) < l && Unique(p) && !cmd.Branch? && !cmd.Loop?
    requires Placed(p, c.pc, EmitCommand(cmd, t, l, c.block, isMain).0.lines) && !Execute(cmd, c.locals, fuel).Wrong?
    ensures Ran(c, Steps(p, c, n), n, Execute(cmd, c.locals, fuel), EmitCommand(cmd, t, l, c.block, isMain).0, t,
                isMain, fuel)
  {
    hide Step, Unique, Placed, Emit, CodeValue, ReturnLines;
    if cmd == Give(None) {
      VoidRuns(p, c);
      return 1;
    }
    var e := match cmd case Store(_, e) => e case Discard(e) => e case Give(r) => r.value;
    var (m, v) := Emit(e, t, l, c.block);
    match cmd {
      case Store(i, _) => PlacedSplit(p, c.pc, m.lines, [StoreTo(v, i)]);
      case Discard(_) =>
      case Give(_) => PlacedSplit(p, c.pc, m.lines, ReturnLines(isMain, m.temp, v));
    }
    n := ExpressionRuns(p, c, e, t, l);
    var c1 := Steps(p, c, n);
    var r := CodeValue(e, c.locals);
    if r.Val? {
      match cmd
      case Store(i, _) =>
        StoreRuns(p, c1, v, i, r.v);
        Chain(p, c, n, 1);
        n := n + 1;
      case Discard(_) =>
      case Give(_) =>
        var k := ReturnRuns(p, c1, isMain, m.temp, v, r.v);
        Chain(p, c, n, k);
        n := n + k;
    }
  }

  lemma VoidRuns(p: seq<Line>, c: Config)
    requires c.Running? && Placed(p, c.pc, [RetVoid])
    ensures Steps(p, c, 1) == Halted(Gave(None))
  {
    PlacedLine(p, c.pc, [RetVoid], 0);
    OneStep(p, c);
  }

  /* ---- blocks ---- */

  /** The body of a branch or loop, then the jump that leaves it. */
  lemma {:induction false} ArmRuns(p: seq<Line>, c: Config, cs: seq<Command>, t: nat, l: nat, isMain: bool, fuel: nat,
                                   at: nat, target: Label)
    returns (n: nat)
    requires c.Running? && Number(c.block) < l && Unique(p)
    requires Placed(p, c.pc, EmitCommands(cs, t, l, c.block, isMain).0.lines) && !ExecuteAll(cs, c.locals, fuel).Wrong?
    requires var end := c.pc + |EmitCommands(cs, t, l, c.block, isMain).0.lines|;
      !ReturnsAll(cs) ==> at < |p| && p[at] == At(target) && end < |p| && p[end] == Jump(target)
    ensures RanTo(c, Steps(p, c, n), n, ExecuteAll(cs, c.locals, fuel), at + 1, target, t, isMain, fuel)
    decreases fuel, cs, 3
  {
    hide Step, Unique, Placed, EmitCommands, ExecuteAll, ReturnsAll;
    n := CommandsRun(p, c, cs, t, l, isMain, fuel);
    var o := ExecuteAll(cs, c.locals, fuel);
    if o.Normal? {
      if ReturnsAll(cs) { FlaggedAllEnd(cs, c.locals, fuel); }
      JumpRuns(p, Steps(p, c, n), target, at);
      Chain(p, c, n, 1);
      n := n + 1;
    }
  }

  lemma {:induction false} CommandsRun(p: seq<Line>, c: Config, cs: seq<Command>, t: nat, l: nat, isMain: bool,
                                       fuel: nat)
    returns (n: nat)
    requires c.Running? && Number(c.block) < l && Unique(p)
    requires Placed(p, c.pc, EmitCommands(cs, t, l, c.block, isMain).0.lines) && !ExecuteAll(cs, c.locals, fuel).Wrong?
    ensures Ran(c, Steps(p, c, n), n, ExecuteAll(cs, c.locals, fuel), EmitCommands(cs, t, l, c.block, isMain).0, t,
                isMain, fuel)
    decreases fuel, cs, 2
  {
    hide Step, Unique, Placed, EmitCommand, Execute, Returns;
    if cs == [] { return 0; }
    var (m, returned) := EmitCommand(cs[0], t, l, c.block, isMain);
    FlagIs(cs[0], t, l, c.block, isMain);
    if returned {
      FlaggedEnds(cs[0], c.locals, fuel);
      n := CommandRuns(p, c, cs[0], t, l, isMain, fuel);
      return;
    }
    var k := EmitCommands(cs[1..], m.temp, m.labels, m.block, isMain).0;
    PlacedSplit(p, c.pc, m.lines, k.lines);
    n := CommandRuns(p, c, cs[0], t, l, isMain, fuel);
    var c1 := Steps(p, c, n);
    if Execute(cs[0], c.locals, fuel).Normal? {
      CommandGrows(cs[0], t, l, c.block, isMain);
      var n' := CommandsRun(p, c1, cs[1..], m.temp, m.labels, isMain, fuel);
      Chain(p, c, n, n');
      n := n + n';
      if ExecuteAll(cs, c.locals, fuel).Normal? { KeepsTrans(c.temps, c1.temps, Steps(p, c, n).temps, t, m.temp); }
    }
  }

  /** Running a statement's code ends as the statement does. */
  lemma {:induction false} CommandRuns(p: seq<Line>, c: Config, cmd: Command, t: nat, l: nat, isMain: bool, fuel: nat)
    returns (n: nat)
    requires c.Running? && Number(c.block) < l && Unique(p)
    requires Placed(p, c.pc, EmitCommand(cmd, t, l, c.block, isMain).0.lines) && !Execute(cmd, c.locals, fuel).Wrong?
    ensures Ran(c, Steps(p, c, n), n, Execute(cmd, c.locals, fuel), EmitCommand(cmd, t, l, c.block, isMain).0, t,
                isMain, fuel)
    decreases fuel, cmd, 2
  {
    hide Step, Unique, Placed, EmitCommand, Execute, Ran;
    if cmd.Branch? { n := BranchRuns(p, c, cmd, t, l, isMain, fuel); }
    else if cmd.Loop? { n := WhileRuns(p, c, cmd, t, l, isMain, fuel); }
    else { n := SimpleRuns(p, c, cmd, t, l, isMain, fuel); }
  }

  /* ---- branches ---- */

  /** Where the pieces of a branch stand. */
  ghost predicate BranchAt(p: seq<Line>, pc: nat, v: Operand, n: nat, x: seq<Line>, xReturns: bool, hasElse: bool,
                           y: seq<Line>, yReturns: bool,
                           thenAt: nat, elseAt: nat, endAt: nat)
  {
    && pc < |p| && p[pc] == JumpIf(v, IfThen(n), if hasElse then IfElse(n + 1) else IfEnd(n + 2))
    && thenAt == pc + 1 && thenAt < |p| && p[thenAt] == At(IfThen(n)) && Placed(p, thenAt + 1, x)
    && (!xReturns ==> thenAt + 1 + |x| < |p| && p[thenAt + 1 + |x|] == Jump(IfEnd(n + 2)))
    && (hasElse ==>
          && elseAt < |p| && p[elseAt] == At(IfElse(n + 1)) && Placed(p, elseAt + 1, y)
          && (!yReturns ==> elseAt + 1 + |y| < |p| && p[elseAt + 1 + |y|] == Jump(IfEnd(n + 2))))
    && (!(hasElse && xReturns && yReturns) ==> endAt < |p| && p[endAt] == At(IfEnd(n + 2)))
  }

  lemma JumpPlaced(p: seq<Line>, base: nat, returned: bool, target: Label)
    requires Placed(p, base, JumpUnless(returned, target))
    ensures |JumpUnless(returned, target)| == (if returned then 0 else 1)
    ensures !returned ==> base < |p| && p[base] == Jump(target)
  {
    if !returned { PlacedLine(p, base, JumpUnless(returned, target), 0); }
  }

  lemma HeadPlaced(p: seq<Line>, base: nat, a: Line, b: Line)
    requires Placed(p, base, [a] + [b])
    ensures base + 1 < |p| && p[base] == a && p[base + 1] == b
  {
    PlacedLine(p, base, [a] + [b], 0);
    PlacedLine(p, base, [a] + [b], 1);
  }

  lemma ShortBranchPlaces(p: seq<Line>, pc: nat, v: Operand, n: nat, x: seq<Line>, xReturns: bool) returns (endAt: nat)
    requires Placed(p, pc, ([JumpIf(v, IfThen(n), IfEnd(n + 2))] + [At(IfThen(n))]) + (x +
                           (JumpUnless(xReturns, IfEnd(n + 2)) + [At(IfEnd(n + 2))])))
    ensures BranchAt(p, pc, v, n, x, xReturns, false, [], false, pc + 1, 0, endAt)
    ensures endAt == pc + 2 + |x| + |JumpUnless(xReturns, IfEnd(n + 2))|
  {
    hide Placed, JumpUnless;
    var head := [JumpIf(v, IfThen(n), IfEnd(n + 2))] + [At(IfThen(n))];
    endAt := BodyLayout(p, pc, head[0], head[1], x, xReturns, IfEnd(n + 2), [At(IfEnd(n + 2))]);
    PlacedLine(p, endAt, [At(IfEnd(n + 2))], 0);
  }

  lemma LongBranchPlaces(p: seq<Line>, pc: nat, v: Operand, n: nat, x: seq<Line>, xReturns: bool, y: seq<Line>,
                         yReturns: bool, end: seq<Line>)
    returns (elseAt: nat, endAt: nat)
    requires end == if xReturns && yReturns then [] else [At(IfEnd(n + 2))]
    requires Placed(p, pc, ([JumpIf(v, IfThen(n), IfElse(n + 1))] + [At(IfThen(n))]) + (x +
                           (JumpUnless(xReturns, IfEnd(n + 2)) + ([At(IfElse(n + 1))] + (y +
                           (JumpUnless(yReturns, IfEnd(n + 2)) + end))))))
    ensures BranchAt(p, pc, v, n, x, xReturns, true, y, yReturns, pc + 1, elseAt, endAt)
    ensures endAt == pc + 3 + |x| + |JumpUnless(xReturns, IfEnd(n + 2))| + |y| + |JumpUnless(yReturns, IfEnd(n + 2))|
  {
    hide Placed, JumpUnless;
    var head := [JumpIf(v, IfThen(n), IfElse(n + 1))] + [At(IfThen(n))];
    var k := JumpUnless(yReturns, IfEnd(n + 2));
    var tail := [At(IfElse(n + 1))] + (y + (k + end));
    elseAt := BodyLayout(p, pc, head[0], head[1], x, xReturns, IfEnd(n + 2), tail);
    endAt := ElsePlaces(p, elseAt, n, y, yReturns, end);
  }

  lemma ElsePlaces(p: seq<Line>, elseAt: nat, n: nat, y: seq<Line>, yReturns: bool, end: seq<Line>) returns (endAt: nat)
    requires Placed(p, elseAt, [At(IfElse(n + 1))] + (y + (JumpUnless(yReturns, IfEnd(n + 2)) + end)))
    ensures elseAt < |p| && p[elseAt] == At(IfElse(n + 1)) && Placed(p, elseAt + 1, y)
    ensures !yReturns ==> elseAt + 1 + |y| < |p| && p[elseAt + 1 + |y|] == Jump(IfEnd(n + 2))
    ensures endAt == elseAt + 1 + |y| + |JumpUnless(yReturns, IfEnd(n + 2))|
    ensures end != [] ==> endAt < |p| && p[endAt] == end[0]
  {
    hide Placed, JumpUnless;
    var k := JumpUnless(yReturns, IfEnd(n + 2));
    PlacedSplit(p, elseAt, [At(IfElse(n + 1))], y + (k + end));
    PlacedLine(p, elseAt, [At(IfElse(n + 1))], 0);
    PlacedSplit(p, elseAt + 1, y, k + end);
    PlacedSplit(p, elseAt + 1 + |y|, k, end);
    JumpPlaced(p, elseAt + 1 + |y|, yReturns, IfEnd(n + 2));
    endAt := elseAt + 1 + |y| + |k|;
    if end != [] { PlacedLine(p, endAt, end, 0); }
  }

  lemma {:induction false} BranchPlaces(p: seq<Line>, base: nat, cmd: Command, t: nat, l: nat, b: Label, isMain: bool)
    returns (elseAt: nat, endAt: nat)
    requires cmd.Branch? && Placed(p, base, EmitCommand(cmd, t, l, b, isMain).0.lines)
    ensures var (m, v) := Emit(cmd.condition, t, l, b);
      var x := EmitCommands(cmd.thenBody, m.temp, m.labels + 3, IfThen(m.labels), isMain).0;
      var y := EmitCommands(cmd.elseBody, x.temp, x.labels, IfElse(m.labels + 1), isMain).0;
      && Placed(p, base, m.lines)
      && BranchAt(p, base + |m.lines|, v, m.labels, x.lines, ReturnsAll(cmd.thenBody), cmd.elseBody != [], y.lines,
                  ReturnsAll(cmd.elseBody),
                  base + |m.lines| + 1, elseAt, endAt)
      && (!Returns(cmd) ==> endAt + 1 == base + |EmitCommand(cmd, t, l, b, isMain).0.lines|
                            && EmitCommand(cmd, t, l, b, isMain).0.block == IfEnd(m.labels + 2))
  {
    hide Placed, JumpUnless, Emit, EmitCommands, BranchAt;
    var (m, v) := Emit(cmd.condition, t, l, b);
    var n := m.labels;
    var x := EmitCommands(cmd.thenBody, m.temp, n + 3, IfThen(n), isMain).0;
    var y := EmitCommands(cmd.elseBody, x.temp, x.labels, IfElse(n + 1), isMain).0;
    FlagsAre(cmd.thenBody, m.temp, n + 3, IfThen(n), isMain);
    FlagsAre(cmd.elseBody, x.temp, x.labels, IfElse(n + 1), isMain);
    var xr, yr := ReturnsAll(cmd.thenBody), ReturnsAll(cmd.elseBody);
    if cmd.elseBody == [] {
      PlacedSplit(p, base, m.lines, ([JumpIf(v, IfThen(n), IfEnd(n + 2))] + [At(IfThen(n))]) + (x.lines +
                                    (JumpUnless(xr, IfEnd(n + 2)) + [At(IfEnd(n + 2))])));
      endAt := ShortBranchPlaces(p, base + |m.lines|, v, n, x.lines, xr);
      elseAt := 0;
      BranchAtShort(p, base + |m.lines|, v, n, x.lines, xr, y.lines, yr, endAt);
    } else {
      var end := if xr && yr then [] else [At(IfEnd(n + 2))];
      PlacedSplit(p, base, m.lines, ([JumpIf(v, IfThen(n), IfElse(n + 1))] + [At(IfThen(n))]) + (x.lines +
                                    (JumpUnless(xr, IfEnd(n + 2)) + ([At(IfElse(n + 1))] + (y.lines +
                                    (JumpUnless(yr, IfEnd(n + 2)) + end))))));
      elseAt, endAt := LongBranchPlaces(p, base + |m.lines|, v, n, x.lines, xr, y.lines, yr, end);
    }
  }

  lemma BranchAtShort(p: seq<Line>, pc: nat, v: Operand, n: nat, x: seq<Line>, xReturns: bool, y: seq<Line>,
                      yReturns: bool, endAt: nat)
    requires BranchAt(p, pc, v, n, x, xReturns, false, [], false, pc + 1, 0, endAt)
    ensures BranchAt(p, pc, v, n, x, xReturns, false, y, yReturns, pc + 1, 0, endAt)
  {
  }

  lemma {:induction false} BranchRuns(p: seq<Line>, c: Config, cmd: Command, t: nat, l: nat, isMain: bool, fuel: nat)
    returns (n: nat)
    requires c.Running? && Number(c.block) < l && Unique(p) && cmd.Branch?
    requires Placed(p, c.pc, EmitCommand(cmd, t, l, c.block, isMain).0.lines) && !Execute(cmd, c.locals, fuel).Wrong?
    ensures Ran(c, Steps(p, c, n), n, Execute(cmd, c.locals, fuel), EmitCommand(cmd, t, l, c.block, isMain).0, t,
                isMain, fuel)
    decreases fuel, cmd, 1
  {
    hide Step, Unique, Placed, EmitCommand, EmitCommands, Emit, CodeValue, BranchAt, ExecuteAll;
    var (m, v) := Emit(cmd.condition, t, l, c.block);
    var elseAt, endAt := BranchPlaces(p, c.pc, cmd, t, l, c.block, isMain);
    n := ExpressionRuns(p, c, cmd.condition, t, l);
    EmitGrows(cmd.condition, t, l, c.block);
    var r := CodeValue(cmd.condition, c.locals);
    if r.Val? {
      var c1 := Steps(p, c, n);
      var k := ArmsRun(p, c1, cmd, v, r.v.b, m.temp, m.labels, isMain, fuel, elseAt, endAt);
      Chain(p, c, n, k);
      n := n + k;
      var o := Execute(cmd, c.locals, fuel);
      if o.Normal? {
        if Returns(cmd) { FlaggedEnds(cmd, c.locals, fuel); }
        KeepsTrans(c.temps, c1.temps, Steps(p, c, n).temps, t, m.temp);
      }
    }
  }

  /** From the conditional jump on. */
  lemma {:induction false} ArmsRun(p: seq<Line>, c: Config, cmd: Command, v: Operand, b: bool, t: nat, n: nat,
                                   isMain: bool, fuel: nat, elseAt: nat, endAt: nat)
    returns (count: nat)
    requires c.Running? && Unique(p) && cmd.Branch? && ValueOf(c.temps, v) == Some(BooleanValue(b))
    requires var x := EmitCommands(cmd.thenBody, t, n + 3, IfThen(n), isMain).0;
      var y := EmitCommands(cmd.elseBody, x.temp, x.labels, IfElse(n + 1), isMain).0;
      BranchAt(p, c.pc, v, n, x.lines, ReturnsAll(cmd.thenBody), cmd.elseBody != [], y.lines,
               ReturnsAll(cmd.elseBody), c.pc + 1, elseAt, endAt)
    requires !ExecuteAll(if b then cmd.thenBody else cmd.elseBody, c.locals, fuel).Wrong?
    ensures RanTo(c, Steps(p, c, count), count, ExecuteAll(if b then cmd.thenBody else cmd.elseBody, c.locals, fuel),
                  endAt + 1, IfEnd(n + 2), t, isMain, fuel)
    decreases fuel, cmd, 0
  {
    hide Step, Unique, Placed, EmitCommands, ReturnsAll;
    var x := EmitCommands(cmd.thenBody, t, n + 3, IfThen(n), isMain).0;
    CommandsGrow(cmd.thenBody, t, n + 3, IfThen(n), isMain);
    var yes, no := IfThen(n), if cmd.elseBody != [] then IfElse(n + 1) else IfEnd(n + 2);
    var i := if b then c.pc + 1 else if cmd.elseBody != [] then elseAt else endAt;
    JumpIfRuns(p, c, v, b, yes, no, i);
    var c1 := Steps(p, c, 1);
    count := 0;
    if b { count := ArmRuns(p, c1, cmd.thenBody, t, n + 3, isMain, fuel, endAt, IfEnd(n + 2)); }
    else if cmd.elseBody != [] {
      count := ArmRuns(p, c1, cmd.elseBody, x.temp, x.labels, isMain, fuel, endAt, IfEnd(n + 2));
    }
    Chain(p, c, 1, count);
    count := 1 + count;
  }

  /* ---- loops ---- */

  ghost predicate LoopAt(p: seq<Line>, base: nat, v: Operand, l: nat, m: seq<Line>, x: seq<Line>, xReturns: bool,
                         endAt: nat) {
    var cut := base + 2 + |m|;
    && cut + 1 < |p| && p[base] == Jump(WhileCondition(l)) && p[base + 1] == At(WhileCondition(l)) &&
      Placed(p, base + 2, m)
    && p[cut] == JumpIf(v, WhileBody(l + 1), WhileEnd(l + 2)) && p[cut + 1] == At(WhileBody(l + 1)) &&
      Placed(p, cut + 2, x)
    && (!xReturns ==> cut + 2 + |x| < |p| && p[cut + 2 + |x|] == Jump(WhileCondition(l)))
    && endAt < |p| && p[endAt] == At(WhileEnd(l + 2))
  }

  lemma {:induction false} LoopPlaces(p: seq<Line>, base: nat, cmd: Command, t: nat, l: nat, b: Label, isMain: bool)
      returns (endAt: nat)
    requires cmd.Loop? && Placed(p, base, EmitCommand(cmd, t, l, b, isMain).0.lines)
    ensures var (m, v) := Emit(cmd.condition, t, l + 3, WhileCondition(l));
      var x := EmitCommands(cmd.body, m.temp, m.labels, WhileBody(l + 1), isMain).0;
      LoopAt(p, base, v, l, m.lines, x.lines, ReturnsAll(cmd.body), endAt)
    ensures endAt + 1 == base + |EmitCommand(cmd, t, l, b, isMain).0.lines|
    ensures EmitCommand(cmd, t, l, b, isMain).0.block == WhileEnd(l + 2)
  {
    hide Placed, Emit, EmitCommands, ReturnsAll, LoopAt, JumpUnless;
    var (m, v) := Emit(cmd.condition, t, l + 3, WhileCondition(l));
    var x := EmitCommands(cmd.body, m.temp, m.labels, WhileBody(l + 1), isMain).0;
    FlagsAre(cmd.body, m.temp, m.labels, WhileBody(l + 1), isMain);
    endAt := LoopLayout(p, base, v, l, m.lines, x.lines, ReturnsAll(cmd.body));
  }

  lemma LoopLayout(p: seq<Line>, base: nat, v: Operand, l: nat, m: seq<Line>, x: seq<Line>, xReturns: bool)
      returns (endAt: nat)
    requires Placed(p, base, ([Jump(WhileCondition(l))] + [At(WhileCondition(l))]) + (m +
               (([JumpIf(v, WhileBody(l + 1), WhileEnd(l + 2))] + [At(WhileBody(l + 1))]) + (x +
               (JumpUnless(xReturns, WhileCondition(l)) + [At(WhileEnd(l + 2))])))))
    ensures LoopAt(p, base, v, l, m, x, xReturns, endAt)
    ensures endAt == base + 4 + |m| + |x| + |JumpUnless(xReturns, WhileCondition(l))|
  {
    hide Placed, JumpUnless;
    var first := [Jump(WhileCondition(l))] + [At(WhileCondition(l))];
    var head := [JumpIf(v, WhileBody(l + 1), WhileEnd(l + 2))] + [At(WhileBody(l + 1))];
    var j := JumpUnless(xReturns, WhileCondition(l));
    var tail := j + [At(WhileEnd(l + 2))];
    PlacedSplit(p, base, first, m + (head + (x + tail)));
    HeadPlaced(p, base, first[0], first[1]);
    PlacedSplit(p, base + 2, m, head + (x + tail));
    endAt := BodyLayout(p, base + 2 + |m|, head[0], head[1], x, xReturns, WhileCondition(l), [At(WhileEnd(l + 2))]);
    PlacedLine(p, endAt, [At(WhileEnd(l + 2))], 0);
  }

  /** Two lines, a body, the jump that may follow it, and the rest. */
  lemma BodyLayout(p: seq<Line>, cut: nat, a: Line, b: Line, x: seq<Line>, returned: bool, target: Label,
                   rest: seq<Line>)
    returns (endAt: nat)
    requires Placed(p, cut, ([a] + [b]) + (x + (JumpUnless(returned, target) + rest)))
    ensures cut + 1 < |p| && p[cut] == a && p[cut + 1] == b && Placed(p, cut + 2, x)
    ensures !returned ==> cut + 2 + |x| < |p| && p[cut + 2 + |x|] == Jump(target)
    ensures endAt == cut + 2 + |x| + |JumpUnless(returned, target)| && Placed(p, endAt, rest)
  {
    hide Placed, JumpUnless;
    var j := JumpUnless(returned, target);
    PlacedSplit(p, cut, [a] + [b], x + (j + rest));
    HeadPlaced(p, cut, a, b);
    PlacedSplit(p, cut + 2, x, j + rest);
    PlacedSplit(p, cut + 2 + |x|, j, rest);
    JumpPlaced(p, cut + 2 + |x|, returned, target);
    endAt := cut + 2 + |x| + |j|;
  }

  lemma {:induction false} WhileRuns(p: seq<Line>, c: Config, cmd: Command, t: nat, l: nat, isMain: bool, fuel: nat)
    returns (n: nat)
    requires c.Running? && Number(c.block) < l && Unique(p) && cmd.Loop?
    requires Placed(p, c.pc, EmitCommand(cmd, t, l, c.block, isMain).0.lines) && !Execute(cmd, c.locals, fuel).Wrong?
    ensures Ran(c, Steps(p, c, n), n, Execute(cmd, c.locals, fuel), EmitCommand(cmd, t, l, c.block, isMain).0, t,
                isMain, fuel)
    decreases fuel, cmd, 0
  {
    hide Step, Unique, Placed, EmitCommand, EmitCommands, Emit, Execute;
    var endAt := LoopPlaces(p, c.pc, cmd, t, l, c.block, isMain);
    JumpRuns(p, c, WhileCondition(l), c.pc + 1);
    n := LoopRuns(p, Steps(p, c, 1), cmd, t, l, isMain, fuel, c.pc, endAt);
    Chain(p, c, 1, n);
    n := 1 + n;
  }

  /** From the condition's block; every iteration takes a step. */
  lemma {:induction false} LoopRuns(p: seq<Line>, c: Config, cmd: Command, t: nat, l: nat, isMain: bool, fuel: nat,
                                    base: nat, endAt: nat)
    returns (n: nat)
    requires c.Running? && c.block == WhileCondition(l) && c.pc == base + 2 && Unique(p) && cmd.Loop?
    requires var (m, v) := Emit(cmd.condition, t, l + 3, WhileCondition(l));
      var x := EmitCommands(cmd.body, m.temp, m.labels, WhileBody(l + 1), isMain).0;
      LoopAt(p, base, v, l, m.lines, x.lines, ReturnsAll(cmd.body), endAt)
    requires !Execute(cmd, c.locals, fuel).Wrong?
    ensures RanTo(c, Steps(p, c, n), n, Execute(cmd, c.locals, fuel), endAt + 1, WhileEnd(l + 2), t, isMain, fuel)
    decreases fuel, cmd.body, 4
  {
    hide Step, Unique, Placed, EmitCommands, Emit, CodeValue, ExecuteAll, ReturnsAll;
    if fuel == 0 { return 0; }
    var (m, v) := Emit(cmd.condition, t, l + 3, WhileCondition(l));
    n := ExpressionRuns(p, c, cmd.condition, t, l + 3);
    EmitGrows(cmd.condition, t, l + 3, WhileCondition(l));
    var r := CodeValue(cmd.condition, c.locals);
    if r.Val? {
      var c1 := Steps(p, c, n);
      JumpIfRuns(p, c1, v, r.v.b, WhileBody(l + 1), WhileEnd(l + 2), if r.v.b then c1.pc + 1 else endAt);
      Chain(p, c, n, 1);
      n := n + 1;
      if r.v.b {
        var c2 := Steps(p, c, n);
        var k := ArmRuns(p, c2, cmd.body, m.temp, m.labels, isMain, fuel - 1, base + 1, WhileCondition(l));
        Chain(p, c, n, k);
        n := n + k;
        if ExecuteAll(cmd.body, c.locals, fuel - 1).Normal? {
          var c3 := Steps(p, c, n);
          var k' := LoopRuns(p, c3, cmd, t, l, isMain, fuel - 1, base, endAt);
          Chain(p, c, n, k');
          n := n + k';
        }
      }
    }
  }
}
