/** Whole functions: for every checked function and every argument list, the emitted
    code ends exactly when the source does, and in the same way. */
module Stage0Program {
  import opened Wrappers
  import opened Stage0Source
  import opened Stage0Check
  import opened Stage0Emit
  import opened Stage0Machine
  import opened Stage0Correct
  import opened Stage0Statements
  import opened Stage0Shape

  datatype Function = Function(parameters: seq<(string, Type)>, result: Type, body: seq<Statement>, isMain: bool)

  /** Parameters become the first locals; a name may not repeat. */
  function AddParameters(locals: seq<Local>, parameters: seq<(string, Type)>): Option<seq<Local>>
    decreases |parameters|
  {
    if parameters == [] then Some(locals)
    else if FindLocal(locals, parameters[0].0).Some? then None
    else AddParameters(locals + [Local(parameters[0].0, parameters[0].1, true)], parameters[1..])
  }

  /** `check_program`, for one function. */
  function CheckFunction(f: Function): Option<seq<Command>> {
    if f.isMain && f.parameters != [] then None
    else
      var locals := AddParameters([], f.parameters);
      if locals.None? then None
      else
        var r := CheckAll(locals.value, f.body, f.result);
        if r.None? then None
        else if f.result != NothingType && !f.isMain && (f.body == [] || !Guarantees(f.body[|f.body| - 1])) then None
        else Some(r.value.1)
  }

  /** One argument of the declared type for each parameter. */
  predicate Fits(parameters: seq<(string, Type)>, args: seq<Value>) {
    |args| == |parameters| && forall i :: 0 <= i < |args| ==> TypeOf(args[i]) == parameters[i].1
  }

  function Bind(env: Environment, parameters: seq<(string, Type)>, args: seq<Value>): Environment
    requires |args| == |parameters|
    decreases |args|
  {
    if args == [] then env else Bind(env[parameters[0].0 := args[0]], parameters[1..], args[1..])
  }

  /** Argument `i` is stored in slot `i`. */
  function Slots(st: Locals, first: nat, args: seq<Value>): Locals
    decreases |args|
  {
    if args == [] then st else Slots(st[first := args[0]], first + 1, args[1..])
  }

  /** The body, run on its arguments. */
  function Body(f: Function, args: seq<Value>, fuel: nat): Outcome<Environment>
    requires |args| == |f.parameters|
  {
    RunAll(f.body, Bind(map[], f.parameters, args), fuel)
  }

  /** How a call ends, or nothing if `fuel` iterations of a loop were not enough.
      Falling off the end returns nothing; from `main` it is exit code zero. */
  function Call(f: Function, args: seq<Value>, fuel: nat): Option<Ending>
    requires |args| == |f.parameters|
  {
    match Body(f, args, fuel)
    case Normal(_) => Some(if f.isMain then Exited(0) else Gave(None))
    case Returned(v) => Some(EndingOf(f.isMain, v))
    case Trapped => Some(Stopped)
    case OutOfFuel => None
    case Wrong => None
  }

  lemma {:induction false} ParametersAgree(locals: seq<Local>, parameters: seq<(string, Type)>, env: Environment,
                                           st: Locals, args: seq<Value>)
    requires Agrees(locals, env, st) && AddParameters(locals, parameters).Some? && Fits(parameters, args)
    ensures Agrees(AddParameters(locals, parameters).value, Bind(env, parameters, args), Slots(st, |locals|, args))
    decreases |parameters|
  {
    if parameters != [] {
      LetAgrees(locals, env, st, parameters[0].0, args[0]);
      hide Agrees;
      var x := parameters[0].0;
      var locals' := locals + [Local(x, TypeOf(args[0]), true)];
      ParametersAgree(locals', parameters[1..], env[x := args[0]], st[|locals| := args[0]], args[1..]);
    }
  }

  /* ---- types of results ---- */

  predicate ResultFits(result: Type, o: Outcome<Environment>) {
    o.Returned? ==> if o.value.Some? then TypeOf(o.value.value) == result else result == NothingType
  }

  /** A checked function returns what it declares, and goes wrong nowhere. */
  lemma {:induction false} StatementReturns(locals: seq<Local>, s: Statement, result: Type, env: Environment,
                                            st: Locals, fuel: nat)
    requires Agrees(locals, env, st) && CheckStatement(locals, s, result).Some?
    ensures ResultFits(result, Run(s, env, fuel))
    decreases fuel, s, 1
  {
    hide Evaluation, CheckExpression, Agrees, Inert;
    match s
    case Return(Some(e)) => ExpressionResolves(locals, e, env, st);
    case If(e, thenBody, elseBody) =>
      var mid := CheckBlock(locals, thenBody, result).value.0;
      AllReturn(locals, thenBody, result, env, st, fuel);
      BlockInert(locals, thenBody, result);
      InertAgrees(locals, mid, env, st);
      AllReturn(mid, elseBody, result, env, st, fuel);
    case While(e, body) =>
      if fuel > 0 {
        AllReturn(locals, body, result, env, st, fuel - 1);
        LoopAgain(locals, s, result, env, st, fuel);
      }
    case _ =>
  }

  lemma {:induction false} LoopAgain(locals: seq<Local>, s: Statement, result: Type, env: Environment, st: Locals,
                                     fuel: nat)
    requires Agrees(locals, env, st) && s.While? && fuel > 0 && CheckStatement(locals, s, result).Some?
    ensures var o := LeaveBlock(env, RunAll(s.body, env, fuel - 1)); o.Normal? ==>
        ResultFits(result, Run(s, o.state, fuel - 1))
    decreases fuel, s, 0
  {
    hide RunAll, Run;
    var (locals', code) := CheckBlock(locals, s.body, result).value;
    BlockInert(locals, s.body, result);
    BlockResolves(locals, s.body, result, env, st, fuel - 1);
    var o, o' := LeaveBlock(env, RunAll(s.body, env, fuel - 1)), ExecuteAll(code, st, fuel - 1);
    if o.Normal? {
      BackOut(locals, locals', o.state, o'.state);
      StatementReturns(locals, s, result, o.state, o'.state, fuel - 1);
    }
  }

  lemma {:induction false} AllReturn(locals: seq<Local>, ss: seq<Statement>, result: Type, env: Environment,
                                     st: Locals, fuel: nat)
    requires Agrees(locals, env, st) && CheckAll(locals, ss, result).Some?
    ensures ResultFits(result, RunAll(ss, env, fuel))
    decreases fuel, ss, 2
  {
    if ss != [] {
      StatementReturns(locals, ss[0], result, env, st, fuel);
      StatementResolves(locals, ss[0], result, env, st, fuel);
      var (next, c) := CheckStatement(locals, ss[0], result).value;
      var o, o' := Run(ss[0], env, fuel), Execute(c, st, fuel);
      if o.Normal? { AllReturn(next, ss[1..], result, o.state, o'.state, fuel); }
    }
  }

  /* ---- returns ---- */

  /** Does a `return` stand in the statement? */
  predicate HasReturn(s: Statement)
    decreases s, 0
  {
    match s
    case Return(_) => true
    case If(_, thenBody, elseBody) => HasReturnAll(thenBody) || HasReturnAll(elseBody)
    case While(_, body) => HasReturnAll(body)
    case _ => false
  }

  predicate HasReturnAll(ss: seq<Statement>)
    decreases ss, 1
  {
    ss != [] && (HasReturn(ss[0]) || HasReturnAll(ss[1..]))
  }

  lemma {:induction false} NoReturn(s: Statement, env: Environment, fuel: nat)
    requires !HasReturn(s)
    ensures !Run(s, env, fuel).Returned?
    decreases fuel, s, 0
  {
    match s
    case If(_, thenBody, elseBody) =>
      NoReturnAll(thenBody, env, fuel);
      NoReturnAll(elseBody, env, fuel);
    case While(_, body) =>
      if fuel > 0 {
        NoReturnAll(body, env, fuel - 1);
        var o := LeaveBlock(env, RunAll(body, env, fuel - 1));
        if o.Normal? { NoReturn(s, o.state, fuel - 1); }
      }
    case _ =>
  }

  lemma {:induction false} NoReturnAll(ss: seq<Statement>, env: Environment, fuel: nat)
    requires !HasReturnAll(ss)
    ensures !RunAll(ss, env, fuel).Returned?
    decreases fuel, ss, 1
  {
    if ss != [] {
      NoReturn(ss[0], env, fuel);
      var o := Run(ss[0], env, fuel);
      if o.Normal? { NoReturnAll(ss[1..], o.state, fuel); }
    }
  }

  /* ---- the theorem ---- */

  function Start(args: seq<Value>): Config {
    Running(1, Entry, Entry, NO_TEMPS, Slots(map[], 0, args))
  }

  function Emitted(f: Function): seq<Line>
    requires CheckFunction(f).Some?
  {
    EmitFunction(CheckFunction(f).value, f.isMain, f.result)
  }

  /** The emitted function after `n` steps. `main` is defined to return an exit code, so
      ending it without one is no ending. */
  function Observed(f: Function, args: seq<Value>, n: nat): Config
    requires CheckFunction(f).Some?
  {
    var c := Steps(Emitted(f), Start(args), n);
    if f.isMain && c.Halted? && c.ending.Gave? then Broken else c
  }

  lemma ObservedStays(f: Function, args: seq<Value>, m: nat, n: nat)
    requires CheckFunction(f).Some? && m <= n && !Observed(f, args, m).Running?
    ensures Observed(f, args, n) == Observed(f, args, m)
  {
    hide Step, Emitted, CheckFunction;
    Absorbing(Emitted(f), Start(args), m, n);
  }

  /** What the emitted function comes to, given how its body ends: a `return` from a
      `main` of another type than Integer leaves it stuck. */
  function Reached(f: Function, o: Outcome<Environment>): Option<Config> {
    match o
    case Normal(_) => Some(Halted(if f.isMain then Exited(0) else Gave(None)))
    case Returned(v) =>
      Some(if f.isMain && !(v.Some? && v.value.IntegerValue?) then Broken else Halted(EndingOf(f.isMain, v)))
    case Trapped => Some(Halted(Stopped))
    case OutOfFuel => None
    case Wrong => None
  }

  lemma EndRuns(p: seq<Line>, c: Config, isMain: bool, result: Type)
    requires c.Running? && c.pc < |p| && p[c.pc] == Epilogue(isMain, result) && (isMain || result == NothingType)
    ensures Steps(p, c, 1) == Halted(if isMain then Exited(0) else Gave(None))
  {
    OneStep(p, c);
  }

  /** The whole function's lines, from its first block on. */
  lemma {:induction false} CodeRuns(f: Function, args: seq<Value>, fuel: nat) returns (n: nat)
    requires CheckFunction(f).Some? && !ExecuteAll(CheckFunction(f).value, Slots(map[], 0, args), fuel).Wrong?
    ensures var c := Steps(Emitted(f), Start(args), n);
      match ExecuteAll(CheckFunction(f).value, Slots(map[], 0, args), fuel)
      case Normal(_) => c == Halted(if f.isMain then Exited(0) else Gave(None))
      case Returned(v) => c == ReturnConfig(f.isMain, v)
      case Trapped => c == Halted(Stopped)
      case OutOfFuel => c.Running? && n >= fuel
      case Wrong => true
  {
    hide Step, EmitCommands, ExecuteAll, CheckFunction, Unique, Placed, Count;
    var st := Slots(map[], 0, args);
    var cs := CheckFunction(f).value;
    var p := Emitted(f);
    DefinedOnce(cs, f.isMain, f.result);
    var (m, returned) := EmitCommands(cs, 0, 0, Entry, f.isMain);
    var tail := if returned then [] else [Epilogue(f.isMain, f.result)];
    WholePlaced(p);
    PlacedSplit(p, 0, [At(Entry)], m.lines + tail);
    PlacedSplit(p, 1, m.lines, tail);
    n := CommandsRun(p, Start(args), cs, 0, 0, f.isMain, fuel);
    if ExecuteAll(cs, st, fuel).Normal? {
      Falls(f, st, fuel);
      PlacedLine(p, 1 + |m.lines|, tail, 0);
      EndRuns(p, Steps(p, Start(args), n), f.isMain, f.result);
      Chain(p, Start(args), n, 1);
      n := n + 1;
    }
  }

  /** With enough steps the machine gets as far as `fuel` takes the source. */
  lemma {:induction false} CallRuns(f: Function, args: seq<Value>, fuel: nat) returns (n: nat)
    requires CheckFunction(f).Some? && Fits(f.parameters, args)
    ensures var c := Observed(f, args, n); var o := Reached(f, Body(f, args, fuel));
      if o.Some? then c == o.value else c.Running? && n >= fuel
  {
    hide Steps, Emitted, RunAll, ExecuteAll, CheckAll, Agrees, FindLocal, Guarantees;
    var locals := AddParameters([], f.parameters).value;
    var env, st := Bind(map[], f.parameters, args), Slots(map[], 0, args);
    NothingAgrees();
    ParametersAgree([], f.parameters, map[], map[], args);
    AllResolves(locals, f.body, f.result, env, st, fuel);
    n := CodeRuns(f, args, fuel);
  }

  lemma NothingAgrees()
    ensures Agrees([], map[], map[])
  {
  }

  lemma WholePlaced(p: seq<Line>)
    ensures Placed(p, 0, p)
  {
  }

  /** A body that ends normally is that of `main` or of a function returning
      nothing: no value-returning function falls through to `unreachable`. */
  lemma {:induction false} Falls(f: Function, st: Locals, fuel: nat)
    requires CheckFunction(f).Some? && ExecuteAll(CheckFunction(f).value, st, fuel).Normal?
    ensures !EmitCommands(CheckFunction(f).value, 0, 0, Entry, f.isMain).1 && (f.isMain || f.result == NothingType)
  {
    hide ExecuteAll, EmitCommands, ReturnsAll;
    var cs := CheckFunction(f).value;
    FlagsAre(cs, 0, 0, Entry, f.isMain);
    FlagsAgree(AddParameters([], f.parameters).value, f.body, f.result);
    if ReturnsAll(cs) { FlaggedAllEnd(cs, st, fuel); }
  }

  /** `unreachable` is never printed for a function the checker accepted. */
  lemma {:induction false} NoUnreachable(f: Function)
    requires CheckFunction(f).Some? && !f.isMain && f.result != NothingType
    ensures EmitCommands(CheckFunction(f).value, 0, 0, Entry, f.isMain).1
    ensures Emitted(f) == [At(Entry)] + EmitCommands(CheckFunction(f).value, 0, 0, Entry, f.isMain).0.lines
  {
    hide EmitCommands, ReturnsAll;
    FlagsAre(CheckFunction(f).value, 0, 0, Entry, f.isMain);
    FlagsAgree(AddParameters([], f.parameters).value, f.body, f.result);
  }

  /** Whatever the machine has come to after `n` steps, the source comes to. */
  lemma {:induction false} EndsInSource(f: Function, args: seq<Value>, n: nat)
    requires CheckFunction(f).Some? && Fits(f.parameters, args)
    ensures var c := Observed(f, args, n); c.Running? || Reached(f, Body(f, args, n + 1)) == Some(c)
  {
    hide Observed, Reached, Body, CheckFunction;
    var k := CallRuns(f, args, n + 1);
    if !Observed(f, args, n).Running? {
      if k <= n { if !Observed(f, args, k).Running? { ObservedStays(f, args, k, n); } }
      else { ObservedStays(f, args, n, k); }
      ReachedEnds(f, Body(f, args, n + 1));
    }
  }

  lemma ReachedEnds(f: Function, o: Outcome<Environment>)
    ensures Reached(f, o).Some? ==> !Reached(f, o).value.Running?
  {
  }

  /** `main` returns an Integer, or contains no `return` at all. */
  predicate Compilable(f: Function) {
    CheckFunction(f).Some? && (f.isMain && f.result != IntegerType ==> !HasReturnAll(f.body))
  }

  /** Then the machine comes to what the source comes to. */
  lemma CompilableReached(f: Function, args: seq<Value>, fuel: nat)
    requires Compilable(f) && Fits(f.parameters, args)
    ensures var o := Call(f, args, fuel);
      Reached(f, Body(f, args, fuel)) == if o.Some? then Some(Halted(o.value)) else None
  {
    hide RunAll, CheckAll, Agrees, HasReturnAll, FindLocal, Guarantees;
    NothingAgrees();
    ParametersAgree([], f.parameters, map[], map[], args);
    var locals := AddParameters([], f.parameters).value;
    AllReturn(locals, f.body, f.result, Bind(map[], f.parameters, args), Slots(map[], 0, args), fuel);
    if f.isMain && f.result != IntegerType { NoReturnAll(f.body, Bind(map[], f.parameters, args), fuel); }
  }

  /** Meaning is preserved: the emitted code halts with ending `o` exactly when the
      source does, runs forever exactly when the source does, and is never stuck. */
  lemma {:induction false} MeaningPreserved(f: Function, args: seq<Value>, o: Ending)
    requires Compilable(f) && Fits(f.parameters, args)
    ensures (exists n: nat :: Observed(f, args, n) == Halted(o)) <==>
        (exists fuel: nat :: Call(f, args, fuel) == Some(o))
    ensures forall n: nat :: !Observed(f, args, n).Broken?
  {
    hide Observed, Call, CheckFunction, Reached, Body, HasReturnAll;
    if fuel: nat :| Call(f, args, fuel) == Some(o) {
      CompilableReached(f, args, fuel);
      var n := CallRuns(f, args, fuel);
    }
    forall n: nat ensures !Observed(f, args, n).Broken? {
      EndsInSource(f, args, n);
      CompilableReached(f, args, n + 1);
    }
    if n: nat :| Observed(f, args, n) == Halted(o) {
      EndsInSource(f, args, n);
      CompilableReached(f, args, n + 1);
    }
  }

  /* ---- main of another type ---- */

  /** For every checked function, run line by line, the emitted code gets stuck exactly
      when it is a `main` not declared Integer and the source reaches a `return`. That the
      lines are ill typed as soon as such a `return` is printed is
      `Stage0Types.WellTypedExactly`. */
  lemma {:induction false} StuckExactly(f: Function, args: seq<Value>)
    requires CheckFunction(f).Some? && Fits(f.parameters, args)
    ensures (exists n: nat :: Observed(f, args, n).Broken?)
       <==> f.isMain && f.result != IntegerType && exists fuel: nat :: Body(f, args, fuel).Returned?
  {
    hide Observed, CheckFunction, Body;
    if n: nat :| Observed(f, args, n).Broken? {
      EndsInSource(f, args, n);
      BodyFits(f, args, n + 1);
      assert Body(f, args, n + 1).Returned?;
    }
    if f.isMain && f.result != IntegerType {
      if fuel: nat :| Body(f, args, fuel).Returned? {
        BodyFits(f, args, fuel);
        var n := CallRuns(f, args, fuel);
      }
    }
  }

  lemma BodyFits(f: Function, args: seq<Value>, fuel: nat)
    requires CheckFunction(f).Some? && Fits(f.parameters, args)
    ensures ResultFits(f.result, Body(f, args, fuel))
  {
    hide RunAll, CheckAll, Agrees, FindLocal, Guarantees;
    NothingAgrees();
    ParametersAgree([], f.parameters, map[], map[], args);
    var locals := AddParameters([], f.parameters).value;
    AllReturn(locals, f.body, f.result, Bind(map[], f.parameters, args), Slots(map[], 0, args), fuel);
  }

  /** Both kinds of failure: `main(): Boolean { return true }` truncates a bit, and
      `main(): Nothing { return }` ends an `i32` function with `ret void`. */
  lemma OtherMainsBreak()
    ensures var f := Function([], BooleanType, [Return(Some(BooleanLiteral(true)))], true);
      CheckFunction(f).Some? && exists n: nat :: Observed(f, [], n).Broken?
    ensures var g := Function([], NothingType, [Return(None)], true);
      CheckFunction(g).Some? && exists n: nat :: Observed(g, [], n).Broken?
  {
    var f := Function([], BooleanType, [Return(Some(BooleanLiteral(true)))], true);
    var g := Function([], NothingType, [Return(None)], true);
    assert f.body[1..] == [] && g.body[1..] == [];
    assert CheckAll([], f.body[1..], f.result).Some? && CheckAll([], g.body[1..], g.result).Some?;
    assert CheckFunction(f).Some? && CheckFunction(g).Some?;
    assert Body(f, [], 0).Returned? && Body(g, [], 0).Returned?;
    StuckExactly(f, []);
    StuckExactly(g, []);
  }
}
