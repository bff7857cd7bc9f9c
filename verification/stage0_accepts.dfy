/** What the checker accepts: typing and scoping rules stated without it. An operator is
    allowed at exactly the types where its meaning is never stuck, a name where it is
    declared, and a statement only where the one before it can be passed. */
module Stage0Accepts {
  import opened Wrappers
  import opened Stage0Source
  import opened Stage0Check
  import opened Stage0Program

  /* ---- operators, by their meaning ---- */

  /** The operator on two evaluated operands. */
  function On(op: Operator, x: Value, y: Value): Result {
    Evaluation(Binary(op, Name("left"), Name("right")), map["left" := x, "right" := y])
  }

  function NotOn(x: Value): Result { Evaluation(Not(Name("operand")), map["operand" := x]) }

  function NegateOn(x: Value): Result { Evaluation(Negate(Name("operand")), map["operand" := x]) }

  /** A result an expression of type `t` may have. */
  predicate Proper(r: Result, t: Type) { !r.Stuck? && (r.Val? ==> TypeOf(r.v) == t) }

  /** On all operands of types `u` and `v` the operator has a result of type `t` or traps,
      and on some it has one. */
  ghost predicate Takes(op: Operator, u: Type, v: Type, t: Type) {
    && (forall x: Value, y: Value :: TypeOf(x) == u && TypeOf(y) == v ==> Proper(On(op, x, y), t))
    && (exists x: Value, y: Value :: TypeOf(x) == u && TypeOf(y) == v && On(op, x, y).Val?)
  }

  ghost predicate NotTakes(u: Type, t: Type) {
    && (forall x: Value :: TypeOf(x) == u ==> Proper(NotOn(x), t))
    && (exists x: Value :: TypeOf(x) == u && NotOn(x).Val?)
  }

  ghost predicate NegateTakes(u: Type, t: Type) {
    && (forall x: Value :: TypeOf(x) == u ==> Proper(NegateOn(x), t))
    && (exists x: Value :: TypeOf(x) == u && NegateOn(x).Val?)
  }

  /* ---- the rules ---- */

  type Scope = map<string, Type>

  ghost predicate Typed(scope: Scope, e: Expression, t: Type) {
    match e
    case IntegerLiteral(n) => t == TypeOf(IntegerValue(n))
    case BooleanLiteral(b) => t == TypeOf(BooleanValue(b))
    case Name(x) => x in scope && scope[x] == t
    case Not(e) => exists u :: Typed(scope, e, u) && NotTakes(u, t)
    case Negate(e) => exists u :: Typed(scope, e, u) && NegateTakes(u, t)
    case Binary(op, left, right) => exists u, v :: Typed(scope, left, u) && Typed(scope, right, v) && Takes(op, u, v, t)
  }

  /** Some path through the statement reaches its end, whatever the conditions. */
  predicate MayPass(s: Statement)
    decreases s, 0
  {
    match s
    case Return(_) => false
    case If(_, thenBody, elseBody) => MayPassAll(thenBody) || MayPassAll(elseBody)
    case _ => true
  }

  predicate MayPassAll(ss: seq<Statement>)
    decreases ss, 1
  {
    ss == [] || (MayPass(ss[0]) && MayPassAll(ss[1..]))
  }

  ghost predicate HasValues(t: Type) { exists v: Value :: TypeOf(v) == t }

  /** The statement is allowed in `scope`, in a function returning `result`, and leaves
      `scope'` behind. */
  ghost predicate Allowed(scope: Scope, s: Statement, result: Type, scope': Scope)
    decreases s, 0
  {
    match s
    case Let(x, declared, e) =>
      x !in scope && exists t ::
        Typed(scope, e, t) && HasValues(t) && (declared.Some? ==> declared.value == t) && scope' == scope[x := t]
    case Assign(x, e) => x in scope && Typed(scope, e, scope[x]) && scope' == scope
    case Evaluate(e) => (exists t :: Typed(scope, e, t)) && scope' == scope
    case Return(None) => result == NothingType && scope' == scope
    case Return(Some(e)) => Typed(scope, e, result) && scope' == scope
    case If(c, thenBody, elseBody) =>
      && Typed(scope, c, BooleanType) && BlockAllowed(scope, thenBody, result) && BlockAllowed(scope, elseBody, result)
      && scope' == scope
    case While(c, body) => Typed(scope, c, BooleanType) && BlockAllowed(scope, body, result) && scope' == scope
  }

  /** Each statement but the last may be passed. */
  ghost predicate AllAllowed(scope: Scope, ss: seq<Statement>, result: Type, scope': Scope)
    decreases ss, 1
  {
    if ss == [] then scope' == scope
    else
      && (|ss| > 1 ==> MayPass(ss[0]))
      && exists next :: Allowed(scope, ss[0], result, next) && AllAllowed(next, ss[1..], result, scope')
  }

  ghost predicate BlockAllowed(scope: Scope, ss: seq<Statement>, result: Type)
    decreases ss, 2
  {
    exists inner :: AllAllowed(scope, ss, result, inner)
  }

  /** The parameters, in order, on top of `scope`. */
  function Declared(scope: Scope, parameters: seq<(string, Type)>): Scope
    decreases |parameters|
  {
    if parameters == [] then scope else Declared(scope[parameters[0].0 := parameters[0].1], parameters[1..])
  }

  ghost predicate Distinct(parameters: seq<(string, Type)>) {
    forall i, j :: 0 <= i < j < |parameters| ==> parameters[i].0 != parameters[j].0
  }

  /** `main` takes nothing, and a value-returning function other than `main` cannot be
      passed. */
  ghost predicate WellFormed(f: Function) {
    && (f.isMain ==> f.parameters == [])
    && Distinct(f.parameters)
    && BlockAllowed(Declared(map[], f.parameters), f.body, f.result)
    && (f.result != NothingType && !f.isMain ==> !MayPassAll(f.body))
  }

  /* ---- operators ---- */

  lemma OnIs(op: Operator, x: Value, y: Value)
    ensures On(op, x, y) ==
            if op != And && op != Or then Apply(op, x, y)
            else if !x.BooleanValue? then Stuck
            else if x.b == (op == Or) then Val(x)
            else if y.BooleanValue? then Val(y) else Stuck
  {
    hide Apply;
    var env := map["left" := x, "right" := y];
    assert Evaluation(Name("left"), env) == Val(x) && Evaluation(Name("right"), env) == Val(y);
  }

  /** The result type of an operator at operands of one type. */
  function OperatorType(op: Operator, t: Type): Option<Type> {
    if op == Equal || op == NotEqual then if t == NothingType then None else Some(BooleanType)
    else if op == And || op == Or then if t == BooleanType then Some(BooleanType) else None
    else if t != IntegerType then None
    else Some(if IsNumeric(op) then IntegerType else BooleanType)
  }

  lemma TakesOnly(op: Operator, u: Type, v: Type, t: Type)
    requires Takes(op, u, v, t)
    ensures u == v && OperatorType(op, u) == Some(t)
  {
    hide On, Apply;
    var x: Value, y: Value :| TypeOf(x) == u && TypeOf(y) == v && On(op, x, y).Val?;
    OnIs(op, x, y);
    if op == And || op == Or {
      var truth, lie, one := BooleanValue(true), BooleanValue(false), IntegerValue(1);
      OnIs(op, truth, one);
      OnIs(op, lie, one);
    } else {
      AppliesOnly(op, x, y);
    }
  }

  lemma AppliesOnly(op: Operator, x: Value, y: Value)
    requires op != And && op != Or && Apply(op, x, y).Val?
    ensures TypeOf(x) == TypeOf(y) && OperatorType(op, TypeOf(x)) == Some(TypeOf(Apply(op, x, y).v))
  {
  }

  lemma TakesThose(op: Operator, u: Type)
    requires OperatorType(op, u).Some?
    ensures Takes(op, u, u, OperatorType(op, u).value)
  {
    hide On;
    forall x: Value, y: Value | TypeOf(x) == u && TypeOf(y) == u
      ensures Proper(On(op, x, y), OperatorType(op, u).value)
    {
      OnIs(op, x, y);
      if op != And && op != Or { ApplyTyped(op, x, y); }
    }
    var x := if u == IntegerType then IntegerValue(1) else BooleanValue(true);
    OnIs(op, x, x);
    assert On(op, x, x).Val?;
  }

  lemma UnaryTakes(u: Type, t: Type)
    ensures NotTakes(u, t) <==> u == BooleanType && t == BooleanType
    ensures NegateTakes(u, t) <==> u == IntegerType && t == IntegerType
  {
    forall x: Value
      ensures NotOn(x) == if x.BooleanValue? then Truth(!x.b) else Stuck
      ensures NegateOn(x) == if x.IntegerValue? then Checked(0 - (x.n as int)) else Stuck
    {
      assert Evaluation(Name("operand"), map["operand" := x]) == Val(x);
    }
    hide NotOn, NegateOn;
    var one, truth := IntegerValue(1), BooleanValue(true);
    assert NegateOn(one).Val? && NotOn(truth).Val? && NegateOn(truth).Stuck? && NotOn(one).Stuck?;
  }

  /* ---- paths ---- */

  /** What cannot be passed never ends normally. */
  lemma {:induction false} NeverPassed(s: Statement, env: Environment, fuel: nat)
    requires !MayPass(s)
    ensures !Run(s, env, fuel).Normal?
    decreases s, 0
  {
    if s.If? {
      NeverPassedAll(s.thenBody, env, fuel);
      NeverPassedAll(s.elseBody, env, fuel);
    }
  }

  lemma {:induction false} NeverPassedAll(ss: seq<Statement>, env: Environment, fuel: nat)
    requires !MayPassAll(ss)
    ensures !RunAll(ss, env, fuel).Normal?
    decreases ss, 1
  {
    if MayPass(ss[0]) {
      var o := Run(ss[0], env, fuel);
      if o.Normal? { NeverPassedAll(ss[1..], o.state, fuel); }
    } else {
      NeverPassed(ss[0], env, fuel);
    }
  }

  /* ---- names ---- */

  /** The names in scope, the newest local of a name hiding the others. */
  function ScopeOf(locals: seq<Local>): Scope {
    if locals == [] then map[]
    else
      var last, outer := locals[|locals| - 1], ScopeOf(locals[..|locals| - 1]);
      if last.active then outer[last.name := last.ty] else outer
  }

  lemma {:induction false} NameFound(locals: seq<Local>, x: string)
    ensures x in ScopeOf(locals) <==> FindLocal(locals, x).Some?
    ensures x in ScopeOf(locals) ==> ScopeOf(locals)[x] == locals[FindLocal(locals, x).value].ty
  {
    if locals != [] { NameFound(locals[..|locals| - 1], x); }
  }

  lemma {:induction false} InertScope(locals: seq<Local>, locals': seq<Local>)
    requires Inert(locals, locals')
    ensures ScopeOf(locals') == ScopeOf(locals)
    decreases |locals'|
  {
    if |locals'| > |locals| {
      InertScope(locals, locals'[..|locals'| - 1]);
    } else {
      assert locals' == locals;
    }
  }

  /* ---- the checker accepts exactly that ---- */

  predicate Accepts(locals: seq<Local>, e: Expression, t: Type) {
    CheckExpression(locals, e).Some? && CheckExpression(locals, e).value.1 == t
  }

  /** An expression is accepted, at a type, exactly when the rules give it that type. */
  lemma {:induction false} ExpressionAccepted(locals: seq<Local>, e: Expression, t: Type)
    ensures Typed(ScopeOf(locals), e, t) <==> Accepts(locals, e, t)
    decreases e, 0
  {
    hide Takes, NotTakes, NegateTakes, ScopeOf, FindLocal;
    match e
    case IntegerLiteral(n) =>
    case BooleanLiteral(b) =>
    case Name(x) =>
      NameFound(locals, x);
    case Not(e0) =>
      forall u ensures Typed(ScopeOf(locals), e0, u) <==> Accepts(locals, e0, u) {
        ExpressionAccepted(locals, e0, u);
      }
      forall u ensures NotTakes(u, t) <==> u == BooleanType && t == BooleanType { UnaryTakes(u, t); }
      assert Typed(ScopeOf(locals), e0, BooleanType) <==> Accepts(locals, e0, BooleanType);
    case Negate(e0) =>
      forall u ensures Typed(ScopeOf(locals), e0, u) <==> Accepts(locals, e0, u) {
        ExpressionAccepted(locals, e0, u);
      }
      forall u ensures NegateTakes(u, t) <==> u == IntegerType && t == IntegerType { UnaryTakes(u, t); }
      assert Typed(ScopeOf(locals), e0, IntegerType) <==> Accepts(locals, e0, IntegerType);
    case Binary(op, left, right) =>
      forall u
        ensures Typed(ScopeOf(locals), left, u) <==> Accepts(locals, left, u)
        ensures Typed(ScopeOf(locals), right, u) <==> Accepts(locals, right, u)
      {
        ExpressionAccepted(locals, left, u);
        ExpressionAccepted(locals, right, u);
      }
      BinaryAccepted(locals, e, t);
  }

  lemma BinaryAccepted(locals: seq<Local>, e: Expression, t: Type)
    requires e.Binary?
    requires forall u :: Typed(ScopeOf(locals), e.left, u) <==> Accepts(locals, e.left, u)
    requires forall u :: Typed(ScopeOf(locals), e.right, u) <==> Accepts(locals, e.right, u)
    ensures Typed(ScopeOf(locals), e, t) <==> Accepts(locals, e, t)
  {
    hide Takes, ScopeOf, FindLocal;
    if Typed(ScopeOf(locals), e, t) {
      var u, v :| Typed(ScopeOf(locals), e.left, u) && Typed(ScopeOf(locals), e.right, v) && Takes(e.op, u, v, t);
      TakesOnly(e.op, u, v, t);
    }
    if Accepts(locals, e, t) {
      var u := CheckExpression(locals, e.left).value.1;
      assert Accepts(locals, e.left, u) && Accepts(locals, e.right, u);
      assert OperatorType(e.op, u) == Some(t);
      TakesThose(e.op, u);
    }
  }

  /** Past a statement the checker accepts there is a path exactly when it does not
      guarantee a return. */
  lemma {:induction false} PassesOrReturns(locals: seq<Local>, s: Statement, result: Type)
    requires CheckStatement(locals, s, result).Some?
    ensures MayPass(s) == !Guarantees(s)
    decreases s, 0
  {
    match s
    case If(c, thenBody, elseBody) =>
      AllPassesOrReturns(locals, thenBody, result);
      AllPassesOrReturns(CheckBlock(locals, thenBody, result).value.0, elseBody, result);
    case _ =>
  }

  lemma {:induction false} AllPassesOrReturns(locals: seq<Local>, ss: seq<Statement>, result: Type)
    requires CheckAll(locals, ss, result).Some?
    ensures MayPassAll(ss) == (ss == [] || !Guarantees(ss[|ss| - 1]))
    decreases ss, 1
  {
    if ss != [] {
      PassesOrReturns(locals, ss[0], result);
      AllPassesOrReturns(CheckStatement(locals, ss[0], result).value.0, ss[1..], result);
    }
  }

  predicate AcceptsStatement(locals: seq<Local>, s: Statement, result: Type, scope': Scope) {
    CheckStatement(locals, s, result).Some? && ScopeOf(CheckStatement(locals, s, result).value.0) == scope'
  }

  predicate AcceptsAll(locals: seq<Local>, ss: seq<Statement>, result: Type, scope': Scope) {
    CheckAll(locals, ss, result).Some? && ScopeOf(CheckAll(locals, ss, result).value.0) == scope'
  }

  /** A statement is accepted exactly when the rules allow it, and then leaves the scope
      behind that they say. */
  lemma {:induction false} StatementAccepted(locals: seq<Local>, s: Statement, result: Type, scope': Scope)
    ensures Allowed(ScopeOf(locals), s, result, scope') <==> AcceptsStatement(locals, s, result, scope')
    decreases s, 0
  {
    hide Typed, FindLocal, CheckExpression;
    match s
    case Let(x, declared, e) =>
      LetAccepted(locals, x, declared, e, result, scope');
    case Assign(x, e) =>
      NameFound(locals, x);
      TypedAccepted(locals, e);
    case Evaluate(e) =>
      TypedAccepted(locals, e);
      if CheckExpression(locals, e).Some? { assert Accepts(locals, e, CheckExpression(locals, e).value.1); }
    case Return(None) =>
    case Return(Some(e)) =>
      TypedAccepted(locals, e);
    case If(c, thenBody, elseBody) =>
      TypedAccepted(locals, c);
      BlockAccepted(locals, thenBody, result);
      if CheckBlock(locals, thenBody, result).Some? {
        BlockAccepted(CheckBlock(locals, thenBody, result).value.0, elseBody, result);
      }
    case While(c, body) =>
      TypedAccepted(locals, c);
      BlockAccepted(locals, body, result);
  }

  lemma TypedAccepted(locals: seq<Local>, e: Expression)
    ensures forall t :: Typed(ScopeOf(locals), e, t) <==> Accepts(locals, e, t)
  {
    forall t ensures Typed(ScopeOf(locals), e, t) <==> Accepts(locals, e, t) { ExpressionAccepted(locals, e, t); }
  }

  lemma LetAccepted(locals: seq<Local>, x: string, declared: Option<Type>, e: Expression, result: Type, scope': Scope)
    ensures Allowed(ScopeOf(locals), Let(x, declared, e), result, scope')
       <==> AcceptsStatement(locals, Let(x, declared, e), result, scope')
  {
    hide Typed, FindLocal, CheckExpression, ScopeOf;
    NameFound(locals, x);
    TypedAccepted(locals, e);
    assert TypeOf(IntegerValue(0)) == IntegerType && TypeOf(BooleanValue(true)) == BooleanType;
    var r := CheckExpression(locals, e);
    if r.Some? {
      assert Accepts(locals, e, r.value.1);
      DeclareScope(locals, x, r.value.1);
    }
  }

  lemma DeclareScope(locals: seq<Local>, x: string, t: Type)
    ensures ScopeOf(locals + [Local(x, t, true)]) == ScopeOf(locals)[x := t]
  {
    assert (locals + [Local(x, t, true)])[..|locals|] == locals;
  }

  lemma {:induction false} AllAccepted(locals: seq<Local>, ss: seq<Statement>, result: Type, scope': Scope)
    ensures AllAllowed(ScopeOf(locals), ss, result, scope') <==> AcceptsAll(locals, ss, result, scope')
    decreases ss, 1
  {
    hide ScopeOf, Allowed, CheckStatement;
    if ss != [] {
      var a := CheckStatement(locals, ss[0], result);
      forall next
        ensures Allowed(ScopeOf(locals), ss[0], result, next) <==> AcceptsStatement(locals, ss[0], result, next)
      {
        StatementAccepted(locals, ss[0], result, next);
      }
      if a.Some? {
        PassesOrReturns(locals, ss[0], result);
        AllAccepted(a.value.0, ss[1..], result, scope');
        assert Allowed(ScopeOf(locals), ss[0], result, ScopeOf(a.value.0));
      }
    }
  }

  /** A block is accepted exactly when the rules allow it, and what it declares ends with
      it. */
  lemma {:induction false} BlockAccepted(locals: seq<Local>, ss: seq<Statement>, result: Type)
    ensures BlockAllowed(ScopeOf(locals), ss, result) <==> CheckBlock(locals, ss, result).Some?
    ensures CheckBlock(locals, ss, result).Some? ==>
        ScopeOf(CheckBlock(locals, ss, result).value.0) == ScopeOf(locals)
    decreases ss, 2
  {
    hide ScopeOf, AllAllowed, CheckAll, Deactivate;
    forall inner
      ensures AllAllowed(ScopeOf(locals), ss, result, inner) <==> AcceptsAll(locals, ss, result, inner)
    {
      AllAccepted(locals, ss, result, inner);
    }
    if CheckBlock(locals, ss, result).Some? {
      assert AcceptsAll(locals, ss, result, ScopeOf(CheckAll(locals, ss, result).value.0));
      BlockInert(locals, ss, result);
      InertScope(locals, CheckBlock(locals, ss, result).value.0);
    }
  }

  /** Parameters are accepted exactly when no name repeats. */
  lemma {:induction false} ParametersAccepted(locals: seq<Local>, parameters: seq<(string, Type)>)
    ensures AddParameters(locals, parameters).Some? <==>
        Distinct(parameters) && forall i :: 0 <= i < |parameters| ==> parameters[i].0 !in ScopeOf(locals)
    ensures AddParameters(locals, parameters).Some? ==>
        ScopeOf(AddParameters(locals, parameters).value) == Declared(ScopeOf(locals), parameters)
    decreases |parameters|
  {
    hide FindLocal, ScopeOf;
    if parameters != [] {
      var x, t, rest := parameters[0].0, parameters[0].1, parameters[1..];
      var locals' := locals + [Local(x, t, true)];
      NameFound(locals, x);
      ParametersAccepted(locals', rest);
      DeclareScope(locals, x, t);
      if Distinct(parameters) && forall i :: 0 <= i < |parameters| ==> parameters[i].0 !in ScopeOf(locals) {
        forall i | 0 <= i < |rest| ensures rest[i].0 !in ScopeOf(locals') { assert rest[i] == parameters[i + 1]; }
        forall i, j | 0 <= i < j < |rest| ensures rest[i].0 != rest[j].0 {
          assert rest[i] == parameters[i + 1] && rest[j] == parameters[j + 1];
        }
      }
      if AddParameters(locals, parameters).Some? {
        forall i | 0 <= i < |parameters| ensures parameters[i].0 !in ScopeOf(locals) {
          if i > 0 { assert rest[i - 1] == parameters[i]; }
        }
        forall i, j | 0 <= i < j < |parameters| ensures parameters[i].0 != parameters[j].0 {
          assert rest[j - 1] == parameters[j];
          if i > 0 { assert rest[i - 1] == parameters[i]; }
        }
      }
    }
  }

  /** A function is accepted exactly when it is well formed: names and types by the rules,
      nothing after a statement that cannot be passed, and no way past the body of a
      function that owes a value. */
  lemma {:induction false} AcceptedExactly(f: Function)
    ensures CheckFunction(f).Some? <==> WellFormed(f)
  {
    hide CheckAll, AllAllowed, ScopeOf, FindLocal, Guarantees, MayPassAll, AddParameters, Declared;
    NoScope();
    ParametersAccepted([], f.parameters);
    var locals := AddParameters([], f.parameters);
    if locals.Some? {
      BlockAccepted(locals.value, f.body, f.result);
      if CheckAll(locals.value, f.body, f.result).Some? {
        AllPassesOrReturns(locals.value, f.body, f.result);
      }
    }
  }

  lemma NoScope()
    ensures ScopeOf([]) == map[]
  {
  }
}
