/** The checker: types every expression, resolves each name to a local slot, and
    rejects what could go wrong. A checked function keeps its meaning when names
    are replaced by slots, and never goes wrong. */
module Stage0Check {
  import opened Wrappers
  import opened Stage0Source

  /* ---- resolved programs ---- */

  datatype Code =
    | IntegerConstant(n: Integer)
    | BooleanConstant(b: bool)
    | Slot(i: nat)
    | NotCode(e: Code)
    | NegateCode(e: Code)
    | BinaryCode(op: Operator, left: Code, right: Code)

  /** `let` and assignment both become a store. */
  datatype Command =
    | Store(i: nat, e: Code)
    | Discard(e: Code)
    | Give(result: Option<Code>)
    | Branch(condition: Code, thenBody: seq<Command>, elseBody: seq<Command>)
    | Loop(condition: Code, body: seq<Command>)

  type Locals = map<nat, Value>

  function CodeValue(e: Code, st: Locals): Result {
    match e
    case IntegerConstant(n) => Val(IntegerValue(n))
    case BooleanConstant(b) => Truth(b)
    case Slot(i) => if i in st then Val(st[i]) else Stuck
    case NotCode(e) =>
      var r := CodeValue(e, st);
      if !r.Val? then r else if r.v.BooleanValue? then Truth(!r.v.b) else Stuck
    case NegateCode(e) =>
      var r := CodeValue(e, st);
      if !r.Val? then r else if r.v.IntegerValue? then Checked(0 - (r.v.n as int)) else Stuck
    case BinaryCode(op, left, right) =>
      var a := CodeValue(left, st);
      if !a.Val? then a
      else if op == And || op == Or then
        if !a.v.BooleanValue? then Stuck
        else if a.v.b == (op == Or) then a
        else
          var b := CodeValue(right, st);
          if b.Val? && !b.v.BooleanValue? then Stuck else b
      else
        var b := CodeValue(right, st);
        if !b.Val? then b else Apply(op, a.v, b.v)
  }

  function Execute(c: Command, st: Locals, fuel: nat): Outcome<Locals>
    decreases fuel, c, 0
  {
    match c
    case Store(i, e) =>
      var r := CodeValue(e, st);
      if r.Val? then Normal(st[i := r.v]) else if r.Trap? then Trapped else Wrong
    case Discard(e) =>
      var r := CodeValue(e, st);
      if r.Val? then Normal(st) else if r.Trap? then Trapped else Wrong
    case Give(None) => Returned(None)
    case Give(Some(e)) =>
      var r := CodeValue(e, st);
      if r.Val? then Returned(Some(r.v)) else if r.Trap? then Trapped else Wrong
    case Branch(e, thenBody, elseBody) =>
      var r := CodeValue(e, st);
      if r.Trap? then Trapped else if !r.Val? || !r.v.BooleanValue? then Wrong
      else if r.v.b then ExecuteAll(thenBody, st, fuel) else ExecuteAll(elseBody, st, fuel)
    case Loop(e, body) =>
      if fuel == 0 then OutOfFuel
      else
        var r := CodeValue(e, st);
        if r.Trap? then Trapped else if !r.Val? || !r.v.BooleanValue? then Wrong
        else if !r.v.b then Normal(st)
        else
          var o := ExecuteAll(body, st, fuel - 1);
          if o.Normal? then Execute(c, o.state, fuel - 1) else o
  }

  function ExecuteAll(cs: seq<Command>, st: Locals, fuel: nat): Outcome<Locals>
    decreases fuel, cs, 1
  {
    if cs == [] then Normal(st)
    else
      var o := Execute(cs[0], st, fuel);
      if o.Normal? then ExecuteAll(cs[1..], o.state, fuel) else o
  }

  /* ---- the checker ---- */

  datatype Local = Local(name: string, ty: Type, active: bool)

  /** `find_local`: the newest active local of the name. */
  function FindLocal(locals: seq<Local>, x: string): (r: Option<nat>)
    ensures r.Some? ==> r.value < |locals| && locals[r.value].active && locals[r.value].name == x
    ensures r.Some? ==> forall j :: r.value < j < |locals| && locals[j].active ==> locals[j].name != x
    ensures r.None? ==> forall i :: 0 <= i < |locals| && locals[i].active ==> locals[i].name != x
  {
    if locals == [] then None
    else
      var n := |locals| - 1;
      if locals[n].active && locals[n].name == x then Some(n) else FindLocal(locals[..n], x)
  }

  function CheckExpression(locals: seq<Local>, e: Expression): Option<(Code, Type)> {
    match e
    case IntegerLiteral(n) => Some((IntegerConstant(n), IntegerType))
    case BooleanLiteral(b) => Some((BooleanConstant(b), BooleanType))
    case Name(x) =>
      var i := FindLocal(locals, x);
      if i.Some? then Some((Slot(i.value), locals[i.value].ty)) else None
    case Not(e) =>
      var r := CheckExpression(locals, e);
      if r.Some? && r.value.1 == BooleanType then Some((NotCode(r.value.0), BooleanType)) else None
    case Negate(e) =>
      var r := CheckExpression(locals, e);
      if r.Some? && r.value.1 == IntegerType then Some((NegateCode(r.value.0), IntegerType)) else None
    case Binary(op, left, right) =>
      var a := CheckExpression(locals, left);
      var b := CheckExpression(locals, right);
      if a.None? || b.None? || a.value.1 != b.value.1 then None
      else
        var code := BinaryCode(op, a.value.0, b.value.0);
        match op
        case Equal | NotEqual => if a.value.1 == NothingType then None else Some((code, BooleanType))
        case And | Or => if a.value.1 == BooleanType then Some((code, BooleanType)) else None
        case Less | Greater | LessEqual | GreaterEqual =>
          if a.value.1 == IntegerType then Some((code, BooleanType)) else None
        case _ => if a.value.1 == IntegerType then Some((code, IntegerType)) else None
  }

  /** `statement_guarantees_return`. */
  function Guarantees(s: Statement): bool {
    match s
    case Return(_) => true
    case If(_, thenBody, elseBody) =>
      && elseBody != [] && thenBody != []
      && Guarantees(thenBody[|thenBody| - 1]) && Guarantees(elseBody[|elseBody| - 1])
    case _ => false
  }

  /** Locals from `first` on go out of scope. */
  function Deactivate(locals: seq<Local>, first: nat): seq<Local> {
    seq(|locals|, i requires 0 <= i < |locals| => if i < first then locals[i] else locals[i].(active := false))
  }

  function CheckStatement(locals: seq<Local>, s: Statement, result: Type): Option<(seq<Local>, Command)>
    decreases s, 0
  {
    match s
    case Let(x, declared, e) =>
      var r := CheckExpression(locals, e);
      if r.None? || r.value.1 == NothingType || (declared.Some? && declared.value != r.value.1) then None
      else if FindLocal(locals, x).Some? then None
      else Some((locals + [Local(x, r.value.1, true)], Store(|locals|, r.value.0)))
    case Assign(x, e) =>
      var i := FindLocal(locals, x);
      var r := CheckExpression(locals, e);
      if i.None? || r.None? || r.value.1 != locals[i.value].ty then None
      else Some((locals, Store(i.value, r.value.0)))
    case Evaluate(e) =>
      var r := CheckExpression(locals, e);
      if r.None? then None else Some((locals, Discard(r.value.0)))
    case Return(None) => if result == NothingType then Some((locals, Give(None))) else None
    case Return(Some(e)) =>
      var r := CheckExpression(locals, e);
      if r.None? || r.value.1 != result then None else Some((locals, Give(Some(r.value.0))))
    case If(c, thenBody, elseBody) =>
      var r := CheckExpression(locals, c);
      if r.None? || r.value.1 != BooleanType then None
      else
        var a := CheckBlock(locals, thenBody, result);
        if a.None? then None
        else
          var b := CheckBlock(a.value.0, elseBody, result);
          if b.None? then None else Some((b.value.0, Branch(r.value.0, a.value.1, b.value.1)))
    case While(c, body) =>
      var r := CheckExpression(locals, c);
      if r.None? || r.value.1 != BooleanType then None
      else
        var a := CheckBlock(locals, body, result);
        if a.None? then None else Some((a.value.0, Loop(r.value.0, a.value.1)))
  }

  /** A nested block: what it declares ends with it. */
  function CheckBlock(locals: seq<Local>, ss: seq<Statement>, result: Type): Option<(seq<Local>, seq<Command>)>
    decreases ss, 2
  {
    var r := CheckAll(locals, ss, result);
    if r.None? then None else Some((Deactivate(r.value.0, |locals|), r.value.1))
  }

  /** The statement loop: nothing may follow a guaranteed return. */
  function CheckAll(locals: seq<Local>, ss: seq<Statement>, result: Type): Option<(seq<Local>, seq<Command>)>
    decreases ss, 1
  {
    if ss == [] then Some((locals, []))
    else if Guarantees(ss[0]) && |ss| > 1 then None
    else
      var a := CheckStatement(locals, ss[0], result);
      if a.None? then None
      else
        var b := CheckAll(a.value.0, ss[1..], result);
        if b.None? then None else Some((b.value.0, [a.value.1] + b.value.1))
  }

  /* ---- names and slots agree ---- */

  ghost predicate AgreesAt(locals: seq<Local>, env: Environment, st: Locals, i: nat)
    requires i < |locals|
  {
    locals[i].active ==>
      locals[i].name in env && i in st && st[i] == env[locals[i].name] && TypeOf(st[i]) == locals[i].ty
  }

  /** Each active local names one variable and its slot holds its value. */
  ghost predicate Agrees(locals: seq<Local>, env: Environment, st: Locals) {
    && (forall i :: 0 <= i < |locals| ==> AgreesAt(locals, env, st, i))
    && (forall i, j :: 0 <= i < j < |locals| && locals[i].active && locals[j].active ==>
        locals[i].name != locals[j].name)
    && (forall x :: x in env ==> FindLocal(locals, x).Some?)
  }

  lemma {:induction false} FindUnique(locals: seq<Local>, env: Environment, st: Locals, i: nat)
    requires Agrees(locals, env, st) && i < |locals| && locals[i].active
    ensures FindLocal(locals, locals[i].name) == Some(i)
  {
  }

  predicate IsNumeric(op: Operator) { op.Add? || op.Subtract? || op.Multiply? || op.Divide? || op.Remainder? }

  /** A strict operator on operands of the types it asks for. */
  lemma ApplyTyped(op: Operator, a: Value, b: Value)
    requires op != And && op != Or && TypeOf(a) == TypeOf(b) && (op == Equal || op == NotEqual || a.IntegerValue?)
    ensures var r := Apply(op, a, b);
      && !r.Stuck?
      && (r.Val? ==> TypeOf(r.v) == if IsNumeric(op) then IntegerType else BooleanType)
  {
  }

  /** A checked expression keeps its meaning and has the type it was given. */
  lemma {:induction false} ExpressionResolves(locals: seq<Local>, e: Expression, env: Environment, st: Locals)
    requires Agrees(locals, env, st) && CheckExpression(locals, e).Some?
    ensures var (code, ty) := CheckExpression(locals, e).value; var r := Evaluation(e, env);
      r == CodeValue(code, st) && !r.Stuck? && (r.Val? ==> TypeOf(r.v) == ty)
  {
    hide Apply;
    match e
    case IntegerLiteral(n) =>
    case BooleanLiteral(b) =>
    case Name(x) =>
      var i := FindLocal(locals, x).value;
      assert AgreesAt(locals, env, st, i);
    case Not(e) =>
      ExpressionResolves(locals, e, env, st);
    case Negate(e) =>
      ExpressionResolves(locals, e, env, st);
    case Binary(op, left, right) =>
      ExpressionResolves(locals, left, env, st);
      ExpressionResolves(locals, right, env, st);
      BinaryResolves(locals, e, env, st);
  }

  lemma {:induction false} BinaryResolves(locals: seq<Local>, e: Expression, env: Environment, st: Locals)
    requires e.Binary? && CheckExpression(locals, e).Some?
    requires var (code, ty) := CheckExpression(locals, e.left).value; var r := Evaluation(e.left, env);
      r == CodeValue(code, st) && !r.Stuck? && (r.Val? ==> TypeOf(r.v) == ty)
    requires var (code, ty) := CheckExpression(locals, e.right).value; var r := Evaluation(e.right, env);
      r == CodeValue(code, st) && !r.Stuck? && (r.Val? ==> TypeOf(r.v) == ty)
    ensures var (code, ty) := CheckExpression(locals, e).value; var r := Evaluation(e, env);
      r == CodeValue(code, st) && !r.Stuck? && (r.Val? ==> TypeOf(r.v) == ty)
  {
    hide Apply;
    var a, b := Evaluation(e.left, env), Evaluation(e.right, env);
    if e.op != And && e.op != Or && a.Val? && b.Val? { ApplyTyped(e.op, a.v, b.v); }
  }

  /* ---- scopes ---- */

  ghost predicate Extends(locals: seq<Local>, locals': seq<Local>) {
    |locals| <= |locals'| && locals'[..|locals|] == locals
  }

  /** Extended by locals already out of scope. */
  ghost predicate Inert(locals: seq<Local>, locals': seq<Local>) {
    Extends(locals, locals') && forall i :: |locals| <= i < |locals'| ==> !locals'[i].active
  }

  lemma {:induction false} InertFind(locals: seq<Local>, locals': seq<Local>, x: string)
    requires Inert(locals, locals')
    ensures FindLocal(locals', x) == FindLocal(locals, x)
    decreases |locals'|
  {
    if |locals'| > |locals| {
      InertFind(locals, locals'[..|locals'| - 1], x);
    } else {
      assert locals' == locals;
    }
  }

  lemma InertAgrees(locals: seq<Local>, locals': seq<Local>, env: Environment, st: Locals)
    requires Inert(locals, locals') && Agrees(locals, env, st)
    ensures Agrees(locals', env, st)
  {
    forall i | 0 <= i < |locals'| ensures AgreesAt(locals', env, st, i) {
      if i < |locals| { assert AgreesAt(locals, env, st, i) && locals'[i] == locals[i]; }
    }
    forall i, j | 0 <= i < j < |locals'| && locals'[i].active && locals'[j].active
      ensures locals'[i].name != locals'[j].name
    {
      assert locals'[i] == locals[i] && locals'[j] == locals[j];
    }
    forall x | x in env ensures FindLocal(locals', x).Some? { InertFind(locals, locals', x); }
  }

  lemma {:induction false} CheckExtends(locals: seq<Local>, s: Statement, result: Type)
    requires CheckStatement(locals, s, result).Some?
    ensures Extends(locals, CheckStatement(locals, s, result).value.0)
    decreases s, 0
  {
    match s
    case If(c, thenBody, elseBody) =>
      BlockInert(locals, thenBody, result);
      BlockInert(CheckBlock(locals, thenBody, result).value.0, elseBody, result);
    case While(c, body) =>
      BlockInert(locals, body, result);
    case _ =>
  }

  lemma {:induction false} AllExtends(locals: seq<Local>, ss: seq<Statement>, result: Type)
    requires CheckAll(locals, ss, result).Some?
    ensures Extends(locals, CheckAll(locals, ss, result).value.0)
    decreases ss, 1
  {
    if ss != [] {
      CheckExtends(locals, ss[0], result);
      AllExtends(CheckStatement(locals, ss[0], result).value.0, ss[1..], result);
    }
  }

  lemma {:induction false} BlockInert(locals: seq<Local>, ss: seq<Statement>, result: Type)
    requires CheckBlock(locals, ss, result).Some?
    ensures Inert(locals, CheckBlock(locals, ss, result).value.0)
    decreases ss, 2
  {
    AllExtends(locals, ss, result);
    DeactivateInert(locals, CheckAll(locals, ss, result).value.0);
  }

  lemma DeactivateInert(locals: seq<Local>, inner: seq<Local>)
    requires Extends(locals, inner)
    ensures Inert(locals, Deactivate(inner, |locals|))
  {
    var d := Deactivate(inner, |locals|);
    forall i | 0 <= i < |locals| ensures d[..|locals|][i] == locals[i] { assert inner[..|locals|][i] == locals[i]; }
  }

  /** Leaving a block restores the outer names with their current values. */
  lemma LeaveAgrees(locals: seq<Local>, inner: seq<Local>, env: Environment, st: Locals, env': Environment, st': Locals)
    requires Agrees(locals, env, st) && Agrees(inner, env', st') && Extends(locals, inner)
    ensures Agrees(Deactivate(inner, |locals|), Leave(env, env'), st')
  {
    var out := Leave(env, env');
    forall i | 0 <= i < |locals| ensures AgreesAt(locals, out, st', i) {
      assert AgreesAt(locals, env, st, i);
      assert inner[..|locals|][i] == locals[i];
      assert AgreesAt(inner, env', st', i);
    }
    assert Agrees(locals, out, st');
    DeactivateInert(locals, inner);
    InertAgrees(locals, Deactivate(inner, |locals|), out, st');
  }

  /* ---- statements ---- */

  /** Both runs end the same way, in states that agree. */
  ghost predicate Matches(locals: seq<Local>, o: Outcome<Environment>, o': Outcome<Locals>) {
    match (o, o')
    case (Normal(env), Normal(st)) => Agrees(locals, env, st)
    case (Returned(v), Returned(w)) => v == w
    case (Trapped, Trapped) => true
    case (OutOfFuel, OutOfFuel) => true
    case _ => false
  }

  lemma StoreAgrees(locals: seq<Local>, env: Environment, st: Locals, i: nat, v: Value)
    requires Agrees(locals, env, st) && i < |locals| && locals[i].active && TypeOf(v) == locals[i].ty
    ensures Agrees(locals, env[locals[i].name := v], st[i := v])
  {
    var env', st' := env[locals[i].name := v], st[i := v];
    forall j | 0 <= j < |locals| ensures AgreesAt(locals, env', st', j) { assert AgreesAt(locals, env, st, j); }
    FindUnique(locals, env, st, i);
  }

  lemma LetAgrees(locals: seq<Local>, env: Environment, st: Locals, x: string, v: Value)
    requires Agrees(locals, env, st) && FindLocal(locals, x).None?
    ensures Agrees(locals + [Local(x, TypeOf(v), true)], env[x := v], st[|locals| := v])
  {
    var locals' := locals + [Local(x, TypeOf(v), true)];
    var env', st' := env[x := v], st[|locals| := v];
    forall j | 0 <= j < |locals'| ensures AgreesAt(locals', env', st', j) {
      if j < |locals| { assert AgreesAt(locals, env, st, j); }
    }
    forall y | y in env' ensures FindLocal(locals', y).Some? { assert locals'[..|locals|] == locals; }
  }

  lemma {:induction false} StatementResolves(locals: seq<Local>, s: Statement, result: Type, env: Environment,
                                             st: Locals, fuel: nat)
    requires Agrees(locals, env, st) && CheckStatement(locals, s, result).Some?
    ensures var (locals', c) := CheckStatement(locals, s, result).value;
      Matches(locals', Run(s, env, fuel), Execute(c, st, fuel))
    decreases fuel, s, 1
  {
    var (locals', c) := CheckStatement(locals, s, result).value;
    match s
    case Let(x, declared, e) =>
      ExpressionResolves(locals, e, env, st);
      var r := Evaluation(e, env);
      if r.Val? { LetAgrees(locals, env, st, x, r.v); }
    case Assign(x, e) =>
      ExpressionResolves(locals, e, env, st);
      var r := Evaluation(e, env);
      if r.Val? { StoreAgrees(locals, env, st, FindLocal(locals, x).value, r.v); }
    case Evaluate(e) =>
      ExpressionResolves(locals, e, env, st);
    case Return(None) =>
    case Return(Some(e)) =>
      ExpressionResolves(locals, e, env, st);
    case If(e, thenBody, elseBody) =>
      ExpressionResolves(locals, e, env, st);
      IfResolves(locals, s, result, env, st, fuel);
    case While(e, body) =>
      if fuel > 0 {
        ExpressionResolves(locals, e, env, st);
        WhileResolves(locals, s, result, env, st, fuel);
      }
  }

  lemma {:induction false} IfResolves(locals: seq<Local>, s: Statement, result: Type, env: Environment, st: Locals,
                                      fuel: nat)
    requires Agrees(locals, env, st) && s.If? && CheckStatement(locals, s, result).Some?
    requires Evaluation(s.condition, env) == CodeValue(CheckStatement(locals, s, result).value.1.condition, st)
    requires !Evaluation(s.condition, env).Stuck? &&
        (Evaluation(s.condition, env).Val? ==> Evaluation(s.condition, env).v.BooleanValue?)
    ensures var (locals', c) := CheckStatement(locals, s, result).value;
      Matches(locals', Run(s, env, fuel), Execute(c, st, fuel))
    decreases fuel, s, 0
  {
    var (mid, thenCode) := CheckBlock(locals, s.thenBody, result).value;
    BlockInert(locals, s.thenBody, result);
    BlockInert(mid, s.elseBody, result);
    var r := Evaluation(s.condition, env);
    if r.Val? && r.v.b {
      BlockResolves(locals, s.thenBody, result, env, st, fuel);
      hide Agrees, RunAll, ExecuteAll, CheckBlock, Evaluation, CodeValue, CheckExpression, Inert, LeaveBlock;
      var o, o' := LeaveBlock(env, RunAll(s.thenBody, env, fuel)), ExecuteAll(thenCode, st, fuel);
      if o.Normal? { InertAgrees(mid, CheckBlock(mid, s.elseBody, result).value.0, o.state, o'.state); }
    } else if r.Val? {
      InertAgrees(locals, mid, env, st);
      hide Agrees, RunAll, ExecuteAll, CheckBlock, Evaluation, CodeValue, CheckExpression, Inert, LeaveBlock;
      BlockResolves(mid, s.elseBody, result, env, st, fuel);
    }
  }

  lemma {:induction false} WhileResolves(locals: seq<Local>, s: Statement, result: Type, env: Environment, st: Locals,
                                         fuel: nat)
    requires Agrees(locals, env, st) && s.While? && fuel > 0 && CheckStatement(locals, s, result).Some?
    requires Evaluation(s.condition, env) == CodeValue(CheckStatement(locals, s, result).value.1.condition, st)
    requires !Evaluation(s.condition, env).Stuck? &&
        (Evaluation(s.condition, env).Val? ==> Evaluation(s.condition, env).v.BooleanValue?)
    ensures var (locals', c) := CheckStatement(locals, s, result).value;
      Matches(locals', Run(s, env, fuel), Execute(c, st, fuel))
    decreases fuel, s, 0
  {
    var (locals', code) := CheckBlock(locals, s.body, result).value;
    BlockInert(locals, s.body, result);
    BlockResolves(locals, s.body, result, env, st, fuel - 1);
    InertAgrees(locals, locals', env, st);
    var o, o' := LeaveBlock(env, RunAll(s.body, env, fuel - 1)), ExecuteAll(code, st, fuel - 1);
    if o.Normal? {
      BackOut(locals, locals', o.state, o'.state);
      StatementResolves(locals, s, result, o.state, o'.state, fuel - 1);
    }
  }

  lemma BackOut(locals: seq<Local>, locals': seq<Local>, env: Environment, st: Locals)
    requires Inert(locals, locals') && Agrees(locals', env, st)
    ensures Agrees(locals, env, st)
  {
    forall i | 0 <= i < |locals| ensures AgreesAt(locals, env, st, i) && locals'[i] == locals[i] {
      assert locals'[..|locals|][i] == locals[i];
      assert AgreesAt(locals', env, st, i);
    }
    forall x | x in env ensures FindLocal(locals, x).Some? { InertFind(locals, locals', x); }
  }

  lemma {:induction false} BlockResolves(locals: seq<Local>, ss: seq<Statement>, result: Type, env: Environment,
                                         st: Locals, fuel: nat)
    requires Agrees(locals, env, st) && CheckBlock(locals, ss, result).Some?
    ensures var (locals', cs) := CheckBlock(locals, ss, result).value;
      Matches(locals', LeaveBlock(env, RunAll(ss, env, fuel)), ExecuteAll(cs, st, fuel))
    decreases fuel, ss, 2
  {
    AllResolves(locals, ss, result, env, st, fuel);
    AllExtends(locals, ss, result);
    var (inner, cs) := CheckAll(locals, ss, result).value;
    var o, o' := RunAll(ss, env, fuel), ExecuteAll(cs, st, fuel);
    hide Agrees, RunAll, ExecuteAll, CheckAll;
    if o.Normal? { LeaveAgrees(locals, inner, env, st, o.state, o'.state); }
  }

  lemma {:induction false} AllResolves(locals: seq<Local>, ss: seq<Statement>, result: Type, env: Environment,
                                       st: Locals, fuel: nat)
    requires Agrees(locals, env, st) && CheckAll(locals, ss, result).Some?
    ensures var (locals', cs) := CheckAll(locals, ss, result).value;
      Matches(locals', RunAll(ss, env, fuel), ExecuteAll(cs, st, fuel))
    decreases fuel, ss, 1
  {
    if ss != [] {
      StatementResolves(locals, ss[0], result, env, st, fuel);
      var (next, c) := CheckStatement(locals, ss[0], result).value;
      var (last, cs) := CheckAll(next, ss[1..], result).value;
      var o, o' := Run(ss[0], env, fuel), Execute(c, st, fuel);
      assert ([c] + cs)[1..] == cs;
      if o.Normal? { AllResolves(next, ss[1..], result, o.state, o'.state, fuel); }
    }
  }
}
