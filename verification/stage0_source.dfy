/** The Integer and Boolean core of the language: syntax, meaning, and the checker
    that types a function and resolves its names to local slots. */
module Stage0Source {
  import opened Wrappers

  const INT_MIN: int := -0x8000_0000_0000_0000
  const INT_MAX: int := 0x7fff_ffff_ffff_ffff

  type Integer = n: int | INT_MIN <= n <= INT_MAX

  datatype Type = IntegerType | BooleanType | NothingType

  datatype Value = IntegerValue(n: Integer) | BooleanValue(b: bool)

  function TypeOf(v: Value): Type { if v.IntegerValue? then IntegerType else BooleanType }

  datatype Operator = Add | Subtract | Multiply | Divide | Remainder
                    | Less | Greater | LessEqual | GreaterEqual | Equal | NotEqual | And | Or

  datatype Expression =
    | IntegerLiteral(n: Integer)
    | BooleanLiteral(b: bool)
    | Name(x: string)
    | Not(e: Expression)
    | Negate(e: Expression)
    | Binary(op: Operator, left: Expression, right: Expression)

  /** An `else` without statements is no `else`. */
  datatype Statement =
    | Let(x: string, declared: Option<Type>, e: Expression)
    | Assign(x: string, e: Expression)
    | Evaluate(e: Expression)
    | Return(result: Option<Expression>)
    | If(condition: Expression, thenBody: seq<Statement>, elseBody: seq<Statement>)
    | While(condition: Expression, body: seq<Statement>)

  /* ---- arithmetic ---- */

  predicate InRange(n: int) { INT_MIN <= n <= INT_MAX }

  function Abs(n: int): nat { if n < 0 then -n else n }

  /** Division that truncates toward zero, and its remainder. */
  function Quotient(a: int, b: int): int
    requires b != 0
  {
    if (a < 0) == (b < 0) then Abs(a) / Abs(b) else -(Abs(a) / Abs(b))
  }

  function RemainderOf(a: int, b: int): int
    requires b != 0
  {
    if a < 0 then -(Abs(a) % Abs(b)) else Abs(a) % Abs(b)
  }

  lemma NaturalDivision(a: nat, b: nat)
    requires b > 0
    ensures a / b <= a && a % b < b && a == (a / b) * b + a % b && (b >= 2 ==> 2 * (a / b) <= a)
  {
    var q: nat, r: nat := a / b, a % b;
    assert a == q * b + r;
    Grows(q, b);
  }

  lemma Grows(q: nat, b: nat)
    requires b > 0
    ensures q * b >= q && (b >= 2 ==> q * b >= 2 * q)
  {
    if b >= 2 { assert q * b == 2 * q + q * (b - 2); }
  }

  /** Both fit whenever the division check passes. */
  lemma DivideInRange(a: Integer, b: Integer)
    requires b != 0 && !(a == INT_MIN && b == -1)
    ensures InRange(Quotient(a, b)) && InRange(RemainderOf(a, b))
  {
    NaturalDivision(Abs(a), Abs(b));
  }

  /** Truncation: the remainder is smaller than the divisor and has the sign of the
      dividend. */
  lemma DivideIdentity(a: int, b: int)
    requires b != 0
    ensures a == Quotient(a, b) * b + RemainderOf(a, b) && Abs(RemainderOf(a, b)) < Abs(b)
    ensures RemainderOf(a, b) == 0 || (RemainderOf(a, b) < 0 <==> a < 0)
  {
    NaturalDivision(Abs(a), Abs(b));
    Signs(Abs(a) / Abs(b), b);
  }

  lemma Signs(q: int, b: int)
    ensures (-q) * b == -(q * b) && q * (-b) == -(q * b)
  {
  }

  /** What an expression comes to: a value, a stopped program, or nothing at all
      because it was ill-typed. */
  datatype Result = Val(v: Value) | Trap | Stuck

  function Checked(n: int): Result { if InRange(n) then Val(IntegerValue(n)) else Trap }

  function Truth(b: bool): Result { Val(BooleanValue(b)) }

  /** A strict operator on evaluated operands. */
  function Apply(op: Operator, a: Value, b: Value): Result {
    match (op, a, b)
    case (Add, IntegerValue(x), IntegerValue(y)) => Checked(x + y)
    case (Subtract, IntegerValue(x), IntegerValue(y)) => Checked(x - y)
    case (Multiply, IntegerValue(x), IntegerValue(y)) => Checked(x * y)
    case (Divide, IntegerValue(x), IntegerValue(y)) =>
      if y == 0 || (x == INT_MIN && y == -1) then Trap
      else DivideInRange(x, y); Val(IntegerValue(Quotient(x, y)))
    case (Remainder, IntegerValue(x), IntegerValue(y)) =>
      if y == 0 || (x == INT_MIN && y == -1) then Trap
      else DivideInRange(x, y); Val(IntegerValue(RemainderOf(x, y)))
    case (Less, IntegerValue(x), IntegerValue(y)) => Truth(x < y)
    case (Greater, IntegerValue(x), IntegerValue(y)) => Truth(x > y)
    case (LessEqual, IntegerValue(x), IntegerValue(y)) => Truth(x <= y)
    case (GreaterEqual, IntegerValue(x), IntegerValue(y)) => Truth(x >= y)
    case (Equal, IntegerValue(x), IntegerValue(y)) => Truth(x == y)
    case (Equal, BooleanValue(x), BooleanValue(y)) => Truth(x == y)
    case (NotEqual, IntegerValue(x), IntegerValue(y)) => Truth(x != y)
    case (NotEqual, BooleanValue(x), BooleanValue(y)) => Truth(x != y)
    case _ => Stuck
  }

  /* ---- meaning, by name ---- */

  type Environment = map<string, Value>

  function Evaluation(e: Expression, env: Environment): Result {
    match e
    case IntegerLiteral(n) => Val(IntegerValue(n))
    case BooleanLiteral(b) => Truth(b)
    case Name(x) => if x in env then Val(env[x]) else Stuck
    case Not(e) =>
      var r := Evaluation(e, env);
      if !r.Val? then r else if r.v.BooleanValue? then Truth(!r.v.b) else Stuck
    case Negate(e) =>
      var r := Evaluation(e, env);
      if !r.Val? then r else if r.v.IntegerValue? then Checked(0 - (r.v.n as int)) else Stuck
    case Binary(op, left, right) =>
      var a := Evaluation(left, env);
      if !a.Val? then a
      else if op == And || op == Or then
        if !a.v.BooleanValue? then Stuck
        else if a.v.b == (op == Or) then a
        else
          var b := Evaluation(right, env);
          if b.Val? && !b.v.BooleanValue? then Stuck else b
      else
        var b := Evaluation(right, env);
        if !b.Val? then b else Apply(op, a.v, b.v)
  }

  /** How a statement ends. `fuel` bounds the loop iterations tried. */
  datatype Outcome<+S> = Normal(state: S) | Returned(value: Option<Value>) | Trapped | OutOfFuel | Wrong

  /** Names introduced inside a block end with it. */
  function Leave(outer: Environment, inner: Environment): Environment {
    map x | x in outer && x in inner :: inner[x]
  }

  function LeaveBlock(outer: Environment, o: Outcome<Environment>): Outcome<Environment> {
    if o.Normal? then Normal(Leave(outer, o.state)) else o
  }

  function Run(s: Statement, env: Environment, fuel: nat): Outcome<Environment>
    decreases fuel, s, 0
  {
    match s
    case Let(x, _, e) =>
      var r := Evaluation(e, env);
      if r.Val? then Normal(env[x := r.v]) else if r.Trap? then Trapped else Wrong
    case Assign(x, e) =>
      var r := Evaluation(e, env);
      if r.Val? then Normal(env[x := r.v]) else if r.Trap? then Trapped else Wrong
    case Evaluate(e) =>
      var r := Evaluation(e, env);
      if r.Val? then Normal(env) else if r.Trap? then Trapped else Wrong
    case Return(None) => Returned(None)
    case Return(Some(e)) =>
      var r := Evaluation(e, env);
      if r.Val? then Returned(Some(r.v)) else if r.Trap? then Trapped else Wrong
    case If(c, thenBody, elseBody) =>
      var r := Evaluation(c, env);
      if r.Trap? then Trapped else if !r.Val? || !r.v.BooleanValue? then Wrong
      else if r.v.b then LeaveBlock(env, RunAll(thenBody, env, fuel))
      else LeaveBlock(env, RunAll(elseBody, env, fuel))
    case While(c, body) =>
      if fuel == 0 then OutOfFuel
      else
        var r := Evaluation(c, env);
        if r.Trap? then Trapped else if !r.Val? || !r.v.BooleanValue? then Wrong
        else if !r.v.b then Normal(env)
        else
          var o := LeaveBlock(env, RunAll(body, env, fuel - 1));
          if o.Normal? then Run(s, o.state, fuel - 1) else o
  }

  function RunAll(ss: seq<Statement>, env: Environment, fuel: nat): Outcome<Environment>
    decreases fuel, ss, 1
  {
    if ss == [] then Normal(env)
    else
      var o := Run(ss[0], env, fuel);
      if o.Normal? then RunAll(ss[1..], o.state, fuel) else o
  }
}
