/** The emitted function is well typed: every register is used at the type it was
    defined with, and every `ret` matches the function's own type. For a checked
    function this is so exactly when its source meets two conditions. */
module Stage0Types {
  import opened Wrappers
  import opened Stage0Source
  import opened Stage0Check
  import opened Stage0Emit
  import opened Stage0Machine
  import opened Stage0Correct
  import opened Stage0Statements
  import opened Stage0Shape
  import opened Stage0Program

  datatype Kind = I64 | I1 | I32

  function KindOf(ty: Type): Kind { if ty == IntegerType then I64 else I1 }

  /** What the `define` line declares. */
  datatype Signature = Void | Gives(kind: Kind)

  function SignatureOf(isMain: bool, result: Type): Signature {
    if isMain then Gives(I32) else if result == NothingType then Void else Gives(KindOf(result))
  }

  /** The `%value` register a line defines, and its type; `slots` are the types the
      locals were allocated with. */
  function DefinedAs(line: Line, slots: seq<Type>): Option<(nat, Kind)> {
    match line
    case Load(t, i) => if i < |slots| then Some((t, KindOf(slots[i]))) else None
    case Flip(t, _) => Some((t, I1))
    case ExtractValue(t) => Some((t, I64))
    case DivideInto(t, _, _, _) => Some((t, I64))
    case Compare(t, _, _, _) => Some((t, I1))
    case Phi(t, _, _, _, _) => Some((t, I1))
    case Truncate(t, _) => Some((t, I32))
    case _ => None
  }

  ghost predicate DefinesAt(p: seq<Line>, slots: seq<Type>, i: nat, t: nat, k: Kind) {
    i < |p| && DefinedAs(p[i], slots) == Some((t, k))
  }

  /** The operand has this type somewhere in the function; registers have only one. */
  ghost predicate HasKind(p: seq<Line>, slots: seq<Type>, v: Operand, k: Kind) {
    match v
    case Constant(x) => k == KindOf(TypeOf(x))
    case Temporary(n) => exists i: nat :: DefinesAt(p, slots, i, n, k)
  }

  /** The types a line prints are the types of its operands, its local or its function. */
  ghost predicate LineOk(p: seq<Line>, slots: seq<Type>, sig: Signature, i: nat)
    requires i < |p|
  {
    match p[i]
    case Load(_, j) => j < |slots|
    case StoreTo(v, j) => j < |slots| && HasKind(p, slots, v, KindOf(slots[j]))
    case Flip(_, v) => HasKind(p, slots, v, I1)
    case WithOverflow(_, _, a, b) => HasKind(p, slots, a, I64) && HasKind(p, slots, b, I64)
    case CheckDivision(a, b) => HasKind(p, slots, a, I64) && HasKind(p, slots, b, I64)
    case DivideInto(_, _, a, b) => HasKind(p, slots, a, I64) && HasKind(p, slots, b, I64)
    case Compare(_, _, a, b) =>
      || (HasKind(p, slots, a, I64) && HasKind(p, slots, b, I64))
      || (HasKind(p, slots, a, I1) && HasKind(p, slots, b, I1))
    case Phi(_, a, _, b, _) => HasKind(p, slots, a, I1) && HasKind(p, slots, b, I1)
    case Truncate(_, v) => HasKind(p, slots, v, I64)
    case JumpIf(v, _, _) => HasKind(p, slots, v, I1)
    case Ret(v) => sig.Gives? && HasKind(p, slots, v, sig.kind)
    case RetVoid => sig == Void
    case RetExit(v) => sig == Gives(I32) && ((v.Constant? && v.v.IntegerValue?) || HasKind(p, slots, v, I32))
    case _ => true
  }

  ghost predicate Ok(p: seq<Line>, slots: seq<Type>, sig: Signature, from: nat, to: nat) {
    to <= |p| && forall i :: from <= i < to ==> LineOk(p, slots, sig, i)
  }

  lemma OkJoin(p: seq<Line>, slots: seq<Type>, sig: Signature, a: nat, b: nat, c: nat)
    requires Ok(p, slots, sig, a, b) && Ok(p, slots, sig, b, c) && a <= b <= c
    ensures Ok(p, slots, sig, a, c)
  {
  }

  lemma OkNone(p: seq<Line>, slots: seq<Type>, sig: Signature, a: nat)
    requires a <= |p|
    ensures Ok(p, slots, sig, a, a)
  {
  }

  lemma OkOne(p: seq<Line>, slots: seq<Type>, sig: Signature, a: nat)
    requires a < |p| && LineOk(p, slots, sig, a)
    ensures Ok(p, slots, sig, a, a + 1)
  {
  }

  lemma OkTwo(p: seq<Line>, slots: seq<Type>, sig: Signature, a: nat)
    requires a + 1 < |p| && LineOk(p, slots, sig, a) && LineOk(p, slots, sig, a + 1)
    ensures Ok(p, slots, sig, a, a + 2)
  {
  }

  lemma OkThree(p: seq<Line>, slots: seq<Type>, sig: Signature, a: nat)
    requires a + 2 < |p| && LineOk(p, slots, sig, a) && LineOk(p, slots, sig, a + 1) && LineOk(p, slots, sig, a + 2)
    ensures Ok(p, slots, sig, a, a + 3)
  {
  }

  /* ---- typed code ---- */

  predicate HasType(e: Code, slots: seq<Type>, ty: Type) {
    match e
    case IntegerConstant(_) => ty == IntegerType
    case BooleanConstant(_) => ty == BooleanType
    case Slot(i) => i < |slots| && slots[i] == ty
    case NotCode(e) => ty == BooleanType && HasType(e, slots, BooleanType)
    case NegateCode(e) => ty == IntegerType && HasType(e, slots, IntegerType)
    case BinaryCode(op, left, right) =>
      if IsLogical(op) then ty == BooleanType && HasType(left, slots, BooleanType) && HasType(right, slots, BooleanType)
      else if op == Equal || op == NotEqual then
        && ty == BooleanType
        && ((HasType(left, slots, IntegerType) && HasType(right, slots, IntegerType))
            || (HasType(left, slots, BooleanType) && HasType(right, slots, BooleanType)))
      else
        && ty == (if IsNumeric(op) then IntegerType else BooleanType)
        && HasType(left, slots, IntegerType) && HasType(right, slots, IntegerType)
  }

  predicate CommandTyped(c: Command, slots: seq<Type>, result: Type)
    decreases c, 0
  {
    match c
    case Store(i, e) => i < |slots| && slots[i] != NothingType && HasType(e, slots, slots[i])
    case Discard(e) => HasType(e, slots, IntegerType) || HasType(e, slots, BooleanType)
    case Give(None) => result == NothingType
    case Give(Some(e)) => result != NothingType && HasType(e, slots, result)
    case Branch(e, thenBody, elseBody) =>
      HasType(e, slots, BooleanType) && AllTyped(thenBody, slots, result) && AllTyped(elseBody, slots, result)
    case Loop(e, body) => HasType(e, slots, BooleanType) && AllTyped(body, slots, result)
  }

  predicate AllTyped(cs: seq<Command>, slots: seq<Type>, result: Type)
    decreases cs, 1
  {
    cs == [] || (CommandTyped(cs[0], slots, result) && AllTyped(cs[1..], slots, result))
  }

  predicate NoNothing(slots: seq<Type>) { forall i :: 0 <= i < |slots| ==> slots[i] != NothingType }

  /** `slots` begins with the types of these locals. */
  predicate Covers(slots: seq<Type>, locals: seq<Local>) {
    |locals| <= |slots| && forall i :: 0 <= i < |locals| ==> slots[i] == locals[i].ty
  }

  lemma CoversLess(slots: seq<Type>, locals: seq<Local>, more: seq<Local>)
    requires Extends(locals, more) && Covers(slots, more)
    ensures Covers(slots, locals)
  {
    forall i | 0 <= i < |locals| ensures slots[i] == locals[i].ty { assert more[..|locals|][i] == more[i]; }
  }

  lemma {:induction false} CheckedHasType(locals: seq<Local>, e: Expression, slots: seq<Type>)
    requires CheckExpression(locals, e).Some? && Covers(slots, locals) && NoNothing(slots)
    ensures var (code, ty) := CheckExpression(locals, e).value; ty != NothingType && HasType(code, slots, ty)
  {
    match e
    case Not(e) => CheckedHasType(locals, e, slots);
    case Negate(e) => CheckedHasType(locals, e, slots);
    case Binary(_, left, right) =>
      CheckedHasType(locals, left, slots);
      CheckedHasType(locals, right, slots);
    case _ =>
  }

  /** A checked statement is typed by the locals the function ends up with. */
  lemma {:induction false} CheckedTyped(locals: seq<Local>, s: Statement, result: Type, slots: seq<Type>)
    requires CheckStatement(locals, s, result).Some? && NoNothing(slots)
    requires Covers(slots, CheckStatement(locals, s, result).value.0)
    ensures CommandTyped(CheckStatement(locals, s, result).value.1, slots, result)
    decreases s, 0
  {
    CheckExtends(locals, s, result);
    CoversLess(slots, locals, CheckStatement(locals, s, result).value.0);
    hide CheckExpression, HasType, FindLocal, Extends, Covers;
    match s
    case Let(_, _, e) =>
      CheckedHasType(locals, e, slots);
      LetCovered(slots, locals, CheckStatement(locals, s, result).value.0);
    case Assign(x, e) =>
      CheckedHasType(locals, e, slots);
      LetCovered(slots, locals, locals);
    case Evaluate(e) =>
      CheckedHasType(locals, e, slots);
      OnlyTwo(CheckExpression(locals, e).value.1);
    case Return(None) =>
    case Return(Some(e)) => CheckedHasType(locals, e, slots);
    case If(e, thenBody, elseBody) =>
      CheckedHasType(locals, e, slots);
      var mid := CheckBlock(locals, thenBody, result).value.0;
      var last := CheckBlock(mid, elseBody, result).value.0;
      BlockInert(mid, elseBody, result);
      InertCovers(slots, mid, last);
      BlockTyped(locals, thenBody, result, slots);
      BlockTyped(mid, elseBody, result, slots);
    case While(e, body) =>
      CheckedHasType(locals, e, slots);
      BlockTyped(locals, body, result, slots);
  }

  lemma OnlyTwo(ty: Type)
    ensures ty != NothingType ==> ty == IntegerType || ty == BooleanType
  {
  }

  lemma LetCovered(slots: seq<Type>, locals: seq<Local>, more: seq<Local>)
    requires Covers(slots, more)
    ensures forall i :: 0 <= i < |more| ==> i < |slots| && slots[i] == more[i].ty
  {
  }

  lemma InertCovers(slots: seq<Type>, locals: seq<Local>, more: seq<Local>)
    requires Inert(locals, more) && Covers(slots, more)
    ensures Covers(slots, locals)
  {
    CoversLess(slots, locals, more);
  }

  lemma {:induction false} BlockTyped(locals: seq<Local>, ss: seq<Statement>, result: Type, slots: seq<Type>)
    requires CheckBlock(locals, ss, result).Some? && NoNothing(slots)
    requires Covers(slots, CheckBlock(locals, ss, result).value.0)
    ensures AllTyped(CheckBlock(locals, ss, result).value.1, slots, result)
    decreases ss, 2
  {
    var inner := CheckAll(locals, ss, result).value.0;
    assert Covers(slots, inner) by {
      forall i | 0 <= i < |inner| ensures slots[i] == inner[i].ty {
        assert Deactivate(inner, |locals|)[i].ty == inner[i].ty;
      }
    }
    CheckedAllTyped(locals, ss, result, slots);
  }

  lemma {:induction false} CheckedAllTyped(locals: seq<Local>, ss: seq<Statement>, result: Type, slots: seq<Type>)
    requires CheckAll(locals, ss, result).Some? && NoNothing(slots)
    requires Covers(slots, CheckAll(locals, ss, result).value.0)
    ensures AllTyped(CheckAll(locals, ss, result).value.1, slots, result)
    decreases ss, 1
  {
    if ss != [] {
      var (next, c) := CheckStatement(locals, ss[0], result).value;
      AllExtends(next, ss[1..], result);
      CoversLess(slots, next, CheckAll(next, ss[1..], result).value.0);
      CheckedTyped(locals, ss[0], result, slots);
      CheckedAllTyped(next, ss[1..], result, slots);
      var cs := CheckAll(next, ss[1..], result).value.1;
      assert ([c] + cs)[1..] == cs;
    }
  }

  /* ---- expressions ---- */

  lemma DefinedHere(p: seq<Line>, slots: seq<Type>, i: nat, t: nat, k: Kind)
    requires DefinesAt(p, slots, i, t, k)
    ensures HasKind(p, slots, Temporary(t), k)
  {
  }

  lemma CheckedOk(p: seq<Line>, slots: seq<Type>, sig: Signature, base: nat, t: nat, op: Operator, a: Operand,
                  b: Operand)
    requires Placed(p, base, CheckedLines(t, op, a, b)) && HasKind(p, slots, a, I64) && HasKind(p, slots, b, I64)
    ensures |CheckedLines(t, op, a, b)| == 4
    ensures Ok(p, slots, sig, base, base + 4) && HasKind(p, slots, Temporary(t), I64)
  {
    hide HasKind;
    var code := CheckedLines(t, op, a, b);
    forall i | 0 <= i < 4 ensures p[base + i] == code[i] && LineOk(p, slots, sig, base + i) {
      PlacedLine(p, base, code, i);
    }
    forall i | base <= i < base + 4 ensures LineOk(p, slots, sig, i) {
      assert LineOk(p, slots, sig, base + (i - base));
    }
    assert p[base + 1] == code[1];
    DefinedHere(p, slots, base + 1, t, I64);
  }

  lemma OperatorOk(p: seq<Line>, slots: seq<Type>, sig: Signature, base: nat, t: nat, op: Operator, a: Operand,
                   b: Operand, k: Kind)
    requires Placed(p, base, OperatorLines(t, op, a, b)) && !IsLogical(op)
    requires HasKind(p, slots, a, k) && HasKind(p, slots, b, k) && k != I32 &&
        (k == I64 || op == Equal || op == NotEqual)
    ensures Ok(p, slots, sig, base, base + |OperatorLines(t, op, a, b)|)
    ensures HasKind(p, slots, Temporary(t), if IsNumeric(op) then I64 else I1)
  {
    hide HasKind, CheckedLines;
    var code := OperatorLines(t, op, a, b);
    if IsArithmetic(op) {
      CheckedOk(p, slots, sig, base, t, op, a, b);
    } else if IsDivision(op) {
      PlacedLine(p, base, code, 0);
      PlacedLine(p, base, code, 1);
      OkOne(p, slots, sig, base);
      OkOne(p, slots, sig, base + 1);
      OkJoin(p, slots, sig, base, base + 1, base + 2);
      DefinedHere(p, slots, base + 1, t, I64);
    } else {
      PlacedLine(p, base, code, 0);
      OkOne(p, slots, sig, base);
      DefinedHere(p, slots, base, t, I1);
    }
  }

  /** A typed expression prints well-typed lines and leaves an operand of its type. */
  lemma {:induction false} ExpressionOk(p: seq<Line>, slots: seq<Type>, sig: Signature, base: nat, e: Code, ty: Type,
                                        t: nat, l: nat, b: Label)
    requires Placed(p, base, Emit(e, t, l, b).0.lines) && HasType(e, slots, ty) && ty != NothingType
    ensures var (m, v) := Emit(e, t, l, b);
      Ok(p, slots, sig, base, base + |m.lines|) && HasKind(p, slots, v, KindOf(ty))
    decreases e, 1
  {
    hide Placed, Ok, CheckedLines;
    match e
    case IntegerConstant(_) => PlacedRange(p, base, []); OkNone(p, slots, sig, base);
    case BooleanConstant(_) => PlacedRange(p, base, []); OkNone(p, slots, sig, base);
    case Slot(i) =>
      PlacedLine(p, base, [Load(t, i)], 0);
      OkOne(p, slots, sig, base);
      DefinedHere(p, slots, base, t, KindOf(ty));
    case NotCode(_) => UnaryOk(p, slots, sig, base, e, ty, t, l, b);
    case NegateCode(_) => UnaryOk(p, slots, sig, base, e, ty, t, l, b);
    case BinaryCode(op, _, _) =>
      if IsLogical(op) { LogicalOk(p, slots, sig, base, e, t, l, b); }
      else { StrictOk(p, slots, sig, base, e, ty, t, l, b); }
  }

  lemma PlacedRange(p: seq<Line>, base: nat, code: seq<Line>)
    requires Placed(p, base, code)
    ensures base + |code| <= |p|
  {
  }

  lemma {:induction false} UnaryOk(p: seq<Line>, slots: seq<Type>, sig: Signature, base: nat, e: Code, ty: Type,
                                   t: nat, l: nat, b: Label)
    requires Placed(p, base, Emit(e, t, l, b).0.lines) && HasType(e, slots, ty) && ty != NothingType
    requires e.NotCode? || e.NegateCode?
    ensures var (m, v) := Emit(e, t, l, b);
      Ok(p, slots, sig, base, base + |m.lines|) && HasKind(p, slots, v, KindOf(ty))
    decreases e, 0
  {
    hide Placed, Ok, CheckedLines, HasKind, Emit;
    var e' := e.e;
    EmitUnary(e', t, l, b);
    var (m, v) := Emit(e', t, l, b);
    var zero := Constant(IntegerValue(0));
    var last := if e.NotCode? then [Flip(m.temp, v)] else CheckedLines(m.temp, Subtract, zero, v);
    PlacedSplit(p, base, m.lines, last);
    ExpressionOk(p, slots, sig, base, e', ty, t, l, b);
    var next := base + |m.lines|;
    if e.NotCode? {
      PlacedLine(p, next, last, 0);
      OkOne(p, slots, sig, next);
      DefinedHere(p, slots, next, m.temp, I1);
    } else {
      ZeroKind(p, slots);
      CheckedOk(p, slots, sig, next, m.temp, Subtract, zero, v);
    }
    OkJoin(p, slots, sig, base, next, next + |last|);
  }

  lemma ZeroKind(p: seq<Line>, slots: seq<Type>)
    ensures HasKind(p, slots, Constant(IntegerValue(0)), I64)
    ensures forall x: bool :: HasKind(p, slots, Constant(BooleanValue(x)), I1)
  {
  }

  lemma EmitStrict(e: Code, t: nat, l: nat, b: Label)
    requires e.BinaryCode? && !IsLogical(e.op)
    ensures var (m, v) := Emit(e.left, t, l, b);
      var (k, w) := Emit(e.right, m.temp, m.labels, m.block);
      Emit(e, t, l, b) == (Emission(m.lines + (k.lines + OperatorLines(k.temp, e.op, v, w)), k.temp + 1, k.labels,
                                    k.block),
                           Temporary(k.temp))
  {
  }

  lemma StrictOperands(e: Code, slots: seq<Type>, ty: Type) returns (u: Type)
    requires HasType(e, slots, ty) && e.BinaryCode? && !IsLogical(e.op)
    ensures HasType(e.left, slots, u) && HasType(e.right, slots, u) && u != NothingType
    ensures (u == IntegerType || e.op == Equal || e.op == NotEqual) &&
        ty == if IsNumeric(e.op) then IntegerType else BooleanType
  {
    u := if HasType(e.left, slots, IntegerType) &&
      HasType(e.right, slots, IntegerType) then IntegerType else BooleanType;
  }

  lemma {:induction false} StrictOk(p: seq<Line>, slots: seq<Type>, sig: Signature, base: nat, e: Code, ty: Type,
                                    t: nat, l: nat, b: Label)
    requires Placed(p, base, Emit(e, t, l, b).0.lines) && HasType(e, slots, ty) && ty != NothingType
    requires e.BinaryCode? && !IsLogical(e.op)
    ensures var (m, v) := Emit(e, t, l, b);
      Ok(p, slots, sig, base, base + |m.lines|) && HasKind(p, slots, v, KindOf(ty))
    decreases e, 0
  {
    hide Placed, Ok, OperatorLines, HasKind, HasType, Emit;
    EmitStrict(e, t, l, b);
    var u := StrictOperands(e, slots, ty);
    var (m, v) := Emit(e.left, t, l, b);
    var (k, w) := Emit(e.right, m.temp, m.labels, m.block);
    var last := OperatorLines(k.temp, e.op, v, w);
    PlacedSplit(p, base, m.lines, k.lines + last);
    var next := base + |m.lines|;
    PlacedSplit(p, next, k.lines, last);
    ExpressionOk(p, slots, sig, base, e.left, u, t, l, b);
    ExpressionOk(p, slots, sig, next, e.right, u, m.temp, m.labels, m.block);
    var end := next + |k.lines|;
    OperatorOk(p, slots, sig, end, k.temp, e.op, v, w, KindOf(u));
    OkJoin(p, slots, sig, base, next, end);
    OkJoin(p, slots, sig, base, end, end + |last|);
  }

  lemma {:induction false} LogicalOk(p: seq<Line>, slots: seq<Type>, sig: Signature, base: nat, e: Code, t: nat,
                                     l: nat, b: Label)
    requires Placed(p, base, Emit(e, t, l, b).0.lines) && HasType(e, slots, BooleanType) && e.BinaryCode? &&
        IsLogical(e.op)
    ensures var (m, v) := Emit(e, t, l, b); Ok(p, slots, sig, base, base + |m.lines|) && HasKind(p, slots, v, I1)
    decreases e, 0
  {
    hide Placed, Ok, LogicalHead, LogicalTail, HasKind, Emit;
    EmitLogical(e, t, l, b);
    var (m, v) := Emit(e.left, t, l, b);
    var n := m.labels;
    var (k, w) := Emit(e.right, m.temp, n + 2, LogicalRight(n));
    var head, tail := LogicalHead(e.op, v, n), LogicalTail(e.op, n, k.temp, m.block, w, k.block);
    PlacedSplit(p, base, m.lines, head + (k.lines + tail));
    var next := base + |m.lines|;
    ExpressionOk(p, slots, sig, base, e.left, BooleanType, t, l, b);
    LogicalPlaces(p, next, e.op, v, n, k.lines, k.temp, m.block, w, k.block);
    ExpressionOk(p, slots, sig, next + 2, e.right, BooleanType, m.temp, n + 2, LogicalRight(n));
    var end := next + 2 + |k.lines|;
    ZeroKind(p, slots);
    OkThree(p, slots, sig, end);
    OkTwo(p, slots, sig, next);
    OkJoin(p, slots, sig, next, next + 2, end);
    OkJoin(p, slots, sig, next, end, end + 3);
    OkJoin(p, slots, sig, base, next, end + 3);
    DefinedHere(p, slots, end + 2, k.temp, I1);
    LogicalLength(e, t, l, b);
  }

  /* ---- statements ---- */

  /** Does a return stand in the resolved statement? */
  predicate HasGive(c: Command)
    decreases c, 0
  {
    match c
    case Give(_) => true
    case Branch(_, thenBody, elseBody) => HasGiveAll(thenBody) || HasGiveAll(elseBody)
    case Loop(_, body) => HasGiveAll(body)
    case _ => false
  }

  predicate HasGiveAll(cs: seq<Command>)
    decreases cs, 1
  {
    cs != [] && (HasGive(cs[0]) || HasGiveAll(cs[1..]))
  }

  /** `main` may return nothing but an Integer. */
  predicate MayGive(isMain: bool, result: Type) { isMain ==> result == IntegerType }

  /** Jumps and labels are well typed as they stand. */
  predicate Plain(code: seq<Line>) { forall i :: 0 <= i < |code| ==> code[i].Jump? || code[i].At? }

  lemma PlainOk(p: seq<Line>, slots: seq<Type>, sig: Signature, base: nat, code: seq<Line>)
    requires Placed(p, base, code) && Plain(code)
    ensures Ok(p, slots, sig, base, base + |code|)
  {
    forall i | base <= i < base + |code| ensures i < |p| && LineOk(p, slots, sig, i) {
      PlacedLine(p, base, code, i - base);
    }
  }

  lemma HeadOk(p: seq<Line>, slots: seq<Type>, sig: Signature, base: nat, a: Line, b: Line)
    requires Placed(p, base, [a] + [b]) && b.At?
    requires a.Jump? || (a.JumpIf? && HasKind(p, slots, a.v, I1))
    ensures Ok(p, slots, sig, base, base + 2)
  {
    hide HasKind;
    HeadPlaced(p, base, a, b);
    OkTwo(p, slots, sig, base);
  }

  lemma FivePlaced(p: seq<Line>, base: nat, a: seq<Line>, b: seq<Line>, c: seq<Line>, d: seq<Line>, e: seq<Line>)
    requires Placed(p, base, a + (b + (c + (d + e))))
    ensures Placed(p, base, a) && Placed(p, base + |a|, b) && Placed(p, base + |a| + |b|, c)
    ensures Placed(p, base + |a| + |b| + |c|, d) && Placed(p, base + |a| + |b| + |c| + |d|, e)
  {
    hide Placed;
    PlacedSplit(p, base, a, b + (c + (d + e)));
    PlacedSplit(p, base + |a|, b, c + (d + e));
    PlacedSplit(p, base + |a| + |b|, c, d + e);
    PlacedSplit(p, base + |a| + |b| + |c|, d, e);
  }

  lemma OkFive(p: seq<Line>, slots: seq<Type>, sig: Signature, n0: nat, n1: nat, n2: nat, n3: nat, n4: nat, n5: nat)
    requires n0 <= n1 <= n2 <= n3 <= n4 <= n5
    requires Ok(p, slots, sig, n0, n1) && Ok(p, slots, sig, n1, n2) && Ok(p, slots, sig, n2, n3)
    requires Ok(p, slots, sig, n3, n4) && Ok(p, slots, sig, n4, n5)
    ensures Ok(p, slots, sig, n0, n5)
  {
    hide LineOk;
  }

  lemma JumpPlain(returned: bool, target: Label)
    ensures Plain(JumpUnless(returned, target))
  {
  }

  lemma ReturnOk(p: seq<Line>, slots: seq<Type>, base: nat, isMain: bool, result: Type, t: nat, v: Operand)
    requires Placed(p, base, ReturnLines(isMain, t, v)) && HasKind(p, slots, v, KindOf(result))
    requires result != NothingType && MayGive(isMain, result)
    ensures Ok(p, slots, SignatureOf(isMain, result), base, base + |ReturnLines(isMain, t, v)|)
  {
    hide HasKind;
    var sig := SignatureOf(isMain, result);
    PlacedLine(p, base, ReturnLines(isMain, t, v), 0);
    if isMain {
      PlacedLine(p, base, ReturnLines(isMain, t, v), 1);
      DefinedHere(p, slots, base, t, I32);
      OkTwo(p, slots, sig, base);
    } else {
      OkOne(p, slots, sig, base);
    }
  }

  /** A typed statement prints well-typed lines, unless it returns from a `main` of
      another type. */
  lemma {:induction false} CommandOk(p: seq<Line>, slots: seq<Type>, base: nat, c: Command, t: nat, l: nat, b: Label,
                                     isMain: bool, result: Type)
    requires Placed(p, base, EmitCommand(c, t, l, b, isMain).0.lines) && CommandTyped(c, slots, result)
    requires MayGive(isMain, result) || !HasGive(c)
    ensures Ok(p, slots, SignatureOf(isMain, result), base, base + |EmitCommand(c, t, l, b, isMain).0.lines|)
    decreases c, 1
  {
    hide Placed, Ok, Emit, ReturnLines, HasType, HasKind;
    var sig := SignatureOf(isMain, result);
    match c
    case Store(i, e) =>
      var (m, v) := Emit(e, t, l, b);
      PlacedSplit(p, base, m.lines, [StoreTo(v, i)]);
      ExpressionOk(p, slots, sig, base, e, slots[i], t, l, b);
      var next := base + |m.lines|;
      PlacedLine(p, next, [StoreTo(v, i)], 0);
      OkOne(p, slots, sig, next);
      OkJoin(p, slots, sig, base, next, next + 1);
    case Discard(e) =>
      ExpressionOk(p, slots, sig, base, e, if HasType(e, slots, IntegerType) then IntegerType else BooleanType, t, l,
                   b);
    case Give(None) =>
      PlacedLine(p, base, [RetVoid], 0);
      OkOne(p, slots, sig, base);
    case Give(Some(e)) =>
      var (m, v) := Emit(e, t, l, b);
      var last := ReturnLines(isMain, m.temp, v);
      PlacedSplit(p, base, m.lines, last);
      ExpressionOk(p, slots, sig, base, e, result, t, l, b);
      var next := base + |m.lines|;
      ReturnOk(p, slots, next, isMain, result, m.temp, v);
      OkJoin(p, slots, sig, base, next, next + |last|);
    case Branch(_, _, _) => BranchOk(p, slots, base, c, t, l, b, isMain, result);
    case Loop(_, _) => LoopOk(p, slots, base, c, t, l, b, isMain, result);
  }

  lemma {:induction false} BranchOk(p: seq<Line>, slots: seq<Type>, base: nat, c: Command, t: nat, l: nat, b: Label,
                                    isMain: bool, result: Type)
    requires Placed(p, base, EmitCommand(c, t, l, b, isMain).0.lines) && CommandTyped(c, slots, result) && c.Branch?
    requires MayGive(isMain, result) || !HasGive(c)
    ensures Ok(p, slots, SignatureOf(isMain, result), base, base + |EmitCommand(c, t, l, b, isMain).0.lines|)
    decreases c, 0
  {
    hide Placed, Ok, Emit, EmitCommands, JumpUnless, HasType, HasKind, AllTyped, HasGiveAll;
    var sig := SignatureOf(isMain, result);
    var (m, v) := Emit(c.condition, t, l, b);
    var n := m.labels;
    var (x, xr) := EmitCommands(c.thenBody, m.temp, n + 3, IfThen(n), isMain);
    var other := if c.elseBody == [] then IfEnd(n + 2) else IfElse(n + 1);
    var head, j := [JumpIf(v, IfThen(n), other)] + [At(IfThen(n))], JumpUnless(xr, IfEnd(n + 2));
    var (y, yr) := EmitCommands(c.elseBody, x.temp, x.labels, IfElse(n + 1), isMain);
    var end := if xr && yr then [] else [At(IfEnd(n + 2))];
    var rest := if c.elseBody == [] then [At(IfEnd(n + 2))]
                else [At(IfElse(n + 1))] + (y.lines + (JumpUnless(yr, IfEnd(n + 2)) + end));
    FivePlaced(p, base, m.lines, head, x.lines, j, rest);
    ExpressionOk(p, slots, sig, base, c.condition, BooleanType, t, l, b);
    var n1 := base + |m.lines|;
    HeadOk(p, slots, sig, n1, JumpIf(v, IfThen(n), other), At(IfThen(n)));
    CommandsOk(p, slots, n1 + 2, c.thenBody, m.temp, n + 3, IfThen(n), isMain, result);
    var n3 := n1 + 2 + |x.lines|;
    JumpPlain(xr, IfEnd(n + 2));
    PlainOk(p, slots, sig, n3, j);
    var n4 := n3 + |j|;
    if c.elseBody == [] {
      PlainOk(p, slots, sig, n4, rest);
    } else {
      ElsePlacedAt(p, n4, n, y.lines, yr, end);
      CommandsOk(p, slots, n4 + 1, c.elseBody, x.temp, x.labels, IfElse(n + 1), isMain, result);
      ElseOk(p, slots, sig, n4, n, y.lines, yr, end);
    }
    OkFive(p, slots, sig, base, n1, n1 + 2, n3, n4, n4 + |rest|);
  }

  lemma ElsePlacedAt(p: seq<Line>, base: nat, n: nat, y: seq<Line>, yr: bool, end: seq<Line>)
    requires Placed(p, base, [At(IfElse(n + 1))] + (y + (JumpUnless(yr, IfEnd(n + 2)) + end)))
    ensures Placed(p, base, [At(IfElse(n + 1))]) && Placed(p, base + 1, y)
    ensures Placed(p, base + 1 + |y|, JumpUnless(yr, IfEnd(n + 2)) + end)
  {
    hide Placed, JumpUnless;
    PlacedSplit(p, base, [At(IfElse(n + 1))], y + (JumpUnless(yr, IfEnd(n + 2)) + end));
    PlacedSplit(p, base + 1, y, JumpUnless(yr, IfEnd(n + 2)) + end);
  }

  lemma ElseOk(p: seq<Line>, slots: seq<Type>, sig: Signature, base: nat, n: nat, y: seq<Line>, yr: bool,
               end: seq<Line>)
    requires Placed(p, base, [At(IfElse(n + 1))] + (y + (JumpUnless(yr, IfEnd(n + 2)) + end)))
    requires Ok(p, slots, sig, base + 1, base + 1 + |y|) && Plain(end)
    ensures Ok(p, slots, sig, base, base + |[At(IfElse(n + 1))] + (y + (JumpUnless(yr, IfEnd(n + 2)) + end))|)
  {
    hide Placed, JumpUnless, Ok;
    var last := JumpUnless(yr, IfEnd(n + 2)) + end;
    ElsePlacedAt(p, base, n, y, yr, end);
    PlainOk(p, slots, sig, base, [At(IfElse(n + 1))]);
    JumpPlain(yr, IfEnd(n + 2));
    PlainOk(p, slots, sig, base + 1 + |y|, last);
    OkJoin(p, slots, sig, base, base + 1, base + 1 + |y|);
    OkJoin(p, slots, sig, base, base + 1 + |y|, base + 1 + |y| + |last|);
  }

  lemma {:induction false} LoopOk(p: seq<Line>, slots: seq<Type>, base: nat, c: Command, t: nat, l: nat, b: Label,
                                  isMain: bool, result: Type)
    requires Placed(p, base, EmitCommand(c, t, l, b, isMain).0.lines) && CommandTyped(c, slots, result) && c.Loop?
    requires MayGive(isMain, result) || !HasGive(c)
    ensures Ok(p, slots, SignatureOf(isMain, result), base, base + |EmitCommand(c, t, l, b, isMain).0.lines|)
    decreases c, 0
  {
    hide Placed, Ok, Emit, EmitCommands, JumpUnless, HasType, HasKind, AllTyped, HasGiveAll;
    var sig := SignatureOf(isMain, result);
    var (m, v) := Emit(c.condition, t, l + 3, WhileCondition(l));
    var (x, xr) := EmitCommands(c.body, m.temp, m.labels, WhileBody(l + 1), isMain);
    var first := [Jump(WhileCondition(l))] + [At(WhileCondition(l))];
    var head := [JumpIf(v, WhileBody(l + 1), WhileEnd(l + 2))] + [At(WhileBody(l + 1))];
    var last := JumpUnless(xr, WhileCondition(l)) + [At(WhileEnd(l + 2))];
    FivePlaced(p, base, first, m.lines, head, x.lines, last);
    HeadOk(p, slots, sig, base, first[0], first[1]);
    ExpressionOk(p, slots, sig, base + 2, c.condition, BooleanType, t, l + 3, WhileCondition(l));
    var n2 := base + 2 + |m.lines|;
    HeadOk(p, slots, sig, n2, head[0], head[1]);
    CommandsOk(p, slots, n2 + 2, c.body, m.temp, m.labels, WhileBody(l + 1), isMain, result);
    var n4 := n2 + 2 + |x.lines|;
    JumpPlain(xr, WhileCondition(l));
    PlainOk(p, slots, sig, n4, last);
    OkFive(p, slots, sig, base, base + 2, n2, n2 + 2, n4, n4 + |last|);
  }

  lemma {:induction false} CommandsOk(p: seq<Line>, slots: seq<Type>, base: nat, cs: seq<Command>, t: nat, l: nat,
                                      b: Label, isMain: bool, result: Type)
    requires Placed(p, base, EmitCommands(cs, t, l, b, isMain).0.lines) && AllTyped(cs, slots, result)
    requires MayGive(isMain, result) || !HasGiveAll(cs)
    ensures Ok(p, slots, SignatureOf(isMain, result), base, base + |EmitCommands(cs, t, l, b, isMain).0.lines|)
    decreases cs, 2
  {
    hide Placed, Ok, EmitCommand, CommandTyped, HasGive;
    var sig := SignatureOf(isMain, result);
    if cs == [] {
      PlacedRange(p, base, []);
      OkNone(p, slots, sig, base);
      return;
    }
    var (m, returned) := EmitCommand(cs[0], t, l, b, isMain);
    if returned {
      CommandOk(p, slots, base, cs[0], t, l, b, isMain, result);
      return;
    }
    var k := EmitCommands(cs[1..], m.temp, m.labels, m.block, isMain).0;
    PlacedSplit(p, base, m.lines, k.lines);
    CommandOk(p, slots, base, cs[0], t, l, b, isMain, result);
    CommandsOk(p, slots, base + |m.lines|, cs[1..], m.temp, m.labels, m.block, isMain, result);
    OkJoin(p, slots, sig, base, base + |m.lines|, base + |m.lines| + |k.lines|);
  }

  /* ---- a return from a main of another type ---- */

  /** Nothing follows a return, as the checker demands. */
  predicate Tight(c: Command)
    decreases c, 0
  {
    match c
    case Branch(_, thenBody, elseBody) => TightAll(thenBody) && TightAll(elseBody)
    case Loop(_, body) => TightAll(body)
    case _ => true
  }

  predicate TightAll(cs: seq<Command>)
    decreases cs, 1
  {
    cs == [] || (Tight(cs[0]) && (Returns(cs[0]) ==> |cs| == 1) && TightAll(cs[1..]))
  }

  ghost predicate DefinesOnce(p: seq<Line>) {
    forall i, j :: 0 <= i < j < |p| && Defines(p[i]).Some? ==> Defines(p[i]) != Defines(p[j])
  }

  /** A register has one type only. */
  lemma OneKind(p: seq<Line>, slots: seq<Type>, v: Operand, k: Kind, k': Kind)
    requires DefinesOnce(p) && HasKind(p, slots, v, k) && HasKind(p, slots, v, k')
    ensures k == k'
  {
    if v.Temporary? {
      var i: nat :| DefinesAt(p, slots, i, v.n, k);
      var j: nat :| DefinesAt(p, slots, j, v.n, k');
      assert Defines(p[i]) == Some(ValueRegister(v.n)) && Defines(p[j]) == Some(ValueRegister(v.n));
    }
  }

  /** Such a return is printed wherever it stands, and one of its lines is ill typed. */
  lemma {:induction false} CommandBad(p: seq<Line>, slots: seq<Type>, base: nat, c: Command, t: nat, l: nat, b: Label,
                                      result: Type) returns (i: nat)
    requires Placed(p, base, EmitCommand(c, t, l, b, true).0.lines) && CommandTyped(c, slots, result)
    requires HasGive(c) && Tight(c) && result != IntegerType && DefinesOnce(p)
    ensures i < |p| && !LineOk(p, slots, Gives(I32), i)
    decreases c, 0
  {
    hide Placed, Emit, EmitCommands, HasType, HasKind, DefinesOnce, BranchAt, LoopAt, AllTyped, HasGiveAll, TightAll;
    match c
    case Give(None) =>
      PlacedLine(p, base, [RetVoid], 0);
      i := base;
    case Give(Some(e)) =>
      var (m, v) := Emit(e, t, l, b);
      PlacedSplit(p, base, m.lines, ReturnLines(true, m.temp, v));
      ExpressionOk(p, slots, Gives(I32), base, e, result, t, l, b);
      i := base + |m.lines|;
      PlacedLine(p, i, ReturnLines(true, m.temp, v), 0);
      if HasKind(p, slots, v, I64) { OneKind(p, slots, v, I64, KindOf(result)); }
    case Branch(e, thenBody, elseBody) =>
      var m := Emit(e, t, l, b).0;
      var n := m.labels;
      var x := EmitCommands(thenBody, m.temp, n + 3, IfThen(n), true).0;
      var elseAt, endAt := BranchPlaces(p, base, c, t, l, b, true);
      BranchArms(p, base + |m.lines|, c, Emit(e, t, l, b).1, n, x.lines,
                 EmitCommands(elseBody, x.temp, x.labels, IfElse(n + 1), true).0.lines, elseAt, endAt);
      if HasGiveAll(thenBody) {
        i := CommandsBad(p, slots, base + |m.lines| + 2, thenBody, m.temp, n + 3, IfThen(n), result);
      } else {
        NoGive();
        i := CommandsBad(p, slots, elseAt + 1, elseBody, x.temp, x.labels, IfElse(n + 1), result);
      }
    case Loop(e, body) =>
      var (m, v) := Emit(e, t, l + 3, WhileCondition(l));
      var x := EmitCommands(body, m.temp, m.labels, WhileBody(l + 1), true).0;
      var endAt := LoopPlaces(p, base, c, t, l, b, true);
      LoopBody(p, base, v, l, m.lines, x.lines, ReturnsAll(body), endAt);
      i := CommandsBad(p, slots, base + 2 + |m.lines| + 2, body, m.temp, m.labels, WhileBody(l + 1), result);
  }

  lemma NoGive()
    ensures !HasGiveAll([])
  {
  }

  lemma BranchArms(p: seq<Line>, pc: nat, c: Command, v: Operand, n: nat, x: seq<Line>, y: seq<Line>, elseAt: nat,
                   endAt: nat)
    requires c.Branch?
    requires BranchAt(p, pc, v, n, x, ReturnsAll(c.thenBody), c.elseBody != [], y, ReturnsAll(c.elseBody), pc + 1,
                      elseAt, endAt)
    ensures Placed(p, pc + 2, x) && (c.elseBody != [] ==> Placed(p, elseAt + 1, y))
  {
    hide Placed, ReturnsAll;
  }

  lemma LoopBody(p: seq<Line>, base: nat, v: Operand, l: nat, m: seq<Line>, x: seq<Line>, xReturns: bool, endAt: nat)
    requires LoopAt(p, base, v, l, m, x, xReturns, endAt)
    ensures Placed(p, base + 2 + |m| + 2, x)
  {
    hide Placed;
  }

  lemma {:induction false} CommandsBad(p: seq<Line>, slots: seq<Type>, base: nat, cs: seq<Command>, t: nat, l: nat,
                                       b: Label, result: Type) returns (i: nat)
    requires Placed(p, base, EmitCommands(cs, t, l, b, true).0.lines) && AllTyped(cs, slots, result)
    requires HasGiveAll(cs) && TightAll(cs) && result != IntegerType && DefinesOnce(p)
    ensures i < |p| && !LineOk(p, slots, Gives(I32), i)
    decreases cs, 1
  {
    hide Placed, EmitCommand, CommandTyped, HasGive, Tight, DefinesOnce, LineOk;
    var (m, returned) := EmitCommand(cs[0], t, l, b, true);
    FlagIs(cs[0], t, l, b, true);
    if returned {
      NoGive();
      assert cs[1..] == [];
      i := CommandBad(p, slots, base, cs[0], t, l, b, result);
      return;
    }
    PlacedSplit(p, base, m.lines, EmitCommands(cs[1..], m.temp, m.labels, m.block, true).0.lines);
    if HasGive(cs[0]) {
      i := CommandBad(p, slots, base, cs[0], t, l, b, result);
    } else {
      i := CommandsBad(p, slots, base + |m.lines|, cs[1..], m.temp, m.labels, m.block, result);
    }
  }

  /** What the checker says of returns: they are resolved to returns, and nothing
      follows one. */
  lemma {:induction false} CheckedGives(locals: seq<Local>, s: Statement, result: Type)
    requires CheckStatement(locals, s, result).Some?
    ensures var c := CheckStatement(locals, s, result).value.1; HasGive(c) == HasReturn(s) && Tight(c)
    decreases s, 0
  {
    hide CheckExpression, FindLocal, CheckAll;
    match s
    case If(_, thenBody, elseBody) =>
      CheckedAllGive(locals, thenBody, result);
      CheckedAllGive(CheckBlock(locals, thenBody, result).value.0, elseBody, result);
    case While(_, body) => CheckedAllGive(locals, body, result);
    case _ =>
  }

  lemma {:induction false} CheckedAllGive(locals: seq<Local>, ss: seq<Statement>, result: Type)
    requires CheckAll(locals, ss, result).Some?
    ensures var cs := CheckAll(locals, ss, result).value.1; HasGiveAll(cs) == HasReturnAll(ss) && TightAll(cs)
    decreases ss, 1
  {
    if ss != [] {
      CheckedGives(locals, ss[0], result);
      FlagAgrees(locals, ss[0], result);
      var (next, c) := CheckStatement(locals, ss[0], result).value;
      CheckedAllGive(next, ss[1..], result);
      FlagsAgree(next, ss[1..], result);
      var cs := CheckAll(next, ss[1..], result).value.1;
      assert ([c] + cs)[1..] == cs;
    }
  }

  /* ---- the theorem ---- */

  /** The types the function's locals are allocated with. */
  function SlotTypes(f: Function): seq<Type>
    requires CheckFunction(f).Some?
  {
    TypesOf(CheckAll(AddParameters([], f.parameters).value, f.body, f.result).value.0)
  }

  function TypesOf(locals: seq<Local>): seq<Type> {
    seq(|locals|, i requires 0 <= i < |locals| => locals[i].ty)
  }

  /** No local is a `void`, and every line is well typed. */
  ghost predicate WellTyped(f: Function)
    requires CheckFunction(f).Some?
  {
    var p := Emitted(f);
    NoNothing(SlotTypes(f)) && Ok(p, SlotTypes(f), SignatureOf(f.isMain, f.result), 0, |p|)
  }

  predicate NoNothingParameter(f: Function) { forall i :: 0 <= i < |f.parameters| ==> f.parameters[i].1 != NothingType }

  lemma {:induction false} ParameterTypes(locals: seq<Local>, parameters: seq<(string, Type)>)
    requires AddParameters(locals, parameters).Some?
    ensures var all := AddParameters(locals, parameters).value;
      && |all| == |locals| + |parameters|
      && (forall i :: 0 <= i < |locals| ==> all[i] == locals[i])
      && (forall i :: 0 <= i < |parameters| ==> all[|locals| + i].ty == parameters[i].1)
    decreases |parameters|
  {
    if parameters != [] {
      var more := locals + [Local(parameters[0].0, parameters[0].1, true)];
      ParameterTypes(more, parameters[1..]);
      var all := AddParameters(locals, parameters).value;
      forall i | 0 <= i < |parameters| ensures all[|locals| + i].ty == parameters[i].1 {
        if i > 0 {
          assert parameters[1..][i - 1] == parameters[i] && all[|more| + (i - 1)].ty == parameters[1..][i - 1].1;
        } else {
          assert all[|locals|] == more[|locals|];
        }
      }
    }
  }

  predicate SomeTyped(locals: seq<Local>) { forall i :: 0 <= i < |locals| ==> locals[i].ty != NothingType }

  /** `let` never introduces a local of type Nothing. */
  lemma {:induction false} CheckKeepsTypes(locals: seq<Local>, s: Statement, result: Type)
    requires CheckStatement(locals, s, result).Some? && SomeTyped(locals)
    ensures SomeTyped(CheckStatement(locals, s, result).value.0)
    decreases s, 0
  {
    hide CheckExpression, FindLocal;
    match s
    case If(_, thenBody, elseBody) =>
      BlockKeepsTypes(locals, thenBody, result);
      BlockKeepsTypes(CheckBlock(locals, thenBody, result).value.0, elseBody, result);
    case While(_, body) => BlockKeepsTypes(locals, body, result);
    case _ =>
  }

  lemma {:induction false} BlockKeepsTypes(locals: seq<Local>, ss: seq<Statement>, result: Type)
    requires CheckBlock(locals, ss, result).Some? && SomeTyped(locals)
    ensures SomeTyped(CheckBlock(locals, ss, result).value.0)
    decreases ss, 2
  {
    AllKeepTypes(locals, ss, result);
  }

  lemma {:induction false} AllKeepTypes(locals: seq<Local>, ss: seq<Statement>, result: Type)
    requires CheckAll(locals, ss, result).Some? && SomeTyped(locals)
    ensures SomeTyped(CheckAll(locals, ss, result).value.0)
    decreases ss, 1
  {
    if ss != [] {
      CheckKeepsTypes(locals, ss[0], result);
      AllKeepTypes(CheckStatement(locals, ss[0], result).value.0, ss[1..], result);
    }
  }

  lemma {:induction false} SlotsExactly(f: Function)
    requires CheckFunction(f).Some?
    ensures NoNothing(SlotTypes(f)) <==> NoNothingParameter(f)
  {
    hide CheckAll, FindLocal, Guarantees, AddParameters;
    var locals := AddParameters([], f.parameters).value;
    var last := CheckAll(locals, f.body, f.result).value.0;
    ParameterTypes([], f.parameters);
    AllExtends(locals, f.body, f.result);
    if NoNothingParameter(f) {
      forall i | 0 <= i < |locals| ensures locals[i].ty != NothingType {
        var none: seq<Local> := [];
        assert locals[|none| + i].ty == f.parameters[i].1;
      }
      AllKeepTypes(locals, f.body, f.result);
    } else {
      var i :| 0 <= i < |f.parameters| && f.parameters[i].1 == NothingType;
      assert last[..|locals|][i] == locals[i] && SlotTypes(f)[i] == NothingType;
    }
  }

  /** For every checked function: the printed lines are well typed exactly when no
      parameter is declared Nothing and `main` returns Integer or contains no `return`.
      It is the `return` printed that counts, whether or not it is ever reached. */
  lemma {:induction false} WellTypedExactly(f: Function)
    requires CheckFunction(f).Some?
    ensures WellTyped(f) <==> NoNothingParameter(f) && Compilable(f)
  {
    hide CheckAll, FindLocal, Guarantees, AddParameters, EmitCommands, HasReturnAll, Placed, Ok, NoNothing,
        HasGiveAll, AllTyped;
    var locals := AddParameters([], f.parameters).value;
    var slots, sig, p := SlotTypes(f), SignatureOf(f.isMain, f.result), Emitted(f);
    SlotsExactly(f);
    if NoNothing(slots) {
      var cs := CheckFunction(f).value;
      TypesCover(CheckAll(locals, f.body, f.result).value.0);
      CheckedAllTyped(locals, f.body, f.result, slots);
      CheckedAllGive(locals, f.body, f.result);
      DefinedOnce(cs, f.isMain, f.result);
      var (m, returned) := EmitCommands(cs, 0, 0, Entry, f.isMain);
      var tail := if returned then [] else [Epilogue(f.isMain, f.result)];
      WholePlaced(p);
      PlacedSplit(p, 0, [At(Entry)], m.lines + tail);
      PlacedSplit(p, 1, m.lines, tail);
      if Compilable(f) {
        PlainOk(p, slots, sig, 0, [At(Entry)]);
        CommandsOk(p, slots, 1, cs, 0, 0, Entry, f.isMain, f.result);
        EpilogueOk(p, slots, 1 + |m.lines|, returned, f.isMain, f.result);
        OkJoin(p, slots, sig, 0, 1, 1 + |m.lines|);
        OkJoin(p, slots, sig, 0, 1 + |m.lines|, |p|);
      } else {
        var i := CommandsBad(p, slots, 1, cs, 0, 0, Entry, f.result);
        NotOk(p, slots, sig, i);
      }
    }
  }

  lemma TypesCover(locals: seq<Local>)
    ensures Covers(TypesOf(locals), locals)
  {
  }

  lemma NotOk(p: seq<Line>, slots: seq<Type>, sig: Signature, i: nat)
    requires i < |p| && !LineOk(p, slots, sig, i)
    ensures !Ok(p, slots, sig, 0, |p|)
  {
  }

  lemma EpilogueOk(p: seq<Line>, slots: seq<Type>, base: nat, returned: bool, isMain: bool, result: Type)
    requires Placed(p, base, if returned then [] else [Epilogue(isMain, result)])
    ensures Ok(p, slots, SignatureOf(isMain, result), base, base + if returned then 0 else 1)
  {
    if returned {
      PlacedRange(p, base, []);
    } else {
      PlacedLine(p, base, [Epilogue(isMain, result)], 0);
    }
  }

  const UNREACHED: Function :=
    Function([], BooleanType, [If(BooleanLiteral(false), [Return(Some(BooleanLiteral(true)))], [])], true)

  lemma UnreachedChecks()
    ensures CheckFunction(UNREACHED).Some? && HasReturnAll(UNREACHED.body)
  {
    var inner := [Return(Some(BooleanLiteral(true)))];
    assert inner[1..] == [] && UNREACHED.body == [If(BooleanLiteral(false), inner, [])] && UNREACHED.body[1..] == [];
    assert CheckAll([], inner[1..], BooleanType) == Some(([], []));
    assert CheckStatement([], inner[0], BooleanType) == Some(([], Give(Some(BooleanConstant(true)))));
    assert CheckAll([], inner, BooleanType).value.0 == [];
    assert CheckBlock([], inner, BooleanType).value.0 == [];
    assert CheckBlock([], [], BooleanType).Some?;
    assert CheckStatement([], UNREACHED.body[0], BooleanType).Some?;
    assert CheckAll(CheckStatement([], UNREACHED.body[0], BooleanType).value.0, [], BooleanType).Some?;
    assert HasReturn(UNREACHED.body[0]) by { assert HasReturnAll(inner); }
  }

  lemma UnreachedEnds(fuel: nat)
    ensures !Body(UNREACHED, [], fuel).Returned?
  {
    var body := UNREACHED.body;
    assert body[1..] == [];
    assert RunAll(body[1..], map[], fuel) == Normal(map[]);
    assert Run(body[0], map[], fuel) == LeaveBlock(map[], RunAll([], map[], fuel));
    assert Leave(map[], map[]) == map[];
  }

  /** A `return` that is never reached spoils the function all the same:
      `main(): Boolean { if false { return true } }`. */
  lemma UnreachedReturnSpoils()
    ensures CheckFunction(UNREACHED).Some? && !WellTyped(UNREACHED)
    ensures forall fuel: nat :: !Body(UNREACHED, [], fuel).Returned?
  {
    hide CheckFunction, HasReturnAll, WellTyped, Body;
    UnreachedChecks();
    WellTypedExactly(UNREACHED);
    forall fuel: nat ensures !Body(UNREACHED, [], fuel).Returned? { UnreachedEnds(fuel); }
  }

  /** So does a parameter declared Nothing, whose local would be a `void`:
      `function f(x: Nothing): Integer { return 1 }`. */
  lemma NothingParameterSpoils()
    ensures var f := Function([("x", NothingType)], IntegerType, [Return(Some(IntegerLiteral(1)))], false);
      CheckFunction(f).Some? && !WellTyped(f)
  {
    var f := Function([("x", NothingType)], IntegerType, [Return(Some(IntegerLiteral(1)))], false);
    var locals := [Local("x", NothingType, true)];
    assert f.parameters[1..] == [] && f.body[1..] == [];
    assert [] + locals == locals && AddParameters(locals, []) == Some(locals);
    assert AddParameters([], f.parameters) == Some(locals);
    assert CheckAll(locals, f.body[1..], f.result).Some?;
    assert f.parameters[0].1 == NothingType;
    WellTypedExactly(f);
  }
}
