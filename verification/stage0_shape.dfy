/** The emitted control flow is well formed: one terminator a block, every label
    and register defined once, and the emitter's returned flag the checker's own
    answer. */
module Stage0Shape {
  import opened Wrappers
  import opened Stage0Source
  import opened Stage0Check
  import opened Stage0Emit
  import opened Stage0Machine
  import opened Stage0Correct
  import opened Stage0Statements

  /* ---- one definition each ---- */

  /** What a line can define: a label, `%value.n`, `%checked.n` or `%overflow.n`. */
  datatype Thing = LabelNumber(n: int) | ValueRegister(n: int) | CheckedRegister(n: int) | OverflowRegister(n: int)

  function Defines(line: Line): Option<Thing> {
    match line
    case At(name) => Some(LabelNumber(Number(name)))
    case Load(t, _) => Some(ValueRegister(t))
    case Flip(t, _) => Some(ValueRegister(t))
    case WithOverflow(t, _, _, _) => Some(CheckedRegister(t))
    case ExtractValue(t) => Some(ValueRegister(t))
    case ExtractOverflow(t) => Some(OverflowRegister(t))
    case DivideInto(t, _, _, _) => Some(ValueRegister(t))
    case Compare(t, _, _, _) => Some(ValueRegister(t))
    case Phi(t, _, _, _, _) => Some(ValueRegister(t))
    case Truncate(t, _) => Some(ValueRegister(t))
    case _ => None
  }

  function Count(code: seq<Line>, d: Thing): nat {
    if code == [] then 0 else (if Defines(code[0]) == Some(d) then 1 else 0) + Count(code[1..], d)
  }

  lemma {:induction false} CountSplit(a: seq<Line>, b: seq<Line>, d: Thing)
    ensures Count(a + b, d) == Count(a, d) + Count(b, d)
  {
    if a == [] {
      assert a + b == b;
    } else {
      assert (a + b)[1..] == a[1..] + b;
      CountSplit(a[1..], b, d);
    }
  }

  lemma CountOne(line: Line, d: Thing)
    ensures Count([line], d) == if Defines(line) == Some(d) then 1 else 0
  {
  }

  lemma CountTwo(a: Line, b: Line, d: Thing)
    ensures Count([a] + [b], d) == Count([a, b], d)
    ensures Count([a, b], d) == (if Defines(a) == Some(d) then 1 else 0) + (if Defines(b) == Some(d) then 1 else 0)
  {
    assert [a, b] == [a] + [b];
    CountSplit([a], [b], d);
  }

  /** Numbers drawn from the counters between two moments. */
  predicate Drawn(d: Thing, t: nat, l: nat, t': nat, l': nat) {
    if d.LabelNumber? then l <= d.n < l' else t <= d.n < t'
  }

  function AtMost(b: bool): nat { if b then 1 else 0 }

  lemma OperatorDefines(t: nat, op: Operator, a: Operand, b: Operand, d: Thing)
    ensures Count(CheckedLines(t, op, a, b), d) <= AtMost(!d.LabelNumber? && d.n == t)
    ensures Count(OperatorLines(t, op, a, b), d) <= AtMost(!d.LabelNumber? && d.n == t)
  {
    var code := CheckedLines(t, op, a, b);
    assert code == [code[0], code[1]] + [code[2], code[3]];
    CountSplit([code[0], code[1]], [code[2], code[3]], d);
    CountTwo(code[0], code[1], d);
    CountTwo(code[2], code[3], d);
    CountTwo(CheckDivision(a, b), DivideInto(t, op, a, b), d);
  }

  lemma TailDefines(op: Operator, n: nat, t: nat, x: Label, v: Operand, y: Label, d: Thing)
    ensures Count(LogicalTail(op, n, t, x, v, y), d) <= AtMost(d == LabelNumber(n + 1) || d == ValueRegister(t))
    ensures Count(LogicalHead(op, v, n), d) == AtMost(d == LabelNumber(n))
  {
    var code := LogicalTail(op, n, t, x, v, y);
    assert code == [code[0], code[1]] + [code[2]];
    CountSplit([code[0], code[1]], [code[2]], d);
    CountTwo(code[0], code[1], d);
    CountOne(code[2], d);
    var head := LogicalHead(op, v, n);
    CountTwo(head[0], head[1], d);
    assert head == [head[0], head[1]];
  }

  lemma {:induction false} ExpressionDefines(e: Code, t: nat, l: nat, b: Label, d: Thing)
    ensures var m := Emit(e, t, l, b).0; Count(m.lines, d) <= AtMost(Drawn(d, t, l, m.temp, m.labels))
    decreases e, 1
  {
    hide CheckedLines, OperatorLines, LogicalHead, LogicalTail, Count;
    EmitGrows(e, t, l, b);
    match e
    case IntegerConstant(_) => EmptyDefines(d);
    case BooleanConstant(_) => EmptyDefines(d);
    case Slot(i) => CountOne(Load(t, i), d);
    case NotCode(e') =>
      ExpressionDefines(e', t, l, b, d);
      EmitGrows(e', t, l, b);
      var (m, v) := Emit(e', t, l, b);
      CountSplit(m.lines, [Flip(m.temp, v)], d);
      CountOne(Flip(m.temp, v), d);
    case NegateCode(e') =>
      ExpressionDefines(e', t, l, b, d);
      EmitGrows(e', t, l, b);
      var (m, v) := Emit(e', t, l, b);
      CountSplit(m.lines, CheckedLines(m.temp, Subtract, Constant(IntegerValue(0)), v), d);
      OperatorDefines(m.temp, Subtract, Constant(IntegerValue(0)), v, d);
    case BinaryCode(op, left, right) => BinaryDefines(e, t, l, b, d);
  }

  lemma {:induction false} BinaryDefines(e: Code, t: nat, l: nat, b: Label, d: Thing)
    requires e.BinaryCode?
    ensures var m := Emit(e, t, l, b).0; Count(m.lines, d) <= AtMost(Drawn(d, t, l, m.temp, m.labels))
    decreases e, 0
  {
    hide CheckedLines, OperatorLines, LogicalHead, LogicalTail, Count;
    var op := e.op;
    ExpressionDefines(e.left, t, l, b, d);
    EmitGrows(e.left, t, l, b);
    var (m, v) := Emit(e.left, t, l, b);
    if IsLogical(op) {
      var (k, w) := Emit(e.right, m.temp, m.labels + 2, LogicalRight(m.labels));
      ExpressionDefines(e.right, m.temp, m.labels + 2, LogicalRight(m.labels), d);
      EmitGrows(e.right, m.temp, m.labels + 2, LogicalRight(m.labels));
      LogicalDefines(m.lines, op, v, m.labels, k.lines, k.temp, m.block, w, k.block, d);
    } else {
      var (k, w) := Emit(e.right, m.temp, m.labels, m.block);
      ExpressionDefines(e.right, m.temp, m.labels, m.block, d);
      EmitGrows(e.right, m.temp, m.labels, m.block);
      CountSplit(m.lines, k.lines + OperatorLines(k.temp, op, v, w), d);
      CountSplit(k.lines, OperatorLines(k.temp, op, v, w), d);
      OperatorDefines(k.temp, op, v, w, d);
    }
  }

  lemma EmptyDefines(d: Thing)
    ensures Count([], d) == 0
  {
  }

  lemma LogicalDefines(left: seq<Line>, op: Operator, v: Operand, n: nat, right: seq<Line>, t: nat, x: Label,
                       w: Operand, y: Label, d: Thing)
    ensures Count(left + (LogicalHead(op, v, n) + (right + LogicalTail(op, n, t, x, w, y))), d)
         <= Count(left, d) + Count(right, d) + AtMost(d == LabelNumber(n) || d == LabelNumber(n + 1) ||
                                                      d == ValueRegister(t))
  {
    hide LogicalHead, LogicalTail;
    var head, tail := LogicalHead(op, v, n), LogicalTail(op, n, t, x, w, y);
    CountSplit(left, head + (right + tail), d);
    CountSplit(head, right + tail, d);
    CountSplit(right, tail, d);
    TailDefines(op, n, t, x, w, y, d);
    TailDefines(op, n, t, x, v, y, d);
  }

  lemma JumpDefines(returned: bool, target: Label, d: Thing)
    ensures Count(JumpUnless(returned, target), d) == 0
  {
    if !returned { CountOne(Jump(target), d); }
  }

  lemma {:induction false} CommandDefines(c: Command, t: nat, l: nat, b: Label, isMain: bool, d: Thing)
    requires Number(b) < l
    ensures var m := EmitCommand(c, t, l, b, isMain).0; Count(m.lines, d) <= AtMost(Drawn(d, t, l, m.temp, m.labels))
    decreases c, 2
  {
    hide Count, Emit, ReturnLines;
    CommandGrows(c, t, l, b, isMain);
    match c
    case Store(i, e) =>
      ExpressionDefines(e, t, l, b, d);
      var (m, v) := Emit(e, t, l, b);
      CountSplit(m.lines, [StoreTo(v, i)], d);
      CountOne(StoreTo(v, i), d);
    case Discard(e) => ExpressionDefines(e, t, l, b, d);
    case Give(None) => CountOne(RetVoid, d);
    case Give(Some(e)) =>
      ExpressionDefines(e, t, l, b, d);
      EmitGrows(e, t, l, b);
      var (m, v) := Emit(e, t, l, b);
      CountSplit(m.lines, ReturnLines(isMain, m.temp, v), d);
      ReturnDefines(isMain, m.temp, v, d);
    case Branch(_, _, _) => BranchDefines(c, t, l, b, isMain, d);
    case Loop(_, _) => LoopDefines(c, t, l, b, isMain, d);
  }

  lemma ReturnDefines(isMain: bool, t: nat, v: Operand, d: Thing)
    ensures Count(ReturnLines(isMain, t, v), d) <= AtMost(isMain && d == ValueRegister(t))
  {
    CountTwo(Truncate(t, v), RetExit(Temporary(t)), d);
    CountOne(Ret(v), d);
  }

  lemma {:induction false} BranchDefines(c: Command, t: nat, l: nat, b: Label, isMain: bool, d: Thing)
    requires c.Branch?
    ensures var m := EmitCommand(c, t, l, b, isMain).0; Count(m.lines, d) <= AtMost(Drawn(d, t, l, m.temp, m.labels))
    decreases c, 1
  {
    hide Count, Emit, EmitCommands, JumpUnless;
    var (m, v) := Emit(c.condition, t, l, b);
    var n := m.labels;
    ExpressionDefines(c.condition, t, l, b, d);
    EmitGrows(c.condition, t, l, b);
    var (x, xr) := EmitCommands(c.thenBody, m.temp, n + 3, IfThen(n), isMain);
    CommandsDefine(c.thenBody, m.temp, n + 3, IfThen(n), isMain, d);
    CommandsGrow(c.thenBody, m.temp, n + 3, IfThen(n), isMain);
    if c.elseBody == [] {
      ShortDefines(m.lines, v, n, x.lines, xr, d);
    } else {
      var (y, yr) := EmitCommands(c.elseBody, x.temp, x.labels, IfElse(n + 1), isMain);
      CommandsDefine(c.elseBody, x.temp, x.labels, IfElse(n + 1), isMain, d);
      CommandsGrow(c.elseBody, x.temp, x.labels, IfElse(n + 1), isMain);
      LongDefines(m.lines, v, n, x.lines, xr, y.lines, yr, if xr && yr then [] else [At(IfEnd(n + 2))], d);
    }
  }

  lemma ShortDefines(m: seq<Line>, v: Operand, n: nat, x: seq<Line>, xr: bool, d: Thing)
    ensures Count(m + (([JumpIf(v, IfThen(n), IfEnd(n + 2))] + [At(IfThen(n))]) + (x +
                  (JumpUnless(xr, IfEnd(n + 2)) + [At(IfEnd(n + 2))]))), d)
         <= Count(m, d) + Count(x, d) + AtMost(d == LabelNumber(n) || d == LabelNumber(n + 2))
  {
    hide Count, JumpUnless;
    var j, end := JumpUnless(xr, IfEnd(n + 2)), [At(IfEnd(n + 2))];
    Regroup(m, [JumpIf(v, IfThen(n), IfEnd(n + 2))] + [At(IfThen(n))], x, j, end, d);
    CountTwo(JumpIf(v, IfThen(n), IfEnd(n + 2)), At(IfThen(n)), d);
    JumpDefines(xr, IfEnd(n + 2), d);
    CountOne(At(IfEnd(n + 2)), d);
  }

  lemma LongDefines(m: seq<Line>, v: Operand, n: nat, x: seq<Line>, xr: bool, y: seq<Line>, yr: bool, end: seq<Line>,
                    d: Thing)
    requires end == [] || end == [At(IfEnd(n + 2))]
    ensures Count(m + (([JumpIf(v, IfThen(n), IfElse(n + 1))] + [At(IfThen(n))]) + (x + (JumpUnless(xr, IfEnd(n + 2)) +
                  ([At(IfElse(n + 1))] + (y + (JumpUnless(yr, IfEnd(n + 2)) + end)))))), d)
         <= Count(m, d) + Count(x, d) + Count(y, d) + AtMost(d == LabelNumber(n) || d == LabelNumber(n + 1) ||
                                                             d == LabelNumber(n + 2))
  {
    hide Count, JumpUnless;
    var j, k := JumpUnless(xr, IfEnd(n + 2)), JumpUnless(yr, IfEnd(n + 2));
    Regroup(m, [JumpIf(v, IfThen(n), IfElse(n + 1))] + [At(IfThen(n))], x, j, [At(IfElse(n + 1))] + (y + (k + end)), d);
    CountTwo(JumpIf(v, IfThen(n), IfElse(n + 1)), At(IfThen(n)), d);
    CountSplit([At(IfElse(n + 1))], y + (k + end), d);
    CountSplit(y, k + end, d);
    CountSplit(k, end, d);
    JumpDefines(xr, IfEnd(n + 2), d);
    JumpDefines(yr, IfEnd(n + 2), d);
    CountOne(At(IfElse(n + 1)), d);
    CountOne(At(IfEnd(n + 2)), d);
    EmptyDefines(d);
  }

  lemma Regroup(a: seq<Line>, b: seq<Line>, c: seq<Line>, e: seq<Line>, f: seq<Line>, d: Thing)
    ensures Count(a + (b + (c + (e + f))), d) == Count(a, d) + Count(b, d) + Count(c, d) + Count(e, d) + Count(f, d)
  {
    CountSplit(a, b + (c + (e + f)), d);
    CountSplit(b, c + (e + f), d);
    CountSplit(c, e + f, d);
    CountSplit(e, f, d);
  }

  lemma {:induction false} LoopDefines(c: Command, t: nat, l: nat, b: Label, isMain: bool, d: Thing)
    requires c.Loop?
    ensures var m := EmitCommand(c, t, l, b, isMain).0; Count(m.lines, d) <= AtMost(Drawn(d, t, l, m.temp, m.labels))
    decreases c, 1
  {
    hide Count, Emit, EmitCommands, JumpUnless;
    var (m, v) := Emit(c.condition, t, l + 3, WhileCondition(l));
    ExpressionDefines(c.condition, t, l + 3, WhileCondition(l), d);
    EmitGrows(c.condition, t, l + 3, WhileCondition(l));
    var (x, xr) := EmitCommands(c.body, m.temp, m.labels, WhileBody(l + 1), isMain);
    CommandsDefine(c.body, m.temp, m.labels, WhileBody(l + 1), isMain, d);
    CommandsGrow(c.body, m.temp, m.labels, WhileBody(l + 1), isMain);
    var j := JumpUnless(xr, WhileCondition(l));
    Regroup([Jump(WhileCondition(l))] + [At(WhileCondition(l))], m.lines,
            [JumpIf(v, WhileBody(l + 1), WhileEnd(l + 2))] + [At(WhileBody(l + 1))], x.lines,
            j + [At(WhileEnd(l + 2))], d);
    CountTwo(Jump(WhileCondition(l)), At(WhileCondition(l)), d);
    CountTwo(JumpIf(v, WhileBody(l + 1), WhileEnd(l + 2)), At(WhileBody(l + 1)), d);
    CountSplit(j, [At(WhileEnd(l + 2))], d);
    JumpDefines(xr, WhileCondition(l), d);
    CountOne(At(WhileEnd(l + 2)), d);
  }

  /** Each label and register of emitted code is defined at most once, with a number
      the counters gave out for it. */
  lemma {:induction false} CommandsDefine(cs: seq<Command>, t: nat, l: nat, b: Label, isMain: bool, d: Thing)
    requires Number(b) < l
    ensures var m := EmitCommands(cs, t, l, b, isMain).0; Count(m.lines, d) <= AtMost(Drawn(d, t, l, m.temp, m.labels))
    decreases cs, 3
  {
    hide EmitCommand, Count;
    if cs == [] { EmptyDefines(d); return; }
    var (m, returned) := EmitCommand(cs[0], t, l, b, isMain);
    CommandDefines(cs[0], t, l, b, isMain, d);
    CommandGrows(cs[0], t, l, b, isMain);
    if !returned {
      var k := EmitCommands(cs[1..], m.temp, m.labels, m.block, isMain).0;
      CommandsDefine(cs[1..], m.temp, m.labels, m.block, isMain, d);
      CommandsGrow(cs[1..], m.temp, m.labels, m.block, isMain);
      CountSplit(m.lines, k.lines, d);
    }
  }

  /** In a whole function everything is defined at most once. */
  lemma {:induction false} FunctionDefines(cs: seq<Command>, isMain: bool, result: Type, d: Thing)
    ensures Count(EmitFunction(cs, isMain, result), d) <= 1
  {
    hide Count, EmitCommands;
    var (m, returned) := EmitCommands(cs, 0, 0, Entry, isMain);
    var tail := if returned then [] else [Epilogue(isMain, result)];
    CommandsDefine(cs, 0, 0, Entry, isMain, d);
    CountSplit([At(Entry)], m.lines + tail, d);
    CountSplit(m.lines, tail, d);
    CountOne(At(Entry), d);
    EmptyDefines(d);
    CountOne(Epilogue(isMain, result), d);
  }

  /** Two lines that define the same thing count twice. */
  lemma {:induction false} CountPair(p: seq<Line>, i: nat, j: nat, d: Thing)
    requires i < j < |p| && Defines(p[i]) == Some(d) && Defines(p[j]) == Some(d)
    ensures Count(p, d) >= 2
  {
    hide Count;
    assert p == p[..i] + ([p[i]] + (p[i + 1..j] + ([p[j]] + p[j + 1..])));
    Regroup(p[..i], [p[i]], p[i + 1..j], [p[j]], p[j + 1..], d);
    CountOne(p[i], d);
    CountOne(p[j], d);
  }

  /** Single definition, line by line: labels, values, overflow pairs. */
  lemma {:induction false} DefinedOnce(cs: seq<Command>, isMain: bool, result: Type)
    ensures var p := EmitFunction(cs, isMain, result);
      && Unique(p)
      && forall i, j :: 0 <= i < j < |p| && Defines(p[i]).Some? ==> Defines(p[i]) != Defines(p[j])
  {
    hide Count, EmitFunction;
    var p := EmitFunction(cs, isMain, result);
    forall i, j | 0 <= i < j < |p| && Defines(p[i]).Some? ensures Defines(p[i]) != Defines(p[j]) {
      if Defines(p[i]) == Defines(p[j]) {
        FunctionDefines(cs, isMain, result, Defines(p[i]).value);
        CountPair(p, i, j, Defines(p[i]).value);
      }
    }
    forall i, j | 0 <= i < j < |p| && p[i].At? && p[j].At? ensures p[i].name != p[j].name {
      assert Defines(p[i]) != Defines(p[j]);
    }
  }

  /* ---- one terminator a block ---- */

  predicate IsTerminator(line: Line) {
    line.Jump? || line.JumpIf? || line.Ret? || line.RetVoid? || line.RetExit? || line.Unreachable?
  }

  /** Reads lines in order, knowing whether the last block has ended: a label must
      follow an ended block, anything else must stand in an open one. */
  function After(code: seq<Line>, ended: bool): Option<bool> {
    if code == [] then Some(ended)
    else if code[0].At? != ended then None
    else After(code[1..], IsTerminator(code[0]))
  }

  lemma {:induction false} AfterSplit(a: seq<Line>, b: seq<Line>, ended: bool)
    requires After(a, ended).Some?
    ensures After(a + b, ended) == After(b, After(a, ended).value)
  {
    if a == [] {
      assert a + b == b;
    } else {
      assert (a + b)[1..] == a[1..] + b;
      AfterSplit(a[1..], b, IsTerminator(a[0]));
    }
  }

  lemma AfterOne(line: Line)
    ensures !line.At? ==> After([line], false) == Some(IsTerminator(line))
    ensures line.At? ==> After([line], true) == Some(false)
  {
  }

  lemma AfterTwo(a: Line, b: Line)
    requires !a.At?
    ensures IsTerminator(a) && b.At? ==> After([a] + [b], false) == Some(false) && After([a, b], false) == Some(false)
    ensures !IsTerminator(a) && !b.At? ==>
      After([a] + [b], false) == Some(IsTerminator(b)) && After([a, b], false) == Some(IsTerminator(b))
  {
    assert [a, b] == [a] + [b];
    AfterSplit([a], [b], false);
  }

  lemma OperatorFlows(t: nat, op: Operator, a: Operand, b: Operand)
    ensures After(CheckedLines(t, op, a, b), false) == Some(false)
    ensures After(OperatorLines(t, op, a, b), false) == Some(false)
  {
    var code := CheckedLines(t, op, a, b);
    assert code == [code[0], code[1]] + [code[2], code[3]];
    AfterTwo(code[0], code[1]);
    AfterTwo(code[2], code[3]);
    AfterSplit([code[0], code[1]], [code[2], code[3]], false);
    AfterTwo(CheckDivision(a, b), DivideInto(t, op, a, b));
  }

  lemma LogicalFlows(op: Operator, v: Operand, n: nat, t: nat, x: Label, w: Operand, y: Label)
    ensures After(LogicalHead(op, v, n), false) == Some(false)
    ensures After(LogicalTail(op, n, t, x, w, y), false) == Some(false)
  {
    var head, tail := LogicalHead(op, v, n), LogicalTail(op, n, t, x, w, y);
    AfterTwo(head[0], head[1]);
    assert head == [head[0], head[1]];
    AfterTwo(tail[0], tail[1]);
    assert tail == [tail[0], tail[1]] + [tail[2]];
    AfterSplit([tail[0], tail[1]], [tail[2]], false);
  }

  lemma {:induction false} ExpressionFlows(e: Code, t: nat, l: nat, b: Label)
    ensures After(Emit(e, t, l, b).0.lines, false) == Some(false)
    decreases e, 1
  {
    hide CheckedLines, OperatorLines, LogicalHead, LogicalTail, After;
    match e
    case IntegerConstant(_) => AfterNone(false);
    case BooleanConstant(_) => AfterNone(false);
    case Slot(i) => AfterOne(Load(t, i));
    case NotCode(e') =>
      ExpressionFlows(e', t, l, b);
      var (m, v) := Emit(e', t, l, b);
      AfterSplit(m.lines, [Flip(m.temp, v)], false);
      AfterOne(Flip(m.temp, v));
    case NegateCode(e') =>
      ExpressionFlows(e', t, l, b);
      var (m, v) := Emit(e', t, l, b);
      AfterSplit(m.lines, CheckedLines(m.temp, Subtract, Constant(IntegerValue(0)), v), false);
      OperatorFlows(m.temp, Subtract, Constant(IntegerValue(0)), v);
    case BinaryCode(_, _, _) => BinaryFlows(e, t, l, b);
  }

  lemma {:induction false} BinaryFlows(e: Code, t: nat, l: nat, b: Label)
    requires e.BinaryCode?
    ensures After(Emit(e, t, l, b).0.lines, false) == Some(false)
    decreases e, 0
  {
    hide CheckedLines, OperatorLines, LogicalHead, LogicalTail, After;
    var op := e.op;
    ExpressionFlows(e.left, t, l, b);
    var (m, v) := Emit(e.left, t, l, b);
    if IsLogical(op) {
      var (k, w) := Emit(e.right, m.temp, m.labels + 2, LogicalRight(m.labels));
      ExpressionFlows(e.right, m.temp, m.labels + 2, LogicalRight(m.labels));
      var head, tail := LogicalHead(op, v, m.labels), LogicalTail(op, m.labels, k.temp, m.block, w, k.block);
      LogicalFlows(op, v, m.labels, k.temp, m.block, w, k.block);
      AfterSplit(m.lines, head + (k.lines + tail), false);
      AfterSplit(head, k.lines + tail, false);
      AfterSplit(k.lines, tail, false);
    } else {
      var (k, w) := Emit(e.right, m.temp, m.labels, m.block);
      ExpressionFlows(e.right, m.temp, m.labels, m.block);
      AfterSplit(m.lines, k.lines + OperatorLines(k.temp, op, v, w), false);
      AfterSplit(k.lines, OperatorLines(k.temp, op, v, w), false);
      OperatorFlows(k.temp, op, v, w);
    }
  }

  lemma AfterNone(ended: bool)
    ensures After([], ended) == Some(ended)
  {
  }

  lemma JumpFlows(returned: bool, target: Label)
    ensures After(JumpUnless(returned, target), returned) == Some(true)
  {
  }

  lemma ReturnFlows(isMain: bool, t: nat, v: Operand)
    ensures After(ReturnLines(isMain, t, v), false) == Some(true)
  {
    AfterTwo(Truncate(t, v), RetExit(Temporary(t)));
  }

  lemma {:induction false} CommandFlows(c: Command, t: nat, l: nat, b: Label, isMain: bool)
    ensures var (m, returned) := EmitCommand(c, t, l, b, isMain); After(m.lines, false) == Some(returned)
    decreases c, 2
  {
    hide After, Emit, ReturnLines;
    match c
    case Store(i, e) =>
      ExpressionFlows(e, t, l, b);
      var (m, v) := Emit(e, t, l, b);
      AfterSplit(m.lines, [StoreTo(v, i)], false);
      AfterOne(StoreTo(v, i));
    case Discard(e) => ExpressionFlows(e, t, l, b);
    case Give(None) => AfterOne(RetVoid);
    case Give(Some(e)) =>
      ExpressionFlows(e, t, l, b);
      var (m, v) := Emit(e, t, l, b);
      AfterSplit(m.lines, ReturnLines(isMain, m.temp, v), false);
      ReturnFlows(isMain, m.temp, v);
    case Branch(_, _, _) => BranchFlows(c, t, l, b, isMain);
    case Loop(_, _) => LoopFlows(c, t, l, b, isMain);
  }

  lemma {:induction false} BranchFlows(c: Command, t: nat, l: nat, b: Label, isMain: bool)
    requires c.Branch?
    ensures var (m, returned) := EmitCommand(c, t, l, b, isMain); After(m.lines, false) == Some(returned)
    decreases c, 1
  {
    hide After, Emit, EmitCommands, JumpUnless;
    var (m, v) := Emit(c.condition, t, l, b);
    var n := m.labels;
    ExpressionFlows(c.condition, t, l, b);
    var (x, xr) := EmitCommands(c.thenBody, m.temp, n + 3, IfThen(n), isMain);
    CommandsFlow(c.thenBody, m.temp, n + 3, IfThen(n), isMain);
    var other := if c.elseBody == [] then IfEnd(n + 2) else IfElse(n + 1);
    var head := [JumpIf(v, IfThen(n), other)] + [At(IfThen(n))];
    var j := JumpUnless(xr, IfEnd(n + 2));
    AfterTwo(JumpIf(v, IfThen(n), other), At(IfThen(n)));
    JumpFlows(xr, IfEnd(n + 2));
    AfterOne(At(IfEnd(n + 2)));
    if c.elseBody == [] {
      AfterFive(m.lines, head, x.lines, j, [At(IfEnd(n + 2))], xr);
    } else {
      var (y, yr) := EmitCommands(c.elseBody, x.temp, x.labels, IfElse(n + 1), isMain);
      CommandsFlow(c.elseBody, x.temp, x.labels, IfElse(n + 1), isMain);
      var end := if xr && yr then [] else [At(IfEnd(n + 2))];
      var k := JumpUnless(yr, IfEnd(n + 2));
      AfterFive(m.lines, head, x.lines, j, [At(IfElse(n + 1))] + (y.lines + (k + end)), xr);
      AfterSplit([At(IfElse(n + 1))], y.lines + (k + end), true) by { AfterOne(At(IfElse(n + 1))); }
      AfterOne(At(IfElse(n + 1)));
      AfterSplit(y.lines, k + end, false);
      JumpFlows(yr, IfEnd(n + 2));
      AfterSplit(k, end, yr);
      AfterNone(true);
    }
  }

  /** A closed prefix, then a body and the jump that ends it. */
  lemma AfterFive(a: seq<Line>, b: seq<Line>, c: seq<Line>, e: seq<Line>, f: seq<Line>, returned: bool)
    requires After(a, false) == Some(false) && After(b, false) == Some(false) && After(c, false) == Some(returned)
    requires After(e, returned) == Some(true)
    ensures After(a + (b + (c + (e + f))), false) == After(f, true)
  {
    hide After;
    AfterSplit(a, b + (c + (e + f)), false);
    AfterSplit(b, c + (e + f), false);
    AfterSplit(c, e + f, false);
    AfterSplit(e, f, returned);
  }

  lemma {:induction false} LoopFlows(c: Command, t: nat, l: nat, b: Label, isMain: bool)
    requires c.Loop?
    ensures var (m, returned) := EmitCommand(c, t, l, b, isMain); After(m.lines, false) == Some(returned)
    decreases c, 1
  {
    hide After, Emit, EmitCommands, JumpUnless;
    var (m, v) := Emit(c.condition, t, l + 3, WhileCondition(l));
    ExpressionFlows(c.condition, t, l + 3, WhileCondition(l));
    var (x, xr) := EmitCommands(c.body, m.temp, m.labels, WhileBody(l + 1), isMain);
    CommandsFlow(c.body, m.temp, m.labels, WhileBody(l + 1), isMain);
    var j := JumpUnless(xr, WhileCondition(l));
    var first := [Jump(WhileCondition(l))] + [At(WhileCondition(l))];
    var head := [JumpIf(v, WhileBody(l + 1), WhileEnd(l + 2))] + [At(WhileBody(l + 1))];
    AfterTwo(Jump(WhileCondition(l)), At(WhileCondition(l)));
    AfterTwo(JumpIf(v, WhileBody(l + 1), WhileEnd(l + 2)), At(WhileBody(l + 1)));
    JumpFlows(xr, WhileCondition(l));
    AfterOne(At(WhileEnd(l + 2)));
    AfterSplit(first, m.lines + (head + (x.lines + (j + [At(WhileEnd(l + 2))]))), false);
    AfterFive(m.lines, head, x.lines, j, [At(WhileEnd(l + 2))], xr);
  }

  lemma {:induction false} CommandsFlow(cs: seq<Command>, t: nat, l: nat, b: Label, isMain: bool)
    ensures var (m, returned) := EmitCommands(cs, t, l, b, isMain); After(m.lines, false) == Some(returned)
    decreases cs, 3
  {
    hide After, EmitCommand;
    if cs == [] { AfterNone(false); return; }
    var (m, returned) := EmitCommand(cs[0], t, l, b, isMain);
    CommandFlows(cs[0], t, l, b, isMain);
    if !returned {
      CommandsFlow(cs[1..], m.temp, m.labels, m.block, isMain);
      AfterSplit(m.lines, EmitCommands(cs[1..], m.temp, m.labels, m.block, isMain).0.lines, false);
    }
  }

  /** Line `i` is a terminator exactly when it is the last of its block. */
  predicate TerminatorAt(p: seq<Line>, i: nat)
    requires i < |p|
  {
    IsTerminator(p[i]) <==> i + 1 == |p| || p[i + 1].At?
  }

  /** What `After` establishes, line by line. */
  lemma {:induction false} AfterMeans(p: seq<Line>, ended: bool, i: nat)
    requires After(p, ended) == Some(true) && i < |p|
    ensures p[0].At? == ended && TerminatorAt(p, i)
  {
    var rest := p[1..];
    if i == 0 {
      if rest != [] { assert rest[0] == p[1]; }
    } else {
      AfterMeans(rest, IsTerminator(p[0]), i - 1);
      assert rest[i - 1] == p[i] && (i + 1 < |p| ==> rest[i] == p[i + 1]);
    }
  }

  /** The function starts with a label, and a line is a terminator exactly when it
      is the last of its block. */
  lemma {:induction false} OneTerminator(cs: seq<Command>, isMain: bool, result: Type)
    ensures var p := EmitFunction(cs, isMain, result);
      && p != [] && p[0] == At(Entry)
      && forall i :: 0 <= i < |p| ==> TerminatorAt(p, i)
  {
    hide After, EmitCommands;
    var p := EmitFunction(cs, isMain, result);
    var (m, returned) := EmitCommands(cs, 0, 0, Entry, isMain);
    var tail := if returned then [] else [Epilogue(isMain, result)];
    CommandsFlow(cs, 0, 0, Entry, isMain);
    AfterOne(At(Entry));
    AfterSplit([At(Entry)], m.lines + tail, true);
    AfterSplit(m.lines, tail, false);
    AfterNone(true);
    AfterOne(Epilogue(isMain, result));
    forall i | 0 <= i < |p| ensures TerminatorAt(p, i) {
      AfterMeans(p, true, i);
    }
  }

  /* ---- the checker's return analysis is the emitter's ---- */

  lemma {:induction false} FlagAgrees(locals: seq<Local>, s: Statement, result: Type)
    requires CheckStatement(locals, s, result).Some?
    ensures Returns(CheckStatement(locals, s, result).value.1) == Guarantees(s)
    decreases s, 0
  {
    hide CheckExpression, FindLocal, CheckAll, Deactivate;
    match s
    case If(c, thenBody, elseBody) =>
      FlagsAgree(locals, thenBody, result);
      FlagsAgree(CheckBlock(locals, thenBody, result).value.0, elseBody, result);
    case _ =>
  }

  /** Because nothing may follow a guaranteed return, looking at the last statement
      finds the same answer as stopping at the first that returns. */
  lemma {:induction false} FlagsAgree(locals: seq<Local>, ss: seq<Statement>, result: Type)
    requires CheckAll(locals, ss, result).Some?
    ensures var cs := CheckAll(locals, ss, result).value.1;
      |cs| == |ss| && ReturnsAll(cs) == (ss != [] && Guarantees(ss[|ss| - 1]))
    decreases ss, 1
  {
    if ss != [] {
      FlagAgrees(locals, ss[0], result);
      var (next, c) := CheckStatement(locals, ss[0], result).value;
      FlagsAgree(next, ss[1..], result);
      var cs := CheckAll(next, ss[1..], result).value.1;
      assert ([c] + cs)[1..] == cs;
    }
  }
}
