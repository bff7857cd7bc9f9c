/** Every label an emitted line mentions is defined in the function. */
module Stage0Labels {
  import opened Stage0Source
  import opened Stage0Check
  import opened Stage0Emit
  import opened Stage0Machine

  /** The blocks a line names: where it jumps, or where a phi may come from. */
  function Names(line: Line): set<Label> {
    match line
    case Jump(target) => {target}
    case JumpIf(_, yes, no) => {yes, no}
    case Phi(_, _, x, _, y) => {x, y}
    case _ => {}
  }

  function Mark(line: Line): set<Label> { if line.At? then {line.name} else {} }

  function Mentioned(code: seq<Line>): set<Label> {
    if code == [] then {} else Names(code[0]) + Mentioned(code[1..])
  }

  function Marked(code: seq<Line>): set<Label> {
    if code == [] then {} else Mark(code[0]) + Marked(code[1..])
  }

  lemma {:induction false} LabelsSplit(a: seq<Line>, b: seq<Line>)
    ensures Mentioned(a + b) == Mentioned(a) + Mentioned(b) && Marked(a + b) == Marked(a) + Marked(b)
  {
    if a == [] {
      assert a + b == b;
    } else {
      assert (a + b)[1..] == a[1..] + b;
      LabelsSplit(a[1..], b);
    }
  }

  lemma LabelsOne(line: Line)
    ensures Mentioned([line]) == Names(line) && Marked([line]) == Mark(line)
  {
    assert [line][1..] == [];
  }

  lemma LabelsTwo(a: Line, b: Line)
    ensures Mentioned([a] + [b]) == Names(a) + Names(b) && Marked([a] + [b]) == Mark(a) + Mark(b)
  {
    LabelsSplit([a], [b]);
    LabelsOne(a);
    LabelsOne(b);
  }

  lemma NoLabels()
    ensures Mentioned([]) == {} && Marked([]) == {}
  {
  }

  /** What starts in block `b` mentions only `b` and its own labels, and ends in one of
      them. */
  ghost predicate Closed(m: Emission, b: Label) {
    Mentioned(m.lines) <= Marked(m.lines) + {b} && m.block in Marked(m.lines) + {b}
  }

  lemma OperatorNames(t: nat, op: Operator, a: Operand, b: Operand)
    ensures Mentioned(CheckedLines(t, op, a, b)) == {} && Marked(CheckedLines(t, op, a, b)) == {}
    ensures Mentioned(OperatorLines(t, op, a, b)) == {} && Marked(OperatorLines(t, op, a, b)) == {}
  {
    var c := CheckedLines(t, op, a, b);
    LabelsTwo(c[0], c[1]);
    LabelsTwo(c[2], c[3]);
    LabelsSplit([c[0]] + [c[1]], [c[2]] + [c[3]]);
    assert c == ([c[0]] + [c[1]]) + ([c[2]] + [c[3]]);
    LabelsTwo(CheckDivision(a, b), DivideInto(t, op, a, b));
    assert [CheckDivision(a, b)] + [DivideInto(t, op, a, b)] == [CheckDivision(a, b), DivideInto(t, op, a, b)];
    LabelsOne(Compare(t, op, a, b));
  }

  lemma LogicalNames(op: Operator, v: Operand, n: nat, t: nat, x: Label, w: Operand, y: Label)
    ensures Mentioned(LogicalHead(op, v, n)) == {LogicalRight(n), LogicalEnd(n + 1)} &&
        Marked(LogicalHead(op, v, n)) == {LogicalRight(n)}
    ensures Mentioned(LogicalTail(op, n, t, x, w, y)) == {LogicalEnd(n + 1), x, y}
    ensures Marked(LogicalTail(op, n, t, x, w, y)) == {LogicalEnd(n + 1)}
  {
    var head, tail := LogicalHead(op, v, n), LogicalTail(op, n, t, x, w, y);
    LabelsTwo(head[0], head[1]);
    assert head == [head[0]] + [head[1]];
    LabelsTwo(tail[0], tail[1]);
    LabelsOne(tail[2]);
    LabelsSplit([tail[0]] + [tail[1]], [tail[2]]);
    assert tail == ([tail[0]] + [tail[1]]) + [tail[2]];
  }

  lemma {:induction false} ExpressionClosed(e: Code, t: nat, l: nat, b: Label)
    ensures Closed(Emit(e, t, l, b).0, b)
    decreases e, 1
  {
    hide CheckedLines, Mentioned, Marked;
    NoLabels();
    match e
    case IntegerConstant(_) =>
    case BooleanConstant(_) =>
    case Slot(i) => LabelsOne(Load(t, i));
    case NotCode(e') =>
      ExpressionClosed(e', t, l, b);
      var (m, v) := Emit(e', t, l, b);
      LabelsSplit(m.lines, [Flip(m.temp, v)]);
      LabelsOne(Flip(m.temp, v));
    case NegateCode(e') =>
      ExpressionClosed(e', t, l, b);
      var (m, v) := Emit(e', t, l, b);
      var zero := Constant(IntegerValue(0));
      LabelsSplit(m.lines, CheckedLines(m.temp, Subtract, zero, v));
      OperatorNames(m.temp, Subtract, zero, v);
    case BinaryCode(_, _, _) => BinaryClosed(e, t, l, b);
  }

  lemma {:induction false} BinaryClosed(e: Code, t: nat, l: nat, b: Label)
    requires e.BinaryCode?
    ensures Closed(Emit(e, t, l, b).0, b)
    decreases e, 0
  {
    hide OperatorLines, LogicalHead, LogicalTail, Mentioned, Marked;
    ExpressionClosed(e.left, t, l, b);
    var (m, v) := Emit(e.left, t, l, b);
    if IsLogical(e.op) {
      var n := m.labels;
      ExpressionClosed(e.right, m.temp, n + 2, LogicalRight(n));
      var (k, w) := Emit(e.right, m.temp, n + 2, LogicalRight(n));
      var head, tail := LogicalHead(e.op, v, n), LogicalTail(e.op, n, k.temp, m.block, w, k.block);
      LogicalNames(e.op, v, n, k.temp, m.block, w, k.block);
      LabelsSplit(m.lines, head + (k.lines + tail));
      LabelsSplit(head, k.lines + tail);
      LabelsSplit(k.lines, tail);
    } else {
      ExpressionClosed(e.right, m.temp, m.labels, m.block);
      var (k, w) := Emit(e.right, m.temp, m.labels, m.block);
      var last := OperatorLines(k.temp, e.op, v, w);
      OperatorNames(k.temp, e.op, v, w);
      LabelsSplit(m.lines, k.lines + last);
      LabelsSplit(k.lines, last);
    }
  }

  lemma JumpNames(returned: bool, target: Label)
    ensures Mentioned(JumpUnless(returned, target)) == (if returned then {} else {target})
    ensures Marked(JumpUnless(returned, target)) == {}
  {
    LabelsOne(Jump(target));
  }

  lemma ReturnNames(isMain: bool, t: nat, v: Operand)
    ensures Mentioned(ReturnLines(isMain, t, v)) == {} && Marked(ReturnLines(isMain, t, v)) == {}
  {
    LabelsTwo(Truncate(t, v), RetExit(Temporary(t)));
    assert [Truncate(t, v)] + [RetExit(Temporary(t))] == [Truncate(t, v), RetExit(Temporary(t))];
    LabelsOne(Ret(v));
  }

  lemma {:induction false} CommandClosed(c: Command, t: nat, l: nat, b: Label, isMain: bool)
    ensures Closed(EmitCommand(c, t, l, b, isMain).0, b)
    decreases c, 1
  {
    hide Emit, ReturnLines, Mentioned, Marked;
    match c
    case Store(i, e) =>
      ExpressionClosed(e, t, l, b);
      var (m, v) := Emit(e, t, l, b);
      LabelsSplit(m.lines, [StoreTo(v, i)]);
      LabelsOne(StoreTo(v, i));
    case Discard(e) => ExpressionClosed(e, t, l, b);
    case Give(None) => LabelsOne(RetVoid);
    case Give(Some(e)) =>
      ExpressionClosed(e, t, l, b);
      var (m, v) := Emit(e, t, l, b);
      LabelsSplit(m.lines, ReturnLines(isMain, m.temp, v));
      ReturnNames(isMain, m.temp, v);
    case Branch(_, _, _) => BranchClosed(c, t, l, b, isMain);
    case Loop(_, _) => LoopClosed(c, t, l, b, isMain);
  }

  /** Five pieces in a row. */
  lemma LabelsFive(a: seq<Line>, b: seq<Line>, c: seq<Line>, d: seq<Line>, e: seq<Line>)
    ensures var code := a + (b + (c + (d + e)));
      && Mentioned(code) == Mentioned(a) + Mentioned(b) + Mentioned(c) + Mentioned(d) + Mentioned(e)
      && Marked(code) == Marked(a) + Marked(b) + Marked(c) + Marked(d) + Marked(e)
  {
    hide Mentioned, Marked;
    LabelsSplit(a, b + (c + (d + e)));
    LabelsSplit(b, c + (d + e));
    LabelsSplit(c, d + e);
    LabelsSplit(d, e);
  }

  lemma {:induction false} BranchClosed(c: Command, t: nat, l: nat, b: Label, isMain: bool)
    requires c.Branch?
    ensures Closed(EmitCommand(c, t, l, b, isMain).0, b)
    decreases c, 0
  {
    hide Emit, EmitCommands, JumpUnless, Mentioned, Marked;
    var (m, v) := Emit(c.condition, t, l, b);
    var n := m.labels;
    ExpressionClosed(c.condition, t, l, b);
    var (x, xr) := EmitCommands(c.thenBody, m.temp, n + 3, IfThen(n), isMain);
    CommandsClosed(c.thenBody, m.temp, n + 3, IfThen(n), isMain);
    if c.elseBody == [] {
      ShortClosed(m, v, n, x.lines, xr, b);
    } else {
      var (y, yr) := EmitCommands(c.elseBody, x.temp, x.labels, IfElse(n + 1), isMain);
      CommandsClosed(c.elseBody, x.temp, x.labels, IfElse(n + 1), isMain);
      LongClosed(m, v, n, x.lines, xr, y, yr, b);
    }
  }

  lemma ShortClosed(m: Emission, v: Operand, n: nat, x: seq<Line>, xr: bool, b: Label)
    requires Closed(m, b) && Mentioned(x) <= Marked(x) + {IfThen(n)}
    ensures var code := m.lines + (([JumpIf(v, IfThen(n), IfEnd(n + 2))] + [At(IfThen(n))]) + (x +
                        (JumpUnless(xr, IfEnd(n + 2)) + [At(IfEnd(n + 2))])));
      Mentioned(code) <= Marked(code) + {b} && IfEnd(n + 2) in Marked(code)
  {
    hide Mentioned, Marked, JumpUnless;
    var j := JumpUnless(xr, IfEnd(n + 2));
    LabelsFive(m.lines, [JumpIf(v, IfThen(n), IfEnd(n + 2))] + [At(IfThen(n))], x, j, [At(IfEnd(n + 2))]);
    LabelsTwo(JumpIf(v, IfThen(n), IfEnd(n + 2)), At(IfThen(n)));
    JumpNames(xr, IfEnd(n + 2));
    LabelsOne(At(IfEnd(n + 2)));
  }

  lemma LongClosed(m: Emission, v: Operand, n: nat, x: seq<Line>, xr: bool, y: Emission, yr: bool, b: Label)
    requires Closed(m, b) && Mentioned(x) <= Marked(x) + {IfThen(n)} && Closed(y, IfElse(n + 1))
    ensures var end := if xr && yr then [] else [At(IfEnd(n + 2))];
      var code := m.lines + (([JumpIf(v, IfThen(n), IfElse(n + 1))] + [At(IfThen(n))]) + (x +
                  (JumpUnless(xr, IfEnd(n + 2)) + ([At(IfElse(n + 1))] + (y.lines +
                  (JumpUnless(yr, IfEnd(n + 2)) + end))))));
      && Mentioned(code) <= Marked(code) + {b}
      && (if xr && yr then y.block else IfEnd(n + 2)) in Marked(code) + {b}
  {
    hide Mentioned, Marked, JumpUnless;
    var end := if xr && yr then [] else [At(IfEnd(n + 2))];
    var j, k := JumpUnless(xr, IfEnd(n + 2)), JumpUnless(yr, IfEnd(n + 2));
    LabelsFive(m.lines, [JumpIf(v, IfThen(n), IfElse(n + 1))] + [At(IfThen(n))], x, j,
               [At(IfElse(n + 1))] + (y.lines + (k + end)));
    LabelsTwo(JumpIf(v, IfThen(n), IfElse(n + 1)), At(IfThen(n)));
    LabelsSplit([At(IfElse(n + 1))], y.lines + (k + end));
    LabelsSplit(y.lines, k + end);
    LabelsSplit(k, end);
    JumpNames(xr, IfEnd(n + 2));
    JumpNames(yr, IfEnd(n + 2));
    LabelsOne(At(IfElse(n + 1)));
    LabelsOne(At(IfEnd(n + 2)));
    NoLabels();
  }

  lemma {:induction false} LoopClosed(c: Command, t: nat, l: nat, b: Label, isMain: bool)
    requires c.Loop?
    ensures Closed(EmitCommand(c, t, l, b, isMain).0, b)
    decreases c, 0
  {
    hide Emit, EmitCommands, JumpUnless, Mentioned, Marked;
    var (m, v) := Emit(c.condition, t, l + 3, WhileCondition(l));
    ExpressionClosed(c.condition, t, l + 3, WhileCondition(l));
    var (x, xr) := EmitCommands(c.body, m.temp, m.labels, WhileBody(l + 1), isMain);
    CommandsClosed(c.body, m.temp, m.labels, WhileBody(l + 1), isMain);
    var j := JumpUnless(xr, WhileCondition(l));
    LabelsFive([Jump(WhileCondition(l))] + [At(WhileCondition(l))], m.lines,
               [JumpIf(v, WhileBody(l + 1), WhileEnd(l + 2))] + [At(WhileBody(l + 1))], x.lines,
               j + [At(WhileEnd(l + 2))]);
    LabelsTwo(Jump(WhileCondition(l)), At(WhileCondition(l)));
    LabelsTwo(JumpIf(v, WhileBody(l + 1), WhileEnd(l + 2)), At(WhileBody(l + 1)));
    LabelsSplit(j, [At(WhileEnd(l + 2))]);
    JumpNames(xr, WhileCondition(l));
    LabelsOne(At(WhileEnd(l + 2)));
  }

  lemma {:induction false} CommandsClosed(cs: seq<Command>, t: nat, l: nat, b: Label, isMain: bool)
    ensures Closed(EmitCommands(cs, t, l, b, isMain).0, b)
    decreases cs, 2
  {
    hide EmitCommand, Mentioned, Marked;
    NoLabels();
    if cs != [] {
      var (m, returned) := EmitCommand(cs[0], t, l, b, isMain);
      CommandClosed(cs[0], t, l, b, isMain);
      if !returned {
        CommandsClosed(cs[1..], m.temp, m.labels, m.block, isMain);
        LabelsSplit(m.lines, EmitCommands(cs[1..], m.temp, m.labels, m.block, isMain).0.lines);
      }
    }
  }

  lemma {:induction false} MarkedAt(p: seq<Line>, name: Label)
    requires name in Marked(p)
    ensures exists j :: 0 <= j < |p| && p[j] == At(name)
  {
    if p[0] != At(name) {
      MarkedAt(p[1..], name);
      var j :| 0 <= j < |p| - 1 && p[1..][j] == At(name);
      assert p[j + 1] == At(name);
    }
  }

  lemma {:induction false} MentionedAt(p: seq<Line>, i: nat)
    requires i < |p|
    ensures Names(p[i]) <= Mentioned(p)
  {
    if i > 0 { MentionedAt(p[1..], i - 1); }
  }

  /** Every target of a jump and every predecessor a phi names is a label of the
      function. */
  lemma {:induction false} MentionedIsDefined(cs: seq<Command>, isMain: bool, result: Type, i: nat, name: Label)
    requires i < |EmitFunction(cs, isMain, result)| && name in Names(EmitFunction(cs, isMain, result)[i])
    ensures FindLabel(EmitFunction(cs, isMain, result), name).Some?
  {
    hide EmitCommands, Mentioned, Marked;
    var p := EmitFunction(cs, isMain, result);
    var (m, returned) := EmitCommands(cs, 0, 0, Entry, isMain);
    var tail := if returned then [] else [Epilogue(isMain, result)];
    CommandsClosed(cs, 0, 0, Entry, isMain);
    LabelsSplit([At(Entry)], m.lines + tail);
    LabelsSplit(m.lines, tail);
    LabelsOne(At(Entry));
    LabelsOne(Epilogue(isMain, result));
    NoLabels();
    MentionedAt(p, i);
    MarkedAt(p, name);
  }
}
