/** Code generation: resolved code is lowered to labelled blocks of lines, as the
    emitter prints them. */
module Stage0Emit {
  import opened Wrappers
  import opened Stage0Source
  import opened Stage0Check

  datatype Label =
    | Entry
    | IfThen(n: nat) | IfElse(n: nat) | IfEnd(n: nat)
    | LogicalRight(n: nat) | LogicalEnd(n: nat)
    | WhileCondition(n: nat) | WhileBody(n: nat) | WhileEnd(n: nat)

  /** A constant, or the temporary `%value.n`. */
  datatype Operand = Constant(v: Value) | Temporary(n: nat)

  /** One printed line. `WithOverflow` defines `%checked.t`, the two extracts
      `%value.t` and `%overflow.t`. */
  datatype Line =
    | At(name: Label)
    | Load(t: nat, i: nat)
    | StoreTo(v: Operand, i: nat)
    | Flip(t: nat, v: Operand)
    | WithOverflow(t: nat, op: Operator, a: Operand, b: Operand)
    | ExtractValue(t: nat)
    | ExtractOverflow(t: nat)
    | CheckOverflow(t: nat)
    | CheckDivision(a: Operand, b: Operand)
    | DivideInto(t: nat, op: Operator, a: Operand, b: Operand)
    | Compare(t: nat, op: Operator, a: Operand, b: Operand)
    | Phi(t: nat, a: Operand, fromA: Label, b: Operand, fromB: Label)
    | Truncate(t: nat, v: Operand)
    | Jump(target: Label)
    | JumpIf(v: Operand, yes: Label, no: Label)
    | Ret(v: Operand)
    | RetVoid
    | RetExit(v: Operand)
    | Unreachable

  /** Lines printed so far from here, and the emitter's counters and block. */
  datatype Emission = Emission(lines: seq<Line>, temp: nat, labels: nat, block: Label)

  predicate IsArithmetic(op: Operator) { op == Add || op == Subtract || op == Multiply }

  predicate IsDivision(op: Operator) { op == Divide || op == Remainder }

  predicate IsLogical(op: Operator) { op == And || op == Or }

  function CheckedLines(t: nat, op: Operator, a: Operand, b: Operand): seq<Line> {
    [WithOverflow(t, op, a, b), ExtractValue(t), ExtractOverflow(t), CheckOverflow(t)]
  }

  function OperatorLines(t: nat, op: Operator, a: Operand, b: Operand): seq<Line> {
    if IsArithmetic(op) then CheckedLines(t, op, a, b)
    else if IsDivision(op) then [CheckDivision(a, b), DivideInto(t, op, a, b)]
    else [Compare(t, op, a, b)]
  }

  /** The branch that decides a logical operator; its label numbers are `n` and
      `n + 1`. */
  function LogicalHead(op: Operator, v: Operand, n: nat): seq<Line> {
    [if op == And then JumpIf(v, LogicalRight(n), LogicalEnd(n + 1)) else JumpIf(v, LogicalEnd(n + 1), LogicalRight(n)),
     At(LogicalRight(n))]
  }

  function LogicalTail(op: Operator, n: nat, t: nat, leftBlock: Label, v: Operand, rightBlock: Label): seq<Line> {
    [Jump(LogicalEnd(n + 1)), At(LogicalEnd(n + 1)),
     Phi(t, Constant(BooleanValue(op == Or)), leftBlock, v, rightBlock)]
  }

  /** `emit_expression`: the emission and the operand that holds the value. */
  function Emit(e: Code, t: nat, l: nat, b: Label): (Emission, Operand) {
    match e
    case IntegerConstant(n) => (Emission([], t, l, b), Constant(IntegerValue(n)))
    case BooleanConstant(x) => (Emission([], t, l, b), Constant(BooleanValue(x)))
    case Slot(i) => (Emission([Load(t, i)], t + 1, l, b), Temporary(t))
    case NotCode(e) =>
      var (m, v) := Emit(e, t, l, b);
      (Emission(m.lines + [Flip(m.temp, v)], m.temp + 1, m.labels, m.block), Temporary(m.temp))
    case NegateCode(e) =>
      var (m, v) := Emit(e, t, l, b);
      (Emission(m.lines + CheckedLines(m.temp, Subtract, Constant(IntegerValue(0)), v), m.temp + 1, m.labels, m.block),
       Temporary(m.temp))
    case BinaryCode(op, left, right) =>
      var (m, v) := Emit(left, t, l, b);
      if IsLogical(op) then
        var (k, w) := Emit(right, m.temp, m.labels + 2, LogicalRight(m.labels));
        (Emission(m.lines + (LogicalHead(op, v, m.labels) + (k.lines +
                  LogicalTail(op, m.labels, k.temp, m.block, w, k.block))),
                  k.temp + 1, k.labels, LogicalEnd(m.labels + 1)),
         Temporary(k.temp))
      else
        var (k, w) := Emit(right, m.temp, m.labels, m.block);
        (Emission(m.lines + (k.lines + OperatorLines(k.temp, op, v, w)), k.temp + 1, k.labels, k.block),
         Temporary(k.temp))
  }

  /** What a returning statement prints; `main` returns a truncated exit code. */
  function ReturnLines(isMain: bool, t: nat, v: Operand): seq<Line> {
    if isMain then [Truncate(t, v), RetExit(Temporary(t))] else [Ret(v)]
  }

  /** `emit_statement`: the emission and whether the statement returned. */
  function EmitCommand(c: Command, t: nat, l: nat, b: Label, isMain: bool): (Emission, bool)
    decreases c, 0
  {
    match c
    case Store(i, e) =>
      var (m, v) := Emit(e, t, l, b);
      (m.(lines := m.lines + [StoreTo(v, i)]), false)
    case Discard(e) => (Emit(e, t, l, b).0, false)
    case Give(None) => (Emission([RetVoid], t, l, b), true)
    case Give(Some(e)) =>
      var (m, v) := Emit(e, t, l, b);
      (Emission(m.lines + ReturnLines(isMain, m.temp, v), if isMain then m.temp + 1 else m.temp, m.labels, m.block),
       true)
    case Branch(e, thenBody, elseBody) =>
      var (m, v) := Emit(e, t, l, b);
      var n := m.labels;
      var (x, xReturns) := EmitCommands(thenBody, m.temp, n + 3, IfThen(n), isMain);
      if elseBody == [] then
        (Emission(m.lines + (([JumpIf(v, IfThen(n), IfEnd(n + 2))] + [At(IfThen(n))]) + (x.lines +
                  (JumpUnless(xReturns, IfEnd(n + 2)) + [At(IfEnd(n + 2))]))), x.temp, x.labels, IfEnd(n + 2)), false)
      else
        var (y, yReturns) := EmitCommands(elseBody, x.temp, x.labels, IfElse(n + 1), isMain);
        var end := if xReturns && yReturns then [] else [At(IfEnd(n + 2))];
        (Emission(m.lines + (([JumpIf(v, IfThen(n), IfElse(n + 1))] + [At(IfThen(n))]) + (x.lines +
                  (JumpUnless(xReturns, IfEnd(n + 2)) + ([At(IfElse(n + 1))] + (y.lines +
                  (JumpUnless(yReturns, IfEnd(n + 2)) + end)))))),
                  y.temp, y.labels, if xReturns && yReturns then y.block else IfEnd(n + 2)),
         xReturns && yReturns)
    case Loop(e, body) =>
      var (m, v) := Emit(e, t, l + 3, WhileCondition(l));
      var (x, xReturns) := EmitCommands(body, m.temp, m.labels, WhileBody(l + 1), isMain);
      (Emission(([Jump(WhileCondition(l))] + [At(WhileCondition(l))]) + (m.lines +
                (([JumpIf(v, WhileBody(l + 1), WhileEnd(l + 2))] + [At(WhileBody(l + 1))]) + (x.lines +
                (JumpUnless(xReturns, WhileCondition(l)) + [At(WhileEnd(l + 2))])))),
                x.temp, x.labels, WhileEnd(l + 2)), false)
  }

  function JumpUnless(returned: bool, target: Label): seq<Line> {
    if returned then [] else [Jump(target)]
  }

  /** `emit_statements`: nothing is printed after a statement that returned. */
  function EmitCommands(cs: seq<Command>, t: nat, l: nat, b: Label, isMain: bool): (Emission, bool)
    decreases cs, 1
  {
    if cs == [] then (Emission([], t, l, b), false)
    else
      var (m, returned) := EmitCommand(cs[0], t, l, b, isMain);
      if returned then (m, true)
      else
        var (k, returned') := EmitCommands(cs[1..], m.temp, m.labels, m.block, isMain);
        (k.(lines := m.lines + k.lines), returned')
  }

  /** What follows the body of a function that did not return. */
  function Epilogue(isMain: bool, result: Type): Line {
    if isMain then RetExit(Constant(IntegerValue(0)))
    else if result == NothingType then RetVoid else Unreachable
  }

  function EmitFunction(cs: seq<Command>, isMain: bool, result: Type): seq<Line> {
    var (m, returned) := EmitCommands(cs, 0, 0, Entry, isMain);
    [At(Entry)] + (m.lines + (if returned then [] else [Epilogue(isMain, result)]))
  }

  /* ---- the emitter, as it runs ---- */

  class Emitter {
    var output: seq<Line>
    var nextTemporary: nat
    var nextLabel: nat
    var currentBlock: Label
    const isMain: bool

    ghost predicate Printed(before: seq<Line>, m: Emission)
      reads this
    {
      output == before + m.lines && nextTemporary == m.temp && nextLabel == m.labels && currentBlock == m.block
    }

    constructor (isMain: bool)
      ensures this.isMain == isMain && output == [At(Entry)]
      ensures nextTemporary == 0 && nextLabel == 0 && currentBlock == Entry
    {
      this.isMain := isMain;
      output := [At(Entry)];
      nextTemporary, nextLabel, currentBlock := 0, 0, Entry;
    }

    method Print(lines: seq<Line>)
      modifies this`output
      ensures output == old(output) + lines
    {
      output := output + lines;
    }

    method NewTemporary() returns (t: nat)
      modifies this`nextTemporary
      ensures t == old(nextTemporary) && nextTemporary == t + 1
    {
      t := nextTemporary;
      nextTemporary := nextTemporary + 1;
    }

    method NewLabel() returns (n: nat)
      modifies this`nextLabel
      ensures n == old(nextLabel) && nextLabel == n + 1
    {
      n := nextLabel;
      nextLabel := nextLabel + 1;
    }

    /** Finish a block and start the next, whose name is what a later phi will
        call its predecessor. */
    method Cut(terminator: seq<Line>, name: Label)
      modifies this`output, this`currentBlock
      ensures output == old(output) + (terminator + [At(name)]) && currentBlock == name
    {
      output := output + (terminator + [At(name)]);
      currentBlock := name;
    }

    method EmitExpression(e: Code) returns (v: Operand)
      modifies this
      ensures var (m, w) := Emit(e, old(nextTemporary), old(nextLabel), old(currentBlock));
        v == w && Printed(old(output), m)
      decreases e, 0
    {
      hide CheckedLines, OperatorLines, LogicalHead, LogicalTail;
      ghost var o, t0, l0, b0 := output, nextTemporary, nextLabel, currentBlock;
      match e
      case IntegerConstant(n) => v := Constant(IntegerValue(n));
      case BooleanConstant(b) => v := Constant(BooleanValue(b));
      case Slot(i) =>
        var t := NewTemporary();
        Print([Load(t, i)]);
        v := Temporary(t);
      case NotCode(e) =>
        var w := EmitExpression(e);
        var t := NewTemporary();
        Print([Flip(t, w)]);
        v := Temporary(t);
        Assoc(o, Emit(e, t0, l0, b0).0.lines, [Flip(t, w)]);
      case NegateCode(e) =>
        var w := EmitExpression(e);
        var t := NewTemporary();
        Print(CheckedLines(t, Subtract, Constant(IntegerValue(0)), w));
        v := Temporary(t);
        Assoc(o, Emit(e, t0, l0, b0).0.lines, CheckedLines(t, Subtract, Constant(IntegerValue(0)), w));
      case BinaryCode(op, left, right) =>
        var a := EmitExpression(left);
        ghost var m, mid := Emit(left, t0, l0, b0).0, output;
        if IsLogical(op) {
          v := EmitLogical(op, a, right);
        } else {
          v := EmitStrict(op, a, right);
        }
        assert output == mid + Emit(e, t0, l0, b0).0.lines[|m.lines|..];
        Assoc(o, m.lines, Emit(e, t0, l0, b0).0.lines[|m.lines|..]);
    }

    method EmitStrict(op: Operator, a: Operand, right: Code) returns (v: Operand)
      requires !IsLogical(op)
      modifies this
      ensures var (k, w) := Emit(right, old(nextTemporary), old(nextLabel), old(currentBlock));
        && v == Temporary(k.temp)
        && Printed(old(output), Emission(k.lines + OperatorLines(k.temp, op, a, w), k.temp + 1, k.labels, k.block))
      decreases right, 1
    {
      hide OperatorLines;
      ghost var (k, w) := Emit(right, nextTemporary, nextLabel, currentBlock);
      var b := EmitExpression(right);
      var t := NewTemporary();
      Print(OperatorLines(t, op, a, b));
      v := Temporary(t);
      Assoc(old(output), k.lines, OperatorLines(t, op, a, b));
    }

    method EmitLogical(op: Operator, a: Operand, right: Code) returns (v: Operand)
      requires IsLogical(op)
      modifies this
      ensures var n := old(nextLabel);
        var (k, w) := Emit(right, old(nextTemporary), n + 2, LogicalRight(n));
        && v == Temporary(k.temp)
        && Printed(old(output), Emission(LogicalHead(op, a, n) + (k.lines +
                                         LogicalTail(op, n, k.temp, old(currentBlock), w, k.block)),
                                         k.temp + 1, k.labels, LogicalEnd(n + 1)))
      decreases right, 1
    {
      hide Emit;
      ghost var o, n, b0 := output, nextLabel, currentBlock;
      ghost var (k, kv) := Emit(right, nextTemporary, n + 2, LogicalRight(n));
      var rightLabel := NewLabel();
      var endLabel := NewLabel();
      var leftBlock := currentBlock;
      Cut([if op == And then JumpIf(a, LogicalRight(rightLabel), LogicalEnd(endLabel))
           else JumpIf(a, LogicalEnd(endLabel), LogicalRight(rightLabel))], LogicalRight(rightLabel));
      assert output == o + LogicalHead(op, a, n);
      var w := EmitExpression(right);
      var rightBlock := currentBlock;
      ghost var mid := output;
      Cut([Jump(LogicalEnd(endLabel))], LogicalEnd(endLabel));
      var t := NewTemporary();
      Print([Phi(t, Constant(BooleanValue(op == Or)), leftBlock, w, rightBlock)]);
      v := Temporary(t);
      assert output == mid + LogicalTail(op, n, t, leftBlock, w, rightBlock);
      hide LogicalHead, LogicalTail;
      Regroup3(o, LogicalHead(op, a, n), k.lines, LogicalTail(op, n, t, b0, kv, k.block));
    }

    method EmitStatement(c: Command) returns (returned: bool)
      modifies this
      ensures var (m, r) := EmitCommand(c, old(nextTemporary), old(nextLabel), old(currentBlock), isMain);
        returned == r && Printed(old(output), m)
      decreases c, 1
    {
      ghost var o, t0, l0, b0 := output, nextTemporary, nextLabel, currentBlock;
      match c
      case Store(i, e) =>
        var v := EmitExpression(e);
        Print([StoreTo(v, i)]);
        Assoc(o, Emit(e, t0, l0, b0).0.lines, [StoreTo(v, i)]);
        returned := false;
      case Discard(e) =>
        var _ := EmitExpression(e);
        returned := false;
      case Give(None) =>
        Print([RetVoid]);
        returned := true;
      case Give(Some(e)) =>
        var v := EmitExpression(e);
        if isMain {
          var t := NewTemporary();
          Print([Truncate(t, v), RetExit(Temporary(t))]);
        } else {
          Print([Ret(v)]);
        }
        Assoc(o, Emit(e, t0, l0, b0).0.lines, ReturnLines(isMain, Emit(e, t0, l0, b0).0.temp, v));
        returned := true;
      case Branch(e, thenBody, elseBody) =>
        returned := EmitIf(c);
      case Loop(e, body) =>
        EmitWhile(c);
        returned := false;
    }

    method EmitIf(c: Command) returns (returned: bool)
      requires c.Branch?
      modifies this
      ensures var (m, r) := EmitCommand(c, old(nextTemporary), old(nextLabel), old(currentBlock), isMain);
        returned == r && Printed(old(output), m)
      decreases c, 0
    {
      hide Emit, EmitCommands;
      ghost var o, t0, l0, b0 := output, nextTemporary, nextLabel, currentBlock;
      var v := EmitExpression(c.condition);
      ghost var m := Emit(c.condition, t0, l0, b0).0;
      var thenLabel := NewLabel();
      var elseLabel := NewLabel();
      var endLabel := NewLabel();
      ghost var x := EmitCommands(c.thenBody, m.temp, m.labels + 3, IfThen(m.labels), isMain).0;
      if c.elseBody != [] {
        Cut([JumpIf(v, IfThen(thenLabel), IfElse(elseLabel))], IfThen(thenLabel));
        var thenReturns := EmitStatements(c.thenBody);
        ghost var mid := output;
        returned := EmitElse(c.elseBody, thenReturns, elseLabel, endLabel);
        hide JumpUnless;
        Regroup4(o, m.lines, [JumpIf(v, IfThen(thenLabel), IfElse(elseLabel))] + [At(IfThen(thenLabel))], x.lines,
                 output[|mid|..]);
      } else {
        Cut([JumpIf(v, IfThen(thenLabel), IfEnd(endLabel))], IfThen(thenLabel));
        var thenReturns := EmitStatements(c.thenBody);
        Cut(JumpUnless(thenReturns, IfEnd(endLabel)), IfEnd(endLabel));
        returned := false;
        hide JumpUnless;
        Regroup4(o, m.lines, [JumpIf(v, IfThen(thenLabel), IfEnd(endLabel))] + [At(IfThen(thenLabel))], x.lines,
                 JumpUnless(thenReturns, IfEnd(endLabel)) + [At(IfEnd(endLabel))]);
      }
    }

    /** The `else` of a branch: close the first arm, print the second, join them. */
    method EmitElse(elseBody: seq<Command>, thenReturns: bool, elseLabel: nat, endLabel: nat) returns (returned: bool)
      modifies this
      ensures var (y, yReturns) := EmitCommands(elseBody, old(nextTemporary), old(nextLabel), IfElse(elseLabel),
                                                isMain);
        var end := if thenReturns && yReturns then [] else [At(IfEnd(endLabel))];
        && returned == (thenReturns && yReturns)
        && output == old(output) + (JumpUnless(thenReturns, IfEnd(endLabel)) + ([At(IfElse(elseLabel))] + (y.lines +
                     (JumpUnless(yReturns, IfEnd(endLabel)) + end))))
        && nextTemporary == y.temp && nextLabel == y.labels &&
          currentBlock == (if returned then y.block else IfEnd(endLabel))
      decreases elseBody, 3
    {
      hide EmitCommands, JumpUnless;
      ghost var (y, _) := EmitCommands(elseBody, nextTemporary, nextLabel, IfElse(elseLabel), isMain);
      ghost var o := output;
      Cut(JumpUnless(thenReturns, IfEnd(endLabel)), IfElse(elseLabel));
      var elseReturns := EmitStatements(elseBody);
      Print(JumpUnless(elseReturns, IfEnd(endLabel)));
      returned := thenReturns && elseReturns;
      ghost var mid := output;
      if !returned { Print([At(IfEnd(endLabel))]); currentBlock := IfEnd(endLabel); }
      ghost var end: seq<Line> := if returned then [] else [At(IfEnd(endLabel))];
      assert output == mid + end;
      ghost var j, k := JumpUnless(thenReturns, IfEnd(endLabel)), JumpUnless(elseReturns, IfEnd(endLabel));
      Regroup4(o, j + [At(IfElse(elseLabel))], y.lines, k, end);
      Assoc(j, [At(IfElse(elseLabel))], y.lines + (k + end));
    }

    method EmitWhile(c: Command)
      requires c.Loop?
      modifies this
      ensures Printed(old(output), EmitCommand(c, old(nextTemporary), old(nextLabel), old(currentBlock), isMain).0)
      decreases c, 0
    {
      hide Emit, EmitCommands;
      ghost var o, t0, l0 := output, nextTemporary, nextLabel;
      var conditionLabel := NewLabel();
      var bodyLabel := NewLabel();
      var endLabel := NewLabel();
      Cut([Jump(WhileCondition(conditionLabel))], WhileCondition(conditionLabel));
      var v := EmitExpression(c.condition);
      ghost var m := Emit(c.condition, t0, l0 + 3, WhileCondition(l0)).0;
      Cut([JumpIf(v, WhileBody(bodyLabel), WhileEnd(endLabel))], WhileBody(bodyLabel));
      var returned := EmitStatements(c.body);
      ghost var x := EmitCommands(c.body, m.temp, m.labels, WhileBody(l0 + 1), isMain).0;
      Cut(JumpUnless(returned, WhileCondition(conditionLabel)), WhileEnd(endLabel));
      hide JumpUnless;
      Regroup5(o, [Jump(WhileCondition(l0))] + [At(WhileCondition(l0))], m.lines,
               [JumpIf(v, WhileBody(l0 + 1), WhileEnd(l0 + 2))] + [At(WhileBody(l0 + 1))], x.lines,
               JumpUnless(returned, WhileCondition(l0)) + [At(WhileEnd(l0 + 2))]);
    }

    method EmitStatements(cs: seq<Command>) returns (returned: bool)
      modifies this
      ensures var (m, r) := EmitCommands(cs, old(nextTemporary), old(nextLabel), old(currentBlock), isMain);
        returned == r && Printed(old(output), m)
      decreases cs, 2
    {
      ghost var before := output;
      if cs == [] { return false; }
      var first := EmitStatement(cs[0]);
      if first { return true; }
      ghost var m := EmitCommand(cs[0], old(nextTemporary), old(nextLabel), old(currentBlock), isMain).0;
      returned := EmitStatements(cs[1..]);
      Assoc(before, m.lines, EmitCommands(cs[1..], m.temp, m.labels, m.block, isMain).0.lines);
    }
  }

  lemma Assoc(a: seq<Line>, b: seq<Line>, c: seq<Line>)
    ensures (a + b) + c == a + (b + c)
  {
  }

  lemma Regroup3(o: seq<Line>, a: seq<Line>, b: seq<Line>, c: seq<Line>)
    ensures o + a + b + c == o + (a + (b + c))
  {
    Assoc(o + a, b, c);
    Assoc(o, a, b + c);
  }

  lemma Regroup4(o: seq<Line>, a: seq<Line>, b: seq<Line>, c: seq<Line>, d: seq<Line>)
    ensures o + a + b + c + d == o + (a + (b + (c + d)))
  {
    Regroup3(o + a, b, c, d);
    Assoc(o, a, b + (c + d));
  }

  lemma Regroup5(o: seq<Line>, a: seq<Line>, b: seq<Line>, c: seq<Line>, d: seq<Line>, e: seq<Line>)
    ensures o + a + b + c + d + e == o + (a + (b + (c + (d + e))))
  {
    Regroup4(o + a, b, c, d, e);
    Assoc(o, a, b + (c + (d + e)));
  }
}
