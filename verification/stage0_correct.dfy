/** Emitted code preserves meaning. */
module Stage0Correct {
  import opened Wrappers
  import opened Stage0Source
  import opened Stage0Check
  import opened Stage0Emit
  import opened Stage0Machine

  /** Registers defined before `t` keep their values. */
  ghost predicate KeepsBelow(temps: Temps, temps': Temps, t: nat) {
    forall k :: 0 <= k < t && k in temps.values ==> k in temps'.values && temps'.values[k] == temps.values[k]
  }

  predicate OperandBelow(v: Operand, t: nat) { v.Temporary? ==> v.n < t }

  lemma {:induction false} EmitGrows(e: Code, t: nat, l: nat, b: Label)
    ensures var (m, v) := Emit(e, t, l, b); t <= m.temp && l <= m.labels && OperandBelow(v, m.temp)
  {
    match e
    case NotCode(e) => EmitGrows(e, t, l, b);
    case NegateCode(e) => EmitGrows(e, t, l, b);
    case BinaryCode(op, left, right) =>
      EmitGrows(left, t, l, b);
      var m := Emit(left, t, l, b).0;
      if IsLogical(op) { EmitGrows(right, m.temp, m.labels + 2, LogicalRight(m.labels)); }
      else { EmitGrows(right, m.temp, m.labels, m.block); }
    case _ =>
  }

  /** The number a label was printed with. */
  function Number(name: Label): int { if name.Entry? then -1 else name.n }

  /** The block an expression ends in is the one it began in or a newer one. */
  lemma {:induction false} EmitBlock(e: Code, t: nat, l: nat, b: Label, x: int)
    requires Number(b) < l && x <= Number(b)
    ensures x <= Number(Emit(e, t, l, b).0.block) < Emit(e, t, l, b).0.labels
  {
    match e
    case NotCode(e) => EmitBlock(e, t, l, b, x);
    case NegateCode(e) => EmitBlock(e, t, l, b, x);
    case BinaryCode(op, left, right) =>
      EmitBlock(left, t, l, b, x);
      var m := Emit(left, t, l, b).0;
      EmitGrows(left, t, l, b);
      if IsLogical(op) { EmitGrows(right, m.temp, m.labels + 2, LogicalRight(m.labels)); }
      else { EmitBlock(right, m.temp, m.labels, m.block, x); }
    case _ =>
  }

  lemma KeepsOperand(temps: Temps, temps': Temps, t: nat, v: Operand)
    requires KeepsBelow(temps, temps', t) && OperandBelow(v, t) && ValueOf(temps, v).Some?
    ensures ValueOf(temps', v) == ValueOf(temps, v)
  {
  }

  lemma KeepsTrans(a: Temps, b: Temps, c: Temps, t: nat, u: nat)
    requires KeepsBelow(a, b, t) && KeepsBelow(b, c, u) && t <= u
    ensures KeepsBelow(a, c, t)
  {
  }

  /** Where evaluating an expression from `c` must lead: past its code, in the
      block the emitter says it is in, with the value in its operand. */
  ghost predicate Evaluated(c: Config, c': Config, r: Result, m: Emission, v: Operand, t: nat) {
    && c.Running? && !r.Stuck?
    && (r.Trap? ==> c' == Halted(Stopped))
    && (r.Val? ==> c'.Running? && c'.pc == c.pc + |m.lines| && c'.block == m.block && c'.locals == c.locals
                   && KeepsBelow(c.temps, c'.temps, t) && ValueOf(c'.temps, v) == Some(r.v))
  }

  /* ---- the straight-line pieces ---- */

  /** The four lines of a checked operation. */
  lemma CheckedRuns(p: seq<Line>, c: Config, t: nat, op: Operator, a: Operand, b: Operand, x: Integer, y: Integer)
    returns (n: nat)
    requires c.Running? && IsArithmetic(op) && Placed(p, c.pc, CheckedLines(t, op, a, b))
    requires ValueOf(c.temps, a) == Some(IntegerValue(x)) && ValueOf(c.temps, b) == Some(IntegerValue(y))
    ensures var r := Checked(Plain(op, x, y)); var c' := Steps(p, c, n);
      && (r.Trap? ==> c' == Halted(Stopped))
      && (r.Val? ==> c'.Running? && c'.pc == c.pc + 4 && c'.block == c.block && c'.locals == c.locals
                     && c'.temps.values == c.temps.values[t := r.v])
  {
    var code := CheckedLines(t, op, a, b);
    PlacedLine(p, c.pc, code, 0);
    PlacedLine(p, c.pc, code, 1);
    PlacedLine(p, c.pc, code, 2);
    PlacedLine(p, c.pc, code, 3);
    n := 4;
    var z := Plain(op, x, y);
    var c1 := Step(p, c);
    assert c1 == c.(pc := c.pc + 1, temps := c.temps.(checked := c.temps.checked[t := (Wrap(z), !InRange(z))]));
    var c2 := Step(p, c1);
    assert c2 == c1.(pc := c.pc + 2, temps := c1.temps.(values := c.temps.values[t := IntegerValue(Wrap(z))]));
    var c3 := Step(p, c2);
    assert c3 == c2.(pc := c.pc + 3, temps := c2.temps.(overflow := c2.temps.overflow[t := !InRange(z)]));
    assert Steps(p, c, 1) == c1 && Steps(p, c, 2) == c2 by { assert Steps(p, c, 0) == c; }
    assert Steps(p, c, 3) == c3;
  }

  lemma OperatorRuns(p: seq<Line>, c: Config, t: nat, op: Operator, a: Operand, b: Operand, x: Value, y: Value)
    returns (n: nat)
    requires c.Running? && !IsLogical(op) && Placed(p, c.pc, OperatorLines(t, op, a, b))
    requires ValueOf(c.temps, a) == Some(x) && ValueOf(c.temps, b) == Some(y) && !Apply(op, x, y).Stuck?
    ensures var r := Apply(op, x, y); var c' := Steps(p, c, n);
      && (r.Trap? ==> c' == Halted(Stopped))
      && (r.Val? ==> c'.Running? && c'.pc == c.pc + |OperatorLines(t, op, a, b)| && c'.block == c.block
                     && c'.locals == c.locals && c'.temps.values == c.temps.values[t := r.v])
  {
    hide Step, CheckedLines;
    if IsArithmetic(op) {
      assert x.IntegerValue? && y.IntegerValue? && Apply(op, x, y) == Checked(Plain(op, x.n, y.n));
      n := CheckedRuns(p, c, t, op, a, b, x.n, y.n);
      assert |CheckedLines(t, op, a, b)| == 4 by { FourLines(t, op, a, b); }
    } else if IsDivision(op) {
      n := DivisionRuns(p, c, t, op, a, b, x, y);
    } else {
      n := CompareRuns(p, c, t, op, a, b, x, y);
    }
  }

  lemma FourLines(t: nat, op: Operator, a: Operand, b: Operand)
    ensures |CheckedLines(t, op, a, b)| == 4
  {
  }

  lemma DivisionRuns(p: seq<Line>, c: Config, t: nat, op: Operator, a: Operand, b: Operand, x: Value, y: Value)
    returns (n: nat)
    requires c.Running? && IsDivision(op) && Placed(p, c.pc, [CheckDivision(a, b), DivideInto(t, op, a, b)])
    requires ValueOf(c.temps, a) == Some(x) && ValueOf(c.temps, b) == Some(y) && !Apply(op, x, y).Stuck?
    ensures var r := Apply(op, x, y); var c' := Steps(p, c, n);
      && (r.Trap? ==> c' == Halted(Stopped))
      && (r.Val? ==> c'.Running? && c'.pc == c.pc + 2 && c'.block == c.block
                     && c'.locals == c.locals && c'.temps.values == c.temps.values[t := r.v])
  {
    var code := [CheckDivision(a, b), DivideInto(t, op, a, b)];
    PlacedLine(p, c.pc, code, 0);
    PlacedLine(p, c.pc, code, 1);
    assert x.IntegerValue? && y.IntegerValue?;
    assert Apply(op, x, y).Val? ==> Divided(op, x, y) == Some(Apply(op, x, y).v);
    n := 2;
    OneStep(p, c);
    assert Steps(p, c, 2) == Step(p, Step(p, c));
  }

  lemma CompareRuns(p: seq<Line>, c: Config, t: nat, op: Operator, a: Operand, b: Operand, x: Value, y: Value)
    returns (n: nat)
    requires c.Running? && !IsLogical(op) && !IsArithmetic(op) && !IsDivision(op) &&
        Placed(p, c.pc, [Compare(t, op, a, b)])
    requires ValueOf(c.temps, a) == Some(x) && ValueOf(c.temps, b) == Some(y) && !Apply(op, x, y).Stuck?
    ensures var r := Apply(op, x, y); var c' := Steps(p, c, n);
      && r.Val? && c'.Running? && c'.pc == c.pc + 1 && c'.block == c.block
      && c'.locals == c.locals && c'.temps.values == c.temps.values[t := r.v]
  {
    PlacedLine(p, c.pc, [Compare(t, op, a, b)], 0);
    assert Compared(op, x, y).Some? && Apply(op, x, y) == Truth(Compared(op, x, y).value);
    n := 1;
    OneStep(p, c);
  }

  lemma OneStep(p: seq<Line>, c: Config)
    ensures Steps(p, c, 1) == Step(p, c)
  {
    assert Steps(p, c, 0) == c;
  }

  /* ---- expressions ---- */

  /** Running an expression's code computes its value, or stops where it traps. */
  lemma {:induction false} ExpressionRuns(p: seq<Line>, c: Config, e: Code, t: nat, l: nat) returns (n: nat)
    requires c.Running? && Number(c.block) < l && Unique(p) && !CodeValue(e, c.locals).Stuck?
    requires Placed(p, c.pc, Emit(e, t, l, c.block).0.lines)
    ensures var (m, v) := Emit(e, t, l, c.block); Evaluated(c, Steps(p, c, n), CodeValue(e, c.locals), m, v, t)
    decreases e, 1
  {
    match e
    case IntegerConstant(_) => n := 0;
    case BooleanConstant(_) => n := 0;
    case Slot(i) =>
      PlacedLine(p, c.pc, [Load(t, i)], 0);
      OneStep(p, c);
      n := 1;
    case NotCode(e') => n := NotRuns(p, c, e', t, l);
    case NegateCode(e') => n := NegateRuns(p, c, e', t, l);
    case BinaryCode(op, left, right) =>
      if IsLogical(op) { n := LogicalRuns(p, c, e, t, l); } else { n := StrictRuns(p, c, e, t, l); }
  }

  lemma FlipRuns(p: seq<Line>, c: Config, t: nat, v: Operand, b: bool)
    requires c.Running? && Placed(p, c.pc, [Flip(t, v)]) && ValueOf(c.temps, v) == Some(BooleanValue(b))
    ensures Steps(p, c, 1) == Define(c, t, BooleanValue(!b))
  {
    PlacedLine(p, c.pc, [Flip(t, v)], 0);
    OneStep(p, c);
  }

  lemma {:induction false} NotRuns(p: seq<Line>, c: Config, e: Code, t: nat, l: nat) returns (n: nat)
    requires c.Running? && Number(c.block) < l && Unique(p) && !CodeValue(NotCode(e), c.locals).Stuck?
    requires Placed(p, c.pc, Emit(NotCode(e), t, l, c.block).0.lines)
    ensures var (m, v) := Emit(NotCode(e), t, l, c.block);
      Evaluated(c, Steps(p, c, n), CodeValue(NotCode(e), c.locals), m, v, t)
    decreases e, 2
  {
    hide Step, Unique, Placed, Emit;
    EmitUnary(e, t, l, c.block);
    var (m, v) := Emit(e, t, l, c.block);
    PlacedSplit(p, c.pc, m.lines, [Flip(m.temp, v)]);
    n := ExpressionRuns(p, c, e, t, l);
    EmitGrows(e, t, l, c.block);
    var c1 := Steps(p, c, n);
    var r := CodeValue(e, c.locals);
    if r.Val? {
      FlipRuns(p, c1, m.temp, v, r.v.b);
      Chain(p, c, n, 1);
      n := n + 1;
    }
  }

  lemma EmitUnary(e: Code, t: nat, l: nat, b: Label)
    ensures var (m, v) := Emit(e, t, l, b);
      && Emit(NotCode(e), t, l, b) == (Emission(m.lines + [Flip(m.temp, v)], m.temp + 1, m.labels, m.block),
                                       Temporary(m.temp))
      && Emit(NegateCode(e), t, l, b) ==
           (Emission(m.lines + CheckedLines(m.temp, Subtract, Constant(IntegerValue(0)), v), m.temp + 1, m.labels,
                     m.block),
            Temporary(m.temp))
  {
  }

  lemma {:induction false} NegateRuns(p: seq<Line>, c: Config, e: Code, t: nat, l: nat) returns (n: nat)
    requires c.Running? && Number(c.block) < l && Unique(p) && !CodeValue(NegateCode(e), c.locals).Stuck?
    requires Placed(p, c.pc, Emit(NegateCode(e), t, l, c.block).0.lines)
    ensures var (m, v) := Emit(NegateCode(e), t, l, c.block);
      Evaluated(c, Steps(p, c, n), CodeValue(NegateCode(e), c.locals), m, v, t)
    decreases e, 2
  {
    hide Step, Unique, Placed, CheckedLines, Emit;
    EmitUnary(e, t, l, c.block);
    var (m, v) := Emit(e, t, l, c.block);
    var zero := Constant(IntegerValue(0));
    PlacedSplit(p, c.pc, m.lines, CheckedLines(m.temp, Subtract, zero, v));
    FourLines(m.temp, Subtract, zero, v);
    n := ExpressionRuns(p, c, e, t, l);
    EmitGrows(e, t, l, c.block);
    var c1 := Steps(p, c, n);
    var r := CodeValue(e, c.locals);
    if r.Val? {
      var k := CheckedRuns(p, c1, m.temp, Subtract, zero, v, 0, r.v.n);
      Chain(p, c, n, k);
      n := n + k;
    }
  }

  lemma {:induction false} StrictRuns(p: seq<Line>, c: Config, e: Code, t: nat, l: nat) returns (n: nat)
    requires c.Running? && Number(c.block) < l && Unique(p) && e.BinaryCode? && !IsLogical(e.op) &&
        !CodeValue(e, c.locals).Stuck?
    requires Placed(p, c.pc, Emit(e, t, l, c.block).0.lines)
    ensures var (m, v) := Emit(e, t, l, c.block); Evaluated(c, Steps(p, c, n), CodeValue(e, c.locals), m, v, t)
    decreases e, 0
  {
    hide Step, OperatorLines;
    var (m, v) := Emit(e.left, t, l, c.block);
    var (k, w) := Emit(e.right, m.temp, m.labels, m.block);
    var last := OperatorLines(k.temp, e.op, v, w);
    PlacedSplit(p, c.pc, m.lines, k.lines + last);
    n := ExpressionRuns(p, c, e.left, t, l);
    EmitGrows(e.left, t, l, c.block);
    EmitBlock(e.left, t, l, c.block, Number(c.block));
    var c1 := Steps(p, c, n);
    var a := CodeValue(e.left, c.locals);
    if a.Val? {
      PlacedSplit(p, c1.pc, k.lines, last);
      var n' := ExpressionRuns(p, c1, e.right, m.temp, m.labels);
      EmitGrows(e.right, m.temp, m.labels, m.block);
      Chain(p, c, n, n');
      n := n + n';
      var c2 := Steps(p, c, n);
      var b := CodeValue(e.right, c.locals);
      if b.Val? {
        KeepsOperand(c1.temps, c2.temps, m.temp, v);
        KeepsTrans(c.temps, c1.temps, c2.temps, t, m.temp);
        var n'' := OperatorRuns(p, c2, k.temp, e.op, v, w, a.v, b.v);
        Chain(p, c, n, n'');
        n := n + n'';
        assert Apply(e.op, a.v, b.v).Trap? || KeepsBelow(c2.temps, Steps(p, c2, n'').temps, k.temp);
      }
    }
  }

  /** A jump to a label that stands at `i` lands just after it. */
  lemma JumpLands(p: seq<Line>, c: Config, i: nat, name: Label)
    requires c.Running? && Unique(p) && i < |p| && p[i] == At(name)
    ensures Goto(p, c, name) == Running(i + 1, c.block, name, c.temps, c.locals)
  {
    FoundAt(p, i, name);
  }

  lemma JumpIfRuns(p: seq<Line>, c: Config, v: Operand, b: bool, yes: Label, no: Label, i: nat)
    requires c.Running? && Unique(p) && c.pc < |p| && p[c.pc] == JumpIf(v, yes, no)
    requires ValueOf(c.temps, v) == Some(BooleanValue(b)) && i < |p| && p[i] == At(if b then yes else no)
    ensures Steps(p, c, 1) == Running(i + 1, c.block, if b then yes else no, c.temps, c.locals)
  {
    OneStep(p, c);
    JumpLands(p, c, i, if b then yes else no);
  }

  lemma JumpRuns(p: seq<Line>, c: Config, target: Label, i: nat)
    requires c.Running? && Unique(p) && c.pc < |p| && p[c.pc] == Jump(target) && i < |p| && p[i] == At(target)
    ensures Steps(p, c, 1) == Running(i + 1, c.block, target, c.temps, c.locals)
  {
    OneStep(p, c);
    JumpLands(p, c, i, target);
  }

  lemma PhiRuns(p: seq<Line>, c: Config, t: nat, a: Operand, x: Label, b: Operand, y: Label, v: Value)
    requires c.Running? && c.pc < |p| && p[c.pc] == Phi(t, a, x, b, y)
    requires (c.previous == x && ValueOf(c.temps, a) == Some(v)) ||
        (c.previous != x && c.previous == y && ValueOf(c.temps, b) == Some(v))
    ensures Steps(p, c, 1) == Define(c, t, v)
  {
    OneStep(p, c);
  }

  /** The lines around the right operand of a logical operator. */
  lemma LogicalPlaces(p: seq<Line>, base: nat, op: Operator, v: Operand, n: nat, right: seq<Line>, t: nat, x: Label,
                      w: Operand, y: Label)
    requires Placed(p, base, LogicalHead(op, v, n) + (right + LogicalTail(op, n, t, x, w, y)))
    ensures base + 4 + |right| < |p| && Placed(p, base + 2, right)
    ensures p[base] == (if op == And then JumpIf(v, LogicalRight(n), LogicalEnd(n + 1))
                        else JumpIf(v, LogicalEnd(n + 1), LogicalRight(n)))
    ensures p[base + 1] == At(LogicalRight(n)) && p[base + 2 + |right|] == Jump(LogicalEnd(n + 1))
    ensures p[base + 3 + |right|] == At(LogicalEnd(n + 1))
    ensures p[base + 4 + |right|] == Phi(t, Constant(BooleanValue(op == Or)), x, w, y)
  {
    var head, tail := LogicalHead(op, v, n), LogicalTail(op, n, t, x, w, y);
    PlacedSplit(p, base, head, right + tail);
    PlacedSplit(p, base + 2, right, tail);
    PlacedLine(p, base, head, 0);
    PlacedLine(p, base, head, 1);
    PlacedLine(p, base + 2 + |right|, tail, 0);
    PlacedLine(p, base + 2 + |right|, tail, 1);
    PlacedLine(p, base + 2 + |right|, tail, 2);
  }

  /** Short circuit: the end label is entered from the block actually left, so the
      phi picks the deciding constant or the right operand. */
  lemma {:induction false} LogicalRuns(p: seq<Line>, c: Config, e: Code, t: nat, l: nat) returns (n: nat)
    requires c.Running? && Number(c.block) < l && Unique(p) && e.BinaryCode? && IsLogical(e.op) &&
        !CodeValue(e, c.locals).Stuck?
    requires Placed(p, c.pc, Emit(e, t, l, c.block).0.lines)
    ensures var (m, v) := Emit(e, t, l, c.block); Evaluated(c, Steps(p, c, n), CodeValue(e, c.locals), m, v, t)
    decreases e, 0
  {
    hide Step, LogicalHead, LogicalTail, Emit, Unique, Placed;
    EmitLogical(e, t, l, c.block);
    var (m, v) := Emit(e.left, t, l, c.block);
    var (k, w) := Emit(e.right, m.temp, m.labels + 2, LogicalRight(m.labels));
    var head, tail := LogicalHead(e.op, v, m.labels), LogicalTail(e.op, m.labels, k.temp, m.block, w, k.block);
    PlacedSplit(p, c.pc, m.lines, head + (k.lines + tail));
    n := ExpressionRuns(p, c, e.left, t, l);
    EmitGrows(e.left, t, l, c.block);
    EmitBlock(e.left, t, l, c.block, Number(c.block));
    var a := CodeValue(e.left, c.locals);
    if a.Val? {
      var c1 := Steps(p, c, n);
      var k' := LogicalRest(p, c1, e, v, m.temp, m.labels, a.v.b);
      Chain(p, c, n, k');
      n := n + k';
      LogicalLength(e, t, l, c.block);
      if CodeValue(e, c.locals).Val? { KeepsTrans(c.temps, c1.temps, Steps(p, c, n).temps, t, m.temp); }
    }
  }

  lemma LogicalLength(e: Code, t: nat, l: nat, b: Label)
    requires e.BinaryCode? && IsLogical(e.op)
    ensures var (m, v) := Emit(e.left, t, l, b);
      var (k, w) := Emit(e.right, m.temp, m.labels + 2, LogicalRight(m.labels));
      |Emit(e, t, l, b).0.lines| == |m.lines| + 5 + |k.lines|
  {
    hide Emit;
    EmitLogical(e, t, l, b);
  }

  lemma EmitLogical(e: Code, t: nat, l: nat, b: Label)
    requires e.BinaryCode? && IsLogical(e.op)
    ensures var (m, v) := Emit(e.left, t, l, b);
      var (k, w) := Emit(e.right, m.temp, m.labels + 2, LogicalRight(m.labels));
      Emit(e, t, l, b) ==
        (Emission(m.lines + (LogicalHead(e.op, v, m.labels) + (k.lines +
                  LogicalTail(e.op, m.labels, k.temp, m.block, w, k.block))),
                  k.temp + 1, k.labels, LogicalEnd(m.labels + 1)), Temporary(k.temp))
  {
  }

  /** From the branch on: `c` is where the left operand's code ends. */
  lemma {:induction false} LogicalRest(p: seq<Line>, c: Config, e: Code, v: Operand, t: nat, n: nat, left: bool)
      returns (count: nat)
    requires c.Running? && Number(c.block) < n && Unique(p) && e.BinaryCode? && IsLogical(e.op)
    requires ValueOf(c.temps, v) == Some(BooleanValue(left)) && OperandBelow(v, t)
    requires left != (e.op == Or) ==> !CodeValue(e.right, c.locals).Stuck?
    requires left != (e.op == Or) && CodeValue(e.right, c.locals).Val? ==> CodeValue(e.right, c.locals).v.BooleanValue?
    requires var (k, w) := Emit(e.right, t, n + 2, LogicalRight(n));
      Placed(p, c.pc, LogicalHead(e.op, v, n) + (k.lines + LogicalTail(e.op, n, k.temp, c.block, w, k.block)))
    ensures var (k, w) := Emit(e.right, t, n + 2, LogicalRight(n)); var c' := Steps(p, c, count);
      var r := if left == (e.op == Or) then Truth(left) else CodeValue(e.right, c.locals);
      && (r.Trap? ==> c' == Halted(Stopped))
      && (r.Val? ==> c'.Running? && c'.pc == c.pc + 5 + |k.lines| && c'.block == LogicalEnd(n + 1)
                     && c'.locals == c.locals && KeepsBelow(c.temps, c'.temps, t)
                     && ValueOf(c'.temps, Temporary(k.temp)) == Some(r.v))
    decreases e.right, 2
  {
    hide LogicalHead, LogicalTail, Emit, Step, Unique, Placed, CodeValue;
    var (k, w) := Emit(e.right, t, n + 2, LogicalRight(n));
    LogicalPlaces(p, c.pc, e.op, v, n, k.lines, k.temp, c.block, w, k.block);
    EmitGrows(e.right, t, n + 2, LogicalRight(n));
    var end := c.pc + 3 + |k.lines|;
    var yes, no := if e.op == And then LogicalRight(n) else LogicalEnd(n + 1),
      if e.op == And then LogicalEnd(n + 1) else LogicalRight(n);
    if left == (e.op == Or) {
      JumpIfRuns(p, c, v, left, yes, no, end);
      var c1 := Running(end + 1, c.block, LogicalEnd(n + 1), c.temps, c.locals);
      PhiRuns(p, c1, k.temp, Constant(BooleanValue(e.op == Or)), c.block, w, k.block, BooleanValue(e.op == Or));
      Chain(p, c, 1, 1);
      return 2;
    }
    JumpIfRuns(p, c, v, left, yes, no, c.pc + 1);
    var c1 := Running(c.pc + 2, c.block, LogicalRight(n), c.temps, c.locals);
    var i := ExpressionRuns(p, c1, e.right, t, n + 2);
    Chain(p, c, 1, i);
    count := 1 + i;
    var r := CodeValue(e.right, c.locals);
    if r.Val? {
      EmitBlock(e.right, t, n + 2, LogicalRight(n), n);
      var c2 := Steps(p, c, count);
      var j := LogicalJoin(p, c2, end, n, k.temp, e.op == Or, c.block, w);
      Chain(p, c, count, j);
      count := count + j;
    }
  }

  /** Out of the right operand's last block, into the phi. */
  lemma LogicalJoin(p: seq<Line>, c: Config, end: nat, n: nat, t: nat, decided: bool, leftBlock: Label, w: Operand)
      returns (count: nat)
    requires c.Running? && Unique(p) && c.pc + 1 == end && end + 1 < |p| && c.block != leftBlock
    requires p[c.pc] == Jump(LogicalEnd(n + 1)) && p[end] == At(LogicalEnd(n + 1))
    requires p[end + 1] == Phi(t, Constant(BooleanValue(decided)), leftBlock, w, c.block) && ValueOf(c.temps, w).Some?
    ensures Steps(p, c, count) == Running(end + 2, c.block, LogicalEnd(n + 1),
                                          c.temps.(values := c.temps.values[t := ValueOf(c.temps, w).value]), c.locals)
  {
    hide Step, Unique;
    JumpRuns(p, c, LogicalEnd(n + 1), end);
    var c1 := Running(end + 1, c.block, LogicalEnd(n + 1), c.temps, c.locals);
    PhiRuns(p, c1, t, Constant(BooleanValue(decided)), leftBlock, w, c.block, ValueOf(c.temps, w).value);
    Chain(p, c, 1, 1);
    count := 2;
  }
}
