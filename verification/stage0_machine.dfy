/** The machine that runs emitted lines: one instruction at a time, a jump leaving
    the current block for the labelled one. */
module Stage0Machine {
  import opened Wrappers
  import opened Stage0Source
  import opened Stage0Check
  import opened Stage0Emit

  /** The registers `%value.n`, `%checked.n` and `%overflow.n`. */
  datatype Temps = Temps(values: map<nat, Value>, checked: map<nat, (int, bool)>, overflow: map<nat, bool>)

  const NO_TEMPS: Temps := Temps(map[], map[], map[])

  /** How a function ends: with a value, with an exit code, or stopped by a check. */
  datatype Ending = Gave(v: Option<Value>) | Exited(status: int) | Stopped

  /** `previous` is the block the current one was entered from. `Broken` is a state
      no well-formed program reaches. */
  datatype Config =
    | Running(pc: nat, previous: Label, block: Label, temps: Temps, locals: Locals)
    | Halted(ending: Ending)
    | Broken

  function ValueOf(temps: Temps, v: Operand): Option<Value> {
    match v
    case Constant(x) => Some(x)
    case Temporary(n) => if n in temps.values then Some(temps.values[n]) else None
  }

  /** Two's-complement wrap-around to 64 bits. */
  function Wrap(n: int): (r: int)
    ensures InRange(r) && (n - r) % 0x1_0000_0000_0000_0000 == 0 && (InRange(n) ==> r == n)
  {
    (n - INT_MIN) % 0x1_0000_0000_0000_0000 + INT_MIN
  }

  /** The low 32 bits, read as a signed number. */
  function Low32(n: int): (r: int)
    ensures -0x8000_0000 <= r < 0x8000_0000 && (n - r) % 0x1_0000_0000 == 0
  {
    (n + 0x8000_0000) % 0x1_0000_0000 - 0x8000_0000
  }

  function Plain(op: Operator, a: int, b: int): int {
    match op case Add => a + b case Subtract => a - b case _ => a * b
  }

  function FindLabel(p: seq<Line>, name: Label): (r: Option<nat>)
    ensures r.Some? ==> r.value < |p| && p[r.value] == At(name)
    ensures r.None? ==> forall i :: 0 <= i < |p| ==> p[i] != At(name)
  {
    if p == [] then None
    else
      var n := |p| - 1;
      if p[n] == At(name) then Some(n) else FindLabel(p[..n], name)
  }

  function Goto(p: seq<Line>, c: Config, name: Label): Config
    requires c.Running?
  {
    var i := FindLabel(p, name);
    if i.Some? then Running(i.value + 1, c.block, name, c.temps, c.locals) else Broken
  }

  function Define(c: Config, t: nat, v: Value): Config
    requires c.Running?
  {
    c.(pc := c.pc + 1, temps := c.temps.(values := c.temps.values[t := v]))
  }

  /** `icmp` on two integers or two bits. */
  function Compared(op: Operator, a: Value, b: Value): Option<bool> {
    if a.IntegerValue? && b.IntegerValue? then
      match op
      case Less => Some(a.n < b.n)
      case Greater => Some(b.n < a.n)
      case LessEqual => Some(!(b.n < a.n))
      case GreaterEqual => Some(!(a.n < b.n))
      case Equal => Some(a.n == b.n)
      case NotEqual => Some(a.n != b.n)
      case _ => None
    else if a.BooleanValue? && b.BooleanValue? && (op == Equal || op == NotEqual)
      then Some((a.b == b.b) == (op == Equal))
    else None
  }

  /** `sdiv` and `srem`, undefined where the division check stops the program. */
  function Divided(op: Operator, a: Value, b: Value): Option<Value> {
    if a.IntegerValue? && b.IntegerValue? && b.n != 0 && !(a.n == INT_MIN && b.n == -1) then
      DivideInRange(a.n, b.n);
      match op
      case Divide => Some(IntegerValue(Quotient(a.n, b.n)))
      case Remainder => Some(IntegerValue(RemainderOf(a.n, b.n)))
      case _ => None
    else None
  }

  function Step(p: seq<Line>, c: Config): Config {
    if !c.Running? then c
    else if c.pc >= |p| then Broken
    else
      match p[c.pc]
      case At(_) => Broken
      case Load(t, i) => if i in c.locals then Define(c, t, c.locals[i]) else Broken
      case StoreTo(v, i) =>
        var x := ValueOf(c.temps, v);
        if x.Some? then c.(pc := c.pc + 1, locals := c.locals[i := x.value]) else Broken
      case Flip(t, v) =>
        var x := ValueOf(c.temps, v);
        if x.Some? && x.value.BooleanValue? then Define(c, t, BooleanValue(!x.value.b)) else Broken
      case WithOverflow(t, op, a, b) =>
        var x := ValueOf(c.temps, a);
        var y := ValueOf(c.temps, b);
        if x.Some? && y.Some? && x.value.IntegerValue? && y.value.IntegerValue? then
          var n := Plain(op, x.value.n, y.value.n);
          c.(pc := c.pc + 1, temps := c.temps.(checked := c.temps.checked[t := (Wrap(n), !InRange(n))]))
        else Broken
      case ExtractValue(t) =>
        if t in c.temps.checked && InRange(c.temps.checked[t].0) then Define(c, t, IntegerValue(c.temps.checked[t].0))
          else Broken
      case ExtractOverflow(t) =>
        if t in c.temps.checked then
          c.(pc := c.pc + 1, temps := c.temps.(overflow := c.temps.overflow[t := c.temps.checked[t].1]))
        else Broken
      case CheckOverflow(t) =>
        if t !in c.temps.overflow then Broken
        else if c.temps.overflow[t] then Halted(Stopped) else c.(pc := c.pc + 1)
      case CheckDivision(a, b) =>
        var x := ValueOf(c.temps, a);
        var y := ValueOf(c.temps, b);
        if x.Some? && y.Some? && x.value.IntegerValue? && y.value.IntegerValue? then
          if y.value.n == 0 || (x.value.n == INT_MIN && y.value.n == -1) then Halted(Stopped) else c.(pc := c.pc + 1)
        else Broken
      case DivideInto(t, op, a, b) =>
        var x := ValueOf(c.temps, a);
        var y := ValueOf(c.temps, b);
        var r := if x.Some? && y.Some? then Divided(op, x.value, y.value) else None;
        if r.Some? then Define(c, t, r.value) else Broken
      case Compare(t, op, a, b) =>
        var x := ValueOf(c.temps, a);
        var y := ValueOf(c.temps, b);
        var r := if x.Some? && y.Some? then Compared(op, x.value, y.value) else None;
        if r.Some? then Define(c, t, BooleanValue(r.value)) else Broken
      case Phi(t, a, fromA, b, fromB) =>
        var x := if c.previous == fromA then ValueOf(c.temps, a)
                 else if c.previous == fromB then ValueOf(c.temps, b) else None;
        if x.Some? then Define(c, t, x.value) else Broken
      case Truncate(t, v) =>
        var x := ValueOf(c.temps, v);
        if x.Some? && x.value.IntegerValue? then Define(c, t, IntegerValue(Low32(x.value.n))) else Broken
      case Jump(target) => Goto(p, c, target)
      case JumpIf(v, yes, no) =>
        var x := ValueOf(c.temps, v);
        if x.Some? && x.value.BooleanValue? then Goto(p, c, if x.value.b then yes else no) else Broken
      case Ret(v) =>
        var x := ValueOf(c.temps, v);
        if x.Some? then Halted(Gave(x)) else Broken
      case RetVoid => Halted(Gave(None))
      case RetExit(v) =>
        var x := ValueOf(c.temps, v);
        if x.Some? && x.value.IntegerValue? then Halted(Exited(x.value.n)) else Broken
      case Unreachable => Broken
  }

  function Steps(p: seq<Line>, c: Config, n: nat): Config {
    if n == 0 then c else Step(p, Steps(p, c, n - 1))
  }

  lemma {:induction false} Chain(p: seq<Line>, c: Config, m: nat, n: nat)
    ensures Steps(p, Steps(p, c, m), n) == Steps(p, c, m + n)
  {
    hide Step;
    if n > 0 { Chain(p, c, m, n - 1); }
  }

  /** What has ended stays ended. */
  lemma {:induction false} Absorbing(p: seq<Line>, c: Config, m: nat, n: nat)
    requires m <= n && !Steps(p, c, m).Running?
    ensures Steps(p, c, n) == Steps(p, c, m)
    decreases n
  {
    if m < n { Absorbing(p, c, m, n - 1); }
  }

  /* ---- code in place ---- */

  /** `code` stands at `base` in `p`. */
  ghost predicate Placed(p: seq<Line>, base: nat, code: seq<Line>) {
    base + |code| <= |p| && p[base..base + |code|] == code
  }

  lemma PlacedSplit(p: seq<Line>, base: nat, a: seq<Line>, b: seq<Line>)
    requires Placed(p, base, a + b)
    ensures Placed(p, base, a) && Placed(p, base + |a|, b)
  {
    var n := base + |a + b|;
    assert p[base..n][..|a|] == a && p[base..n][|a|..] == b;
  }

  lemma PlacedLine(p: seq<Line>, base: nat, code: seq<Line>, i: nat)
    requires Placed(p, base, code) && i < |code|
    ensures base + i < |p| && p[base + i] == code[i]
  {
    assert p[base..base + |code|][i] == code[i];
  }

  /** No label is defined twice. */
  ghost predicate Unique(p: seq<Line>) {
    forall i, j :: 0 <= i < j < |p| && p[i].At? && p[j].At? ==> p[i].name != p[j].name
  }

  lemma FoundAt(p: seq<Line>, i: nat, name: Label)
    requires Unique(p) && i < |p| && p[i] == At(name)
    ensures FindLabel(p, name) == Some(i)
  {
    var j := FindLabel(p, name).value;
  }
}
