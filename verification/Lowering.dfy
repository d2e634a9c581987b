// Control-flow lowering: each source line changes the slot tables and the register table and appends
// labels and jumps.  The tables are scanned for a free slot and for the highest open one.
module Lowering {
  import opened Infix
  import opened Shunt
  import opened Convert
  import opened Statement
  import opened Registers
  import opened Machine
  import opened Codegen

  const MAXSLOTS: nat := 1024

  datatype Use = Unused | Open | Done

  datatype IfSlot = IfSlot(use: Use, plus: bool, elseSet: bool)

  // `entered` is set by the `for` line, which follows the condition of the loop.
  datatype LoopSlot = LoopSlot(use: Use, entered: bool)

  datatype Line =
    | LRpn(text: string) | LInfix(text: string)
    | LIf(v: string) | LIfPlus(v: string) | LElse | LEndIf
    | LSwitch | LCase(x: string, y: string) | LBreak | LSwitchEnd
    | LDo | LWhile(v: string)
    | LForLoop | LFor(v: string) | LNext

  // All the state that a line can change.
  datatype Comp = Comp(g: Gen, stk: seq<string>, ifs: seq<IfSlot>, whiles: seq<LoopSlot>, fors: seq<LoopSlot>, switches: seq<LoopSlot>)

  // The settings a line reads: declared variables, and whether the cache is emptied at joins.
  datatype Mode = Mode(declared: set<string>, nested: bool, noPull: bool)

  function FreeIf(t: seq<IfSlot>, k: nat): (r: int)
    requires k <= |t|
    ensures r == -1 ==> forall j | k <= j < |t| :: !t[j].use.Unused?
    ensures r != -1 ==> k <= r < |t| && t[r].use.Unused? && forall j | k <= j < r :: !t[j].use.Unused?
    decreases |t| - k
  {
    if k == |t| then -1 else if t[k].use.Unused? then k else FreeIf(t, k + 1)
  }

  // get_act_if and get_act_ifplus: the highest open slot below k.
  function LastIf(t: seq<IfSlot>, plus: bool, k: nat): (r: int)
    requires k <= |t|
    ensures r == -1 ==> forall j | 0 <= j < k :: !(t[j].use.Open? && (plus ==> t[j].plus))
    ensures r != -1 ==> 0 <= r < k && t[r].use.Open? && (plus ==> t[r].plus)
    ensures r != -1 ==> forall j | r < j < k :: !(t[j].use.Open? && (plus ==> t[j].plus))
  {
    if k == 0 then -1
    else if t[k - 1].use.Open? && (plus ==> t[k - 1].plus) then k - 1
    else LastIf(t, plus, k - 1)
  }

  function FreeLoop(t: seq<LoopSlot>, k: nat): (r: int)
    requires k <= |t|
    ensures r == -1 ==> forall j | k <= j < |t| :: !t[j].use.Unused?
    ensures r != -1 ==> k <= r < |t| && t[r].use.Unused? && forall j | k <= j < r :: !t[j].use.Unused?
    decreases |t| - k
  {
    if k == |t| then -1 else if t[k].use.Unused? then k else FreeLoop(t, k + 1)
  }

  function LastLoop(t: seq<LoopSlot>, k: nat): (r: int)
    requires k <= |t|
    ensures r == -1 ==> forall j | 0 <= j < k :: !t[j].use.Open?
    ensures r != -1 ==> 0 <= r < k && t[r].use.Open? && forall j | r < j < k :: !t[j].use.Open?
  {
    if k == 0 then -1 else if t[k - 1].use.Open? then k - 1 else LastLoop(t, k - 1)
  }

  function Emit(g: Gen, code: seq<Instr>): Gen {
    g.(code := g.code + code)
  }

  function InitIf(m: Mode, g: Gen): Gen {
    if m.nested then g.(table := Empty()) else g
  }

  // ---- the code of one line, given its slot number ----

  // Load the variable that a condition tests; `loadReg` says where it is.
  function GenCond(m: Mode, v: string, g: Gen): Option<Gen> {
    var h :- LoadVariable(v, m.declared, g);
    if h.loadReg < 0 then None else Some(h)
  }

  // Test a variable: jump to `yes`, which follows, when it is set and to `no` when it is not.
  function GenTest(m: Mode, v: string, yes: Label, no: Label, g: Gen): Option<Gen> {
    var h :- GenCond(m, v, InitIf(m, g));
    Some(Emit(h, [JmpI(h.loadReg, yes), Jmp(no), Here(yes)]))
  }

  function GenIf(m: Mode, v: string, k: nat, other: Kind, g: Gen): Option<Gen> {
    GenTest(m, v, Label(IfL, k), Label(other, k), g)
  }

  function GenElse(m: Mode, k: nat, g: Gen): Gen {
    Emit(InitIf(m, g), [Jmp(Label(EndIfL, k)), Here(Label(ElseL, k))])
  }

  function GenEndIf(m: Mode, k: int, g: Gen): Gen {
    InitIf(m, Emit(g, [Here(Label(EndIfL, k))]))
  }

  function GenCase(m: Mode, x: string, y: string, k: nat, g: Gen): Option<Gen> {
    var h1 :- GenCond(m, y, InitIf(m, g));
    var h2 :- GenCond(m, x, h1);
    var d := NextFree(h2.table);
    if d == -1 then None
    else
      Some(Emit(h2.(table := h2.table[d := "temp"]),
                [Alu('E', h1.loadReg, h2.loadReg, d),
                 JmpI(d, Label(IfL, k)), Jmp(Label(EndIfL, k)), Here(Label(IfL, k))]))
  }

  // With a full slot table `?` ends behind the comparison, and `if` behind the load.
  function GenBareCase(m: Mode, x: string, y: string, g: Gen): Option<Gen> {
    var h1 :- GenCond(m, y, InitIf(m, g));
    var h2 :- GenCond(m, x, h1);
    var d := NextFree(h2.table);
    if d == -1 then None
    else Some(Emit(h2.(table := h2.table[d := "temp"]), [Alu('E', h1.loadReg, h2.loadReg, d)]))
  }

  function GenBareTest(m: Mode, v: string, g: Gen): Option<Gen> {
    GenCond(m, v, InitIf(m, g))
  }

  function GenDo(m: Mode, k: nat, g: Gen): Gen {
    Emit(InitIf(m, g), [Here(Label(WhileL, k))])
  }

  function GenWhile(m: Mode, v: string, k: nat, g: Gen): Option<Gen> {
    var h :- GenCond(m, v, g);
    Some(Emit(h, [JmpI(h.loadReg, Label(WhileL, k))]))
  }

  function GenForLoop(m: Mode, k: nat, g: Gen): Gen {
    Emit(InitIf(m, g), [Here(Label(ForL, k))])
  }

  function GenFor(m: Mode, v: string, k: nat, g: Gen): Option<Gen> {
    GenTest(m, v, Label(For2L, k), Label(ForEndL, k), g)
  }

  function GenNext(m: Mode, k: nat, g: Gen): Gen {
    InitIf(m, Emit(g, [Jmp(Label(ForL, k)), Here(Label(ForEndL, k))]))
  }

  // The names that parse_rpolish leaves on the shared stack.
  function Names(ts: seq<Tok<string>>, target: string): seq<string> {
    if ts == [] then []
    else (if ts[0].Atom? then [Resolve(ts[0].a, target)] else []) + Names(ts[1..], target)
  }

  function DoText(m: Mode, postfix: string, c: Comp): Option<Comp> {
    var (target, ts) :- Parse(postfix);
    var h :- GenStmt(ts, target, m.declared, m.noPull, c.g);
    Some(c.(g := h, stk := c.stk + Names(ts, target)))
  }

  // get_if_pos, get_ifplus_pos: take the first unused slot.
  function TakeIf(plus: bool, k: nat, c: Comp): Comp
    requires k < |c.ifs|
  {
    c.(ifs := c.ifs[k := IfSlot(Open, plus, c.ifs[k].elseSet)])
  }

  function CloseIf(m: Mode, k: nat, c: Comp): Comp
    requires k < |c.ifs|
  {
    c.(ifs := c.ifs[k := c.ifs[k].(use := Done)], g := GenEndIf(m, k, c.g))
  }

  // ---- one line ----

  // A line that finds its slot table full prints a message and counts as compiled: it has the code that
  // came before, and no jumps.  A `break` without an open block uses the number -1.
  function DoLine(m: Mode, line: Line, c: Comp): Option<Comp> {
    match line
    case LRpn(text) => DoText(m, text, c)
    case LInfix(text) =>
      var v :- ConvertLine(c.stk, text);
      DoText(m, v.out, c.(stk := v.stk))
    case LIf(v) =>
      var k := FreeIf(c.ifs, 0);
      if k == -1 then
        var h :- GenBareTest(m, v, c.g);
        Some(c.(g := h))
      else
        var h :- GenIf(m, v, k, EndIfL, c.g);
        Some(TakeIf(false, k, c).(g := h))
    case LIfPlus(v) =>
      var k := FreeIf(c.ifs, 0);
      if k == -1 then
        var h :- GenBareTest(m, v, c.g);
        Some(c.(g := h))
      else
        var h :- GenIf(m, v, k, ElseL, c.g);
        Some(TakeIf(true, k, c).(g := h))
    case LCase(x, y) =>
      var k := FreeIf(c.ifs, 0);
      if k == -1 then
        var h :- GenBareCase(m, x, y, c.g);
        Some(c.(g := h))
      else
        var h :- GenCase(m, x, y, k, c.g);
        Some(TakeIf(false, k, c).(g := h))
    case LElse =>
      var k := LastIf(c.ifs, true, |c.ifs|);
      if k == -1 then None
      else Some(c.(ifs := c.ifs[k := c.ifs[k].(elseSet := true)], g := GenElse(m, k, c.g)))
    case LEndIf =>
      var k := LastIf(c.ifs, false, |c.ifs|);
      if k == -1 || (c.ifs[k].plus && !c.ifs[k].elseSet) then None else Some(CloseIf(m, k, c))
    case LBreak =>
      var k := LastIf(c.ifs, false, |c.ifs|);
      if k == -1 then Some(c.(g := GenEndIf(m, -1, c.g))) else Some(CloseIf(m, k, c))
    case LSwitch =>
      var k := FreeLoop(c.switches, 0);
      if k == -1 then Some(c)
      else Some(c.(switches := c.switches[k := LoopSlot(Open, false)], g := InitIf(m, c.g)))
    case LSwitchEnd =>
      var k := LastLoop(c.switches, |c.switches|);
      if k == -1 then None
      else Some(c.(switches := c.switches[k := c.switches[k].(use := Done)], g := InitIf(m, c.g)))
    case LDo =>
      var k := FreeLoop(c.whiles, 0);
      if k == -1 then Some(c.(g := InitIf(m, c.g)))
      else Some(c.(whiles := c.whiles[k := LoopSlot(Open, false)], g := GenDo(m, k, c.g)))
    case LWhile(v) =>
      var k := LastLoop(c.whiles, |c.whiles|);
      if k == -1 then None
      else
        var h :- GenWhile(m, v, k, c.g);
        Some(c.(whiles := c.whiles[k := c.whiles[k].(use := Done)], g := h))
    case LForLoop =>
      var k := FreeLoop(c.fors, 0);
      if k == -1 then Some(c.(g := InitIf(m, c.g)))
      else Some(c.(fors := c.fors[k := LoopSlot(Open, false)], g := GenForLoop(m, k, c.g)))
    case LFor(v) =>
      var k := LastLoop(c.fors, |c.fors|);
      if k == -1 then
        var h :- GenBareTest(m, v, c.g);
        Some(c.(g := h))
      else
        var h :- GenFor(m, v, k, c.g);
        Some(c.(fors := c.fors[k := c.fors[k].(entered := true)], g := h))
    case LNext =>
      var k := LastLoop(c.fors, |c.fors|);
      if k == -1 || !c.fors[k].entered then None
      else Some(c.(fors := c.fors[k := c.fors[k].(use := Done)], g := GenNext(m, k, c.g)))
  }

  function DoLines(m: Mode, lines: seq<Line>, c: Comp): Option<Comp> {
    if lines == [] then Some(c)
    else
      var d :- DoLine(m, lines[0], c);
      DoLines(m, lines[1..], d)
  }

  lemma {:induction false} DoLinesAppend(m: Mode, a: seq<Line>, b: seq<Line>, c: Comp)
    ensures DoLines(m, a + b, c) == match DoLines(m, a, c) { case None => None case Some(d) => DoLines(m, b, d) }
    decreases |a|
  {
    if a == [] {
      assert a + b == b;
    } else {
      assert (a + b)[0] == a[0] && (a + b)[1..] == a[1..] + b;
      match DoLine(m, a[0], c) {
        case None =>
        case Some(d) => DoLinesAppend(m, a[1..], b, d);
      }
    }
  }

  lemma DoLinesOne(m: Mode, line: Line, c: Comp)
    ensures DoLines(m, [line], c) == DoLine(m, line, c)
  {
    match DoLine(m, line, c)
    case None =>
    case Some(d) => assert DoLines(m, [], d) == Some(d);
  }

  // ---- structured programs ----

  // An assignment carries its source line; `e` is the expression the line denotes.
  datatype Stmt =
    | Skip
    | Seq(a: Stmt, b: Stmt)
    | Assign(line: Line, target: string, e: Expr<string>)
    | If(v: string, body: Stmt)
    | IfElse(v: string, a: Stmt, b: Stmt)
    | Switch(body: Stmt)
    | Case(x: string, y: string, body: Stmt)
    | DoWhile(body: Stmt, v: string)
    | For(pre: Stmt, v: string, body: Stmt)

  ghost predicate Denotes(line: Line, target: string, e: Expr<string>) {
    match line
    case LRpn(text) => Parse(text) == Some((target, Postfix(e)))
    case LInfix(text) => InfixLine(text, target, e)
    case _ => false
  }

  ghost predicate WellFormed(p: Stmt) {
    match p
    case Skip => true
    case Seq(a, b) => WellFormed(a) && WellFormed(b)
    case Assign(line, target, e) => Denotes(line, target, e)
    case If(_, body) => WellFormed(body)
    case IfElse(_, a, b) => WellFormed(a) && WellFormed(b)
    case Switch(body) => WellFormed(body)
    case Case(_, _, body) => WellFormed(body)
    case DoWhile(body, _) => WellFormed(body)
    case For(pre, _, body) => WellFormed(pre) && WellFormed(body)
  }

  function Lines(p: Stmt): seq<Line> {
    match p
    case Skip => []
    case Seq(a, b) => Lines(a) + Lines(b)
    case Assign(line, _, _) => [line]
    case If(v, body) => [LIf(v)] + Lines(body) + [LEndIf]
    case IfElse(v, a, b) => [LIfPlus(v)] + Lines(a) + [LElse] + Lines(b) + [LEndIf]
    case Switch(body) => [LSwitch] + Lines(body) + [LSwitchEnd]
    case Case(x, y, body) => [LCase(x, y)] + Lines(body) + [LBreak]
    case DoWhile(body, v) => [LDo] + Lines(body) + [LWhile(v)]
    case For(pre, v, body) => [LForLoop] + Lines(pre) + [LFor(v)] + Lines(body) + [LNext]
  }

  // ---- the same code by structure, with counters instead of tables ----

  datatype Low = Low(g: Gen, ifs: nat, whiles: nat, fors: nat, switches: nat)

  // The slots that a program takes: one of the if table for each if, if+ and ?.
  datatype Slots = Slots(ifs: nat, whiles: nat, fors: nat, switches: nat) {
    function Plus(t: Slots): Slots {
      Slots(ifs + t.ifs, whiles + t.whiles, fors + t.fors, switches + t.switches)
    }

    predicate Fit() {
      ifs <= MAXSLOTS && whiles <= MAXSLOTS && fors <= MAXSLOTS && switches <= MAXSLOTS
    }
  }

  function Blocks(p: Stmt): Slots {
    match p
    case Skip => Slots(0, 0, 0, 0)
    case Assign(_, _, _) => Slots(0, 0, 0, 0)
    case Seq(a, b) => Blocks(a).Plus(Blocks(b))
    case If(_, body) => Slots(1, 0, 0, 0).Plus(Blocks(body))
    case IfElse(_, a, b) => Slots(1, 0, 0, 0).Plus(Blocks(a)).Plus(Blocks(b))
    case Switch(body) => Slots(0, 0, 0, 1).Plus(Blocks(body))
    case Case(_, _, body) => Slots(1, 0, 0, 0).Plus(Blocks(body))
    case DoWhile(body, _) => Slots(0, 1, 0, 0).Plus(Blocks(body))
    case For(pre, _, body) => Slots(0, 0, 1, 0).Plus(Blocks(pre)).Plus(Blocks(body))
  }

  // The tables have a slot for every block.
  predicate SlotsFit(p: Stmt) {
    Blocks(p).Fit()
  }

  ghost function GenProg(m: Mode, p: Stmt, l: Low): Option<Low>
    decreases p, 1
  {
    GenNode(m, p, l)
  }

  ghost function GenNode(m: Mode, p: Stmt, l: Low): Option<Low>
    decreases p, 0
  {
    match p
    case Skip => Some(l)
    case Seq(a, b) =>
      var x :- GenProg(m, a, l);
      GenProg(m, b, x)
    case Assign(_, target, e) =>
      var h :- GenStmt(Postfix(e), target, m.declared, m.noPull, l.g);
      Some(l.(g := h))
    case If(v, body) =>
      var h :- GenIf(m, v, l.ifs, EndIfL, l.g);
      var x :- GenProg(m, body, l.(g := h, ifs := l.ifs + 1));
      Some(x.(g := GenEndIf(m, l.ifs, x.g)))
    case IfElse(v, a, b) =>
      var h :- GenIf(m, v, l.ifs, ElseL, l.g);
      var x :- GenProg(m, a, l.(g := h, ifs := l.ifs + 1));
      var y :- GenProg(m, b, x.(g := GenElse(m, l.ifs, x.g)));
      Some(y.(g := GenEndIf(m, l.ifs, y.g)))
    case Switch(body) =>
      var x :- GenProg(m, body, l.(g := InitIf(m, l.g), switches := l.switches + 1));
      Some(x.(g := InitIf(m, x.g)))
    case Case(v, w, body) =>
      var h :- GenCase(m, v, w, l.ifs, l.g);
      var x :- GenProg(m, body, l.(g := h, ifs := l.ifs + 1));
      Some(x.(g := GenEndIf(m, l.ifs, x.g)))
    case DoWhile(body, v) =>
      var x :- GenProg(m, body, l.(g := GenDo(m, l.whiles, l.g), whiles := l.whiles + 1));
      var h :- GenWhile(m, v, l.whiles, x.g);
      Some(x.(g := h))
    case For(pre, v, body) =>
      var x :- GenProg(m, pre, l.(g := GenForLoop(m, l.fors, l.g), fors := l.fors + 1));
      var h :- GenFor(m, v, l.fors, x.g);
      var y :- GenProg(m, body, x.(g := h));
      Some(y.(g := GenNext(m, l.fors, y.g)))
  }

  lemma GenProgIs(m: Mode, p: Stmt, l: Low)
    ensures GenProg(m, p, l) == GenNode(m, p, l)
  {
  }
}
