// Label numbers: no label is ever defined twice, so every jump has one possible target.
module Labels {
  import opened Infix
  import opened Shunt
  import opened Registers
  import opened Machine
  import opened Codegen
  import opened Lowering

  function Count(l: Low, k: Kind): nat {
    match k
    case IfL => l.ifs case EndIfL => l.ifs case ElseL => l.ifs
    case WhileL => l.whiles
    case ForL => l.fors case For2L => l.fors case ForEndL => l.fors
  }

  // Labels defined between two states carry the numbers handed out between them, each at most once.
  ghost predicate NewLabels(l: Low, x: Low) {
    && l.g.code <= x.g.code && l.ifs <= x.ifs && l.whiles <= x.whiles && l.fors <= x.fors
    && (forall i | |l.g.code| <= i < |x.g.code| && x.g.code[i].Here? ::
          Count(l, x.g.code[i].l.kind) <= x.g.code[i].l.num < Count(x, x.g.code[i].l.kind))
    && Distinct(x.g.code, |l.g.code|)
  }

  ghost predicate Distinct(code: seq<Instr>, from: nat) {
    forall i, j | from <= i < j < |code| && code[i].Here? && code[j].Here? :: code[i].l != code[j].l
  }

  // A table is what LoadVariable needs: register 0 is never named.
  ghost predicate Ready(g: Gen) {
    |g.table| == MAXREG && g.table[0] == ""
  }

  lemma CondShape(m: Mode, v: string, g: Gen)
    requires GenCond(m, v, g).Some? && Ready(g) && "" !in m.declared
    ensures var h := GenCond(m, v, g).value;
            && Ready(h) && Grows(g, h) && 1 <= h.loadReg < MAXREG && h.table[h.loadReg] == v
  {
  }

  lemma StmtShape(m: Mode, e: Expr<string>, target: string, g: Gen)
    requires GenStmt(Postfix(e), target, m.declared, m.noPull, g).Some? && Ready(g) && "" !in m.declared
    ensures var h := GenStmt(Postfix(e), target, m.declared, m.noPull, g).value;
            && Ready(h) && g.code <= h.code && forall i | |g.code| <= i < |h.code| :: Straight(h.code[i])
  {
    var x, r := ResultOfExpr(e, target, m.declared, g.(opReg := -1, loadReg := -1));
  }

  // Composition: labels of two consecutive stretches.
  lemma NewLabelsTrans(l: Low, x: Low, y: Low)
    requires NewLabels(l, x) && NewLabels(x, y)
    ensures NewLabels(l, y)
  {
    forall i | |l.g.code| <= i < |x.g.code|
      ensures y.g.code[i] == x.g.code[i]
    {}
  }

  lemma NewLabelsStraight(l: Low, g: Gen)
    requires l.g.code <= g.code && forall i | |l.g.code| <= i < |g.code| :: !g.code[i].Here?
    ensures NewLabels(l, l.(g := g))
  {
  }

  ghost predicate Absent(code: seq<Instr>, from: nat, l: Label) {
    forall i | from <= i < |code| :: code[i] != Here(l)
  }

  // Numbers handed out earlier do not come back.
  lemma StaysAbsent(l: Low, open: Low, mid: Low, b: Label)
    requires NewLabels(open, mid) && l.g.code <= open.g.code && Absent(open.g.code, |l.g.code|, b)
    requires b.num < Count(open, b.kind)
    ensures Absent(mid.g.code, |l.g.code|, b)
  {
    forall i | |l.g.code| <= i < |open.g.code|
      ensures mid.g.code[i] == open.g.code[i]
    {}
  }

  // Defining one more label of a number already handed out, after code without labels.
  lemma AddLabel(l: Low, x: Low, g: Gen, b: Label)
    requires NewLabels(l, x) && x.g.code < g.code && g.code[|g.code| - 1] == Here(b)
    requires forall i | |x.g.code| <= i < |g.code| - 1 :: !g.code[i].Here?
    requires Count(l, b.kind) <= b.num < Count(x, b.kind) && Absent(x.g.code, |l.g.code|, b)
    ensures NewLabels(l, x.(g := g))
  {
    forall i | |l.g.code| <= i < |x.g.code|
      ensures g.code[i] == x.g.code[i]
    {}
  }

  lemma {:induction false} ProgLabels(m: Mode, p: Stmt, l: Low)
    requires GenProg(m, p, l).Some? && Ready(l.g) && "" !in m.declared
    ensures NewLabels(l, GenProg(m, p, l).value) && Ready(GenProg(m, p, l).value.g)
    decreases p, 1
  {
    hide GenProg;
    GenProgIs(m, p, l);
    var y := GenProg(m, p, l).value;
    match p
    case Skip =>
    case Seq(a, b) =>
      ProgLabels(m, a, l);
      var x := GenProg(m, a, l).value;
      ProgLabels(m, b, x);
      NewLabelsTrans(l, x, y);
    case Assign(_, target, e) =>
      StmtShape(m, e, target, l.g);
      NewLabelsStraight(l, y.g);
    case If(v, body) =>
      OpensIf(m, v, l.ifs, EndIfL, l.g);
      IfLabels(m, GenIf(m, v, l.ifs, EndIfL, l.g).value, body, l);
    case Case(v, w, body) =>
      OpensCase(m, v, w, l.ifs, l.g);
      IfLabels(m, GenCase(m, v, w, l.ifs, l.g).value, body, l);
    case IfElse(v, a, b) => IfElseLabels(m, v, a, b, l);
    case Switch(body) => ProgLabels(m, body, l.(g := InitIf(m, l.g), switches := l.switches + 1));
    case DoWhile(body, v) => WhileLabels(m, body, v, l);
    case For(pre, v, body) => ForLabels(m, pre, v, body, l);
  }

  // The code that opens an if block: loads, jumps and the block's first label.
  ghost predicate Opens(g: Gen, h: Gen, b: Label) {
    && Ready(h) && g.code < h.code && h.code[|h.code| - 1] == Here(b)
    && forall i | |g.code| <= i < |h.code| - 1 :: !h.code[i].Here?
  }

  lemma OpensIf(m: Mode, v: string, k: nat, other: Kind, g: Gen)
    requires GenIf(m, v, k, other, g).Some? && Ready(g) && "" !in m.declared
    ensures Opens(g, GenIf(m, v, k, other, g).value, Label(IfL, k))
  {
    CondShape(m, v, InitIf(m, g));
  }

  lemma OpensCase(m: Mode, x: string, y: string, k: nat, g: Gen)
    requires GenCase(m, x, y, k, g).Some? && Ready(g) && "" !in m.declared
    ensures Opens(g, GenCase(m, x, y, k, g).value, Label(IfL, k))
  {
    CondShape(m, y, InitIf(m, g));
    CondShape(m, x, GenCond(m, y, InitIf(m, g)).value);
  }

  lemma OpensFor(m: Mode, v: string, k: nat, g: Gen)
    requires GenFor(m, v, k, g).Some? && Ready(g) && "" !in m.declared
    ensures Opens(g, GenFor(m, v, k, g).value, Label(For2L, k))
  {
    CondShape(m, v, InitIf(m, g));
  }

  // Opening a block with the next number of its kind.
  lemma BeginBlock(l: Low, x: Low, h: Gen, b: Label)
    requires Opens(l.g, h, b) && x.g == h && b.num == Count(l, b.kind) && Count(x, b.kind) == b.num + 1
    requires l.ifs <= x.ifs && l.whiles <= x.whiles && l.fors <= x.fors
    ensures NewLabels(l, x)
  {
  }

  lemma OnlyOpens(l: Low, h: Gen, b: Label, c: Label)
    requires Opens(l.g, h, b) && c != b
    ensures Absent(h.code, |l.g.code|, c)
  {
  }

  // The next label of a block: its number was handed out at the opening, and the balanced code in
  // between only uses later ones.
  lemma NextLabel(l: Low, open: Low, z: Low, g: Gen, b: Label)
    requires NewLabels(l, open) && NewLabels(open, z) && Opens(z.g, g, b)
    requires Count(l, b.kind) <= b.num < Count(open, b.kind) && Absent(open.g.code, |l.g.code|, b)
    ensures NewLabels(l, z.(g := g))
  {
    NewLabelsTrans(l, open, z);
    StaysAbsent(l, open, z, b);
    AddLabel(l, z, g, b);
  }

  // A label of the block that is still to come.
  lemma StillAbsent(l: Low, open: Low, z: Low, g: Gen, b: Label, c: Label)
    requires NewLabels(l, open) && NewLabels(open, z) && Opens(z.g, g, b) && c != b
    requires c.num < Count(open, c.kind) && Absent(open.g.code, |l.g.code|, c)
    ensures Absent(g.code, |l.g.code|, c)
  {
    StaysAbsent(l, open, z, c);
    forall i | |l.g.code| <= i < |z.g.code|
      ensures g.code[i] == z.g.code[i]
    {}
  }

  lemma SameCode(l: Low, x: Low, g: Gen)
    requires NewLabels(l, x) && g.code == x.g.code
    ensures NewLabels(l, x.(g := g))
  {
  }

  // The last stretch of an if block, from any earlier label of the block.
  lemma TailLabels(m: Mode, body: Stmt, l: Low, open: Low, k: nat)
    requires NewLabels(l, open) && Ready(open.g) && "" !in m.declared && GenProg(m, body, open).Some?
    requires l.ifs <= k < open.ifs && Absent(open.g.code, |l.g.code|, Label(EndIfL, k))
    ensures var z := GenProg(m, body, open).value;
            NewLabels(l, z.(g := GenEndIf(m, k, z.g))) && Ready(GenEndIf(m, k, z.g))
    decreases body, 2
  {
    hide GenProg;
    ProgLabels(m, body, open);
    var z := GenProg(m, body, open).value;
    var g := Emit(z.g, [Here(Label(EndIfL, k))]);
    NextLabel(l, open, z, g, Label(EndIfL, k));
    SameCode(l, z.(g := g), GenEndIf(m, k, z.g));
  }

  lemma IfLabels(m: Mode, h: Gen, body: Stmt, l: Low)
    requires Opens(l.g, h, Label(IfL, l.ifs)) && "" !in m.declared
    requires GenProg(m, body, l.(g := h, ifs := l.ifs + 1)).Some?
    ensures var z := GenProg(m, body, l.(g := h, ifs := l.ifs + 1)).value;
            NewLabels(l, z.(g := GenEndIf(m, l.ifs, z.g))) && Ready(GenEndIf(m, l.ifs, z.g))
    decreases body, 3
  {
    hide GenProg;
    var open := l.(g := h, ifs := l.ifs + 1);
    BeginBlock(l, open, h, Label(IfL, l.ifs));
    OnlyOpens(l, h, Label(IfL, l.ifs), Label(EndIfL, l.ifs));
    TailLabels(m, body, l, open, l.ifs);
  }

  lemma IfElseLabels(m: Mode, v: string, a: Stmt, b: Stmt, l: Low)
    requires GenProg(m, IfElse(v, a, b), l).Some? && Ready(l.g) && "" !in m.declared
    ensures NewLabels(l, GenProg(m, IfElse(v, a, b), l).value) && Ready(GenProg(m, IfElse(v, a, b), l).value.g)
    decreases IfElse(v, a, b), 0
  {
    hide GenProg;
    GenProgIs(m, IfElse(v, a, b), l);
    OpensIf(m, v, l.ifs, ElseL, l.g);
    var open := l.(g := GenIf(m, v, l.ifs, ElseL, l.g).value, ifs := l.ifs + 1);
    ElseLabels(m, a, l, open);
    var x := GenProg(m, a, open).value;
    TailLabels(m, b, l, x.(g := GenElse(m, l.ifs, x.g)), l.ifs);
  }

  lemma ElseLabels(m: Mode, a: Stmt, l: Low, open: Low)
    requires Opens(l.g, open.g, Label(IfL, l.ifs)) && open == l.(g := open.g, ifs := l.ifs + 1)
    requires "" !in m.declared && GenProg(m, a, open).Some?
    ensures var x := GenProg(m, a, open).value;
            var h := GenElse(m, l.ifs, x.g);
            && NewLabels(l, x.(g := h)) && Ready(h) && l.ifs < x.ifs && Absent(h.code, |l.g.code|, Label(EndIfL, l.ifs))
    decreases a, 2
  {
    hide GenProg;
    var first, mid, last := Label(IfL, l.ifs), Label(ElseL, l.ifs), Label(EndIfL, l.ifs);
    BeginBlock(l, open, open.g, first);
    OnlyOpens(l, open.g, first, mid);
    OnlyOpens(l, open.g, first, last);
    ProgLabels(m, a, open);
    var x := GenProg(m, a, open).value;
    var h := GenElse(m, l.ifs, x.g);
    assert Opens(x.g, h, mid);
    NextLabel(l, open, x, h, mid);
    StillAbsent(l, open, x, h, mid, last);
  }

  lemma WhileLabels(m: Mode, body: Stmt, v: string, l: Low)
    requires GenProg(m, DoWhile(body, v), l).Some? && Ready(l.g) && "" !in m.declared
    ensures NewLabels(l, GenProg(m, DoWhile(body, v), l).value) && Ready(GenProg(m, DoWhile(body, v), l).value.g)
    decreases DoWhile(body, v), 0
  {
    hide GenProg;
    GenProgIs(m, DoWhile(body, v), l);
    var h := GenDo(m, l.whiles, l.g);
    var open := l.(g := h, whiles := l.whiles + 1);
    BeginBlock(l, open, h, Label(WhileL, l.whiles));
    ProgLabels(m, body, open);
    var x := GenProg(m, body, open).value;
    NewLabelsTrans(l, open, x);
    CondShape(m, v, x.g);
    var z := GenProg(m, DoWhile(body, v), l).value;
    NewLabelsStraight(x, z.g);
    NewLabelsTrans(l, x, z);
  }

  lemma ForLabels(m: Mode, pre: Stmt, v: string, body: Stmt, l: Low)
    requires GenProg(m, For(pre, v, body), l).Some? && Ready(l.g) && "" !in m.declared
    ensures NewLabels(l, GenProg(m, For(pre, v, body), l).value) && Ready(GenProg(m, For(pre, v, body), l).value.g)
    decreases For(pre, v, body), 0
  {
    hide GenProg;
    GenProgIs(m, For(pre, v, body), l);
    var open := l.(g := GenForLoop(m, l.fors, l.g), fors := l.fors + 1);
    assert Opens(l.g, open.g, Label(ForL, l.fors));
    ForPreLabels(m, pre, v, l, open);
    var x := GenProg(m, pre, open).value;
    ForTailLabels(m, body, l, x.(g := GenFor(m, v, l.fors, x.g).value), l.fors);
  }

  lemma ForPreLabels(m: Mode, pre: Stmt, v: string, l: Low, open: Low)
    requires Opens(l.g, open.g, Label(ForL, l.fors)) && open == l.(g := open.g, fors := l.fors + 1)
    requires "" !in m.declared && GenProg(m, pre, open).Some?
    requires GenFor(m, v, l.fors, GenProg(m, pre, open).value.g).Some?
    ensures var x := GenProg(m, pre, open).value;
            var h := GenFor(m, v, l.fors, x.g).value;
            && NewLabels(l, x.(g := h)) && Ready(h) && l.fors < x.fors && Absent(h.code, |l.g.code|, Label(ForEndL, l.fors))
    decreases pre, 2
  {
    hide GenProg;
    var first, mid, last := Label(ForL, l.fors), Label(For2L, l.fors), Label(ForEndL, l.fors);
    BeginBlock(l, open, open.g, first);
    OnlyOpens(l, open.g, first, mid);
    OnlyOpens(l, open.g, first, last);
    ProgLabels(m, pre, open);
    var x := GenProg(m, pre, open).value;
    OpensFor(m, v, l.fors, x.g);
    var h := GenFor(m, v, l.fors, x.g).value;
    NextLabel(l, open, x, h, mid);
    StillAbsent(l, open, x, h, mid, last);
  }

  lemma ForTailLabels(m: Mode, body: Stmt, l: Low, open: Low, k: nat)
    requires NewLabels(l, open) && Ready(open.g) && "" !in m.declared && GenProg(m, body, open).Some?
    requires l.fors <= k < open.fors && Absent(open.g.code, |l.g.code|, Label(ForEndL, k))
    ensures var z := GenProg(m, body, open).value;
            NewLabels(l, z.(g := GenNext(m, k, z.g))) && Ready(GenNext(m, k, z.g))
    decreases body, 2
  {
    hide GenProg;
    ProgLabels(m, body, open);
    var z := GenProg(m, body, open).value;
    var g := Emit(z.g, [Jmp(Label(ForL, k)), Here(Label(ForEndL, k))]);
    assert Opens(z.g, g, Label(ForEndL, k));
    NextLabel(l, open, z, g, Label(ForEndL, k));
    SameCode(l, z.(g := g), GenNext(m, k, z.g));
  }

  // Every label of the program is defined where the assembler finds it.
  ghost predicate Unambiguous(prog: seq<Instr>) {
    forall i {:trigger Target(prog, prog[i].l)} | 0 <= i < |prog| && prog[i].Here? :: Target(prog, prog[i].l) == i
  }

  // Without double definitions the assembler's choice is the only definition.
  lemma DistinctUnambiguous(prog: seq<Instr>)
    requires Distinct(prog, 0)
    ensures Unambiguous(prog)
  {
    forall i | 0 <= i < |prog| && prog[i].Here?
      ensures Target(prog, prog[i].l) == i
    {
      var j := Target(prog, prog[i].l);
      assert j != -1 && prog[j] == Here(prog[i].l);
    }
  }

  lemma OnlyTarget(prog: seq<Instr>, k: nat, b: Label)
    requires Unambiguous(prog) && k < |prog| && prog[k] == Here(b)
    ensures Target(prog, b) == k
  {
    assert prog[k].l == b;
  }
}
