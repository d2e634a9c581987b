// How many labels a program's code has: known from the source, and what decides whether the
// assembler's label table has room for them.
module LabelCount {
  import opened Infix
  import opened Shunt
  import opened Registers
  import opened Machine
  import opened Codegen
  import opened Lowering
  import opened LoweringCorrect
  import opened Labels
  import opened Assembly
  import A = Assembler

  // Two for an if, three for an if+ with else, two for a case, one for a while and three for a for.
  function Count(p: Stmt): nat {
    match p
    case Skip => 0
    case Seq(a, b) => Count(a) + Count(b)
    case Assign(_, _, _) => 0
    case If(_, body) => 2 + Count(body)
    case IfElse(_, a, b) => 3 + Count(a) + Count(b)
    case Switch(body) => Count(body)
    case Case(_, _, body) => 2 + Count(body)
    case DoWhile(body, _) => 1 + Count(body)
    case For(pre, _, body) => 3 + Count(pre) + Count(body)
  }

  // Label definitions in a list of instructions.
  function Heres(code: seq<Instr>): nat {
    if code == [] then 0 else Heres(code[..|code| - 1]) + if code[|code| - 1].Here? then 1 else 0
  }

  lemma {:induction false} HeresAppend(a: seq<Instr>, b: seq<Instr>)
    ensures Heres(a + b) == Heres(a) + Heres(b)
    decreases |b|
  {
    if b == [] {
      assert a + b == a;
    } else {
      var last := |b| - 1;
      assert (a + b)[..|a| + last] == a + b[..last];
      HeresAppend(a, b[..last]);
    }
  }

  lemma {:induction false} HeresNone(b: seq<Instr>)
    requires forall i | 0 <= i < |b| :: !b[i].Here?
    ensures Heres(b) == 0
  {
    if b != [] { HeresNone(b[..|b| - 1]); }
  }

  // h's code is g's and n labels more.
  ghost predicate Adds(g: Gen, h: Gen, n: int) {
    Heres(h.code) == Heres(g.code) + n
  }

  lemma AddsNone(g: Gen, h: Gen)
    requires g.code <= h.code && forall i | |g.code| <= i < |h.code| :: !h.code[i].Here?
    ensures Adds(g, h, 0)
  {
    var b := h.code[|g.code|..];
    assert h.code == g.code + b;
    HeresAppend(g.code, b);
    HeresNone(b);
  }

  lemma AddsEmitted(g: Gen, code: seq<Instr>)
    ensures Adds(g, Emit(g, code), Heres(code))
  {
    HeresAppend(g.code, code);
  }

  lemma HeresOne(i: Instr)
    ensures Heres([i]) == if i.Here? then 1 else 0
  {
    assert [i][..0] == [];
  }

  lemma HeresTwo(i: Instr, j: Instr)
    ensures Heres([i, j]) == Heres([i]) + Heres([j])
  {
    HeresAppend([i], [j]);
    assert [i] + [j] == [i, j];
  }

  lemma HeresThree(i: Instr, j: Instr, k: Instr)
    ensures Heres([i, j, k]) == Heres([i]) + Heres([j]) + Heres([k])
  {
    HeresTwo(i, j);
    HeresAppend([i, j], [k]);
    assert [i, j] + [k] == [i, j, k];
  }

  lemma CondAdds(m: Mode, v: string, g: Gen)
    requires GenCond(m, v, g).Some? && Ready(g) && "" !in m.declared
    ensures Adds(g, GenCond(m, v, g).value, 0) && Ready(GenCond(m, v, g).value)
  {
    CondShape(m, v, g);
    AddsNone(g, GenCond(m, v, g).value);
  }

  lemma TestAdds(m: Mode, v: string, yes: Label, no: Label, g: Gen)
    requires GenTest(m, v, yes, no, g).Some? && Ready(g) && "" !in m.declared
    ensures Adds(g, GenTest(m, v, yes, no, g).value, 1) && Ready(GenTest(m, v, yes, no, g).value)
  {
    CondAdds(m, v, InitIf(m, g));
    var h := GenCond(m, v, InitIf(m, g)).value;
    AddsEmitted(h, [JmpI(h.loadReg, yes), Jmp(no), Here(yes)]);
    HeresThree(JmpI(h.loadReg, yes), Jmp(no), Here(yes));
    HeresOne(JmpI(h.loadReg, yes));
    HeresOne(Jmp(no));
    HeresOne(Here(yes));
  }

  lemma CaseAdds(m: Mode, x: string, y: string, k: nat, g: Gen)
    requires GenCase(m, x, y, k, g).Some? && Ready(g) && "" !in m.declared
    ensures Adds(g, GenCase(m, x, y, k, g).value, 1) && Ready(GenCase(m, x, y, k, g).value)
  {
    CondAdds(m, y, InitIf(m, g));
    var h1 := GenCond(m, y, InitIf(m, g)).value;
    CondAdds(m, x, h1);
    var h2 := GenCond(m, x, h1).value;
    var d := NextFree(h2.table);
    var i, j, u, w := Alu('E', h1.loadReg, h2.loadReg, d), JmpI(d, Label(IfL, k)), Jmp(Label(EndIfL, k)), Here(Label(IfL, k));
    AddsEmitted(h2, [i, j, u, w]);
    assert [i] + [j, u, w] == [i, j, u, w];
    HeresAppend([i], [j, u, w]);
    HeresThree(j, u, w);
    HeresOne(i);
    HeresOne(j);
    HeresOne(u);
    HeresOne(w);
  }

  // A label alone, a jump with a label, or a jump alone.
  lemma EmitAdds(g: Gen, i: Instr, j: Instr)
    ensures Adds(g, Emit(g, [i]), if i.Here? then 1 else 0)
    ensures Adds(g, Emit(g, [i, j]), (if i.Here? then 1 else 0) + if j.Here? then 1 else 0)
  {
    AddsEmitted(g, [i]);
    AddsEmitted(g, [i, j]);
    HeresTwo(i, j);
    HeresOne(i);
    HeresOne(j);
  }

  lemma InitAdds(m: Mode, g: Gen)
    requires Ready(g)
    ensures Heres(InitIf(m, g).code) == Heres(g.code) && Ready(InitIf(m, g))
  {
  }

  // Code generated by structure has exactly the labels counted.
  lemma {:induction false} ProgAdds(m: Mode, p: Stmt, l: Low)
    requires GenProg(m, p, l).Some? && Ready(l.g) && "" !in m.declared
    ensures Adds(l.g, GenProg(m, p, l).value.g, Count(p)) && Ready(GenProg(m, p, l).value.g)
    decreases p, 1
  {
    hide GenProg;
    hide Heres;
    hide Ready;
    hide GenStmt;
    hide GenTest;
    GenProgIs(m, p, l);
    match p
    case Skip =>
    case Seq(a, b) =>
      ProgAdds(m, a, l);
      ProgAdds(m, b, GenProg(m, a, l).value);
    case Assign(_, target, e) =>
      StmtAdds(m, e, target, l.g);
    case If(v, body) =>
      TestAdds(m, v, Label(IfL, l.ifs), Label(EndIfL, l.ifs), l.g);
      BodyAdds(m, body, l.(g := GenIf(m, v, l.ifs, EndIfL, l.g).value, ifs := l.ifs + 1), l.ifs);
    case IfElse(v, a, b) =>
      TestAdds(m, v, Label(IfL, l.ifs), Label(ElseL, l.ifs), l.g);
      var x := l.(g := GenIf(m, v, l.ifs, ElseL, l.g).value, ifs := l.ifs + 1);
      ProgAdds(m, a, x);
      var y := GenProg(m, a, x).value;
      InitAdds(m, y.g);
      EmitAdds(InitIf(m, y.g), Jmp(Label(EndIfL, l.ifs)), Here(Label(ElseL, l.ifs)));
      StillReady(InitIf(m, y.g), [Jmp(Label(EndIfL, l.ifs)), Here(Label(ElseL, l.ifs))]);
      BodyAdds(m, b, y.(g := GenElse(m, l.ifs, y.g)), l.ifs);
    case Switch(body) =>
      InitAdds(m, l.g);
      var x := l.(g := InitIf(m, l.g), switches := l.switches + 1);
      ProgAdds(m, body, x);
      InitAdds(m, GenProg(m, body, x).value.g);
    case Case(v, w, body) =>
      CaseAdds(m, v, w, l.ifs, l.g);
      BodyAdds(m, body, l.(g := GenCase(m, v, w, l.ifs, l.g).value, ifs := l.ifs + 1), l.ifs);
    case DoWhile(body, v) => WhileAdds(m, body, v, l);
    case For(pre, v, body) => ForAdds(m, pre, v, body, l);
  }

  lemma StmtAdds(m: Mode, e: Expr<string>, target: string, g: Gen)
    requires GenStmt(Postfix(e), target, m.declared, m.noPull, g).Some? && Ready(g) && "" !in m.declared
    ensures var h := GenStmt(Postfix(e), target, m.declared, m.noPull, g).value; Adds(g, h, 0) && Ready(h)
  {
    StmtShape(m, e, target, g);
    AddsNone(g, GenStmt(Postfix(e), target, m.declared, m.noPull, g).value);
  }

  lemma StillReady(g: Gen, code: seq<Instr>)
    requires Ready(g)
    ensures Ready(Emit(g, code))
  {
  }

  // A body with the label behind it.
  lemma BodyAdds(m: Mode, body: Stmt, x: Low, k: nat)
    requires GenProg(m, body, x).Some? && Ready(x.g) && "" !in m.declared
    ensures var y := GenProg(m, body, x).value.g; Adds(x.g, GenEndIf(m, k, y), Count(body) + 1) && Ready(GenEndIf(m, k, y))
    decreases body, 2
  {
    hide GenProg;
    hide Heres;
    ProgAdds(m, body, x);
    var y := GenProg(m, body, x).value.g;
    EmitAdds(y, Here(Label(EndIfL, k)), Here(Label(EndIfL, k)));
    StillReady(y, [Here(Label(EndIfL, k))]);
    InitAdds(m, Emit(y, [Here(Label(EndIfL, k))]));
  }

  lemma WhileAdds(m: Mode, body: Stmt, v: string, l: Low)
    requires GenProg(m, DoWhile(body, v), l).Some? && Ready(l.g) && "" !in m.declared
    ensures var y := GenProg(m, DoWhile(body, v), l).value.g; Adds(l.g, y, Count(DoWhile(body, v))) && Ready(y)
    decreases DoWhile(body, v), 0
  {
    hide GenProg;
    hide Heres;
    GenProgIs(m, DoWhile(body, v), l);
    InitAdds(m, l.g);
    EmitAdds(InitIf(m, l.g), Here(Label(WhileL, l.whiles)), Here(Label(WhileL, l.whiles)));
    StillReady(InitIf(m, l.g), [Here(Label(WhileL, l.whiles))]);
    var x := l.(g := GenDo(m, l.whiles, l.g), whiles := l.whiles + 1);
    ProgAdds(m, body, x);
    var y := GenProg(m, body, x).value.g;
    CondAdds(m, v, y);
    var h := GenCond(m, v, y).value;
    var i := JmpI(h.loadReg, Label(WhileL, l.whiles));
    EmitAdds(h, i, i);
    StillReady(h, [i]);
  }

  lemma ForAdds(m: Mode, pre: Stmt, v: string, body: Stmt, l: Low)
    requires GenProg(m, For(pre, v, body), l).Some? && Ready(l.g) && "" !in m.declared
    ensures var y := GenProg(m, For(pre, v, body), l).value.g; Adds(l.g, y, Count(For(pre, v, body))) && Ready(y)
    decreases For(pre, v, body), 0
  {
    hide GenProg;
    hide Heres;
    hide GenFor;
    GenProgIs(m, For(pre, v, body), l);
    InitAdds(m, l.g);
    EmitAdds(InitIf(m, l.g), Here(Label(ForL, l.fors)), Here(Label(ForL, l.fors)));
    StillReady(InitIf(m, l.g), [Here(Label(ForL, l.fors))]);
    var x := l.(g := GenForLoop(m, l.fors, l.g), fors := l.fors + 1);
    ProgAdds(m, pre, x);
    var y := GenProg(m, pre, x).value;
    ForTestAdds(m, v, l.fors, y.g);
    var z := y.(g := GenFor(m, v, l.fors, y.g).value);
    ProgAdds(m, body, z);
    var w := GenProg(m, body, z).value.g;
    var i, j := Jmp(Label(ForL, l.fors)), Here(Label(ForEndL, l.fors));
    EmitAdds(w, i, j);
    StillReady(w, [i, j]);
    InitAdds(m, Emit(w, [i, j]));
  }

  lemma ForTestAdds(m: Mode, v: string, k: nat, g: Gen)
    requires GenFor(m, v, k, g).Some? && Ready(g) && "" !in m.declared
    ensures Adds(g, GenFor(m, v, k, g).value, 1) && Ready(GenFor(m, v, k, g).value)
  {
    TestAdds(m, v, Label(For2L, k), Label(ForEndL, k), g);
  }

  // ---- compiled code ----

  ghost function Defined(code: seq<Instr>): set<string> {
    if code == [] then {}
    else
      var i := code[|code| - 1];
      Defined(code[..|code| - 1]) + if i.Here? then {LabelText(i.l)} else {}
  }

  ghost function Used(code: seq<Instr>): set<string> {
    if code == [] then {}
    else
      var i := code[|code| - 1];
      Used(code[..|code| - 1]) + if i.Jmp? || i.JmpI? then {LabelText(i.target)} else {}
  }

  lemma {:induction false} DefinedMeans(code: seq<Instr>)
    ensures forall x :: x in Defined(code) <==> exists k :: 0 <= k < |code| && code[k].Here? && LabelText(code[k].l) == x
  {
    if code != [] {
      var last := |code| - 1;
      DefinedMeans(code[..last]);
      assert forall k | 0 <= k < last :: code[..last][k] == code[k];
    }
  }

  lemma {:induction false} UsedMeans(code: seq<Instr>, x: string)
    requires x in Used(code)
    ensures exists k :: 0 <= k < |code| && (code[k].Jmp? || code[k].JmpI?) && LabelText(code[k].target) == x
  {
    var last := |code| - 1;
    var i := code[last];
    if !((i.Jmp? || i.JmpI?) && LabelText(i.target) == x) {
      UsedMeans(code[..last], x);
      var k :| 0 <= k < last && (code[k].Jmp? || code[k].JmpI?) && LabelText(code[k].target) == x;
    }
  }

  // Labels defined once each are as many as their definitions.
  lemma {:induction false} DefinedCount(code: seq<Instr>)
    requires Distinct(code, 0)
    ensures |Defined(code)| == Heres(code)
  {
    if code != [] {
      var last := |code| - 1;
      assert Distinct(code[..last], 0);
      DefinedCount(code[..last]);
      if code[last].Here? {
        DefinedMeans(code[..last]);
        forall k | 0 <= k < last && code[k].Here?
          ensures LabelText(code[k].l) != LabelText(code[last].l)
        {
          if LabelText(code[k].l) == LabelText(code[last].l) { LabelsDiffer(code[k].l, code[last].l); }
        }
        assert LabelText(code[last].l) !in Defined(code[..last]);
      }
    }
  }

  lemma {:induction false} NamedIs(code: seq<Instr>, data: A.SymbolTable)
    requires A.AllOk(ToLines(code), data)
    ensures A.Named(ToLines(code), data) == Defined(code) + Used(code)
  {
    if code != [] {
      var last := |code| - 1;
      var ls := ToLines(code);
      assert ls[..last] == ToLines(code[..last]) && ls[last] == ToLine(code[last]);
      assert A.LineOk(ls[last], data);
      hide A.LineOk;
      hide ToLine;
      NamedIs(code[..last], data);
      LineNames(code[last], data);
    }
  }

  lemma LineNames(i: Instr, data: A.SymbolTable)
    requires A.LineOk(ToLine(i), data)
    ensures A.NamedIn(ToLine(i))
         == (if i.Here? then {LabelText(i.l)} else {}) + if i.Jmp? || i.JmpI? then {LabelText(i.target)} else {}
  {
    match i
    case Alu(op, _, _, _) => assert A.LabelArg(OpCode(op)) == -1;
    case _ =>
  }

  // The labels of code whose jumps all land and whose labels are defined once.
  lemma NamedCount(code: seq<Instr>, data: A.SymbolTable)
    requires A.AllOk(ToLines(code), data) && Lands(code, {}) && Distinct(code, 0)
    ensures |A.Named(ToLines(code), data)| == Heres(code)
  {
    NamedIs(code, data);
    DefinedCount(code);
    DefinedMeans(code);
    forall x | x in Used(code)
      ensures x in Defined(code)
    {
      UsedMeans(code, x);
      var k :| 0 <= k < |code| && (code[k].Jmp? || code[k].JmpI?) && LabelText(code[k].target) == x;
      assert code[k] in code;
      var j :| 0 <= j < |code| && code[j] == Here(code[k].target);
    }
    assert Defined(code) + Used(code) == Defined(code);
  }

  // ---- more labels than the assembler's table holds ----

  // n times an if+ with empty branches.
  function Ifs(n: nat, v: string): Stmt {
    if n == 0 then Skip else Seq(IfElse(v, Skip, Skip), Ifs(n - 1, v))
  }

  // n times a for loop with an empty body.
  function Fors(n: nat, v: string): Stmt {
    if n == 0 then Skip else Seq(For(Skip, v, Skip), Fors(n - 1, v))
  }

  lemma {:induction false} IfsCompile(m: Mode, n: nat, v: string, l: Low)
    requires m.nested && v in m.declared && v != ""
    ensures WellFormed(Ifs(n, v)) && Count(Ifs(n, v)) == 3 * n
    ensures GenProg(m, Ifs(n, v), l).Some? && GenProg(m, Ifs(n, v), l).value.fors == l.fors
  {
    hide GenProg;
    GenProgIs(m, Ifs(n, v), l);
    if n > 0 {
      OneIf(m, v, l);
      assert Count(Skip) == 0 && Count(IfElse(v, Skip, Skip)) == 3;
      IfsCompile(m, n - 1, v, GenProg(m, IfElse(v, Skip, Skip), l).value);
    }
  }

  lemma {:induction false} FirstLoad(m: Mode, v: string, g: Gen)
    requires m.nested && v in m.declared && v != ""
    ensures GenCond(m, v, InitIf(m, g)).Some?
  {
    assert Empty()[1] == "";
    assert Lookup(Empty(), v) == -1;
    assert NextFree(Empty()) != -1;
  }

  lemma OneIf(m: Mode, v: string, l: Low)
    requires m.nested && v in m.declared && v != ""
    ensures GenProg(m, IfElse(v, Skip, Skip), l).Some?
    ensures var x := GenProg(m, IfElse(v, Skip, Skip), l).value; x.ifs == l.ifs + 1 && x.fors == l.fors
  {
    hide GenProg;
    FirstLoad(m, v, l.g);
    hide GenCond;
    GenProgIs(m, IfElse(v, Skip, Skip), l);
    var x := l.(g := GenIf(m, v, l.ifs, ElseL, l.g).value, ifs := l.ifs + 1);
    GenProgIs(m, Skip, x);
    GenProgIs(m, Skip, x.(g := GenElse(m, l.ifs, x.g)));
  }

  lemma {:induction false} ForsCompile(m: Mode, n: nat, v: string, l: Low)
    requires m.nested && v in m.declared && v != ""
    ensures WellFormed(Fors(n, v)) && Count(Fors(n, v)) == 3 * n
    ensures GenProg(m, Fors(n, v), l).Some?
  {
    hide GenProg;
    GenProgIs(m, Fors(n, v), l);
    if n > 0 {
      OneFor(m, v, l);
      assert Count(Skip) == 0 && Count(For(Skip, v, Skip)) == 3;
      ForsCompile(m, n - 1, v, GenProg(m, For(Skip, v, Skip), l).value);
    }
  }

  lemma OneFor(m: Mode, v: string, l: Low)
    requires m.nested && v in m.declared && v != ""
    ensures GenProg(m, For(Skip, v, Skip), l).Some?
    ensures GenProg(m, For(Skip, v, Skip), l).value.fors == l.fors + 1
  {
    hide GenProg;
    GenProgIs(m, For(Skip, v, Skip), l);
    var x := l.(g := GenForLoop(m, l.fors, l.g), fors := l.fors + 1);
    GenProgIs(m, Skip, x);
    FirstLoad(m, v, x.g);
    hide GenCond;
    GenProgIs(m, Skip, x.(g := GenFor(m, v, l.fors, x.g).value));
  }

  lemma {:induction false} BlocksOfIfs(n: nat, v: string)
    ensures Blocks(Ifs(n, v)) == Slots(n, 0, 0, 0)
  {
    hide *;
    if n == 0 {
      assert Blocks(Ifs(0, v)) == Slots(0, 0, 0, 0) by { BlocksOfEach(v, Skip, Skip); NoIfs(v); }
    } else {
      OneMore(n, v);
      BlocksOfEach(v, Ifs(n - 1, v), Fors(n - 1, v));
      BlocksOfIfs(n - 1, v);
      PlusOne(n - 1);
    }
  }

  lemma {:induction false} BlocksOfFors(n: nat, v: string)
    ensures Blocks(Fors(n, v)) == Slots(0, 0, n, 0)
  {
    hide *;
    if n == 0 {
      assert Blocks(Fors(0, v)) == Slots(0, 0, 0, 0) by { BlocksOfEach(v, Skip, Skip); NoIfs(v); }
    } else {
      OneMore(n, v);
      BlocksOfEach(v, Ifs(n - 1, v), Fors(n - 1, v));
      BlocksOfFors(n - 1, v);
      PlusOne(n - 1);
    }
  }

  lemma NoIfs(v: string)
    ensures Ifs(0, v) == Skip && Fors(0, v) == Skip
  {
  }

  lemma OneMore(n: nat, v: string)
    requires n > 0
    ensures Ifs(n, v) == Seq(IfElse(v, Skip, Skip), Ifs(n - 1, v))
    ensures Fors(n, v) == Seq(For(Skip, v, Skip), Fors(n - 1, v))
  {
  }

  lemma PlusOne(n: nat)
    ensures Slots(1, 0, 0, 0).Plus(Slots(n, 0, 0, 0)) == Slots(n + 1, 0, 0, 0)
    ensures Slots(0, 0, 1, 0).Plus(Slots(0, 0, n, 0)) == Slots(0, 0, n + 1, 0)
  {
  }

  lemma BlocksOfEach(v: string, p: Stmt, q: Stmt)
    ensures Blocks(Skip) == Slots(0, 0, 0, 0)
    ensures Blocks(Seq(IfElse(v, Skip, Skip), p)) == Slots(1, 0, 0, 0).Plus(Blocks(p))
    ensures Blocks(Seq(For(Skip, v, Skip), q)) == Slots(0, 0, 1, 0).Plus(Blocks(q))
  {
    hide *;
    Nothing(Slots(1, 0, 0, 0));
    Nothing(Slots(0, 0, 1, 0));
    BlocksIs(Skip);
    BlocksIs(IfElse(v, Skip, Skip));
    BlocksIs(For(Skip, v, Skip));
    BlocksIs(Seq(IfElse(v, Skip, Skip), p));
    BlocksIs(Seq(For(Skip, v, Skip), q));
  }

  lemma Nothing(s: Slots)
    ensures s.Plus(Slots(0, 0, 0, 0)) == s
  {
  }

  lemma BothFit(v: string, i: nat, f: nat)
    requires i <= MAXSLOTS && f <= MAXSLOTS
    ensures SlotsFit(Seq(Ifs(i, v), Fors(f, v)))
  {
    BlocksOfIfs(i, v);
    BlocksOfFors(f, v);
    BlocksIs(Seq(Ifs(i, v), Fors(f, v)));
    hide Blocks;
    hide Ifs;
    hide Fors;
  }

  // Every slot of the if table and 342 loops: the compiler takes this program, the assembler does not.
  lemma TooManyLabels(m: Mode, v: string, l: Low)
    requires m.nested && v in m.declared && v != "" && l.ifs == 0 && l.fors == 0
    ensures var p := Seq(Ifs(1024, v), Fors(342, v));
            WellFormed(p) && SlotsFit(p) && GenProg(m, p, l).Some? && Count(p) == 4098 > A.MAXLABELS
  {
    hide GenProg;
    BothFit(v, 1024, 342);
    hide SlotsFit;
    GenProgIs(m, Seq(Ifs(1024, v), Fors(342, v)), l);
    IfsCompile(m, 1024, v, l);
    ForsCompile(m, 342, v, GenProg(m, Ifs(1024, v), l).value);
  }
}
