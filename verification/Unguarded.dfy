// What a full slot table does to a program: 1024 `?` blocks compile as they should, the next one has no
// jumps, and its body always runs.
module Unguarded {
  import opened Infix
  import opened Shunt
  import opened Convert
  import opened Statement
  import opened Registers
  import opened Machine
  import opened Codegen
  import opened Budget
  import opened Lowering
  import opened LoweringCorrect
  import opened Labels
  import opened Simulation
  import opened Program
  import opened Planning
  import opened SlotLimits

  // n times the same statement.
  function Repeat(n: nat, q: Stmt): Stmt {
    if n == 0 then Skip else Seq(Repeat(n - 1, q), q)
  }

  // An assignment's line generates what its expression generates, and leaves the slots alone.
  lemma AssignLine(m: Mode, line: Line, target: string, e: Expr<string>, c: Comp)
    requires Denotes(line, target, e)
    ensures DoLine(m, line, c).Some? <==> GenStmt(Postfix(e), target, m.declared, m.noPull, c.g).Some?
    ensures DoLine(m, line, c).Some? ==>
              var d := DoLine(m, line, c).value;
              && Some(d.g) == GenStmt(Postfix(e), target, m.declared, m.noPull, c.g)
              && d.ifs == c.ifs && d.whiles == c.whiles && d.fors == c.fors && d.switches == c.switches
  {
    if line.LInfix? { InfixLineParses(c.stk, line.text, target, e); }
    hide GenStmt;
    hide ConvertLine;
    hide Parse;
    hide InfixLine;
  }

  // The block `x y ?`, `{target = e}`, `break`.
  function Block(x: string, y: string, line: Line, target: string, e: Expr<string>): Stmt {
    Case(x, y, Assign(line, target, e))
  }

  // The source of the block can be compiled.
  ghost predicate Usable(m: Mode, x: string, y: string, line: Line, target: string, e: Expr<string>) {
    && Standing(m) && Denotes(line, target, e) && PlanCase(x, y, m.declared).Some?
    && PlanAssign(e, target, m.declared, PlanCase(x, y, m.declared).value).Some?
  }

  // `x y ?` without a slot, and with one.
  lemma BareCasePlan(m: Mode, x: string, y: string, k: nat, g: Gen)
    ensures GenBareCase(m, x, y, g).Some? <==> GenCase(m, x, y, k, g).Some?
    ensures GenBareCase(m, x, y, g).Some? ==> GenBareCase(m, x, y, g).value.table == GenCase(m, x, y, k, g).value.table
  {
    hide GenCond;
  }

  // The block is accepted whatever the slot tables hold.
  lemma BlockAccepted(m: Mode, x: string, y: string, line: Line, target: string, e: Expr<string>, c: Comp)
    requires Usable(m, x, y, line, target, e)
    ensures DoLines(m, Lines(Block(x, y, line, target, e)), c).Some?
  {
    hide *;
    UsableIs(m, x, y, line, target, e);
    BlockLines(m, x, y, line, target, e, c);
    CaseAccepted(m, x, y, c);
    var d := DoLine(m, LCase(x, y), c).value;
    AssignPlan(e, target, m.declared, d.g, PlanCase(x, y, m.declared).value);
    AssignLine(m, line, target, e, d);
    BreakAccepted(m, DoLine(m, line, d).value);
  }

  lemma UsableIs(m: Mode, x: string, y: string, line: Line, target: string, e: Expr<string>)
    requires Usable(m, x, y, line, target, e)
    ensures Standing(m) && Distinguished(m.declared) && !m.noPull && Denotes(line, target, e) && PlanCase(x, y, m.declared).Some?
    ensures PlanAssign(e, target, m.declared, PlanCase(x, y, m.declared).value).Some?
  {
  }

  // The three lines of the block, one after the other.
  lemma BlockLines(m: Mode, x: string, y: string, line: Line, target: string, e: Expr<string>, c: Comp)
    ensures DoLines(m, Lines(Block(x, y, line, target, e)), c)
         == match DoLine(m, LCase(x, y), c)
            case None => None
            case Some(d) =>
              match DoLine(m, line, d)
              case None => None
              case Some(f) => DoLine(m, LBreak, f)
  {
    hide *;
    BlockIs(x, y, line, target, e);
    DoBlock(m, LCase(x, y), [line], LBreak, c);
    if DoLine(m, LCase(x, y), c).Some? { DoLinesOne(m, line, DoLine(m, LCase(x, y), c).value); }
  }

  lemma BreakAccepted(m: Mode, c: Comp)
    ensures DoLine(m, LBreak, c).Some?
  {
  }

  lemma CaseAccepted(m: Mode, x: string, y: string, c: Comp)
    requires Standing(m) && PlanCase(x, y, m.declared).Some?
    ensures DoLine(m, LCase(x, y), c).Some?
    ensures As(DoLine(m, LCase(x, y), c).value.g.table, m.declared, PlanCase(x, y, m.declared).value)
  {
    var k := FreeIf(c.ifs, 0);
    var n := if k == -1 then 0 else k;
    CasePlan(m, x, y, n, c.g);
    BareCasePlan(m, x, y, n, c.g);
    hide GenCase;
    hide GenBareCase;
    hide PlanCase;
    hide As;
  }

  lemma {:induction false} BlocksAccepted(m: Mode, n: nat, x: string, y: string, line: Line, target: string, e: Expr<string>, c: Comp)
    requires Usable(m, x, y, line, target, e)
    ensures DoLines(m, Lines(Repeat(n, Block(x, y, line, target, e))), c).Some?
  {
    hide *;
    var q := Block(x, y, line, target, e);
    RepeatLines(n, q);
    if n == 0 {
      NoLine(m, c);
    } else {
      DoLinesAppend(m, Lines(Repeat(n - 1, q)), Lines(q), c);
      BlocksAccepted(m, n - 1, x, y, line, target, e, c);
      BlockAccepted(m, x, y, line, target, e, DoLines(m, Lines(Repeat(n - 1, q)), c).value);
    }
  }

  lemma RepeatLines(n: nat, q: Stmt)
    ensures Lines(Repeat(n, q)) == if n == 0 then [] else Lines(Repeat(n - 1, q)) + Lines(q)
  {
  }

  lemma NoLine(m: Mode, c: Comp)
    ensures DoLines(m, [], c) == Some(c)
  {
  }

  lemma {:induction false} RepeatCounts(n: nat, x: string, y: string, line: Line, target: string, e: Expr<string>)
    requires Denotes(line, target, e)
    ensures var p := Repeat(n, Block(x, y, line, target, e)); WellFormed(p) && Blocks(p) == Slots(n, 0, 0, 0) && Cases(p) == n
  {
    hide *;
    var q := Block(x, y, line, target, e);
    RepeatParts(n, q);
    BlockParts(x, y, line, target, e);
    if n > 0 {
      RepeatCounts(n - 1, x, y, line, target, e);
      OneMore(n - 1);
    }
  }

  lemma RepeatParts(n: nat, q: Stmt)
    ensures n == 0 ==> WellFormed(Repeat(n, q)) && Blocks(Repeat(n, q)) == Slots(0, 0, 0, 0) && Cases(Repeat(n, q)) == 0
    ensures n > 0 ==> (WellFormed(Repeat(n, q)) <==> WellFormed(Repeat(n - 1, q)) && WellFormed(q))
    ensures n > 0 ==> Blocks(Repeat(n, q)) == Blocks(Repeat(n - 1, q)).Plus(Blocks(q))
    ensures n > 0 ==> Cases(Repeat(n, q)) == Cases(Repeat(n - 1, q)) + Cases(q)
  {
    BlocksIs(Repeat(n, q));
    hide Blocks;
  }

  lemma BlockParts(x: string, y: string, line: Line, target: string, e: Expr<string>)
    requires Denotes(line, target, e)
    ensures var q := Block(x, y, line, target, e); WellFormed(q) && Blocks(q) == Slots(1, 0, 0, 0) && Cases(q) == 1
  {
    hide *;
    BlockCases(x, y, line, target, e);
    BlockIs(x, y, line, target, e);
    BlocksIs(Block(x, y, line, target, e));
    BlocksIs(Assign(line, target, e));
    OneMore(0);
  }

  lemma BlockIs(x: string, y: string, line: Line, target: string, e: Expr<string>)
    ensures Block(x, y, line, target, e) == Case(x, y, Assign(line, target, e))
    ensures Lines(Block(x, y, line, target, e)) == [LCase(x, y)] + [line] + [LBreak]
  {
  }

  lemma BlockCases(x: string, y: string, line: Line, target: string, e: Expr<string>)
    requires Denotes(line, target, e)
    ensures WellFormed(Block(x, y, line, target, e)) && Cases(Block(x, y, line, target, e)) == 1
  {
    hide Denotes;
  }

  lemma OneMore(n: nat)
    ensures Slots(n, 0, 0, 0).Plus(Slots(1, 0, 0, 0)) == Slots(n + 1, 0, 0, 0)
    ensures Slots(1, 0, 0, 0).Plus(Slots(n, 0, 0, 0)) == Slots(n + 1, 0, 0, 0)
  {
  }

  // Behind as many blocks as the table has slots no slot is unused and none is open.
  lemma AllTaken(m: Mode, x: string, y: string, line: Line, target: string, e: Expr<string>)
    requires Usable(m, x, y, line, target, e)
    ensures var p := Repeat(MAXSLOTS, Block(x, y, line, target, e));
            && DoLines(m, Lines(p), Start()).Some?
            && var c := DoLines(m, Lines(p), Start()).value;
               FreeIf(c.ifs, 0) == -1 && LastIf(c.ifs, false, |c.ifs|) == -1
  {
    hide *;
    var p := Repeat(MAXSLOTS, Block(x, y, line, target, e));
    UsableIs(m, x, y, line, target, e);
    BlocksAccepted(m, MAXSLOTS, x, y, line, target, e, Start());
    RepeatCounts(MAXSLOTS, x, y, line, target, e);
    var l := Low(Start().g, 0, 0, 0, 0);
    StartRelates(p, l);
    LinesAgree(m, p, Start(), l);
    var c := DoLines(m, Lines(p), Start()).value;
    NoSlotLeft(m, p, c, l);
  }

  lemma StartRelates(p: Stmt, l: Low)
    requires Blocks(p) == Slots(MAXSLOTS, 0, 0, 0) && l == Low(Start().g, 0, 0, 0, 0)
    ensures Rel(Start(), l) && Room(p, Taken(l))
  {
    hide Blocks;
  }

  lemma NoSlotLeft(m: Mode, p: Stmt, c: Comp, l: Low)
    requires Blocks(p) == Slots(MAXSLOTS, 0, 0, 0) && l == Low(Start().g, 0, 0, 0, 0)
    requires Agrees(Some(c), Start(), l, GenProg(m, p, l))
    ensures FreeIf(c.ifs, 0) == -1 && LastIf(c.ifs, false, |c.ifs|) == -1
  {
    hide *;
    AgreesIs(m, p, c, l);
    CountersAdd(m, p, l);
    TakenIs(l, GenProg(m, p, l).value);
    SlotsGone(Start().ifs, c.ifs);
  }

  lemma AgreesIs(m: Mode, p: Stmt, c: Comp, l: Low)
    requires Agrees(Some(c), Start(), l, GenProg(m, p, l)) && l.ifs == 0
    ensures GenProg(m, p, l).Some? && IfsTaken(c.ifs, GenProg(m, p, l).value.ifs) && IfsKept(Start().ifs, c.ifs, 0)
  {
    hide GenProg;
  }

  lemma TakenIs(l: Low, x: Low)
    requires l.ifs == l.whiles == l.fors == l.switches == 0 && Taken(x) == Taken(l).Plus(Slots(MAXSLOTS, 0, 0, 0))
    ensures x.ifs == MAXSLOTS
  {
  }

  lemma SlotsGone(t: seq<IfSlot>, u: seq<IfSlot>)
    requires IfsTaken(u, MAXSLOTS) && IfsKept(t, u, 0)
    ensures FreeIf(u, 0) == -1 && LastIf(u, false, |u|) == -1
  {
  }

  // ---- what the block without a slot does ----

  // The code of a block that finds no slot and no open block: comparison, body, and the label -1.
  lemma BareBlock(m: Mode, x: string, y: string, line: Line, target: string, e: Expr<string>, c: Comp) returns (h: Gen, f: Gen)
    requires Usable(m, x, y, line, target, e) && FreeIf(c.ifs, 0) == -1 && LastIf(c.ifs, false, |c.ifs|) == -1
    ensures GenBareCase(m, x, y, c.g) == Some(h) && GenStmt(Postfix(e), target, m.declared, false, h) == Some(f)
    ensures h.code <= f.code
    ensures DoLines(m, Lines(Block(x, y, line, target, e)), c).Some?
    ensures DoLines(m, Lines(Block(x, y, line, target, e)), c).value.g == GenEndIf(m, -1, f)
  {
    hide *;
    UsableIs(m, x, y, line, target, e);
    BlockLines(m, x, y, line, target, e, c);
    BlockAccepted(m, x, y, line, target, e, c);
    var d := DoLine(m, LCase(x, y), c).value;
    BareLine(m, x, y, c);
    CaseAccepted(m, x, y, c);
    AssignLine(m, line, target, e, d);
    h, f := d.g, DoLine(m, line, d).value.g;
    StmtGrows(m, e, target, h, f, PlanCase(x, y, m.declared).value);
    BareBreak(m, DoLine(m, line, d).value);
  }

  lemma BareLine(m: Mode, x: string, y: string, c: Comp)
    requires FreeIf(c.ifs, 0) == -1 && DoLine(m, LCase(x, y), c).Some?
    ensures GenBareCase(m, x, y, c.g) == Some(DoLine(m, LCase(x, y), c).value.g) && DoLine(m, LCase(x, y), c).value.ifs == c.ifs
  {
    hide GenBareCase;
  }

  lemma BareBreak(m: Mode, c: Comp)
    requires LastIf(c.ifs, false, |c.ifs|) == -1
    ensures DoLine(m, LBreak, c).value.g == GenEndIf(m, -1, c.g)
  {
  }

  lemma BareRuns(x: string, y: string, prog: seq<Instr>, env: Env, g: Gen, s: State) returns (n: nat, s': State)
    requires GenBareCase(Standard(env), x, y, g).Some? && Layout(env.layout) && Coherent(g.table, env, s)
    requires GenBareCase(Standard(env), x, y, g).value.code <= prog
    ensures var h := GenBareCase(Standard(env), x, y, g).value;
            x in Vars(env, s.mem) && y in Vars(env, s.mem) &&
            match env.alu('E', Vars(env, s.mem)[y], Vars(env, s.mem)[x])
            case None => Cycles(prog, env, n, At(|g.code|, s)) == Stopped
            case Some(_) =>
              && Cycles(prog, env, n, At(|g.code|, s)) == At(|h.code|, s')
              && Coherent(h.table, env, s') && s'.mem == s.mem
  {
    hide Coherent;
    hide LoadVariable;
    var m := Standard(env);
    var h1 := GenCond(m, y, InitIf(m, g)).value;
    var h2 := GenCond(m, x, h1).value;
    BareCode(m, x, y, g, h1, h2, prog);
    var s2: State;
    n, s2 := LoadBoth(x, y, prog, env, g, h1, h2, s);
    s' := CompareRuns(h1, h2, NextFree(h2.table), prog, env, s2, Vars(env, s.mem)[y], Vars(env, s.mem)[x]);
    CyclesAdd(prog, env, n, 1, At(|g.code|, s));
    n := n + 1;
  }

  lemma BareCode(m: Mode, x: string, y: string, g: Gen, h1: Gen, h2: Gen, prog: seq<Instr>)
    requires GenCond(m, y, InitIf(m, g)) == Some(h1) && GenCond(m, x, h1) == Some(h2)
    requires GenBareCase(m, x, y, g).Some? && GenBareCase(m, x, y, g).value.code <= prog
    ensures var d, q, h := NextFree(h2.table), |h2.code|, GenBareCase(m, x, y, g).value;
            && h1.code <= h2.code <= h.code && |h.code| == q + 1 && d > 0 && h.table == h2.table[d := "temp"]
            && prog[q] == Alu('E', h1.loadReg, h2.loadReg, d)
  {
    var q, h := |h2.code|, GenBareCase(m, x, y, g).value;
    assert prog[q] == h.code[q];
  }

  // An assignment within a longer program.
  lemma AssignRuns(e: Expr<string>, target: string, g: Gen, h: Gen, prog: seq<Instr>, env: Env, s: State) returns (n: nat, c: Config)
    requires GenStmt(Postfix(e), target, env.layout.Keys, false, g) == Some(h)
    requires Layout(env.layout) && h.code <= prog && Coherent(g.table, env, s)
    ensures c == Cycles(prog, env, n, At(|g.code|, s)) && g.code <= h.code
    ensures match Eval(e, target, env.alu, Vars(env, s.mem))
            case None => c == Stopped
            case Some(x) => c.At? && c.pc == |h.code| && Vars(env, c.s.mem) == Vars(env, s.mem)[target := x]
  {
    AssignCorrect(e, target, env, g, h, s);
    var code := Emitted(g, h);
    assert prog[|g.code|..|g.code| + |code|] == code;
    RunInside(prog, env, |g.code|, code, s);
    n := |code|;
    c := Cycles(prog, env, n, At(|g.code|, s));
  }

  // One `?` block more than the table has slots.  The compiler takes the program, whose source would
  // run the last body only for equal x and y; its code, from the start of the last block, gives the
  // target its value whatever x and y hold, and ends.
  lemma OneBlockTooMany(env: Env, x: string, y: string, line: Line, target: string, e: Expr<string>, s: State, v: int)
    returns (n: nat)
    requires Layout(env.layout) && Usable(Standard(env), x, y, line, target, e)
    requires var p := Repeat(MAXSLOTS, Block(x, y, line, target, e));
             DoLines(Standard(env), Lines(p), Start()).Some? ==> Coherent(DoLines(Standard(env), Lines(p), Start()).value.g.table, env, s)
    requires Eval(e, target, env.alu, Vars(env, s.mem)) == Some(v)
    requires x in Vars(env, s.mem) && y in Vars(env, s.mem) && env.alu('E', Vars(env, s.mem)[y], Vars(env, s.mem)[x]).Some?
    ensures var m, q := Standard(env), Block(x, y, line, target, e);
            var p := Repeat(MAXSLOTS + 1, q);
            && WellFormed(p) && ManyCases(p)
            && DoLines(m, Lines(Repeat(MAXSLOTS, q)), Start()).Some? && DoLines(m, Lines(p), Start()).Some?
            && var from, prog := |DoLines(m, Lines(Repeat(MAXSLOTS, q)), Start()).value.g.code|, DoLines(m, Lines(p), Start()).value.g.code;
               var end := Cycles(prog, env, n, At(from, s));
               end.At? && end.pc == |prog| && Vars(env, end.s.mem) == Vars(env, s.mem)[target := v]
  {
    hide *;
    var m, q := Standard(env), Block(x, y, line, target, e);
    UsableIs(m, x, y, line, target, e);
    AllTaken(m, x, y, line, target, e);
    var c := DoLines(m, Lines(Repeat(MAXSLOTS, q)), Start()).value;
    var h, f := BareBlock(m, x, y, line, target, e, c);
    RepeatLines(MAXSLOTS + 1, q);
    DoLinesAppend(m, Lines(Repeat(MAXSLOTS, q)), Lines(q), Start());
    RepeatCounts(MAXSLOTS + 1, x, y, line, target, e);
    TooMany(Repeat(MAXSLOTS + 1, q));
    var prog := GenEndIf(m, -1, f).code;
    BareEnd(m, f);
    StandardIs(env);
    var n1, s1 := BareRuns(x, y, prog, env, c.g, s);
    var n2, d := AssignRuns(e, target, h, f, prog, env, s1);
    CyclesAdd(prog, env, n1, n2, At(|c.g.code|, s));
    StepHere(prog, env, |f.code|, d.s);
    CyclesAdd(prog, env, n1 + n2, 1, At(|c.g.code|, s));
    n := n1 + n2 + 1;
  }

  lemma TooMany(p: Stmt)
    requires Blocks(p) == Slots(MAXSLOTS + 1, 0, 0, 0) && Cases(p) == MAXSLOTS + 1
    ensures ManyCases(p)
  {
  }

  lemma BareEnd(m: Mode, f: Gen)
    ensures var prog := GenEndIf(m, -1, f).code; f.code <= prog && |prog| == |f.code| + 1 && prog[|f.code|].Here?
  {
  }

  lemma StmtGrows(m: Mode, e: Expr<string>, target: string, h: Gen, f: Gen, k: Cache)
    requires GenStmt(Postfix(e), target, m.declared, false, h) == Some(f) && Standing(m) && As(h.table, m.declared, k)
    ensures h.code <= f.code
  {
    StmtShape(m, e, target, h);
  }

  lemma StandardIs(env: Env)
    ensures Standard(env).declared == env.layout.Keys
  {
  }
}
