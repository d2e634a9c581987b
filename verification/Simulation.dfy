// The emitted labels and jumps do what the structured program says.
module Simulation {
  import opened Infix
  import opened Shunt
  import opened Registers
  import opened Machine
  import opened Codegen
  import opened Lowering
  import opened Labels

  // Meaning of a structured program.  `fuel` bounds the number of rounds of each loop nest; a program
  // that terminates does so with enough of it.
  datatype Outcome = Finished(vars: map<string, int>) | Fault | Timeout

  predicate Flag(vars: map<string, int>, v: string) {
    v in vars && vars[v] != 0
  }

  ghost function Exec(p: Stmt, alu: (char, int, int) -> Option<int>, vars: map<string, int>, fuel: nat): Outcome
    decreases fuel, p, 1
  {
    ExecNode(p, alu, vars, fuel)
  }

  ghost function ExecNode(p: Stmt, alu: (char, int, int) -> Option<int>, vars: map<string, int>, fuel: nat): Outcome
    decreases fuel, p, 0
  {
    match p
    case Skip => Finished(vars)
    case Seq(a, b) =>
      var o := Exec(a, alu, vars, fuel);
      if o.Finished? then Exec(b, alu, o.vars, fuel) else o
    case Assign(_, target, e) =>
      (match Eval(e, target, alu, vars)
       case None => Fault
       case Some(x) => Finished(vars[target := x]))
    case If(v, body) => if Flag(vars, v) then Exec(body, alu, vars, fuel) else Finished(vars)
    case IfElse(v, a, b) => if Flag(vars, v) then Exec(a, alu, vars, fuel) else Exec(b, alu, vars, fuel)
    case Switch(body) => Exec(body, alu, vars, fuel)
    case Case(x, y, body) =>
      if x !in vars || y !in vars then Fault
      else
        (match alu('E', vars[y], vars[x])
         case None => Fault
         case Some(f) => if f != 0 then Exec(body, alu, vars, fuel) else Finished(vars))
    case DoWhile(body, v) =>
      if fuel == 0 then Timeout
      else
        var o := Exec(body, alu, vars, fuel);
        if o.Finished? && Flag(o.vars, v) then Exec(p, alu, o.vars, fuel - 1) else o
    case For(pre, v, body) =>
      if fuel == 0 then Timeout
      else
        var o := Exec(pre, alu, vars, fuel);
        if o.Finished? && Flag(o.vars, v) then
          var b := Exec(body, alu, o.vars, fuel);
          if b.Finished? then Exec(p, alu, b.vars, fuel - 1) else b
        else o
  }

  lemma ExecIs(p: Stmt, alu: (char, int, int) -> Option<int>, vars: map<string, int>, fuel: nat)
    ensures Exec(p, alu, vars, fuel) == ExecNode(p, alu, vars, fuel)
  {
  }

  // The compiler's standard mode: caches are emptied at joins and results are stored.
  function Standard(env: Env): Mode {
    Mode(env.layout.Keys, true, false)
  }

  // A complete program containing the code up to x, with unambiguous labels.
  ghost predicate Whole(prog: seq<Instr>, env: Env, x: Gen) {
    Layout(env.layout) && x.code <= prog && Unambiguous(prog)
  }

  // Reaching the end of the code of x, or stopping, or still being inside after `fuel` steps.
  ghost predicate Matches(o: Outcome, env: Env, from: nat, x: Gen, fuel: nat, n: nat, c: Config) {
    match o
    case Finished(v) => c.At? && c.pc == |x.code| && Coherent(x.table, env, c.s) && Vars(env, c.s.mem) == v
    case Fault => c == Stopped
    case Timeout => fuel <= n && c.At? && from <= c.pc < |x.code|
  }

  // ---- single steps ----

  lemma StepHere(prog: seq<Instr>, env: Env, pc: nat, s: State)
    requires pc < |prog| && prog[pc].Here?
    ensures Cycles(prog, env, 1, At(pc, s)) == At(pc + 1, s)
  {
    assert Cycles(prog, env, 0, At(pc + 1, s)) == At(pc + 1, s);
  }

  lemma StepJump(prog: seq<Instr>, env: Env, pc: nat, s: State, t: nat)
    requires Unambiguous(prog) && pc < |prog| && t < |prog|
    requires prog[pc].Jmp? || (prog[pc].JmpI? && prog[pc].r < |s.reg| && s.reg[prog[pc].r] != 0)
    requires prog[t] == Here(prog[pc].target)
    ensures Cycles(prog, env, 2, At(pc, s)) == At(t + 1, s)
  {
    OnlyTarget(prog, t, prog[pc].target);
    StepHere(prog, env, t, s);
    assert Cycle(prog, env, At(pc, s)) == At(t, s);
  }

  lemma StepFall(prog: seq<Instr>, env: Env, pc: nat, s: State)
    requires pc < |prog| && prog[pc].JmpI? && prog[pc].r < |s.reg| && s.reg[prog[pc].r] == 0
    ensures Cycles(prog, env, 1, At(pc, s)) == At(pc + 1, s)
  {
    assert Cycles(prog, env, 0, At(pc + 1, s)) == At(pc + 1, s);
  }

  lemma Emptied(env: Env, table: seq<string>, s: State)
    requires Coherent(table, env, s) && "" !in env.layout
    ensures Coherent(Empty(), env, s)
  {
  }

  // Loading the tested variable.
  lemma CondRuns(m: Mode, v: string, prog: seq<Instr>, env: Env, g: Gen, s: State) returns (n: nat, s': State)
    requires GenCond(m, v, g).Some? && m.declared == env.layout.Keys && Layout(env.layout)
    requires GenCond(m, v, g).value.code <= prog && Coherent(g.table, env, s)
    ensures var h := GenCond(m, v, g).value;
            && Cycles(prog, env, n, At(|g.code|, s)) == At(|h.code|, s')
            && Coherent(h.table, env, s') && s'.mem == s.mem && 1 <= h.loadReg < MAXREG
            && v in env.layout && s'.reg[h.loadReg] == Vars(env, s.mem)[v]
            && (forall k | 0 <= k < MAXREG && g.table[k] != "" :: s'.reg[k] == s.reg[k])
  {
    CondShape(m, v, g);
    var h := GenCond(m, v, g).value;
    if Lookup(g.table, v) == -1 {
      var i := LoadA(v, h.loadReg);
      n, s' := 1, Do(i, env, s).value;
      assert h.code == g.code + [i] && prog[|g.code|] == i;
      assert Cycles(prog, env, 0, At(|g.code| + 1, s')) == At(|g.code| + 1, s');
      Uncached(g.table, h.loadReg, v);
    } else {
      n, s' := 0, s;
    }
  }

  // Both ways out of the jump pair that opens a block: into the block when the register is set, to
  // the label `t` when it is not.
  lemma Branch(prog: seq<Instr>, env: Env, pc: nat, s: State, t: nat) returns (n: nat)
    requires Unambiguous(prog) && pc + 2 < |prog| && t < |prog|
    requires prog[pc].JmpI? && prog[pc].r < |s.reg| && prog[pc + 1].Jmp?
    requires prog[pc + 2] == Here(prog[pc].target) && prog[t] == Here(prog[pc + 1].target)
    ensures Cycles(prog, env, n, At(pc, s)) == At(if s.reg[prog[pc].r] != 0 then pc + 3 else t + 1, s)
  {
    if s.reg[prog[pc].r] != 0 {
      StepJump(prog, env, pc, s, pc + 2);
      n := 2;
    } else {
      StepFall(prog, env, pc, s);
      StepJump(prog, env, pc + 1, s, t);
      CyclesAdd(prog, env, 1, 2, At(pc, s));
      n := 3;
    }
  }

  // A test with its two jumps: into the block when the variable is set, past the label `no`, at t,
  // when it is not.
  lemma TestRuns(v: string, yes: Label, no: Label, t: nat, prog: seq<Instr>, env: Env, g: Gen, s: State) returns (n: nat, s': State)
    requires GenTest(Standard(env), v, yes, no, g).Some? && Layout(env.layout) && Coherent(g.table, env, s)
    requires GenTest(Standard(env), v, yes, no, g).value.code <= prog && Unambiguous(prog)
    requires t < |prog| && prog[t] == Here(no)
    ensures var h := GenTest(Standard(env), v, yes, no, g).value;
            && Cycles(prog, env, n, At(|g.code|, s)) == At(if Flag(Vars(env, s.mem), v) then |h.code| else t + 1, s')
            && Coherent(h.table, env, s') && s'.mem == s.mem
  {
    var m := Standard(env);
    var g0 := InitIf(m, g);
    var h0, h := GenCond(m, v, g0).value, GenTest(m, v, yes, no, g).value;
    CondShape(m, v, g0);
    Emptied(env, g.table, s);
    var n0: nat;
    n0, s' := CondRuns(m, v, prog, env, g0, s);
    var pc := |h0.code|;
    assert prog[pc] == h.code[pc] && prog[pc + 1] == h.code[pc + 1] && prog[pc + 2] == h.code[pc + 2];
    var n1 := Branch(prog, env, pc, s', t);
    CyclesAdd(prog, env, n0, n1, At(|g.code|, s));
    n := n0 + n1;
  }

  // The test at the end of a do/while loop: back past its label, at t, or on.
  lemma WhileRuns(v: string, k: nat, t: nat, prog: seq<Instr>, env: Env, g: Gen, s: State) returns (n: nat, s': State)
    requires GenWhile(Standard(env), v, k, g).Some? && Layout(env.layout) && Coherent(g.table, env, s)
    requires GenWhile(Standard(env), v, k, g).value.code <= prog && Unambiguous(prog)
    requires t < |prog| && prog[t] == Here(Label(WhileL, k))
    ensures var h := GenWhile(Standard(env), v, k, g).value;
            && Cycles(prog, env, n, At(|g.code|, s)) == At(if Flag(Vars(env, s.mem), v) then t + 1 else |h.code|, s')
            && Coherent(h.table, env, s') && s'.mem == s.mem && n > 0
  {
    var m := Standard(env);
    var h0, h := GenCond(m, v, g).value, GenWhile(m, v, k, g).value;
    CondShape(m, v, g);
    var n0: nat;
    n0, s' := CondRuns(m, v, prog, env, g, s);
    var pc := |h0.code|;
    assert prog[pc] == h.code[pc];
    if s'.reg[h0.loadReg] == 0 {
      StepFall(prog, env, pc, s');
      CyclesAdd(prog, env, n0, 1, At(|g.code|, s));
      n := n0 + 1;
    } else {
      StepJump(prog, env, pc, s', t);
      CyclesAdd(prog, env, n0, 2, At(|g.code|, s));
      n := n0 + 2;
    }
  }

  // ---- the simulation ----

  lemma {:induction false} Simulate(p: Stmt, l: Low, x: Low, prog: seq<Instr>, env: Env, s: State, fuel: nat) returns (n: nat, c: Config)
    requires GenProg(Standard(env), p, l) == Some(x) && Whole(prog, env, x.g) && Coherent(l.g.table, env, s)
    ensures c == Cycles(prog, env, n, At(|l.g.code|, s))
    ensures Matches(Exec(p, env.alu, Vars(env, s.mem), fuel), env, |l.g.code|, x.g, fuel, n, c)
    decreases fuel, p, 4
  {
    hide GenProg;
    hide Exec;
    GenProgIs(Standard(env), p, l);
    ExecIs(p, env.alu, Vars(env, s.mem), fuel);
    match p
    case Skip => n, c := 0, At(|l.g.code|, s);
    case Seq(a, b) => n, c := SimulateSeq(a, b, l, x, prog, env, s, fuel);
    case Assign(line, target, e) => n, c := SimulateAssign(e, target, l.g, x.g, prog, env, s);
    case If(v, body) => n, c := SimulateIf(v, body, l, x, prog, env, s, fuel);
    case IfElse(v, a, b) => n, c := SimulateIfElse(v, a, b, l, x, prog, env, s, fuel);
    case Switch(body) => n, c := SimulateSwitch(body, l, x, prog, env, s, fuel);
    case Case(v, w, body) => n, c := SimulateCase(v, w, body, l, x, prog, env, s, fuel);
    case DoWhile(body, v) => n, c := EnterWhile(body, v, l, x, prog, env, s, fuel);
    case For(pre, v, body) => n, c := EnterFor(pre, v, body, l, x, prog, env, s, fuel);
  }

  // The same, continuing a run that began earlier.
  lemma Go(p: Stmt, l: Low, x: Low, from: nat, prog: seq<Instr>, env: Env, s0: State, n0: nat, s: State, fuel: nat)
    returns (n: nat, c: Config)
    requires GenProg(Standard(env), p, l) == Some(x) && Whole(prog, env, x.g) && Coherent(l.g.table, env, s)
    requires from <= |l.g.code| && Cycles(prog, env, n0, At(from, s0)) == At(|l.g.code|, s)
    ensures c == Cycles(prog, env, n, At(from, s0)) && n0 <= n
    ensures Matches(Exec(p, env.alu, Vars(env, s.mem), fuel), env, from, x.g, fuel, n - n0, c)
    decreases fuel, p, 5
  {
    hide GenProg;
    hide Exec;
    n, c := Simulate(p, l, x, prog, env, s, fuel);
    CyclesAdd(prog, env, n0, n, At(from, s0));
    n := n0 + n;
  }

  lemma SimulateSeq(a: Stmt, b: Stmt, l: Low, x: Low, prog: seq<Instr>, env: Env, s: State, fuel: nat) returns (n: nat, c: Config)
    requires GenProg(Standard(env), Seq(a, b), l) == Some(x) && Whole(prog, env, x.g) && Coherent(l.g.table, env, s)
    ensures c == Cycles(prog, env, n, At(|l.g.code|, s))
    ensures Matches(Exec(Seq(a, b), env.alu, Vars(env, s.mem), fuel), env, |l.g.code|, x.g, fuel, n, c)
    decreases fuel, Seq(a, b), 2
  {
    hide GenProg;
    hide Exec;
    GenProgIs(Standard(env), Seq(a, b), l);
    ExecIs(Seq(a, b), env.alu, Vars(env, s.mem), fuel);
    var m := Standard(env);
    var y := GenProg(m, a, l).value;
    ProgLabels(m, a, l);
    ProgLabels(m, b, y);
    n, c := Simulate(a, l, y, prog, env, s, fuel);
    if Exec(a, env.alu, Vars(env, s.mem), fuel).Finished? {
      n, c := Go(b, y, x, |l.g.code|, prog, env, s, n, c.s, fuel);
    }
  }

  lemma SimulateAssign(e: Expr<string>, target: string, g: Gen, h: Gen, prog: seq<Instr>, env: Env, s: State) returns (n: nat, c: Config)
    requires GenStmt(Postfix(e), target, env.layout.Keys, false, g) == Some(h)
    requires Whole(prog, env, h) && Coherent(g.table, env, s)
    ensures c == Cycles(prog, env, n, At(|g.code|, s))
    ensures match Eval(e, target, env.alu, Vars(env, s.mem))
            case None => c == Stopped
            case Some(x) => c.At? && c.pc == |h.code| && Coherent(h.table, env, c.s) && Vars(env, c.s.mem) == Vars(env, s.mem)[target := x]
  {
    AssignCorrect(e, target, env, g, h, s);
    var code := Emitted(g, h);
    assert prog[|g.code|..|g.code| + |code|] == code;
    RunInside(prog, env, |g.code|, code, s);
    n := |code|;
    c := Cycles(prog, env, n, At(|g.code|, s));
  }

  lemma SimulateSwitch(body: Stmt, l: Low, x: Low, prog: seq<Instr>, env: Env, s: State, fuel: nat) returns (n: nat, c: Config)
    requires GenProg(Standard(env), Switch(body), l) == Some(x) && Whole(prog, env, x.g) && Coherent(l.g.table, env, s)
    ensures c == Cycles(prog, env, n, At(|l.g.code|, s))
    ensures Matches(Exec(Switch(body), env.alu, Vars(env, s.mem), fuel), env, |l.g.code|, x.g, fuel, n, c)
    decreases fuel, Switch(body), 2
  {
    hide GenProg;
    hide Exec;
    GenProgIs(Standard(env), Switch(body), l);
    ExecIs(Switch(body), env.alu, Vars(env, s.mem), fuel);
    var m := Standard(env);
    var open := l.(g := InitIf(m, l.g), switches := l.switches + 1);
    var y := GenProg(m, body, open).value;
    Emptied(env, l.g.table, s);
    n, c := Simulate(body, open, y, prog, env, s, fuel);
    if Exec(body, env.alu, Vars(env, s.mem), fuel).Finished? {
      Emptied(env, y.g.table, c.s);
    }
  }

  // The end of an if block: its label, after which the cache is empty.
  lemma CloseBlock(prog: seq<Instr>, env: Env, k: nat, g: Gen, from: nat, s0: State, n: nat, s: State)
    requires GenEndIf(Standard(env), k, g).code <= prog && Coherent(g.table, env, s) && "" !in env.layout
    requires Cycles(prog, env, n, At(from, s0)) == At(|g.code|, s)
    ensures Cycles(prog, env, n + 1, At(from, s0)) == At(|g.code| + 1, s)
    ensures Coherent(Empty(), env, s)
  {
    assert GenEndIf(Standard(env), k, g).code[|g.code|] == Here(Label(EndIfL, k));
    StepHere(prog, env, |g.code|, s);
    Emptied(env, g.table, s);
    CyclesAdd(prog, env, n, 1, At(from, s0));
  }

  lemma EndIfAt(m: Mode, k: nat, g: Gen, prog: seq<Instr>)
    requires GenEndIf(m, k, g).code <= prog
    ensures |GenEndIf(m, k, g).code| == |g.code| + 1 && g.code <= prog && prog[|g.code|] == Here(Label(EndIfL, k))
  {
    assert GenEndIf(m, k, g).code[|g.code|] == Here(Label(EndIfL, k));
  }

  // A block body from its first instruction to behind its closing label.
  lemma SimulateBody(body: Stmt, l: Low, x: Low, k: nat, from: nat, prog: seq<Instr>, env: Env, s0: State, n0: nat, s: State, fuel: nat)
    returns (n: nat, c: Config)
    requires GenProg(Standard(env), body, l) == Some(x) && Whole(prog, env, GenEndIf(Standard(env), k, x.g))
    requires from <= |l.g.code| && Coherent(l.g.table, env, s) && Cycles(prog, env, n0, At(from, s0)) == At(|l.g.code|, s)
    ensures c == Cycles(prog, env, n, At(from, s0))
    ensures Matches(Exec(body, env.alu, Vars(env, s.mem), fuel), env, from, GenEndIf(Standard(env), k, x.g), fuel, n, c)
    decreases fuel, body, 6
  {
    hide GenProg;
    hide Exec;
    EndIfAt(Standard(env), k, x.g, prog);
    n, c := Go(body, l, x, from, prog, env, s0, n0, s, fuel);
    if Exec(body, env.alu, Vars(env, s.mem), fuel).Finished? {
      CloseBlock(prog, env, k, x.g, from, s0, n, c.s);
      n, c := n + 1, At(|x.g.code| + 1, c.s);
    }
  }

  lemma SimulateIf(v: string, body: Stmt, l: Low, x: Low, prog: seq<Instr>, env: Env, s: State, fuel: nat) returns (n: nat, c: Config)
    requires GenProg(Standard(env), If(v, body), l) == Some(x) && Whole(prog, env, x.g) && Coherent(l.g.table, env, s)
    ensures c == Cycles(prog, env, n, At(|l.g.code|, s))
    ensures Matches(Exec(If(v, body), env.alu, Vars(env, s.mem), fuel), env, |l.g.code|, x.g, fuel, n, c)
    decreases fuel, If(v, body), 2
  {
    hide GenProg;
    hide Exec;
    GenProgIs(Standard(env), If(v, body), l);
    ExecIs(If(v, body), env.alu, Vars(env, s.mem), fuel);
    var m, k := Standard(env), l.ifs;
    var h := GenIf(m, v, k, EndIfL, l.g).value;
    var open := l.(g := h, ifs := k + 1);
    var y := GenProg(m, body, open).value;
    OpensIf(m, v, k, EndIfL, l.g);
    ProgLabels(m, body, open);
    EndIfAt(m, k, y.g, prog);
    var n0, s1 := TestRuns(v, Label(IfL, k), Label(EndIfL, k), |y.g.code|, prog, env, l.g, s);
    if Flag(Vars(env, s.mem), v) {
      n, c := SimulateBody(body, open, y, k, |l.g.code|, prog, env, s, n0, s1, fuel);
    } else {
      n, c := n0, At(|y.g.code| + 1, s1);
      Emptied(env, h.table, s1);
    }
  }

  lemma SimulateIfElse(v: string, a: Stmt, b: Stmt, l: Low, x: Low, prog: seq<Instr>, env: Env, s: State, fuel: nat) returns (n: nat, c: Config)
    requires GenProg(Standard(env), IfElse(v, a, b), l) == Some(x) && Whole(prog, env, x.g) && Coherent(l.g.table, env, s)
    ensures c == Cycles(prog, env, n, At(|l.g.code|, s))
    ensures Matches(Exec(IfElse(v, a, b), env.alu, Vars(env, s.mem), fuel), env, |l.g.code|, x.g, fuel, n, c)
    decreases fuel, IfElse(v, a, b), 2
  {
    hide GenProg;
    hide Exec;
    GenProgIs(Standard(env), IfElse(v, a, b), l);
    ExecIs(IfElse(v, a, b), env.alu, Vars(env, s.mem), fuel);
    var m, k := Standard(env), l.ifs;
    var h := GenIf(m, v, k, ElseL, l.g).value;
    var open := l.(g := h, ifs := k + 1);
    var y := GenProg(m, a, open).value;
    var mid := y.(g := GenElse(m, k, y.g));
    var z := GenProg(m, b, mid).value;
    OpensIf(m, v, k, ElseL, l.g);
    ProgLabels(m, a, open);
    ProgLabels(m, b, mid);
    EndIfAt(m, k, z.g, prog);
    var q := |y.g.code|;
    assert prog[q + 1] == mid.g.code[q + 1];
    var n0, s1 := TestRuns(v, Label(IfL, k), Label(ElseL, k), q + 1, prog, env, l.g, s);
    if Flag(Vars(env, s.mem), v) {
      n, c := SimulateThen(a, open, y, k, z.g, |l.g.code|, prog, env, s, n0, s1, fuel);
    } else {
      Emptied(env, h.table, s1);
      n, c := SimulateBody(b, mid, z, k, |l.g.code|, prog, env, s, n0, s1, fuel);
    }
  }

  // The first branch of an if+ ends with a jump over the second one.
  lemma SimulateThen(a: Stmt, open: Low, y: Low, k: nat, z: Gen, from: nat, prog: seq<Instr>, env: Env, s0: State, n0: nat, s: State, fuel: nat)
    returns (n: nat, c: Config)
    requires GenProg(Standard(env), a, open) == Some(y) && from <= |open.g.code| && Coherent(open.g.table, env, s)
    requires Whole(prog, env, GenEndIf(Standard(env), k, z)) && GenElse(Standard(env), k, y.g).code <= z.code
    requires Cycles(prog, env, n0, At(from, s0)) == At(|open.g.code|, s)
    ensures c == Cycles(prog, env, n, At(from, s0))
    ensures Matches(Exec(a, env.alu, Vars(env, s.mem), fuel), env, from, GenEndIf(Standard(env), k, z), fuel, n, c)
    decreases fuel, a, 6
  {
    hide GenProg;
    hide Exec;
    var m := Standard(env);
    var h := GenElse(m, k, y.g);
    EndIfAt(m, k, z, prog);
    assert y.g.code <= h.code <= z.code <= prog;
    n, c := Go(a, open, y, from, prog, env, s0, n0, s, fuel);
    if Exec(a, env.alu, Vars(env, s.mem), fuel).Finished? {
      assert prog[|y.g.code|] == h.code[|y.g.code|];
      StepJump(prog, env, |y.g.code|, c.s, |z.code|);
      CyclesAdd(prog, env, n, 2, At(from, s0));
      Emptied(env, y.g.table, c.s);
      n, c := n + 2, At(|z.code| + 1, c.s);
    }
  }

  // Comparing two loaded values.
  lemma CompareRuns(h1: Gen, h2: Gen, d: nat, prog: seq<Instr>, env: Env, s: State, a: int, b: int) returns (s': State)
    requires 1 <= h1.loadReg < MAXREG && 1 <= h2.loadReg < MAXREG && |h2.code| < |prog|
    requires prog[|h2.code|] == Alu('E', h1.loadReg, h2.loadReg, d) && NextFree(h2.table) == d && Layout(env.layout) && Coherent(h2.table, env, s)
    requires s.reg[h1.loadReg] == a && s.reg[h2.loadReg] == b
    ensures match env.alu('E', a, b)
            case None => Cycles(prog, env, 1, At(|h2.code|, s)) == Stopped
            case Some(f) =>
              && Cycles(prog, env, 1, At(|h2.code|, s)) == At(|h2.code| + 1, s') && Coherent(h2.table[d := "temp"], env, s')
              && s'.mem == s.mem && |s'.reg| == MAXREG && s'.reg[d] == f
  {
    var c := Cycle(prog, env, At(|h2.code|, s));
    assert Cycles(prog, env, 0, c) == c;
    s' := if c.At? then c.s else s;
    Uncached(h2.table, d, "temp");
  }

  lemma LoadBoth(x: string, y: string, prog: seq<Instr>, env: Env, g: Gen, h1: Gen, h2: Gen, s: State) returns (n: nat, s': State)
    requires GenCond(Standard(env), y, InitIf(Standard(env), g)) == Some(h1) && GenCond(Standard(env), x, h1) == Some(h2)
    requires Layout(env.layout) && Coherent(g.table, env, s) && h1.code <= h2.code <= prog
    ensures x in env.layout && y in env.layout && x in Vars(env, s.mem) && y in Vars(env, s.mem)
    ensures 1 <= h1.loadReg < MAXREG && 1 <= h2.loadReg < MAXREG
    ensures Cycles(prog, env, n, At(|g.code|, s)) == At(|h2.code|, s') && Coherent(h2.table, env, s') && s'.mem == s.mem
    ensures s'.reg[h1.loadReg] == Vars(env, s.mem)[y] && s'.reg[h2.loadReg] == Vars(env, s.mem)[x]
  {
    var m := Standard(env);
    var g0 := InitIf(m, g);
    CondShape(m, y, g0);
    Emptied(env, g.table, s);
    var n1, s1 := CondRuns(m, y, prog, env, g0, s);
    var n2: nat;
    n2, s' := CondRuns(m, x, prog, env, h1, s1);
    CyclesAdd(prog, env, n1, n2, At(|g.code|, s));
    n := n1 + n2;
  }

  lemma CaseCode(m: Mode, x: string, y: string, k: nat, g: Gen, h1: Gen, h2: Gen, prog: seq<Instr>)
    requires GenCond(m, y, InitIf(m, g)) == Some(h1) && GenCond(m, x, h1) == Some(h2)
    requires GenCase(m, x, y, k, g).Some? && GenCase(m, x, y, k, g).value.code <= prog
    ensures var d, q, h := NextFree(h2.table), |h2.code|, GenCase(m, x, y, k, g).value;
            && h1.code <= h2.code <= h.code && |h.code| == q + 4 && d > 0 && h.table == h2.table[d := "temp"]
            && prog[q] == Alu('E', h1.loadReg, h2.loadReg, d) && prog[q + 1] == JmpI(d, Label(IfL, k))
            && prog[q + 2] == Jmp(Label(EndIfL, k)) && prog[q + 3] == Here(Label(IfL, k))
  {
    var q, h := |h2.code|, GenCase(m, x, y, k, g).value;
    assert prog[q] == h.code[q] && prog[q + 1] == h.code[q + 1] && prog[q + 2] == h.code[q + 2] && prog[q + 3] == h.code[q + 3];
  }

  // Loading both values, comparing them and branching.
  lemma CaseRuns(x: string, y: string, k: nat, t: nat, prog: seq<Instr>, env: Env, g: Gen, s: State) returns (n: nat, s': State)
    requires GenCase(Standard(env), x, y, k, g).Some? && Layout(env.layout) && Coherent(g.table, env, s)
    requires GenCase(Standard(env), x, y, k, g).value.code <= prog && Unambiguous(prog)
    requires t < |prog| && prog[t] == Here(Label(EndIfL, k))
    ensures var h := GenCase(Standard(env), x, y, k, g).value;
            x in env.layout && y in env.layout &&
            match env.alu('E', Vars(env, s.mem)[y], Vars(env, s.mem)[x])
            case None => Cycles(prog, env, n, At(|g.code|, s)) == Stopped
            case Some(f) =>
              && Cycles(prog, env, n, At(|g.code|, s)) == At(if f != 0 then |h.code| else t + 1, s')
              && Coherent(h.table, env, s') && s'.mem == s.mem
  {
    hide Coherent;
    hide LoadVariable;
    var m := Standard(env);
    var h1 := GenCond(m, y, InitIf(m, g)).value;
    var h2 := GenCond(m, x, h1).value;
    CaseCode(m, x, y, k, g, h1, h2, prog);
    var s2: State;
    n, s2 := LoadBoth(x, y, prog, env, g, h1, h2, s);
    var a, b := Vars(env, s.mem)[y], Vars(env, s.mem)[x];
    var d, q := NextFree(h2.table), |h2.code|;
    s' := CompareRuns(h1, h2, d, prog, env, s2, a, b);
    CyclesAdd(prog, env, n, 1, At(|g.code|, s));
    n := n + 1;
    if env.alu('E', a, b).Some? {
      var n3 := Branch(prog, env, q + 1, s', t);
      CyclesAdd(prog, env, n, n3, At(|g.code|, s));
      n := n + n3;
    }
  }

  lemma SimulateCase(v: string, w: string, body: Stmt, l: Low, x: Low, prog: seq<Instr>, env: Env, s: State, fuel: nat) returns (n: nat, c: Config)
    requires GenProg(Standard(env), Case(v, w, body), l) == Some(x) && Whole(prog, env, x.g) && Coherent(l.g.table, env, s)
    ensures c == Cycles(prog, env, n, At(|l.g.code|, s))
    ensures Matches(Exec(Case(v, w, body), env.alu, Vars(env, s.mem), fuel), env, |l.g.code|, x.g, fuel, n, c)
    decreases fuel, Case(v, w, body), 2
  {
    hide GenProg;
    hide Exec;
    GenProgIs(Standard(env), Case(v, w, body), l);
    ExecIs(Case(v, w, body), env.alu, Vars(env, s.mem), fuel);
    var m, k := Standard(env), l.ifs;
    var h := GenCase(m, v, w, k, l.g).value;
    var open := l.(g := h, ifs := k + 1);
    var y := GenProg(m, body, open).value;
    OpensCase(m, v, w, k, l.g);
    ProgLabels(m, body, open);
    EndIfAt(m, k, y.g, prog);
    var n0, s1 := CaseRuns(v, w, k, |y.g.code|, prog, env, l.g, s);
    match env.alu('E', Vars(env, s.mem)[w], Vars(env, s.mem)[v]) {
      case None => n, c := n0, Stopped;
      case Some(f) =>
        if f != 0 {
          n, c := SimulateBody(body, open, y, k, |l.g.code|, prog, env, s, n0, s1, fuel);
        } else {
          n, c := n0, At(|y.g.code| + 1, s1);
          Emptied(env, h.table, s1);
        }
    }
  }

  lemma EnterWhile(body: Stmt, v: string, l: Low, x: Low, prog: seq<Instr>, env: Env, s: State, fuel: nat) returns (n: nat, c: Config)
    requires GenProg(Standard(env), DoWhile(body, v), l) == Some(x) && Whole(prog, env, x.g) && Coherent(l.g.table, env, s)
    ensures c == Cycles(prog, env, n, At(|l.g.code|, s))
    ensures Matches(Exec(DoWhile(body, v), env.alu, Vars(env, s.mem), fuel), env, |l.g.code|, x.g, fuel, n, c)
    decreases fuel, DoWhile(body, v), 2
  {
    hide GenProg;
    hide Exec;
    GenProgIs(Standard(env), DoWhile(body, v), l);
    var m := Standard(env);
    var open := l.(g := GenDo(m, l.whiles, l.g), whiles := l.whiles + 1);
    var y := GenProg(m, body, open).value;
    ProgLabels(m, body, open);
    CondShape(m, v, y.g);
    assert prog[|l.g.code|] == open.g.code[|l.g.code|];
    StepHere(prog, env, |l.g.code|, s);
    Emptied(env, l.g.table, s);
    n, c := SimulateWhile(body, v, l.whiles, |l.g.code|, open, y, x.g, prog, env, s, 1, s, fuel);
  }

  // The parts of a do/while loop in the program: label at t, body up to y, test up to x.
  ghost predicate DoLoop(body: Stmt, v: string, k: nat, t: nat, open: Low, y: Low, x: Gen, prog: seq<Instr>, env: Env) {
    && GenProg(Standard(env), body, open) == Some(y) && GenWhile(Standard(env), v, k, y.g) == Some(x)
    && Whole(prog, env, x) && y.g.code < x.code && open.g.code <= y.g.code && open.g.table == Empty()
    && |open.g.code| == t + 1 && prog[t] == Here(Label(WhileL, k))
  }

  // One round of a do/while loop, from just behind its label.
  lemma WhileRound(body: Stmt, v: string, k: nat, t: nat, open: Low, y: Low, x: Gen,
                   prog: seq<Instr>, env: Env, s0: State, n0: nat, s: State, fuel: nat) returns (n: nat, c: Config)
    requires GenProg(Standard(env), body, open) == Some(y) && GenWhile(Standard(env), v, k, y.g) == Some(x) && t <= |open.g.code|
    requires Whole(prog, env, x) && y.g.code < x.code && t < |prog| && prog[t] == Here(Label(WhileL, k)) && Coherent(open.g.table, env, s)
    requires Cycles(prog, env, n0, At(t, s0)) == At(|open.g.code|, s)
    ensures c == Cycles(prog, env, n, At(t, s0)) && n0 <= n
    ensures var o := Exec(body, env.alu, Vars(env, s.mem), fuel);
            if o.Finished? && Flag(o.vars, v)
            then c.At? && c.pc == t + 1 && n0 < n && Coherent(Empty(), env, c.s) && Vars(env, c.s.mem) == o.vars
            else Matches(o, env, t, x, fuel, n - n0, c)
    decreases fuel, body, 6
  {
    hide GenProg;
    hide Exec;
    n, c := Go(body, open, y, t, prog, env, s0, n0, s, fuel);
    if Exec(body, env.alu, Vars(env, s.mem), fuel).Finished? {
      var n1, s1 := WhileRuns(v, k, t, prog, env, y.g, c.s);
      CyclesAdd(prog, env, n, n1, At(t, s0));
      n, c := n + n1, At(if Flag(Vars(env, c.s.mem), v) then t + 1 else |x.code|, s1);
      Emptied(env, x.table, s1);
    }
  }

  // From just behind the label of a do/while loop, at t, whichever way it was reached.
  lemma SimulateWhile(body: Stmt, v: string, k: nat, t: nat, open: Low, y: Low, x: Gen,
                      prog: seq<Instr>, env: Env, s0: State, n0: nat, s: State, fuel: nat) returns (n: nat, c: Config)
    requires DoLoop(body, v, k, t, open, y, x, prog, env) && Coherent(Empty(), env, s)
    requires Cycles(prog, env, n0, At(t, s0)) == At(t + 1, s)
    ensures c == Cycles(prog, env, n, At(t, s0)) && n0 <= n
    ensures Matches(Exec(DoWhile(body, v), env.alu, Vars(env, s.mem), fuel), env, t, x, fuel, n - n0, c)
    decreases fuel, DoWhile(body, v), 1
  {
    hide GenProg;
    hide Exec;
    ExecIs(DoWhile(body, v), env.alu, Vars(env, s.mem), fuel);
    n, c := n0, At(t + 1, s);
    if fuel > 0 {
      n, c := WhileRound(body, v, k, t, open, y, x, prog, env, s0, n0, s, fuel);
      var o := Exec(body, env.alu, Vars(env, s.mem), fuel);
      if o.Finished? && Flag(o.vars, v) {
        n, c := SimulateWhile(body, v, k, t, open, y, x, prog, env, s0, n, c.s, fuel - 1);
      }
    }
  }

  lemma EnterFor(pre: Stmt, v: string, body: Stmt, l: Low, x: Low, prog: seq<Instr>, env: Env, s: State, fuel: nat) returns (n: nat, c: Config)
    requires GenProg(Standard(env), For(pre, v, body), l) == Some(x) && Whole(prog, env, x.g) && Coherent(l.g.table, env, s)
    ensures c == Cycles(prog, env, n, At(|l.g.code|, s))
    ensures Matches(Exec(For(pre, v, body), env.alu, Vars(env, s.mem), fuel), env, |l.g.code|, x.g, fuel, n, c)
    decreases fuel, For(pre, v, body), 2
  {
    hide GenProg;
    hide Exec;
    GenProgIs(Standard(env), For(pre, v, body), l);
    var m, k := Standard(env), l.fors;
    var open := l.(g := GenForLoop(m, k, l.g), fors := k + 1);
    var y := GenProg(m, pre, open).value;
    var mid := y.(g := GenFor(m, v, k, y.g).value);
    var z := GenProg(m, body, mid).value;
    ProgLabels(m, pre, open);
    OpensFor(m, v, k, y.g);
    ProgLabels(m, body, mid);
    assert open.g.code <= y.g.code <= mid.g.code <= z.g.code <= x.g.code <= prog;
    assert prog[|l.g.code|] == open.g.code[|l.g.code|];
    var q := |z.g.code|;
    assert prog[q] == x.g.code[q] && prog[q + 1] == x.g.code[q + 1];
    StepHere(prog, env, |l.g.code|, s);
    Emptied(env, l.g.table, s);
    n, c := SimulateFor(pre, v, body, k, |l.g.code|, open, y, mid, z, x.g, prog, env, s, 1, s, fuel);
  }

  // The parts of a for loop in the program: label at t, condition code up to y, test up to mid, body
  // up to z, the jump back and the end label.
  ghost predicate Loop(pre: Stmt, v: string, body: Stmt, k: nat, t: nat, open: Low, y: Low, mid: Low, z: Low, x: Gen, prog: seq<Instr>, env: Env) {
    && GenProg(Standard(env), pre, open) == Some(y) && GenFor(Standard(env), v, k, y.g) == Some(mid.g)
    && GenProg(Standard(env), body, mid) == Some(z) && Whole(prog, env, mid.g) && Whole(prog, env, z.g)
    && open.g.table == Empty() && x.table == Empty() && y.g.code < mid.g.code
    && |open.g.code| == t + 1 <= |mid.g.code| <= |z.g.code| && |x.code| == |z.g.code| + 2 <= |prog| && prog[t] == Here(Label(ForL, k))
    && prog[|z.g.code|] == Jmp(Label(ForL, k)) && prog[|z.g.code| + 1] == Here(Label(ForEndL, k))
  }

  // The condition code and the test of a for loop, with its end label at e.
  lemma ForTest(pre: Stmt, v: string, k: nat, t: nat, e: nat, open: Low, y: Low, mid: Gen, x: Gen,
                prog: seq<Instr>, env: Env, s0: State, n0: nat, s: State, fuel: nat) returns (n: nat, c: Config)
    requires GenProg(Standard(env), pre, open) == Some(y) && GenFor(Standard(env), v, k, y.g) == Some(mid)
    requires Whole(prog, env, mid) && y.g.code < mid.code && |mid.code| <= |x.code| && x.table == Empty() && t <= |open.g.code|
    requires e < |prog| && prog[e] == Here(Label(ForEndL, k)) && |x.code| == e + 1 && Coherent(open.g.table, env, s)
    requires Cycles(prog, env, n0, At(t, s0)) == At(|open.g.code|, s)
    ensures c == Cycles(prog, env, n, At(t, s0)) && n0 <= n
    ensures var o := Exec(pre, env.alu, Vars(env, s.mem), fuel);
            if o.Finished? && Flag(o.vars, v)
            then c.At? && c.pc == |mid.code| && Coherent(mid.table, env, c.s) && Vars(env, c.s.mem) == o.vars
            else Matches(o, env, t, x, fuel, n - n0, c)
    decreases fuel, pre, 6
  {
    hide GenProg;
    hide Exec;
    n, c := Go(pre, open, y, t, prog, env, s0, n0, s, fuel);
    if Exec(pre, env.alu, Vars(env, s.mem), fuel).Finished? {
      var n1, s1 := TestRuns(v, Label(For2L, k), Label(ForEndL, k), e, prog, env, y.g, c.s);
      CyclesAdd(prog, env, n, n1, At(t, s0));
      n, c := n + n1, At(if Flag(Vars(env, c.s.mem), v) then |mid.code| else e + 1, s1);
      Emptied(env, mid.table, s1);
    }
  }

  // The body of a for loop and the jump back to its label at t.
  lemma ForBody(body: Stmt, k: nat, t: nat, mid: Low, z: Low, x: Gen,
                prog: seq<Instr>, env: Env, s0: State, n0: nat, s: State, fuel: nat) returns (n: nat, c: Config)
    requires GenProg(Standard(env), body, mid) == Some(z) && Whole(prog, env, z.g) && |z.g.code| < |x.code| && t <= |mid.g.code|
    requires t < |prog| && prog[t] == Here(Label(ForL, k)) && |z.g.code| < |prog| && prog[|z.g.code|] == Jmp(Label(ForL, k))
    requires Coherent(mid.g.table, env, s) && Cycles(prog, env, n0, At(t, s0)) == At(|mid.g.code|, s)
    ensures c == Cycles(prog, env, n, At(t, s0)) && n0 <= n
    ensures var o := Exec(body, env.alu, Vars(env, s.mem), fuel);
            if o.Finished?
            then c.At? && c.pc == t + 1 && n0 < n && Coherent(Empty(), env, c.s) && Vars(env, c.s.mem) == o.vars
            else Matches(o, env, t, x, fuel, n - n0, c)
    decreases fuel, body, 6
  {
    hide GenProg;
    hide Exec;
    n, c := Go(body, mid, z, t, prog, env, s0, n0, s, fuel);
    if Exec(body, env.alu, Vars(env, s.mem), fuel).Finished? {
      StepJump(prog, env, |z.g.code|, c.s, t);
      CyclesAdd(prog, env, n, 2, At(t, s0));
      Emptied(env, z.g.table, c.s);
      n, c := n + 2, At(t + 1, c.s);
    }
  }

  // From just behind the label of a for loop, whichever way it was reached.
  lemma SimulateFor(pre: Stmt, v: string, body: Stmt, k: nat, t: nat, open: Low, y: Low, mid: Low, z: Low, x: Gen,
                    prog: seq<Instr>, env: Env, s0: State, n0: nat, s: State, fuel: nat) returns (n: nat, c: Config)
    requires Loop(pre, v, body, k, t, open, y, mid, z, x, prog, env) && Coherent(Empty(), env, s)
    requires Cycles(prog, env, n0, At(t, s0)) == At(t + 1, s)
    ensures c == Cycles(prog, env, n, At(t, s0)) && n0 <= n
    ensures Matches(Exec(For(pre, v, body), env.alu, Vars(env, s.mem), fuel), env, t, x, fuel, n - n0, c)
    decreases fuel, For(pre, v, body), 1
  {
    hide GenProg;
    hide Exec;
    ExecIs(For(pre, v, body), env.alu, Vars(env, s.mem), fuel);
    n, c := n0, At(t + 1, s);
    if fuel > 0 {
      n, c := ForTest(pre, v, k, t, |z.g.code| + 1, open, y, mid.g, x, prog, env, s0, n0, s, fuel);
      var o := Exec(pre, env.alu, Vars(env, s.mem), fuel);
      if o.Finished? && Flag(o.vars, v) {
        n, c := ForBody(body, k, t, mid, z, x, prog, env, s0, n, c.s, fuel);
        if Exec(body, env.alu, o.vars, fuel).Finished? {
          n, c := SimulateFor(pre, v, body, k, t, open, y, mid, z, x, prog, env, s0, n, c.s, fuel - 1);
        }
      }
    }
  }
}
