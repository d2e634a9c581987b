// The whole compiler on whole programs: source lines in, flat labelled code out, same behaviour.
module Program {
  import opened Infix
  import opened Shunt
  import opened Statement
  import opened Registers
  import opened Machine
  import opened Codegen
  import opened Lowering
  import opened LoweringCorrect
  import opened Labels
  import opened Simulation

  function Start(): Comp {
    Comp(Gen(Empty(), [], [], -1, -1), [],
         seq(MAXSLOTS, _ => IfSlot(Unused, false, false)), seq(MAXSLOTS, _ => LoopSlot(Unused, false)),
         seq(MAXSLOTS, _ => LoopSlot(Unused, false)), seq(MAXSLOTS, _ => LoopSlot(Unused, false)))
  }

  ghost function Compiled(p: Stmt, env: Env): Option<seq<Instr>> {
    match DoLines(Standard(env), Lines(p), Start())
    case None => None
    case Some(c) => Some(c.g.code)
  }

  // A machine ready to run: every variable has its cell and register 0 holds 0.
  ghost predicate Ready0(env: Env, s: State) {
    Layout(env.layout) && Loaded(env, s) && s.reg[0] == 0
  }

  ghost predicate EndsWith(prog: seq<Instr>, env: Env, s: State, vars: map<string, int>) {
    exists n: nat :: EndsAfter(prog, env, s, n, vars)
  }

  ghost predicate EndsAfter(prog: seq<Instr>, env: Env, s: State, n: nat, vars: map<string, int>) {
    var c := Cycles(prog, env, n, At(0, s));
    c.At? && c.pc == |prog| && Vars(env, c.s.mem) == vars
  }

  ghost predicate Stops(prog: seq<Instr>, env: Env, s: State) {
    exists n: nat :: Cycles(prog, env, n, At(0, s)) == Stopped
  }

  ghost predicate Means(p: Stmt, env: Env, vars: map<string, int>, o: Outcome) {
    exists fuel: nat :: Exec(p, env.alu, vars, fuel) == o
  }

  // One infix assignment, from its text: after the code of the line `{target = e}` the target holds the
  // value of the expression under the compiler's precedence table, and nothing else has changed.
  lemma InfixAssignment(line: string, target: string, e: Expr<string>, env: Env, c: Comp, s: State)
    requires InfixLine(line, target, e) && Layout(env.layout) && Coherent(c.g.table, env, s)
    requires DoLine(Standard(env), LInfix(line), c).Some?
    ensures var d := DoLine(Standard(env), LInfix(line), c).value;
            && d.ifs == c.ifs && d.whiles == c.whiles && d.fors == c.fors && d.switches == c.switches
            && match Eval(e, target, env.alu, Vars(env, s.mem))
               case None => Run(Emitted(c.g, d.g), env, s) == None
               case Some(x) =>
                 var out := Run(Emitted(c.g, d.g), env, s);
                 && out.Some? && Coherent(d.g.table, env, out.value)
                 && Vars(env, out.value.mem) == Vars(env, s.mem)[target := x]
  {
    hide InfixLine;
    InfixLineParses(c.stk, line, target, e);
    hide ConvertLine;
    hide Parse;
    var d := DoLine(Standard(env), LInfix(line), c).value;
    AssignCorrect(e, target, env, c.g, d.g, s);
    hide Coherent;
    hide GenStmt;
    hide Machine.Run;
  }

  // Every label of compiled code has one definition, and the code is what the structured generator
  // emits.
  lemma CompiledWhole(p: Stmt, env: Env) returns (x: Low)
    requires WellFormed(p) && SlotsFit(p) && Layout(env.layout) && Compiled(p, env).Some?
    ensures GenProg(Standard(env), p, Low(Start().g, 0, 0, 0, 0)) == Some(x)
    ensures x.g.code == Compiled(p, env).value && Whole(x.g.code, env, x.g)
  {
    var l := Low(Start().g, 0, 0, 0, 0);
    LinesAgree(Standard(env), p, Start(), l);
    x := GenProg(Standard(env), p, l).value;
    ProgLabels(Standard(env), p, l);
    DistinctUnambiguous(x.g.code);
  }

  lemma RunsTogether(p: Stmt, env: Env, s: State, fuel: nat) returns (n: nat, c: Config)
    requires WellFormed(p) && SlotsFit(p) && Ready0(env, s) && Compiled(p, env).Some?
    ensures c == Cycles(Compiled(p, env).value, env, n, At(0, s))
    ensures match Exec(p, env.alu, Vars(env, s.mem), fuel)
            case Finished(v) => c.At? && c.pc == |Compiled(p, env).value| && Vars(env, c.s.mem) == v
            case Fault => c == Stopped
            case Timeout => fuel <= n && c.At? && c.pc < |Compiled(p, env).value|
  {
    var x := CompiledWhole(p, env);
    assert Coherent(Empty(), env, s);
    n, c := Simulate(p, Low(Start().g, 0, 0, 0, 0), x, x.g.code, env, s, fuel);
  }

  // Two halted observations of one run are the same.
  lemma SameEnd(prog: seq<Instr>, env: Env, m: nat, n: nat, c: Config)
    requires var a := Cycles(prog, env, m, c); a.Stopped? || a.pc >= |prog|
    requires m <= n
    ensures Cycles(prog, env, n, c) == Cycles(prog, env, m, c)
  {
    CyclesAdd(prog, env, m, n - m, c);
    Stays(prog, env, n - m, Cycles(prog, env, m, c));
  }

  lemma HaltedRun(p: Stmt, env: Env, s: State, n: nat)
    requires WellFormed(p) && SlotsFit(p) && Ready0(env, s) && Compiled(p, env).Some?
    requires var c := Cycles(Compiled(p, env).value, env, n, At(0, s)); c.Stopped? || c.pc == |Compiled(p, env).value|
    ensures var c := Cycles(Compiled(p, env).value, env, n, At(0, s));
            Exec(p, env.alu, Vars(env, s.mem), n + 1) == if c.Stopped? then Fault else Finished(Vars(env, c.s.mem))
  {
    var prog := Compiled(p, env).value;
    var k, c := RunsTogether(p, env, s, n + 1);
    if n <= k {
      SameEnd(prog, env, n, k, At(0, s));
    } else {
      SameEnd(prog, env, k, n, At(0, s));
    }
  }

  // The compiled program runs to its end with certain variable values exactly when the source program
  // finishes with those values, and the VM stops it exactly when some operator of the source
  // program's run has no value.  So it runs forever exactly when the source program does.
  lemma CompilerCorrect(p: Stmt, env: Env, s: State)
    requires WellFormed(p) && SlotsFit(p) && Ready0(env, s) && Compiled(p, env).Some?
    ensures forall v :: EndsWith(Compiled(p, env).value, env, s, v) <==> Means(p, env, Vars(env, s.mem), Finished(v))
    ensures Stops(Compiled(p, env).value, env, s) <==> Means(p, env, Vars(env, s.mem), Fault)
  {
    var prog := Compiled(p, env).value;
    var vars := Vars(env, s.mem);
    forall v
      ensures EndsWith(prog, env, s, v) <==> Means(p, env, vars, Finished(v))
    {
      if n: nat :| EndsAfter(prog, env, s, n, v) { HaltedRun(p, env, s, n); }
      if fuel: nat :| Exec(p, env.alu, vars, fuel) == Finished(v) {
        var n, c := RunsTogether(p, env, s, fuel);
        assert EndsAfter(prog, env, s, n, v);
      }
    }
    if n: nat :| Cycles(prog, env, n, At(0, s)) == Stopped { HaltedRun(p, env, s, n); }
    if fuel: nat :| Exec(p, env.alu, vars, fuel) == Fault { var n, c := RunsTogether(p, env, s, fuel); }
  }
}
