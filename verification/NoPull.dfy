// Keeping results in registers (no_var_pull): when it preserves all variables, and that whole sequences
// of assignments refine the ones that store them.
module NoPull {
  import opened Infix
  import opened Shunt
  import opened Registers
  import opened Machine
  import opened Codegen

  // A variable's value is found again after register d has been given another name.
  ghost predicate Survives(v: string, d: int, table: seq<string>, env: Env, s: State, vars: map<string, int>) {
    || (exists k | 0 <= k < |table| :: k != d && table[k] == v)
    || (v in env.layout && env.layout[v] in s.mem && v in vars && s.mem[env.layout[v]] == vars[v])
  }

  // The variable that register d caches, if it is not the target itself.
  ghost predicate Loses(d: int, target: string, table: seq<string>, env: Env, s: State, vars: map<string, int>)
    requires 0 <= d < |table|
  {
    && table[d] in env.layout && table[d] != target
    && !Survives(table[d], d, table, env, s, vars)
  }

  // Who is cached after register d has been given to the target.
  lemma KeepTable(target: string, d: nat, t: seq<string>, u: seq<string>)
    requires d < |t| && u == Forget(t, target)[d := target]
    ensures target in u
    ensures forall w | w != target && w != t[d] && w != "" :: w in u <==> w in t
    ensures t[d] != target && t[d] != "" ==> (t[d] in u <==> exists k | 0 <= k < |t| :: k != d && t[k] == t[d])
  {
    assert u[d] == target;
    assert forall k | 0 <= k < |t| && k != d :: u[k] == (if t[k] == target then "" else t[k]);
    forall w | w != target && w != "" && exists k | 0 <= k < |t| :: k != d && t[k] == w
      ensures w in u
    {
      var k :| 0 <= k < |t| && k != d && t[k] == w;
      assert u[k] == w;
    }
    forall w | w != target && w != "" && w in u
      ensures exists k | 0 <= k < |t| :: k != d && t[k] == w
    {
      var k :| 0 <= k < |u| && u[k] == w;
      assert k != d && t[k] == w;
    }
    forall w | w != target && w != t[d] && w != "" && w in t
      ensures w in u
    {
      var k :| 0 <= k < |t| && t[k] == w;
      assert k != d && t[k] == w;
    }
  }

  lemma KeepSound(target: string, d: nat, u: seq<string>, env: Env, vars: map<string, int>, t: seq<string>, s: State)
    requires Layout(env.layout) && Caches(t, env, s, vars) && target in env.layout && 0 < d < MAXREG
    requires u == Forget(t, target)[d := target] && !Loses(d, target, t, env, s, vars)
    ensures Caches(u, env, s, vars[target := s.reg[d]])
  {
    KeepTable(target, d, t, u);
    var out := vars[target := s.reg[d]];
    forall v | v in env.layout && v !in u
      ensures s.mem[env.layout[v]] == out[v]
    {
      if v != t[d] { assert v !in t; }
    }
  }

  lemma KeepLoses(target: string, d: nat, u: seq<string>, env: Env, vars: map<string, int>, t: seq<string>, s: State)
    requires Layout(env.layout) && Caches(t, env, s, vars) && target in env.layout && 0 < d < MAXREG
    requires u == Forget(t, target)[d := target] && Loses(d, target, t, env, s, vars)
    ensures !Caches(u, env, s, vars[target := s.reg[d]])
  {
    KeepTable(target, d, t, u);
    assert t[d] !in u;
  }

  lemma KeepRuns(target: string, env: Env, vars: map<string, int>, g: Gen, h: Gen, s: State)
    requires Layout(env.layout) && Caches(g.table, env, s, vars)
    requires Keep(target, env.layout.Keys, g) == Some(h) && ResultReg(g) != 0
    ensures Caches(h.table, env, s, vars[target := s.reg[ResultReg(g)]])
       <==> !Loses(ResultReg(g), target, g.table, env, s, vars)
  {
    if Loses(ResultReg(g), target, g.table, env, s, vars) {
      KeepLoses(target, ResultReg(g), h.table, env, vars, g.table, s);
    } else {
      KeepSound(target, ResultReg(g), h.table, env, vars, g.table, s);
    }
  }

  // no_var_pull on any statement, with or without operators: reading through the cache gives every
  // variable its right value afterwards if and only if the register that is renamed did not hold
  // the only copy of another variable.
  lemma KeepExact(e: Expr<string>, target: string, env: Env, vars: map<string, int>, g: Gen, h: Gen, s: State)
    requires Layout(env.layout) && Caches(g.table, env, s, vars)
    requires GenStmt(Postfix(e), target, env.layout.Keys, true, g) == Some(h)
    ensures g.code <= h.code && forall i | |g.code| <= i < |h.code| :: Straight(h.code[i])
    ensures var m := GenToks(Postfix(e), target, env.layout.Keys, g.(opReg := -1, loadReg := -1));
            && m.Some? && 0 <= ResultReg(m.value) < |m.value.table|
            && (HasOp(e) ==> m.value.table[ResultReg(m.value)] == "cont_temp")
            && match Eval(e, target, env.alu, vars)
               case None => Run(Emitted(g, h), env, s) == None
               case Some(x) =>
                 var out := Run(Emitted(g, h), env, s);
                 && out.Some? && out.value.mem == s.mem
                 && (Caches(h.table, env, out.value, vars[target := x])
                     <==> !Loses(ResultReg(m.value), target, m.value.table, env, out.value, vars))
  {
    var g0 := g.(opReg := -1, loadReg := -1);
    var m, d := ResultOfExpr(e, target, env.layout.Keys, g0);
    if HasOp(e) { LastTemp(e, target, env.layout.Keys, g0); }
    d := GenComputes(e, target, env, vars, g0, s);
    assert Emitted(g, h) == Emitted(g0, m);
    if Eval(e, target, env.alu, vars).Some? {
      KeepRuns(target, env, vars, m, h, Run(Emitted(g, m), env, s).value);
    }
  }

  lemma {:induction false} LastTemp(e: Expr<string>, target: string, declared: set<string>, g: Gen)
    requires GenToks(Postfix(e), target, declared, g).Some? && HasOp(e)
    requires g.table != [] && g.table[0] == "" && "" !in declared
    ensures var h := GenToks(Postfix(e), target, declared, g).value;
            0 <= h.opReg < |h.table| && h.table[h.opReg] == "cont_temp"
    decreases e
  {
    match e
    case Paren(b) => LastTemp(b, target, declared, g);
    case Bin(op, l, r) => var g1, g2 := GenBin(op, l, r, target, declared, g);
  }

  datatype Assign = Assign(target: string, e: Expr<string>)

  function GenSeq(prog: seq<Assign>, declared: set<string>, noPull: bool, g: Gen): Option<Gen>
  {
    if prog == [] then Some(g)
    else
      match GenStmtOf(prog[0], declared, noPull, g)
      case None => None
      case Some(h) => GenSeq(prog[1..], declared, noPull, h)
  }

  function GenStmtOf(a: Assign, declared: set<string>, noPull: bool, g: Gen): Option<Gen> {
    GenStmt(PostfixOf(a.e), a.target, declared, noPull, g)
  }

  // Postfix, as a compiled function.
  function PostfixOf(e: Expr<string>): (r: seq<Tok<string>>)
    ensures r == Postfix(e)
  {
    match e
    case Var(a) => [Atom(a)]
    case Paren(b) => PostfixOf(b)
    case Bin(op, l, r) => PostfixOf(l) + PostfixOf(r) + [Op(op)]
  }

  ghost function EvalSeq(prog: seq<Assign>, alu: (char, int, int) -> Option<int>, vars: map<string, int>): Option<map<string, int>> {
    if prog == [] then Some(vars)
    else
      match Eval(prog[0].e, prog[0].target, alu, vars)
      case None => None
      case Some(x) => EvalSeq(prog[1..], alu, vars[prog[0].target := x])
  }

  lemma {:induction false} SeqGrows(prog: seq<Assign>, declared: set<string>, noPull: bool, g: Gen)
    requires GenSeq(prog, declared, noPull, g).Some?
    requires g.table != [] && g.table[0] == "" && "" !in declared
    ensures g.code <= GenSeq(prog, declared, noPull, g).value.code
    decreases |prog|
  {
    if prog != [] {
      var a := prog[0];
      var m, d := ResultOfExpr(a.e, a.target, declared, g.(opReg := -1, loadReg := -1));
      SeqGrows(prog[1..], declared, noPull, GenStmtOf(a, declared, noPull, g).value);
    }
  }

  // A sequence of assignments compiled either way computes the sequence's meaning.  With stores the
  // values are in memory; without, they are found by reading each variable through the cache first.
  // Every statement kept in registers must have an operator: see KeepExact for why.
  lemma {:induction false} SeqCorrect(prog: seq<Assign>, noPull: bool, env: Env, vars: map<string, int>, g: Gen, s: State)
    requires Layout(env.layout) && Caches(g.table, env, s, vars)
    requires if noPull then forall a | a in prog :: HasOp(a.e) else vars == Vars(env, s.mem)
    requires GenSeq(prog, env.layout.Keys, noPull, g).Some?
    ensures var h := GenSeq(prog, env.layout.Keys, noPull, g).value;
            match EvalSeq(prog, env.alu, vars)
            case None => Run(Emitted(g, h), env, s) == None
            case Some(out) =>
              var t := Run(Emitted(g, h), env, s);
              && t.Some? && Caches(h.table, env, t.value, out)
              && (if noPull then t.value.mem == s.mem else out == Vars(env, t.value.mem))
    decreases |prog|
  {
    var declared := env.layout.Keys;
    if prog == [] {
      assert Emitted(g, g) == [];
    } else {
      var a := prog[0];
      var g1 := GenStmtOf(a, declared, noPull, g).value;
      var h := GenSeq(prog, declared, noPull, g).value;
      if noPull { KeepExact(a.e, a.target, env, vars, g, g1, s); } else { AssignCorrect(a.e, a.target, env, g, g1, s); }
      var m, d := ResultOfExpr(a.e, a.target, declared, g.(opReg := -1, loadReg := -1));
      SeqGrows(prog[1..], declared, noPull, g1);
      RunSplit(g, g1, h, env, s);
      match Eval(a.e, a.target, env.alu, vars) {
        case None =>
        case Some(x) => SeqCorrect(prog[1..], noPull, env, vars[a.target := x], g1, Run(Emitted(g, g1), env, s).value);
      }
    }
  }

  // The register version refines the memory version: from the same coherent state both stop, or both
  // finish and every variable read through the register version's cache is what memory holds in
  // the other.
  lemma NoPullRefines(prog: seq<Assign>, env: Env, g: Gen, s: State)
    requires Layout(env.layout) && Coherent(g.table, env, s)
    requires forall a | a in prog :: HasOp(a.e)
    requires GenSeq(prog, env.layout.Keys, true, g).Some? && GenSeq(prog, env.layout.Keys, false, g).Some?
    ensures var kept, stored := GenSeq(prog, env.layout.Keys, true, g).value, GenSeq(prog, env.layout.Keys, false, g).value;
            var a, b := Run(Emitted(g, kept), env, s), Run(Emitted(g, stored), env, s);
            && (a.Some? <==> b.Some?)
            && (a.Some? ==> Caches(kept.table, env, a.value, Vars(env, b.value.mem)))
  {
    SeqCorrect(prog, true, env, Vars(env, s.mem), g, s);
    SeqCorrect(prog, false, env, Vars(env, s.mem), g, s);
  }

  // A plain copy breaks the refinement.  Register 1 holds the only copy of x, as it does after a kept
  // {x = ...}; {y = x} gives the register to y, and x then reads as its old value from memory.
  lemma CopyLosesVariable() returns (env: Env, vars: map<string, int>, g: Gen, s: State)
    ensures Layout(env.layout) && Caches(g.table, env, s, vars)
    ensures var h := GenStmt(Postfix(Var("x")), "y", env.layout.Keys, true, g);
            && h.Some? && Run(Emitted(g, h.value), env, s) == Some(s)
            && Eval(Var("x"), "y", env.alu, vars).Some?
            && !Caches(h.value.table, env, s, vars["y" := Eval(Var("x"), "y", env.alu, vars).value])
  {
    env := Env(map["x" := 8, "y" := 16], (op, a, b) => Some(a + b));
    vars := map["x" := 2, "y" := 6];
    s := State(seq(MAXREG, k => if k == 1 then 2 else 0), map[8 := 5, 16 := 6]);
    g := Gen(Empty()[1 := "x"], [], [], -1, -1);
    var q := [Atom("x")];
    assert q[0] == Atom("x") && q[1..] == [];
    FirstIs(g.table, "x", 1);
    assert g.rstack + [1] == [1];
    assert Resolve("x", "y") == "x";
    var m := Gen(g.table, [1], [], -1, 1);
    assert GenTok(q[0], "y", env.layout.Keys, g) == Some(m);
    assert GenToks(q, "y", env.layout.Keys, g) == GenToks([], "y", env.layout.Keys, m) == Some(m);
    assert Forget(g.table, "y")[1 := "y"] == Empty()[1 := "y"];
    assert GenStmt(q, "y", env.layout.Keys, true, g) == Some(Gen(Empty()[1 := "y"], [1], [], -1, 1));
    assert "x" !in Empty()[1 := "y"];
  }

  lemma FirstIs(t: seq<string>, name: string, k: nat)
    requires k < |t| && t[k] == name && forall j | 0 <= j < |t| && j != k :: t[j] != name
    ensures Lookup(t, name) == k
  {
  }
}
