// parse_rpolish: postfix tokens become three-address code, while the register table remembers which
// variable each register caches.
module Codegen {
  import opened Infix
  import opened Shunt
  import opened Registers
  import opened Machine

  // The tables and the code list of a compilation, with the registers that hold the result of the
  // last operator (-1 before the first) and of the last operand of the running statement.
  datatype Gen = Gen(table: seq<string>, rstack: seq<int>, code: seq<Instr>, opReg: int, loadReg: int)

  // A name that begins with '_' stands for the target variable.
  function Resolve(name: string, target: string): string {
    if name != "" && name[0] == '_' then target else name
  }

  // load_variable_int for an int64 variable.
  function LoadVariable(v: string, declared: set<string>, g: Gen): Option<Gen> {
    if v !in declared then None
    else
      var r := Lookup(g.table, v);
      if r != -1 then Some(g.(loadReg := r))
      else
        var f := NextFree(g.table);
        if f == -1 then None
        else Some(g.(table := g.table[f := v], code := g.code + [LoadA(v, f)], loadReg := f))
  }

  function GenTok(t: Tok<string>, target: string, declared: set<string>, g: Gen): Option<Gen> {
    match t
    case Atom(name) =>
      (match LoadVariable(Resolve(name, target), declared, g)
       case None => None
       case Some(h) => Some(h.(rstack := h.rstack + [h.loadReg])))
    case Op(c) =>
      var n := |g.rstack|;
      var d := NextFree(g.table);
      if n < 2 || d == -1 || !IsBinary(c) || g.rstack[n - 1] < 0 || g.rstack[n - 2] < 0 then None
      else Some(Gen(g.table[d := "cont_temp"], g.rstack[..n - 2] + [d],
                    g.code + [Alu(c, g.rstack[n - 2], g.rstack[n - 1], d)], d, g.loadReg))
    case _ => None
  }

  function GenToks(ts: seq<Tok<string>>, target: string, declared: set<string>, g: Gen): Option<Gen> {
    if ts == [] then Some(g)
    else
      match GenTok(ts[0], target, declared, g)
      case None => None
      case Some(h) => GenToks(ts[1..], target, declared, h)
  }

  function ResultReg(g: Gen): int {
    if g.opReg != -1 then g.opReg else g.loadReg
  }

  // Write the result back to memory and drop the registers that no longer hold a variable.
  function Store(target: string, declared: set<string>, g: Gen): Option<Gen> {
    var d := ResultReg(g);
    var a := NextFree(g.table);
    if target !in declared || d < 0 || d >= |g.table| || a == -1 then None
    else Some(g.(table := Forget(g.table[a := "temp"], target)[d := ""][a := ""],
                 code := g.code + [Load(target, a), PullQW(d, a, 0)]))
  }

  // With no_var_pull the result stays in its register, which becomes the variable's cache.
  function Keep(target: string, declared: set<string>, g: Gen): Option<Gen> {
    var d := ResultReg(g);
    if target !in declared || d < 0 || d >= |g.table| then None
    else Some(g.(table := Forget(g.table, target)[d := target]))
  }

  function GenStmt(ts: seq<Tok<string>>, target: string, declared: set<string>, noPull: bool, g: Gen): Option<Gen> {
    match GenToks(ts, target, declared, g.(opReg := -1, loadReg := -1))
    case None => None
    case Some(h) => if noPull then Keep(target, declared, h) else Store(target, declared, h)
  }

  // ---- what a statement means ----

  function Eval(e: Expr<string>, target: string, alu: (char, int, int) -> Option<int>, vars: map<string, int>): Option<int> {
    match e
    case Var(a) => var v := Resolve(a, target); if v in vars then Some(vars[v]) else None
    case Paren(b) => Eval(b, target, alu, vars)
    case Bin(op, l, r) =>
      match Eval(l, target, alu, vars)
      case None => None
      case Some(x) =>
        match Eval(r, target, alu, vars)
        case None => None
        case Some(y) => alu(op, x, y)
  }

  ghost predicate Declared(e: Expr<string>, target: string, declared: set<string>) {
    match e
    case Var(a) => Resolve(a, target) in declared
    case Paren(b) => Declared(b, target, declared)
    case Bin(_, l, r) => Declared(l, target, declared) && Declared(r, target, declared)
  }

  ghost predicate HasOp(e: Expr<string>) {
    match e
    case Var(_) => false
    case Paren(b) => HasOp(b)
    case Bin(_, _, _) => true
  }

  // The values `vars` of the variables, seen through the cache: a register whose entry names a
  // variable holds its value, and a variable that no register names has its value in memory.
  ghost predicate Caches(table: seq<string>, env: Env, s: State, vars: map<string, int>) {
    && |table| == MAXREG && table[0] == "" && Loaded(env, s) && s.reg[0] == 0
    && vars.Keys == env.layout.Keys
    && (forall r | 0 <= r < MAXREG && table[r] in env.layout :: s.reg[r] == vars[table[r]])
    && (forall v | v in env.layout && v !in table :: s.mem[env.layout[v]] == vars[v])
  }

  // The cache agrees with memory.
  ghost predicate Coherent(table: seq<string>, env: Env, s: State) {
    Caches(table, env, s, Vars(env, s.mem))
  }

  lemma {:induction false} GenAppend(a: seq<Tok<string>>, b: seq<Tok<string>>, target: string, declared: set<string>, g: Gen)
    ensures GenToks(a + b, target, declared, g)
         == match GenToks(a, target, declared, g) { case None => None case Some(h) => GenToks(b, target, declared, h) }
    decreases |a|
  {
    if a == [] {
      assert a + b == b;
    } else {
      assert (a + b)[0] == a[0] && (a + b)[1..] == a[1..] + b;
      match GenTok(a[0], target, declared, g) {
        case None =>
        case Some(h) => GenAppend(a[1..], b, target, declared, h);
      }
    }
  }

  lemma GenSingle(t: Tok<string>, target: string, declared: set<string>, g: Gen)
    ensures GenToks([t], target, declared, g) == GenTok(t, target, declared, g)
  {
    match GenTok(t, target, declared, g)
    case None =>
    case Some(h) => assert GenToks([], target, declared, h) == Some(h);
  }

  ghost predicate Grows(g: Gen, h: Gen) {
    && |h.table| == |g.table| && g.code <= h.code
    && (forall k | 0 <= k < |g.table| && g.table[k] != "" :: h.table[k] == g.table[k])
    && (forall i | |g.code| <= i < |h.code| :: Straight(h.code[i]))
  }

  // The bookkeeping of one subexpression: one register is pushed, nothing below it is touched, no
  // occupied entry of the table changes, and the register pushed is occupied.
  ghost predicate Pushed(e: Expr<string>, g: Gen, h: Gen, r: int) {
    && Grows(g, h) && h.rstack == g.rstack + [r]
    && 1 <= r < |h.table| && h.table[r] != "" && h.table[0] == ""
    && (if HasOp(e) then h.opReg == r else h.opReg == g.opReg && h.loadReg == r)
  }

  lemma GenBin(op: char, l: Expr<string>, r: Expr<string>, target: string, declared: set<string>, g: Gen) returns (g1: Gen, g2: Gen)
    requires GenToks(Postfix(Bin(op, l, r)), target, declared, g).Some?
    ensures GenToks(Postfix(l), target, declared, g) == Some(g1)
    ensures GenToks(Postfix(r), target, declared, g1) == Some(g2)
    ensures GenTok(Op(op), target, declared, g2) == GenToks(Postfix(Bin(op, l, r)), target, declared, g)
  {
    GenAppend(Postfix(l) + Postfix(r), [Op(op)], target, declared, g);
    GenAppend(Postfix(l), Postfix(r), target, declared, g);
    g1 := GenToks(Postfix(l), target, declared, g).value;
    g2 := GenToks(Postfix(r), target, declared, g1).value;
    GenSingle(Op(op), target, declared, g2);
  }

  lemma {:induction false} GenShape(e: Expr<string>, target: string, declared: set<string>, g: Gen) returns (r: int)
    requires GenToks(Postfix(e), target, declared, g).Some?
    requires g.table != [] && g.table[0] == "" && "" !in declared
    ensures Pushed(e, g, GenToks(Postfix(e), target, declared, g).value, r)
    decreases e
  {
    match e
    case Var(a) => GenSingle(Atom(a), target, declared, g);
                   r := GenTok(Atom(a), target, declared, g).value.loadReg;
    case Paren(b) => r := GenShape(b, target, declared, g);
    case Bin(op, x, y) =>
      var g1, g2 := GenBin(op, x, y, target, declared, g);
      var r1 := GenShape(x, target, declared, g);
      var r2 := GenShape(y, target, declared, g1);
      r := NextFree(g2.table);
      assert g2.rstack[..|g2.rstack| - 2] == g.rstack;
  }

  // The code emitted between two compilation states.
  function Emitted(g: Gen, h: Gen): seq<Instr> {
    if |g.code| <= |h.code| then h.code[|g.code|..] else []
  }

  // Running the code of a subexpression computes its value into the register pushed, keeps memory
  // and every occupied register, and leaves the cache coherent; it stops exactly when an operator
  // of the subexpression does.
  ghost predicate Computes(e: Expr<string>, target: string, env: Env, vars: map<string, int>, g: Gen, h: Gen, r: int, s: State)
    requires |g.table| == MAXREG && |s.reg| == MAXREG
  {
    match Eval(e, target, env.alu, vars)
    case None => Run(Emitted(g, h), env, s) == None
    case Some(x) =>
      var out := Run(Emitted(g, h), env, s);
      && out.Some? && Caches(h.table, env, out.value, vars) && out.value.mem == s.mem
      && 0 <= r < MAXREG && out.value.reg[r] == x
      && forall k | 0 <= k < MAXREG && g.table[k] != "" :: out.value.reg[k] == s.reg[k]
  }

  lemma {:induction false} GenComputes(e: Expr<string>, target: string, env: Env, vars: map<string, int>, g: Gen, s: State)
    returns (r: int)
    requires Layout(env.layout) && Caches(g.table, env, s, vars)
    requires GenToks(Postfix(e), target, env.layout.Keys, g).Some?
    ensures Pushed(e, g, GenToks(Postfix(e), target, env.layout.Keys, g).value, r)
    ensures Computes(e, target, env, vars, g, GenToks(Postfix(e), target, env.layout.Keys, g).value, r, s)
    decreases e
  {
    var declared := env.layout.Keys;
    var h := GenToks(Postfix(e), target, declared, g).value;
    match e
    case Var(a) =>
      r := GenShape(e, target, declared, g);
      GenSingle(Atom(a), target, declared, g);
      ComputesAtom(a, target, env, vars, g, h, r, s);
    case Paren(b) =>
      r := GenComputes(b, target, env, vars, g, s);
    case Bin(op, x, y) =>
      r := GenShape(e, target, declared, g);
      var g1, g2 := GenBin(op, x, y, target, declared, g);
      var r1 := GenComputes(x, target, env, vars, g, s);
      var r2 := GenShape(y, target, declared, g1);
      if Eval(x, target, env.alu, vars).Some? {
        r2 := GenComputes(y, target, env, vars, g1, Run(Emitted(g, g1), env, s).value);
      }
      assert g2.rstack[|g2.rstack| - 2..] == [r1, r2];
      ComputesBin(op, x, y, target, env, vars, g, g1, g2, h, r1, r2, s);
  }

  lemma ComputesBin(op: char, x: Expr<string>, y: Expr<string>, target: string, env: Env, vars: map<string, int>,
                    g: Gen, g1: Gen, g2: Gen, h: Gen, r1: int, r2: int, s: State)
    requires Layout(env.layout) && Caches(g.table, env, s, vars)
    requires Pushed(x, g, g1, r1) && Pushed(y, g1, g2, r2) && |g1.table| == MAXREG
    requires g2.rstack[|g2.rstack| - 2..] == [r1, r2]
    requires Computes(x, target, env, vars, g, g1, r1, s)
    requires Eval(x, target, env.alu, vars).Some? ==>
               |Run(Emitted(g, g1), env, s).value.reg| == MAXREG
               && Computes(y, target, env, vars, g1, g2, r2, Run(Emitted(g, g1), env, s).value)
    requires GenTok(Op(op), target, env.layout.Keys, g2) == Some(h)
    ensures Computes(Bin(op, x, y), target, env, vars, g, h, h.opReg, s)
  {
    RunSplit(g, g1, g2, env, s);
    RunSplit(g, g2, h, env, s);
    if Eval(x, target, env.alu, vars).Some? && Eval(y, target, env.alu, vars).Some? {
      var s1 := Run(Emitted(g, g1), env, s).value;
      var s2 := Run(Emitted(g1, g2), env, s1).value;
      assert s2.reg[r1] == s1.reg[r1];
      ComputesOp(op, target, env, vars, g2, h, r1, r2, s2);
      assert forall k | 0 <= k < MAXREG && g.table[k] != "" :: g2.table[k] != "";
    }
  }

  lemma RunSplit(g: Gen, h: Gen, k: Gen, env: Env, s: State)
    requires g.code <= h.code <= k.code
    ensures Run(Emitted(g, k), env, s)
         == match Run(Emitted(g, h), env, s) { case None => None case Some(t) => Run(Emitted(h, k), env, t) }
  {
    assert Emitted(g, k) == Emitted(g, h) + Emitted(h, k);
    RunAppend(Emitted(g, h), Emitted(h, k), env, s);
  }

  lemma RunOne(i: Instr, env: Env, s: State)
    ensures Run([i], env, s) == Do(i, env, s)
  {
    match Do(i, env, s)
    case None =>
    case Some(t) => assert Run([], env, t) == Some(t);
  }

  lemma ComputesAtom(a: string, target: string, env: Env, vars: map<string, int>, g: Gen, h: Gen, r: int, s: State)
    requires Layout(env.layout) && Caches(g.table, env, s, vars)
    requires GenTok(Atom(a), target, env.layout.Keys, g) == Some(h) && r == h.loadReg
    ensures Computes(Var(a), target, env, vars, g, h, r, s)
  {
    var v := Resolve(a, target);
    if Lookup(g.table, v) == -1 {
      assert Emitted(g, h) == [LoadA(v, r)];
      RunOne(LoadA(v, r), env, s);
      Uncached(g.table, r, v);
      assert h.table[r] == v;
    } else {
      assert Emitted(g, h) == [];
    }
  }

  lemma ComputesOp(op: char, target: string, env: Env, vars: map<string, int>, g: Gen, h: Gen, r1: int, r2: int, s: State)
    requires Layout(env.layout) && Caches(g.table, env, s, vars)
    requires GenTok(Op(op), target, env.layout.Keys, g) == Some(h)
    requires |g.rstack| >= 2 && g.rstack[|g.rstack| - 2..] == [r1, r2] && 1 <= r1 < MAXREG && 1 <= r2 < MAXREG
    ensures match env.alu(op, s.reg[r1], s.reg[r2])
            case None => Run(Emitted(g, h), env, s) == None
            case Some(x) =>
              var out := Run(Emitted(g, h), env, s);
              && out == Some(State(s.reg[h.opReg := x], s.mem)) && Caches(h.table, env, out.value, vars)
              && g.table[h.opReg] == ""
  {
    assert g.rstack[|g.rstack| - 2] == g.rstack[|g.rstack| - 2..][0];
    assert g.rstack[|g.rstack| - 1] == g.rstack[|g.rstack| - 2..][1];
    assert Emitted(g, h) == [Alu(op, r1, r2, h.opReg)];
    RunOne(Alu(op, r1, r2, h.opReg), env, s);
    assert forall v | v in env.layout && v !in h.table :: v !in g.table by { Uncached(g.table, h.opReg, "cont_temp"); }
  }

  lemma Uncached(t: seq<string>, r: nat, name: string)
    requires r < |t| && t[r] == ""
    ensures forall v | v != "" && v !in t[r := name] :: v !in t
  {
    forall v | v != "" && v in t
      ensures v in t[r := name]
    {
      var k :| 0 <= k < |t| && t[k] == v;
      assert t[r := name][k] == v;
    }
  }

  // ---- whole statements ----

  ghost predicate Fresh(g: Gen) {
    g.opReg == -1 && g.loadReg == -1
  }

  // The result of a statement's expression is the register it leaves on the register stack.
  lemma ResultOfExpr(e: Expr<string>, target: string, declared: set<string>, g: Gen) returns (h: Gen, r: int)
    requires Fresh(g) && GenToks(Postfix(e), target, declared, g).Some?
    requires g.table != [] && g.table[0] == "" && "" !in declared
    ensures h == GenToks(Postfix(e), target, declared, g).value && Pushed(e, g, h, r) && ResultReg(h) == r
  {
    h := GenToks(Postfix(e), target, declared, g).value;
    r := GenShape(e, target, declared, g);
  }

  // An assignment compiled in the usual mode: the code stores the value of the expression in the
  // target variable, changes no other variable, and stops exactly when an operator does; the cache
  // is coherent again afterwards.
  lemma AssignCorrect(e: Expr<string>, target: string, env: Env, g: Gen, h: Gen, s: State)
    requires Layout(env.layout) && Coherent(g.table, env, s)
    requires GenStmt(Postfix(e), target, env.layout.Keys, false, g) == Some(h)
    ensures g.code <= h.code && forall i | |g.code| <= i < |h.code| :: Straight(h.code[i])
    ensures match Eval(e, target, env.alu, Vars(env, s.mem))
            case None => Run(Emitted(g, h), env, s) == None
            case Some(x) =>
              var out := Run(Emitted(g, h), env, s);
              && out.Some? && Coherent(h.table, env, out.value)
              && Vars(env, out.value.mem) == Vars(env, s.mem)[target := x]
  {
    var g0 := g.(opReg := -1, loadReg := -1);
    var vars := Vars(env, s.mem);
    var m, d := ResultOfExpr(e, target, env.layout.Keys, g0);
    d := GenComputes(e, target, env, vars, g0, s);
    assert Emitted(g, m) == Emitted(g0, m);
    RunSplit(g, m, h, env, s);
    if Eval(e, target, env.alu, vars).Some? {
      StoreRuns(target, env, vars, m, h, Run(Emitted(g, m), env, s).value);
      assert vars == Vars(env, Run(Emitted(g, m), env, s).value.mem);
    }
  }

  lemma StoreRuns(target: string, env: Env, vars: map<string, int>, g: Gen, h: Gen, s: State)
    requires Layout(env.layout) && Caches(g.table, env, s, vars) && vars == Vars(env, s.mem)
    requires Store(target, env.layout.Keys, g) == Some(h) && g.table[ResultReg(g)] != ""
    ensures g.code <= h.code
    ensures Run(Emitted(g, h), env, s).Some? && Coherent(h.table, env, Run(Emitted(g, h), env, s).value)
    ensures Vars(env, Run(Emitted(g, h), env, s).value.mem) == vars[target := s.reg[ResultReg(g)]]
  {
    var d, a := ResultReg(g), NextFree(g.table);
    var i, j := Load(target, a), PullQW(d, a, 0);
    assert Emitted(g, h) == [i] + [j];
    RunAppend([i], [j], env, s);
    RunOne(i, env, s);
    var s1 := Do(i, env, s).value;
    RunOne(j, env, s1);
    assert a != d;
    var s2 := Do(j, env, s1).value;
    assert s2.mem == s.mem[env.layout[target] := s.reg[d]];
  }
}
