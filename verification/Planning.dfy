// Which programs compile, from the source alone: names are declared and registers last.  Of the
// register table it is enough to know which variables are cached and how many results are left in it.
module Planning {
  import opened Infix
  import opened Shunt
  import opened Registers
  import opened Machine
  import opened Codegen
  import opened Budget
  import opened Lowering
  import opened LoweringCorrect
  import opened Labels
  import opened Program

  // The cached variables, and the registers that hold results nobody asks for any more.
  datatype Cache = Cache(names: set<string>, left: nat) {
    // with n registers more
    predicate Room(n: nat) {
      |names| + left + n < MAXREG
    }
  }

  const NOTHING: Cache := Cache({}, 0)

  function PlanCond(v: string, declared: set<string>, k: Cache): Option<Cache> {
    var h := Cache(k.names + {v}, k.left);
    if v in declared && h.Room(0) then Some(h) else None
  }

  // Two variables, and the result of comparing them.
  function PlanCase(x: string, y: string, declared: set<string>): Option<Cache> {
    var h :- PlanCond(y, declared, NOTHING);
    var i :- PlanCond(x, declared, h);
    Some(i.(left := 1))
  }

  // The variable that a statement without an operator copies.
  function Copied(e: Expr<string>, target: string): set<string> {
    match e
    case Var(a) => {Resolve(a, target)}
    case Paren(b) => Copied(b, target)
    case Bin(_, _, _) => {}
  }

  // One register for each variable, each operator and the address of the target.  Afterwards the target
  // is not cached, nor is a variable that was only copied, and the result and the address are free.
  ghost function PlanAssign(e: Expr<string>, target: string, declared: set<string>, k: Cache): Option<Cache> {
    var names := k.names + Atoms(e, target);
    var n := OpCount(e);
    if OpsIn(e, IsBinary) && target in declared && Atoms(e, target) <= declared && Cache(names, k.left).Room(n + 1)
    then Some(Cache(names - {target} - Copied(e, target), if n == 0 then k.left else k.left + n - 1))
    else None
  }

  ghost function Plan(p: Stmt, declared: set<string>, k: Cache): Option<Cache> {
    match p
    case Skip => Some(k)
    case Seq(a, b) =>
      var x :- Plan(a, declared, k);
      Plan(b, declared, x)
    case Assign(_, target, e) => PlanAssign(e, target, declared, k)
    case If(v, body) =>
      var h :- PlanCond(v, declared, NOTHING);
      var _ :- Plan(body, declared, h);
      Some(NOTHING)
    case IfElse(v, a, b) =>
      var h :- PlanCond(v, declared, NOTHING);
      var _ :- Plan(a, declared, h);
      var _ :- Plan(b, declared, NOTHING);
      Some(NOTHING)
    case Switch(body) =>
      var _ :- Plan(body, declared, NOTHING);
      Some(NOTHING)
    case Case(x, y, body) =>
      var h :- PlanCase(x, y, declared);
      var _ :- Plan(body, declared, h);
      Some(NOTHING)
    case DoWhile(body, v) =>
      var x :- Plan(body, declared, NOTHING);
      PlanCond(v, declared, x)
    case For(pre, v, body) =>
      var _ :- Plan(pre, declared, NOTHING);
      var h :- PlanCond(v, declared, NOTHING);
      var _ :- Plan(body, declared, h);
      Some(NOTHING)
  }

  // ---- the register table ----

  ghost predicate Once(t: seq<string>, declared: set<string>) {
    forall i, j | 0 <= i < j < |t| && t[i] in declared :: t[i] != t[j]
  }

  ghost function Cached(t: seq<string>, declared: set<string>): set<string> {
    set v | v in declared && v in t
  }

  // The table is as the plan says.
  ghost predicate As(t: seq<string>, declared: set<string>, k: Cache) {
    && |t| == MAXREG && t[0] == "" && Once(t, declared) && k.names == Cached(t, declared)
    && Spare(t) + |k.names| + k.left + 1 == MAXREG
  }

  lemma EmptyAs(declared: set<string>)
    requires Distinguished(declared)
    ensures As(Empty(), declared, NOTHING)
  {
    AllSpare(MAXREG);
  }

  lemma {:induction false} AllSpare(n: nat)
    requires 0 < n
    ensures Spare(seq(n, _ => "")) == n - 1
  {
    if n == 1 {
      assert FreeSet(seq(1, _ => "")) == {};
    } else {
      AllSpare(n - 1);
      assert FreeSet(seq(n, _ => "")) == FreeSet(seq(n - 1, _ => "")) + {n - 1};
    }
  }

  // A free register takes a variable that was not cached, or a result.
  lemma {:induction false} Put(t: seq<string>, declared: set<string>, k: Cache, r: nat, name: string)
    requires As(t, declared, k) && Distinguished(declared) && 1 <= r < |t| && t[r] == "" && name != ""
    requires name in declared ==> name !in t
    ensures As(t[r := name], declared, if name in declared then Cache(k.names + {name}, k.left) else k.(left := k.left + 1))
  {
    var u := t[r := name];
    SpareUsed(t, r, name);
    forall v | v in declared
      ensures v in u <==> v in t || v == name
    {
      NewEntry(t, r, name, v);
    }
    if name in declared {
      assert Cached(u, declared) == Cached(t, declared) + {name};
    } else {
      assert Cached(u, declared) == Cached(t, declared);
    }
  }

  // A cleared register is spare again.
  lemma {:induction false} Drop(t: seq<string>, declared: set<string>, k: Cache, r: nat)
    requires As(t, declared, k) && Distinguished(declared) && 1 <= r < |t| && t[r] != ""
    requires t[r] !in declared ==> k.left > 0
    ensures As(t[r := ""], declared, if t[r] in declared then Cache(k.names - {t[r]}, k.left) else k.(left := k.left - 1))
  {
    var u := t[r := ""];
    SpareUsed(u, r, t[r]);
    assert u[r := t[r]] == t;
    forall v | v in declared
      ensures v in u <==> v in t && v != t[r]
    {
      NewEntry(u, r, t[r], v);
    }
    if t[r] in declared {
      assert t[r] in k.names;
      assert Cached(u, declared) == Cached(t, declared) - {t[r]};
    } else {
      assert Cached(u, declared) == Cached(t, declared);
    }
  }

  // ---- one statement ----

  lemma CondPlan(m: Mode, v: string, g: Gen, k: Cache)
    requires As(g.table, m.declared, k) && Distinguished(m.declared)
    ensures GenCond(m, v, g).Some? <==> PlanCond(v, m.declared, k).Some?
    ensures GenCond(m, v, g).Some? ==> As(GenCond(m, v, g).value.table, m.declared, PlanCond(v, m.declared, k).value)
  {
    SpareExists(g.table);
    if v in k.names {
      assert k.names + {v} == k.names;
    } else if v in m.declared {
      assert |k.names + {v}| == |k.names| + 1;
      var f := NextFree(g.table);
      if f != -1 { Put(g.table, m.declared, k, f, v); }
    }
  }

  // Tokens keep each variable in one register at most.
  lemma {:induction false} ToksOnce(ts: seq<Tok<string>>, target: string, declared: set<string>, g: Gen)
    requires GenToks(ts, target, declared, g).Some? && Once(g.table, declared) && Distinguished(declared)
    ensures Once(GenToks(ts, target, declared, g).value.table, declared)
    decreases |ts|
  {
    if ts != [] { ToksOnce(ts[1..], target, declared, GenTok(ts[0], target, declared, g).value); }
  }

  lemma {:induction false} ToksBinary(e: Expr<string>, target: string, declared: set<string>, g: Gen)
    requires GenToks(Postfix(e), target, declared, g).Some?
    ensures OpsIn(e, IsBinary)
    decreases e
  {
    match e
    case Var(_) =>
    case Paren(b) => ToksBinary(b, target, declared, g);
    case Bin(op, l, r) =>
      var g1, g2 := GenBin(op, l, r, target, declared, g);
      ToksBinary(l, target, declared, g);
      ToksBinary(r, target, declared, g1);
  }

  lemma {:induction false} CopiedMeans(e: Expr<string>, target: string)
    ensures OpCount(e) == 0 <==> !HasOp(e)
    ensures if HasOp(e) then Copied(e, target) == {} else Copied(e, target) == Atoms(e, target)
    ensures !HasOp(e) ==> exists x :: Copied(e, target) == {x}
  {
    match e
    case Var(_) =>
    case Paren(b) => CopiedMeans(b, target);
    case Bin(_, l, r) =>
  }

  // Behind the code of an expression all its variables are cached.
  lemma {:induction false} ExprPlan(e: Expr<string>, target: string, declared: set<string>, g: Gen, k: Cache)
    requires As(g.table, declared, k) && Distinguished(declared) && OpsIn(e, IsBinary)
    requires GenToks(Postfix(e), target, declared, g).Some?
    ensures Atoms(e, target) <= declared
    ensures As(GenToks(Postfix(e), target, declared, g).value.table, declared, Cache(k.names + Atoms(e, target), k.left + OpCount(e)))
  {
    ExprBudget(e, target, declared, g);
    DeclaredAtoms(e, target, declared);
    ToksOnce(Postfix(e), target, declared, g);
    var r := GenShape(e, target, declared, g);
    var h := GenToks(Postfix(e), target, declared, g).value;
    UncachedCount(e, target, declared, g.table, k);
    assert Cached(h.table, declared) == k.names + Atoms(e, target);
  }

  lemma {:induction false} UncachedCount(e: Expr<string>, target: string, declared: set<string>, t: seq<string>, k: Cache)
    requires As(t, declared, k) && Atoms(e, target) <= declared
    ensures |k.names + Atoms(e, target)| == |k.names| + |Budget.Uncached(e, target, t)|
  {
    assert k.names + Atoms(e, target) == k.names + Budget.Uncached(e, target, t);
    assert k.names !! Budget.Uncached(e, target, t);
  }

  // The register with the result holds the result of the last operator, or the variable copied.
  lemma {:induction false} ResultEntry(e: Expr<string>, target: string, declared: set<string>, g: Gen, r: int)
    requires g.table != [] && g.table[0] == "" && Distinguished(declared)
    requires GenToks(Postfix(e), target, declared, g).Some? && Pushed(e, g, GenToks(Postfix(e), target, declared, g).value, r)
    ensures var t := GenToks(Postfix(e), target, declared, g).value.table;
            if HasOp(e) then t[r] == "cont_temp" else Copied(e, target) == {t[r]}
    decreases e
  {
    match e
    case Var(a) => GenSingle(Atom(a), target, declared, g);
    case Paren(b) => ResultEntry(b, target, declared, g, r);
    case Bin(op, x, y) =>
      var g1, g2 := GenBin(op, x, y, target, declared, g);
  }

  lemma {:induction false} ForgetOne(t: seq<string>, declared: set<string>, k: Cache, target: string)
    requires As(t, declared, k) && Distinguished(declared) && target in declared
    ensures As(Forget(t, target), declared, Cache(k.names - {target}, k.left))
  {
    if target in t {
      var j :| 0 <= j < |t| && t[j] == target;
      assert Forget(t, target) == t[j := ""];
      Drop(t, declared, k, j);
    } else {
      assert Forget(t, target) == t && k.names - {target} == k.names;
    }
  }

  // The store clears the register of the target, of the result and of the address.
  lemma {:induction false} StorePlan(t: seq<string>, declared: set<string>, k: Cache, target: string, d: nat, a: nat)
    requires As(t, declared, k) && Distinguished(declared) && target in declared
    requires 1 <= a < |t| && t[a] == "" && 1 <= d < |t| && t[d] != "" && (t[d] !in declared ==> k.left > 0)
    ensures As(Forget(t[a := "temp"], target)[d := ""][a := ""], declared,
               if t[d] in declared then Cache(k.names - {target} - {t[d]}, k.left) else Cache(k.names - {target}, k.left - 1))
  {
    assert |t| == MAXREG && target != "temp" && "temp" !in declared;
    hide *;
    var x := t[d];
    var t1, k1 := t[a := "temp"], k.(left := k.left + 1);
    Put(t, declared, k, a, "temp");
    var t2, k2 := Forget(t1, target), Cache(k1.names - {target}, k1.left);
    ForgetOne(t1, declared, k1, target);
    Entries(t1, target);
    assert t2[a] == "temp" && t2[d] == if x == target then "" else x;
    var k3 := if x in declared then Cache(k2.names - {x}, k2.left) else k2.(left := k2.left - 1);
    if x == target {
      assert t2[d := ""] == t2 && k2.names - {x} == k2.names;
    } else {
      Drop(t2, declared, k2, d);
    }
    Drop(t2[d := ""], declared, k3, a);
  }

  lemma Entries(t: seq<string>, name: string)
    ensures |Forget(t, name)| == |t| && forall k | 0 <= k < |t| :: Forget(t, name)[k] == if t[k] == name then "" else t[k]
  {
  }

  // An assignment compiles exactly when the plan says so, and leaves the table as planned.
  lemma {:induction false} AssignPlan(e: Expr<string>, target: string, declared: set<string>, g: Gen, k: Cache)
    requires As(g.table, declared, k) && Distinguished(declared)
    ensures GenStmt(Postfix(e), target, declared, false, g).Some? <==> PlanAssign(e, target, declared, k).Some?
    ensures GenStmt(Postfix(e), target, declared, false, g).Some? ==>
              As(GenStmt(Postfix(e), target, declared, false, g).value.table, declared, PlanAssign(e, target, declared, k).value)
  {
    hide *;
    AssignFits(e, target, declared, g, k);
    if GenStmt(Postfix(e), target, declared, false, g).Some? {
      var h, d, a := StoreOf(e, target, declared, g, k);
      var g0 := g.(opReg := -1, loadReg := -1);
      ToksBinary(e, target, declared, g0);
      ExprPlan(e, target, declared, g0, k);
      ResultEntry(e, target, declared, g0, d);
      PlannedIs(e, target, declared, k, h.table[d]);
      StorePlan(h.table, declared, Cache(k.names + Atoms(e, target), k.left + OpCount(e)), target, d, a);
    }
  }

  lemma StoreOf(e: Expr<string>, target: string, declared: set<string>, g: Gen, k: Cache) returns (h: Gen, d: nat, a: nat)
    requires GenStmt(Postfix(e), target, declared, false, g).Some? && Distinguished(declared) && As(g.table, declared, k)
    ensures g.table != [] && g.table[0] == ""
    ensures var g0 := g.(opReg := -1, loadReg := -1);
            && GenToks(Postfix(e), target, declared, g0) == Some(h) && Pushed(e, g0, h, d) && target in declared
            && 1 <= d < |h.table| && h.table[d] != "" && 1 <= a < |h.table| && h.table[a] == ""
            && GenStmt(Postfix(e), target, declared, false, g).value.table == Forget(h.table[a := "temp"], target)[d := ""][a := ""]
  {
    var r;
    h, r := ResultOfExpr(e, target, declared, g.(opReg := -1, loadReg := -1));
    d, a := r, NextFree(h.table);
    hide GenToks;
  }

  lemma PlannedIs(e: Expr<string>, target: string, declared: set<string>, k: Cache, x: string)
    requires PlanAssign(e, target, declared, k).Some? && Distinguished(declared)
    requires if HasOp(e) then x == "cont_temp" else Copied(e, target) == {x}
    ensures x in declared <==> !HasOp(e)
    ensures x !in declared ==> OpCount(e) > 0
    ensures var names, n := k.names + Atoms(e, target), k.left + OpCount(e);
            PlanAssign(e, target, declared, k).value
            == if x in declared then Cache(names - {target} - {x}, n) else Cache(names - {target}, n - 1)
  {
    CopiedMeans(e, target);
    hide OpCount;
    hide Copied;
    hide HasOp;
    var names := k.names + Atoms(e, target);
    assert names - {target} - {} == names - {target};
    if !HasOp(e) { assert x in Atoms(e, target); }
  }

  lemma {:induction false} AssignFits(e: Expr<string>, target: string, declared: set<string>, g: Gen, k: Cache)
    requires As(g.table, declared, k) && Distinguished(declared)
    ensures GenStmt(Postfix(e), target, declared, false, g).Some? <==> PlanAssign(e, target, declared, k).Some?
  {
    var g0 := g.(opReg := -1, loadReg := -1);
    if OpsIn(e, IsBinary) && target in declared {
      StatementBudget(e, target, declared, false, g);
      DeclaredAtoms(e, target, declared);
      if Atoms(e, target) <= declared { UncachedCount(e, target, declared, g.table, k); }
    } else if GenToks(Postfix(e), target, declared, g0).Some? {
      ToksBinary(e, target, declared, g0);
    }
  }

  // ---- whole programs ----

  ghost predicate Standing(m: Mode) {
    m.nested && !m.noPull && Distinguished(m.declared)
  }

  // Behind the lines that empty the cache.
  lemma Emptied(m: Mode, k: int, g: Gen)
    requires Standing(m)
    ensures As(InitIf(m, g).table, m.declared, NOTHING) && As(GenEndIf(m, k, g).table, m.declared, NOTHING)
    ensures k >= 0 ==> As(GenElse(m, k, g).table, m.declared, NOTHING) && As(GenDo(m, k, g).table, m.declared, NOTHING)
    ensures k >= 0 ==> As(GenForLoop(m, k, g).table, m.declared, NOTHING) && As(GenNext(m, k, g).table, m.declared, NOTHING)
  {
    EmptyAs(m.declared);
  }

  lemma TestPlan(m: Mode, v: string, yes: Label, no: Label, g: Gen)
    requires Standing(m)
    ensures GenTest(m, v, yes, no, g).Some? <==> PlanCond(v, m.declared, NOTHING).Some?
    ensures GenTest(m, v, yes, no, g).Some? ==>
              As(GenTest(m, v, yes, no, g).value.table, m.declared, PlanCond(v, m.declared, NOTHING).value)
  {
    Emptied(m, 0, g);
    CondPlan(m, v, InitIf(m, g), NOTHING);
  }

  lemma CasePlan(m: Mode, x: string, y: string, n: nat, g: Gen)
    requires Standing(m)
    ensures GenCase(m, x, y, n, g).Some? <==> PlanCase(x, y, m.declared).Some?
    ensures GenCase(m, x, y, n, g).Some? ==> As(GenCase(m, x, y, n, g).value.table, m.declared, PlanCase(x, y, m.declared).value)
  {
    Emptied(m, 0, g);
    CondPlan(m, y, InitIf(m, g), NOTHING);
    if x in m.declared && y in m.declared {
      var h, k := GenCond(m, y, InitIf(m, g)).value, PlanCond(y, m.declared, NOTHING).value;
      CondPlan(m, x, h, k);
      var h2, k2 := GenCond(m, x, h).value, PlanCond(x, m.declared, k).value;
      SpareExists(h2.table);
      Put(h2.table, m.declared, k2, NextFree(h2.table), "temp");
    }
  }

  // Code for a program is generated exactly when the plan goes through.
  lemma {:induction false} PlanExact(m: Mode, p: Stmt, l: Low, k: Cache)
    requires Standing(m) && As(l.g.table, m.declared, k)
    ensures GenProg(m, p, l).Some? <==> Plan(p, m.declared, k).Some?
    ensures GenProg(m, p, l).Some? ==> As(GenProg(m, p, l).value.g.table, m.declared, Plan(p, m.declared, k).value)
    decreases p, 1
  {
    hide GenProg;
    hide GenTest;
    hide GenCase;
    hide GenCond;
    hide GenStmt;
    hide GenElse;
    hide GenEndIf;
    hide GenDo;
    hide GenForLoop;
    hide GenNext;
    hide InitIf;
    hide As;
    hide Standing;
    hide PlanCond;
    hide PlanAssign;
    GenProgIs(m, p, l);
    match p
    case Skip =>
    case Seq(a, b) =>
      PlanExact(m, a, l, k);
      if GenProg(m, a, l).Some? { PlanExact(m, b, GenProg(m, a, l).value, Plan(a, m.declared, k).value); }
    case Assign(_, target, e) =>
      StandingIs(m);
      AssignPlan(e, target, m.declared, l.g, k);
    case If(v, body) =>
      TestPlan(m, v, Label(IfL, l.ifs), Label(EndIfL, l.ifs), l.g);
      if PlanCond(v, m.declared, NOTHING).Some? {
        var h := l.(g := GenIf(m, v, l.ifs, EndIfL, l.g).value, ifs := l.ifs + 1);
        PlanExact(m, body, h, PlanCond(v, m.declared, NOTHING).value);
        if GenProg(m, body, h).Some? { Emptied(m, l.ifs, GenProg(m, body, h).value.g); }
      }
    case IfElse(v, a, b) => IfElsePlan(m, v, a, b, l, k);
    case Switch(body) =>
      Emptied(m, 0, l.g);
      var h := l.(g := InitIf(m, l.g), switches := l.switches + 1);
      PlanExact(m, body, h, NOTHING);
      if GenProg(m, body, h).Some? { Emptied(m, 0, GenProg(m, body, h).value.g); }
    case Case(x, y, body) =>
      CasePlan(m, x, y, l.ifs, l.g);
      if PlanCase(x, y, m.declared).Some? {
        var h := l.(g := GenCase(m, x, y, l.ifs, l.g).value, ifs := l.ifs + 1);
        PlanExact(m, body, h, PlanCase(x, y, m.declared).value);
        if GenProg(m, body, h).Some? { Emptied(m, l.ifs, GenProg(m, body, h).value.g); }
      }
    case DoWhile(body, v) =>
      Emptied(m, l.whiles, l.g);
      var h := l.(g := GenDo(m, l.whiles, l.g), whiles := l.whiles + 1);
      PlanExact(m, body, h, NOTHING);
      if GenProg(m, body, h).Some? {
        StandingIs(m);
        CondPlan(m, v, GenProg(m, body, h).value.g, Plan(body, m.declared, NOTHING).value);
      }
    case For(pre, v, body) => ForPlan(m, pre, v, body, l, k);
  }

  lemma StandingIs(m: Mode)
    requires Standing(m)
    ensures Distinguished(m.declared) && !m.noPull && "" !in m.declared
  {
  }

  lemma IfElsePlan(m: Mode, v: string, a: Stmt, b: Stmt, l: Low, k: Cache)
    requires Standing(m) && As(l.g.table, m.declared, k)
    ensures GenProg(m, IfElse(v, a, b), l).Some? <==> Plan(IfElse(v, a, b), m.declared, k).Some?
    ensures GenProg(m, IfElse(v, a, b), l).Some? ==>
              As(GenProg(m, IfElse(v, a, b), l).value.g.table, m.declared, Plan(IfElse(v, a, b), m.declared, k).value)
    decreases IfElse(v, a, b), 0
  {
    hide GenProg;
    hide GenTest;
    hide GenElse;
    hide GenEndIf;
    hide As;
    hide Standing;
    hide PlanCond;
    GenProgIs(m, IfElse(v, a, b), l);
    TestPlan(m, v, Label(IfL, l.ifs), Label(ElseL, l.ifs), l.g);
    if PlanCond(v, m.declared, NOTHING).Some? {
      var h := l.(g := GenIf(m, v, l.ifs, ElseL, l.g).value, ifs := l.ifs + 1);
      PlanExact(m, a, h, PlanCond(v, m.declared, NOTHING).value);
      if GenProg(m, a, h).Some? {
        var x := GenProg(m, a, h).value;
        Emptied(m, l.ifs, x.g);
        var y := x.(g := GenElse(m, l.ifs, x.g));
        PlanExact(m, b, y, NOTHING);
        if GenProg(m, b, y).Some? { Emptied(m, l.ifs, GenProg(m, b, y).value.g); }
      }
    }
  }

  lemma ForPlan(m: Mode, pre: Stmt, v: string, body: Stmt, l: Low, k: Cache)
    requires Standing(m) && As(l.g.table, m.declared, k)
    ensures GenProg(m, For(pre, v, body), l).Some? <==> Plan(For(pre, v, body), m.declared, k).Some?
    ensures GenProg(m, For(pre, v, body), l).Some? ==>
              As(GenProg(m, For(pre, v, body), l).value.g.table, m.declared, Plan(For(pre, v, body), m.declared, k).value)
    decreases For(pre, v, body), 0
  {
    hide GenProg;
    hide GenTest;
    hide GenForLoop;
    hide GenNext;
    hide As;
    hide Standing;
    hide PlanCond;
    GenProgIs(m, For(pre, v, body), l);
    Emptied(m, l.fors, l.g);
    var h := l.(g := GenForLoop(m, l.fors, l.g), fors := l.fors + 1);
    PlanExact(m, pre, h, NOTHING);
    if GenProg(m, pre, h).Some? {
      var x := GenProg(m, pre, h).value;
      TestPlan(m, v, Label(For2L, l.fors), Label(ForEndL, l.fors), x.g);
      if PlanCond(v, m.declared, NOTHING).Some? {
        var y := x.(g := GenFor(m, v, l.fors, x.g).value);
        PlanExact(m, body, y, PlanCond(v, m.declared, NOTHING).value);
        if GenProg(m, body, y).Some? { Emptied(m, l.fors, GenProg(m, body, y).value.g); }
      }
    }
  }

  // The compiler accepts a program that fits the slot tables exactly when the plan goes through.
  lemma CompilesExactly(m: Mode, p: Stmt)
    requires WellFormed(p) && SlotsFit(p) && Standing(m)
    ensures DoLines(m, Lines(p), Start()).Some? <==> Plan(p, m.declared, NOTHING).Some?
  {
    var l := Low(Start().g, 0, 0, 0, 0);
    LinesAgree(m, p, Start(), l);
    EmptyAs(m.declared);
    PlanExact(m, p, l, NOTHING);
    hide *;
  }

  // ---- programs without an instruction ----

  predicate Idle(p: Stmt) {
    match p
    case Skip => true
    case Seq(a, b) => Idle(a) && Idle(b)
    case Switch(body) => Idle(body)
    case _ => false
  }

  // Some instruction behind `from` is more than a label.
  ghost predicate Active(code: seq<Instr>, from: nat) {
    exists i :: from <= i < |code| && !code[i].Here?
  }

  lemma ActiveOn(code: seq<Instr>, more: seq<Instr>, from: nat)
    requires Active(code, from) && code <= more
    ensures Active(more, from)
  {
    var i :| from <= i < |code| && !code[i].Here?;
    assert !more[i].Here?;
  }

  lemma ActiveAt(code: seq<Instr>, from: nat, i: nat)
    requires from <= i < |code| && !code[i].Here?
    ensures Active(code, from)
  {
  }

  lemma TestActive(m: Mode, v: string, yes: Label, no: Label, g: Gen)
    requires GenTest(m, v, yes, no, g).Some? && Ready(g) && "" !in m.declared
    ensures Ready(GenTest(m, v, yes, no, g).value) && Active(GenTest(m, v, yes, no, g).value.code, |g.code|)
  {
    CondShape(m, v, InitIf(m, g));
    hide GenCond;
    var h := GenCond(m, v, InitIf(m, g)).value;
    ActiveAt(GenTest(m, v, yes, no, g).value.code, |g.code|, |h.code|);
  }

  lemma CaseActive(m: Mode, x: string, y: string, k: nat, g: Gen)
    requires GenCase(m, x, y, k, g).Some? && Ready(g) && "" !in m.declared
    ensures Ready(GenCase(m, x, y, k, g).value) && Active(GenCase(m, x, y, k, g).value.code, |g.code|)
  {
    CondShape(m, y, InitIf(m, g));
    var h := GenCond(m, y, InitIf(m, g)).value;
    CondShape(m, x, h);
    hide GenCond;
    var i := GenCond(m, x, h).value;
    ActiveAt(GenCase(m, x, y, k, g).value.code, |g.code|, |i.code|);
  }

  lemma AssignActive(m: Mode, e: Expr<string>, target: string, g: Gen)
    requires GenStmt(Postfix(e), target, m.declared, false, g).Some? && Ready(g) && "" !in m.declared && !m.noPull
    ensures Active(GenStmt(Postfix(e), target, m.declared, false, g).value.code, |g.code|)
  {
    StmtShape(m, e, target, g);
    var h, r := ResultOfExpr(e, target, m.declared, g.(opReg := -1, loadReg := -1));
    var x := GenStmt(Postfix(e), target, m.declared, false, g).value;
    ActiveAt(x.code, |g.code|, |x.code| - 1);
  }

  // A block whose opening line leaves an instruction.
  lemma BlockActive(m: Mode, body: Stmt, h: Low, from: nat, k: nat)
    requires GenProg(m, body, h).Some? && Ready(h.g) && "" !in m.declared && Active(h.g.code, from)
    ensures Active(GenEndIf(m, k, GenProg(m, body, h).value.g).code, from)
  {
    ProgLabels(m, body, h);
    var x := GenProg(m, body, h).value.g;
    ActiveOn(h.g.code, x.code, from);
    ActiveOn(x.code, GenEndIf(m, k, x).code, from);
  }

  lemma IfActive(m: Mode, v: string, body: Stmt, l: Low)
    requires GenProg(m, If(v, body), l).Some? && Ready(l.g) && Standing(m)
    ensures Active(GenProg(m, If(v, body), l).value.g.code, |l.g.code|)
  {
    hide GenProg;
    hide GenTest;
    hide Active;
    hide Ready;
    GenProgIs(m, If(v, body), l);
    TestActive(m, v, Label(IfL, l.ifs), Label(EndIfL, l.ifs), l.g);
    BlockActive(m, body, l.(g := GenIf(m, v, l.ifs, EndIfL, l.g).value, ifs := l.ifs + 1), |l.g.code|, l.ifs);
  }

  lemma IfElseActive(m: Mode, v: string, a: Stmt, b: Stmt, l: Low)
    requires GenProg(m, IfElse(v, a, b), l).Some? && Ready(l.g) && Standing(m)
    ensures Active(GenProg(m, IfElse(v, a, b), l).value.g.code, |l.g.code|)
  {
    hide GenProg;
    hide GenTest;
    hide Active;
    hide Ready;
    GenProgIs(m, IfElse(v, a, b), l);
    TestActive(m, v, Label(IfL, l.ifs), Label(ElseL, l.ifs), l.g);
    var h := l.(g := GenIf(m, v, l.ifs, ElseL, l.g).value, ifs := l.ifs + 1);
    ProgLabels(m, a, h);
    var x := GenProg(m, a, h).value;
    ActiveOn(h.g.code, x.g.code, |l.g.code|);
    var y := x.(g := GenElse(m, l.ifs, x.g));
    ActiveOn(x.g.code, y.g.code, |l.g.code|);
    EmptyReady(m, x.g);
    BlockActive(m, b, y, |l.g.code|, l.ifs);
  }

  lemma EmptyReady(m: Mode, g: Gen)
    requires Standing(m)
    ensures Ready(InitIf(m, g)) && forall code :: Ready(Emit(InitIf(m, g), code))
  {
  }

  lemma ForActive(m: Mode, pre: Stmt, v: string, body: Stmt, l: Low)
    requires GenProg(m, For(pre, v, body), l).Some? && Ready(l.g) && Standing(m)
    ensures Active(GenProg(m, For(pre, v, body), l).value.g.code, |l.g.code|)
  {
    hide GenProg;
    hide GenTest;
    hide Ready;
    hide NewLabels;
    GenProgIs(m, For(pre, v, body), l);
    ProgLabels(m, For(pre, v, body), l);
    LabelsOn(l, GenProg(m, For(pre, v, body), l).value);
    var h := l.(g := GenForLoop(m, l.fors, l.g), fors := l.fors + 1);
    var x := GenProg(m, pre, h).value;
    var y := x.(g := GenFor(m, v, l.fors, x.g).value);
    EmptyReady(m, l.g);
    ProgLabels(m, pre, h);
    LabelsOn(h, x);
    TestActive(m, v, Label(For2L, l.fors), Label(ForEndL, l.fors), x.g);
    ProgLabels(m, body, y);
    LabelsOn(y, GenProg(m, body, y).value);
    var z := GenProg(m, body, y).value.g;
    ActiveAt(GenNext(m, l.fors, z).code, |l.g.code|, |z.code|);
  }

  lemma LabelsOn(l: Low, x: Low)
    requires NewLabels(l, x)
    ensures l.g.code <= x.g.code
  {
  }

  lemma WhileActive(m: Mode, body: Stmt, v: string, l: Low)
    requires GenProg(m, DoWhile(body, v), l).Some? && Ready(l.g) && Standing(m)
    ensures Active(GenProg(m, DoWhile(body, v), l).value.g.code, |l.g.code|)
  {
    hide GenProg;
    hide NewLabels;
    GenProgIs(m, DoWhile(body, v), l);
    EmptyReady(m, l.g);
    var h := l.(g := GenDo(m, l.whiles, l.g), whiles := l.whiles + 1);
    ProgLabels(m, body, h);
    LabelsOn(h, GenProg(m, body, h).value);
    var x := GenProg(m, body, h).value.g;
    CondShape(m, v, x);
    var y := GenCond(m, v, x).value;
    hide GenCond;
    hide Ready;
    ActiveAt(GenWhile(m, v, l.whiles, x).value.code, |l.g.code|, |y.code|);
  }

  // Code has an instruction exactly when the program is more than empty switches.
  lemma {:induction false} ProgActive(m: Mode, p: Stmt, l: Low)
    requires GenProg(m, p, l).Some? && Ready(l.g) && Standing(m)
    ensures var x := GenProg(m, p, l).value.g; if Idle(p) then x.code == l.g.code else Active(x.code, |l.g.code|)
    decreases p
  {
    StandingIs(m);
    hide GenProg;
    hide GenTest;
    hide GenIf;
    hide GenFor;
    hide GenCase;
    hide GenStmt;
    hide GenElse;
    hide GenEndIf;
    hide GenDo;
    hide GenWhile;
    hide GenForLoop;
    hide GenNext;
    hide GenCond;
    hide LoadVariable;
    hide Active;
    hide Ready;
    hide Standing;
    hide NewLabels;
    GenProgIs(m, p, l);
    match p
    case Skip =>
    case Seq(a, b) =>
      ProgActive(m, a, l);
      var x := GenProg(m, a, l).value;
      ProgLabels(m, a, l);
      LabelsOn(l, x);
      ProgActive(m, b, x);
      ProgLabels(m, b, x);
      LabelsOn(x, GenProg(m, b, x).value);
      ActiveBoth(x.g.code, GenProg(m, b, x).value.g.code, |l.g.code|);
    case Assign(_, target, e) => AssignActive(m, e, target, l.g);
    case If(v, body) => IfActive(m, v, body, l);
    case IfElse(v, a, b) => IfElseActive(m, v, a, b, l);
    case Switch(body) =>
      EmptyReady(m, l.g);
      ProgActive(m, body, l.(g := InitIf(m, l.g), switches := l.switches + 1));
    case Case(x, y, body) =>
      CaseActive(m, x, y, l.ifs, l.g);
      BlockActive(m, body, l.(g := GenCase(m, x, y, l.ifs, l.g).value, ifs := l.ifs + 1), |l.g.code|, l.ifs);
    case DoWhile(body, v) => WhileActive(m, body, v, l);
    case For(pre, v, body) => ForActive(m, pre, v, body, l);
  }

  lemma ActiveBoth(x: seq<Instr>, y: seq<Instr>, from: nat)
    requires from <= |x| && x <= y
    ensures Active(x, from) || Active(y, |x|) ==> Active(y, from)
  {
    if Active(x, from) {
      ActiveOn(x, y, from);
    } else if Active(y, |x|) {
      var i :| |x| <= i < |y| && !y[i].Here?;
      ActiveAt(y, from, i);
    }
  }
}
