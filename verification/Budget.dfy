// How many free registers a statement needs: compiling it succeeds exactly when they are there.
module Budget {
  import opened Infix
  import opened Shunt
  import opened Registers
  import opened Machine
  import opened Codegen
  import opened Sets

  function OpCount(e: Expr<string>): nat {
    match e
    case Var(_) => 0
    case Paren(b) => OpCount(b)
    case Bin(_, l, r) => OpCount(l) + OpCount(r) + 1
  }

  function Atoms(e: Expr<string>, target: string): set<string> {
    match e
    case Var(a) => {Resolve(a, target)}
    case Paren(b) => Atoms(b, target)
    case Bin(_, l, r) => Atoms(l, target) + Atoms(r, target)
  }

  // The variables of the expression that no register caches yet.
  function Uncached(e: Expr<string>, target: string, t: seq<string>): set<string> {
    set v | v in Atoms(e, target) && v !in t
  }

  // One register for each of them and one for each operator.
  function Need(e: Expr<string>, target: string, t: seq<string>): nat {
    |Uncached(e, target, t)| + OpCount(e)
  }

  lemma BinUnfolds(op: char, l: Expr<string>, r: Expr<string>, target: string, declared: set<string>, g: Gen)
    ensures GenToks(Postfix(Bin(op, l, r)), target, declared, g)
         == match GenToks(Postfix(l), target, declared, g)
            case None => None
            case Some(g1) =>
              match GenToks(Postfix(r), target, declared, g1)
              case None => None
              case Some(g2) => GenTok(Op(op), target, declared, g2)
  {
    GenAppend(Postfix(l) + Postfix(r), [Op(op)], target, declared, g);
    GenAppend(Postfix(l), Postfix(r), target, declared, g);
    match GenToks(Postfix(l), target, declared, g)
    case None =>
    case Some(g1) =>
      match GenToks(Postfix(r), target, declared, g1)
      case None =>
      case Some(g2) => GenSingle(Op(op), target, declared, g2);
  }

  // A declared variable is cached afterwards when it was before or the expression uses it.
  ghost predicate CachesMore(e: Expr<string>, target: string, declared: set<string>, t: seq<string>, u: seq<string>) {
    forall v | v in declared :: v in u <==> v in t || v in Atoms(e, target)
  }

  ghost predicate Distinguished(declared: set<string>) {
    "" !in declared && "temp" !in declared && "cont_temp" !in declared
  }

  lemma {:induction false} DeclaredAtoms(e: Expr<string>, target: string, declared: set<string>)
    ensures Declared(e, target, declared) <==> Atoms(e, target) <= declared
  {
    match e
    case Var(_) =>
    case Paren(b) => DeclaredAtoms(b, target, declared);
    case Bin(_, l, r) =>
      DeclaredAtoms(l, target, declared);
      DeclaredAtoms(r, target, declared);
  }

  lemma UncachedSplit(op: char, l: Expr<string>, r: Expr<string>, target: string, declared: set<string>, t: seq<string>, u: seq<string>)
    requires CachesMore(l, target, declared, t, u) && Atoms(l, target) <= declared && Atoms(r, target) <= declared
    ensures |Uncached(Bin(op, l, r), target, t)| == |Uncached(l, target, t)| + |Uncached(r, target, u)|
  {
    assert Uncached(Bin(op, l, r), target, t) == Uncached(l, target, t) + Uncached(r, target, u);
    assert Uncached(l, target, t) !! Uncached(r, target, u);
  }

  lemma UncachedGrows(op: char, l: Expr<string>, r: Expr<string>, target: string, t: seq<string>)
    ensures |Uncached(l, target, t)| <= |Uncached(Bin(op, l, r), target, t)|
  {
    Smaller(Uncached(l, target, t), Uncached(Bin(op, l, r), target, t));
  }

  lemma NewEntry(t: seq<string>, r: nat, name: string, v: string)
    requires r < |t| && t[r] == "" && v != ""
    ensures v in t[r := name] <==> v in t || v == name
  {
    if v in t {
      var k :| 0 <= k < |t| && t[k] == v;
      assert t[r := name][k] == v;
    }
    if v == name { assert t[r := name][r] == v; }
  }

  lemma AtomBudget(a: string, target: string, declared: set<string>, g: Gen)
    requires g.table != [] && Distinguished(declared)
    ensures GenTok(Atom(a), target, declared, g).Some?
       <==> Resolve(a, target) in declared && |Uncached(Var(a), target, g.table)| <= Spare(g.table)
    ensures GenTok(Atom(a), target, declared, g).Some? ==>
              var h := GenTok(Atom(a), target, declared, g).value;
              && Spare(h.table) == Spare(g.table) - |Uncached(Var(a), target, g.table)|
              && CachesMore(Var(a), target, declared, g.table, h.table)
  {
    var v := Resolve(a, target);
    SpareExists(g.table);
    if v in g.table {
      assert Uncached(Var(a), target, g.table) == {};
    } else {
      assert Uncached(Var(a), target, g.table) == {v};
      var f := NextFree(g.table);
      if v in declared && f != -1 {
        SpareUsed(g.table, f, v);
        forall w | w in declared
          ensures w in g.table[f := v] <==> w in g.table || w == v
        {
          NewEntry(g.table, f, v, w);
        }
      }
    }
  }

  lemma OpBudget(op: char, target: string, declared: set<string>, g: Gen)
    requires g.table != [] && Distinguished(declared) && IsBinary(op)
    requires |g.rstack| >= 2 && g.rstack[|g.rstack| - 1] >= 0 && g.rstack[|g.rstack| - 2] >= 0
    ensures GenTok(Op(op), target, declared, g).Some? <==> Spare(g.table) > 0
    ensures GenTok(Op(op), target, declared, g).Some? ==>
              var h := GenTok(Op(op), target, declared, g).value;
              && Spare(h.table) == Spare(g.table) - 1
              && forall v | v in declared :: v in h.table <==> v in g.table
  {
    SpareExists(g.table);
    var d := NextFree(g.table);
    if d != -1 {
      SpareUsed(g.table, d, "cont_temp");
      forall v | v in declared
        ensures v in g.table[d := "cont_temp"] <==> v in g.table
      {
        NewEntry(g.table, d, "cont_temp", v);
      }
    }
  }

  // The code of an expression can be generated exactly when its variables are declared and the
  // registers it needs are free, and then it uses exactly those.
  lemma {:induction false} ExprBudget(e: Expr<string>, target: string, declared: set<string>, g: Gen)
    requires g.table != [] && g.table[0] == "" && Distinguished(declared) && OpsIn(e, IsBinary)
    ensures GenToks(Postfix(e), target, declared, g).Some?
       <==> Declared(e, target, declared) && Need(e, target, g.table) <= Spare(g.table)
    ensures GenToks(Postfix(e), target, declared, g).Some? ==>
              var h := GenToks(Postfix(e), target, declared, g).value;
              && Spare(h.table) == Spare(g.table) - Need(e, target, g.table)
              && CachesMore(e, target, declared, g.table, h.table)
    decreases e
  {
    match e
    case Var(a) =>
      GenSingle(Atom(a), target, declared, g);
      AtomBudget(a, target, declared, g);
    case Paren(b) => ExprBudget(b, target, declared, g);
    case Bin(op, l, r) =>
      ExprBudget(l, target, declared, g);
      UncachedGrows(op, l, r, target, g.table);
      DeclaredAtoms(e, target, declared);
      DeclaredAtoms(l, target, declared);
      DeclaredAtoms(r, target, declared);
      BinUnfolds(op, l, r, target, declared, g);
      if GenToks(Postfix(l), target, declared, g).Some? {
        var g1 := GenToks(Postfix(l), target, declared, g).value;
        var r1 := GenShape(l, target, declared, g);
        ExprBudget(r, target, declared, g1);
        BinBudget(op, l, r, target, declared, g, g1, r1);
      }
  }

  lemma BinBudget(op: char, l: Expr<string>, r: Expr<string>, target: string, declared: set<string>, g: Gen, g1: Gen, r1: int)
    requires g.table != [] && g.table[0] == "" && Distinguished(declared) && IsBinary(op)
    requires GenToks(Postfix(l), target, declared, g) == Some(g1) && Pushed(l, g, g1, r1)
    requires Declared(l, target, declared) && Spare(g1.table) == Spare(g.table) - Need(l, target, g.table)
    requires CachesMore(l, target, declared, g.table, g1.table)
    requires GenToks(Postfix(r), target, declared, g1).Some?
        <==> Declared(r, target, declared) && Need(r, target, g1.table) <= Spare(g1.table)
    requires GenToks(Postfix(r), target, declared, g1).Some? ==>
               var g2 := GenToks(Postfix(r), target, declared, g1).value;
               Spare(g2.table) == Spare(g1.table) - Need(r, target, g1.table) && CachesMore(r, target, declared, g1.table, g2.table)
    ensures var x := GenToks(Postfix(Bin(op, l, r)), target, declared, g);
            && (x.Some? <==> Declared(Bin(op, l, r), target, declared) && Need(Bin(op, l, r), target, g.table) <= Spare(g.table))
            && (x.Some? ==> Spare(x.value.table) == Spare(g.table) - Need(Bin(op, l, r), target, g.table)
                            && CachesMore(Bin(op, l, r), target, declared, g.table, x.value.table))
  {
    BinUnfolds(op, l, r, target, declared, g);
    DeclaredAtoms(l, target, declared);
    DeclaredAtoms(r, target, declared);
    if Declared(r, target, declared) { UncachedSplit(op, l, r, target, declared, g.table, g1.table); }
    if GenToks(Postfix(r), target, declared, g1).Some? {
      var g2 := GenToks(Postfix(r), target, declared, g1).value;
      var r2 := GenShape(r, target, declared, g1);
      OpBudget(op, target, declared, g2);
    }
    hide GenToks;
    hide GenTok;
    hide Uncached;
    hide Spare;
  }

  // A whole assignment needs one register more, for the address of its target, unless the result stays
  // in its register.
  lemma StatementBudget(e: Expr<string>, target: string, declared: set<string>, noPull: bool, g: Gen)
    requires |g.table| == MAXREG && g.table[0] == "" && Distinguished(declared) && OpsIn(e, IsBinary) && target in declared
    ensures GenStmt(Postfix(e), target, declared, noPull, g).Some?
       <==> Declared(e, target, declared) && Need(e, target, g.table) + (if noPull then 0 else 1) <= Spare(g.table)
  {
    var g0 := g.(opReg := -1, loadReg := -1);
    ExprBudget(e, target, declared, g0);
    if GenToks(Postfix(e), target, declared, g0).Some? {
      var h, r := ResultOfExpr(e, target, declared, g0);
      SpareExists(h.table);
    }
  }
}
