// range_eval says no less than it could: when an infix expression has an interval, and when the overflow
// flag is set.
module RangeExact {
  import opened Infix
  import opened Brackets
  import opened Int64
  import opened Intervals
  import opened RangeEval
  import opened RangeSound

  // The lowest precedence outside brackets, where a number written with a sign counts as a sum.
  function Lowest(e: Expr<Item>): int {
    match e
    case Var(a) => if TokPrec(Atom(a)) > 0 then TokPrec(Atom(a)) else 1000
    case Paren(_) => 1000
    case Bin(op, l, r) => Min(OpPrec(op), Min(Lowest(l), Lowest(r)))
  }

  // No signed number stands where the scan takes it for the operator of the expression.
  predicate Clear(e: Expr<Item>) {
    e.Bin? ==> OpPrec(e.op) <= Lowest(e.l) && OpPrec(e.op) < Lowest(e.r)
  }

  // Everything needed for an interval is known: literals fit, variables have a range or a value, divisors
  // cannot be 0, and no operator is mistaken.
  ghost predicate Found(e: Expr<Item>, sc: Scope)
    requires Sane(sc)
  {
    match e
    case Var(Num(v, _)) => InS8(v)
    case Var(Id(name)) =>
      var k := IndexOf(sc.names, name, 0);
      k != -1 && (sc.facts[k].rangeKnown || sc.facts[k].valueKnown)
    case Paren(b) => Found(b, sc)
    case Bin(op, l, r) =>
      && Clear(e) && Found(l, sc) && Found(r, sc)
      && (op == '/' ==> !Eval(Flatten(r), sc).r.Has(0))
  }

  // Some operator of the expression has a result outside int64, on operands in the intervals of its sides,
  // or the whole is a literal that does not fit.
  ghost predicate Leaves(e: Expr<Item>, sc: Scope)
    requires Sane(sc)
  {
    match e
    case Var(Num(v, _)) => !InS8(v)
    case Var(_) => false
    case Paren(b) => Leaves(b, sc)
    case Bin(op, l, r) =>
      && Clear(e) && Found(l, sc) && Found(r, sc)
      && (Leaves(l, sc) || Leaves(r, sc)
          || (!(op == '/' && Eval(Flatten(r), sc).r.Has(0))
              && exists v :: Result(op, Eval(Flatten(l), sc).r, Eval(Flatten(r), sc).r, v) && !InS8(v)))
  }

  // ---- where the scan ends ----

  // What passing over a tree does to the running choice.
  ghost predicate Passed(e: Expr<Item>, at: nat, b: Best, x: Best) {
    && 0 < Lowest(e) <= 1000 && x.prec == Min(b.prec, Lowest(e))
    && (b.prec < Lowest(e) || Lowest(e) == 1000 ==> x == b)
    && (Lowest(e) <= b.prec && Lowest(e) < 1000 ==> at <= x.pos < at + |Flatten(e)|)
  }

  lemma {:induction false} LowestPasses(e: Expr<Item>, at: nat, b: Best)
    requires OpsIn(e, Supported) && b.prec <= 1000
    ensures Passed(e, at, b, Pass(e, at, b))
    decreases e
  {
    match e
    case Var(a) =>
    case Paren(_) =>
    case Bin(op, l, r) =>
      hide Passed;
      hide Lowest;
      PassIs(e, at, b);
      var x := Pass(l, at, b);
      var m := at + |Flatten(l)|;
      LowestPasses(l, at, b);
      assert x.prec <= 1000 by { PassedPrec(l, at, b, x); }
      var y := if 0 < OpPrec(op) <= x.prec then Best(OpPrec(op), m) else x;
      LowestPasses(r, m + 1, y);
      PassedBin(e, at, b, x, y, Pass(r, m + 1, y));
  }

  lemma PassedPrec(e: Expr<Item>, at: nat, b: Best, x: Best)
    requires Passed(e, at, b, x) && b.prec <= 1000
    ensures x.prec <= 1000
  {
  }

  lemma PassedBin(e: Expr<Item>, at: nat, b: Best, x: Best, y: Best, z: Best)
    requires e.Bin? && Supported(e.op) && b.prec <= 1000
    requires Passed(e.l, at, b, x) && y == if 0 < OpPrec(e.op) <= x.prec then Best(OpPrec(e.op), at + |Flatten(e.l)|) else x
    requires Passed(e.r, at + |Flatten(e.l)| + 1, y, z)
    ensures Passed(e, at, b, z)
  {
    assert 0 < OpPrec(e.op) < 1000;
    BinParts(e);
    hide Flatten;
    hide OpPrec;
    hide TokPrec;
  }

  // The scan settles on the operator of the tree exactly when the expression is clear.
  lemma ScanClear(e: Expr<Item>)
    requires e.Bin? && Shaped(LintPrec(), e) && OpsIn(e, Supported)
    ensures Scan(Flatten(e), 0, 1000, -1).Some?
    ensures Scan(Flatten(e), 0, 1000, -1) == Some(|Flatten(e.l)|) <==> Clear(e)
  {
    var ts := Flatten(e);
    StandsAtFront(e);
    ScanPasses(e, ts, 0, Best(1000, -1));
    ScanEnds(ts, Pass(e, 0, Best(1000, -1)));
    ClearPass(e);
    hide Scan;
    hide Pass;
  }

  lemma ClearPass(e: Expr<Item>)
    requires e.Bin? && OpsIn(e, Supported)
    ensures Pass(e, 0, Best(1000, -1)).pos == |Flatten(e.l)| <==> Clear(e)
  {
    var x := Pass(e.l, 0, Best(1000, -1));
    var m := |Flatten(e.l)|;
    var y := if 0 < OpPrec(e.op) <= x.prec then Best(OpPrec(e.op), m) else x;
    LowestPasses(e.l, 0, Best(1000, -1));
    LowestPasses(e.r, m + 1, y);
    FlattenSome(e.l);
    assert 0 < OpPrec(e.op) < 1000;
    hide Lowest;
  }

  // At a clear operator the operands are evaluated and combined; at another one there is no interval.
  lemma EvalClear(e: Expr<Item>, sc: Scope)
    requires Sane(sc) && e.Bin? && Shaped(LintPrec(), e) && OpsIn(e, Supported)
    ensures var x, a, b := Eval(Flatten(e), sc), Eval(Flatten(e.l), sc), Eval(Flatten(e.r), sc);
            if !Clear(e) || a.r.Unknown? || b.r.Unknown? then x == Ranged(Unknown, false)
            else
              var y := RangeApply(e.op, a.r, b.r); x == Ranged(y.r, a.overflow || b.overflow || y.overflow)
  {
    var ts, n := Flatten(e), |Flatten(e.l)|;
    EvalRoot(e);
    ScanClear(e);
    BinParts(e);
    hide Clear;
    hide Scan;
    hide RangeApply;
    var root := Scan(ts, 0, 1000, -1).value;
    if root != n && 0 < root < |ts| - 1 { EndsInOp(ts[..root], sc); }
  }

  // An infix expression has an interval exactly when everything it needs is known, and the flag is set
  // exactly when some operator can leave int64.
  lemma {:induction false} EvalExact(e: Expr<Item>, sc: Scope)
    requires Sane(sc) && Shaped(LintPrec(), e) && OpsIn(e, Supported)
    ensures Eval(Flatten(e), sc).r.Known? <==> Found(e, sc)
    ensures Eval(Flatten(e), sc).overflow <==> Leaves(e, sc)
    decreases e
  {
    match e
    case Var(a) => assert Flatten(e) == [Atom(a)];
    case Paren(b) =>
      EvalParen(b, sc);
      EvalExact(b, sc);
    case Bin(op, l, r) =>
      EvalExact(l, sc);
      EvalExact(r, sc);
      BinExact(e, sc);
  }

  lemma BinExact(e: Expr<Item>, sc: Scope)
    requires Sane(sc) && e.Bin? && Shaped(LintPrec(), e) && OpsIn(e, Supported)
    requires Eval(Flatten(e.l), sc).r.Known? <==> Found(e.l, sc)
    requires Eval(Flatten(e.r), sc).r.Known? <==> Found(e.r, sc)
    requires Eval(Flatten(e.l), sc).overflow <==> Leaves(e.l, sc)
    requires Eval(Flatten(e.r), sc).overflow <==> Leaves(e.r, sc)
    ensures Eval(Flatten(e), sc).r.Known? <==> Found(e, sc)
    ensures Eval(Flatten(e), sc).overflow <==> Leaves(e, sc)
  {
    EvalClear(e, sc);
    var a, b := Eval(Flatten(e.l), sc).r, Eval(Flatten(e.r), sc).r;
    if a.Known? && b.Known? { StepExact(e.op, a, b); }
    hide Eval;
    hide RangeApply;
    hide Result;
    hide Clear;
  }

  lemma StepExact(op: char, a: Range, b: Range)
    requires Supported(op) && a.Proper() && b.Proper() && a.Known? && b.Known?
    ensures RangeApply(op, a, b).r.Known? <==> !(op == '/' && b.Has(0))
    ensures RangeApply(op, a, b).overflow <==> !(op == '/' && b.Has(0)) && exists v :: Result(op, a, b, v) && !InS8(v)
  {
    if Arithmetic(op) {
      var lo, hi := RangeApplyExact(op, a, b);
    } else {
      CompareExact(op, a, b);
    }
    hide Result;
    hide RangeApply;
  }

  // The same for token lists, with the tree that the linter's table prescribes.
  lemma InfixExact(args: seq<Operand<Item>>, ops: seq<char>, sc: Scope)
    requires Valid(args, ops) && OpsIn(Tree(LintPrec(), args, ops), Supported) && Sane(sc)
    ensures var e := Tree(LintPrec(), args, ops);
            && (Eval(Toks(args, ops), sc).r.Known? <==> Found(e, sc))
            && (Eval(Toks(args, ops), sc).overflow <==> Leaves(e, sc))
  {
    TreeFlattens(LintPrec(), args, ops);
    TreeShaped(LintPrec(), args, ops);
    EvalExact(Tree(LintPrec(), args, ops), sc);
  }
}
