// range_eval is sound on every infix expression of the linter's grammar.
module RangeSound {
  import opened Infix
  import opened Brackets
  import opened Int64
  import opened Intervals
  import opened RangeEval

  function LintPrec(): Prec {
    c => OpPrec(c)
  }

  predicate Supported(c: char) {
    Arithmetic(c) || IsCompare(c)
  }

  // ---- how the scans see the tokens of a tree ----

  ghost predicate Stands(e: Expr<Item>, ts: seq<Tok<Item>>, at: nat) {
    at + |Flatten(e)| <= |ts| && ts[at..at + |Flatten(e)|] == Flatten(e)
  }

  lemma {:induction false} FlattenSome(e: Expr<Item>)
    ensures |Flatten(e)| > 0
  {
  }

  lemma StandsBin(e: Expr<Item>, ts: seq<Tok<Item>>, at: nat)
    requires e.Bin? && Stands(e, ts, at)
    ensures var m := at + |Flatten(e.l)|;
            && m + 1 + |Flatten(e.r)| <= |ts|
            && Stands(e.l, ts, at) && m < |ts| && ts[m] == Op(e.op) && Stands(e.r, ts, m + 1)
            && at + |Flatten(e)| == m + 1 + |Flatten(e.r)|
  {
    var l, r := Flatten(e.l), Flatten(e.r);
    var s := ts[at..at + |Flatten(e)|];
    assert s == l + [Op(e.op)] + r;
    assert s[..|l|] == l && s[|l|] == Op(e.op) && s[|l| + 1..] == r;
    assert ts[at..at + |l|] == s[..|l|];
    assert ts[at + |l| + 1..at + |l| + 1 + |r|] == s[|l| + 1..];
  }

  lemma StandsParen(e: Expr<Item>, ts: seq<Tok<Item>>, at: nat)
    requires e.Paren? && Stands(e, ts, at)
    ensures var n := |Flatten(e.e)|;
            && |Flatten(e)| == n + 2 && at + n + 1 < |ts|
            && ts[at] == LP && Stands(e.e, ts, at + 1) && ts[at + n + 1] == RP
  {
    var b := Flatten(e.e);
    var s := ts[at..at + |Flatten(e)|];
    assert s == [LP] + b + [RP];
    assert s[0] == LP && s[1..1 + |b|] == b && s[|b| + 1] == RP;
    var u := ts[at + 1..at + 1 + |b|];
    assert forall k | 0 <= k < |b| :: u[k] == s[k + 1] == b[k];
  }

  lemma StandsVar(e: Expr<Item>, ts: seq<Tok<Item>>, at: nat)
    requires e.Var? && Stands(e, ts, at)
    ensures at < |ts| && ts[at] == Atom(e.a) && |Flatten(e)| == 1
  {
    assert ts[at..at + 1][0] == ts[at];
  }

  // Inside a bracket the search for its partner passes over whole expressions.
  lemma {:induction false} CloseOver(e: Expr<Item>, ts: seq<Tok<Item>>, at: nat, depth: int)
    requires Stands(e, ts, at) && depth > 0
    ensures CloseFrom(ts, at, depth) == CloseFrom(ts, at + |Flatten(e)|, depth)
    decreases e
  {
    hide *;
    Sizes(e);
    match e
    case Var(_) =>
      StandsVar(e, ts, at);
      CloseStep(ts, at, depth);
    case Paren(b) =>
      StandsParen(e, ts, at);
      CloseStep(ts, at, depth);
      CloseOver(b, ts, at + 1, depth + 1);
      CloseStep(ts, at + 1 + |Flatten(b)|, depth + 1);
    case Bin(_, l, r) =>
      StandsBin(e, ts, at);
      CloseOver(l, ts, at, depth);
      CloseStep(ts, at + |Flatten(l)|, depth);
      CloseOver(r, ts, at + |Flatten(l)| + 1, depth);
  }

  lemma Sizes(e: Expr<Item>)
    ensures match e
            case Var(_) => |Flatten(e)| == 1
            case Paren(b) => |Flatten(e)| == |Flatten(b)| + 2
            case Bin(_, l, r) => |Flatten(e)| == |Flatten(l)| + 1 + |Flatten(r)|
  {
  }

  lemma CloseStep(ts: seq<Tok<Item>>, k: nat, depth: int)
    requires k < |ts| && depth > 0
    ensures CloseFrom(ts, k, depth)
         == match ts[k]
            case LP => CloseFrom(ts, k + 1, depth + 1)
            case RP => if depth == 1 then k else CloseFrom(ts, k + 1, depth - 1)
            case _ => CloseFrom(ts, k + 1, depth)
  {
  }

  lemma CloseParen(e: Expr<Item>, ts: seq<Tok<Item>>, at: nat)
    requires e.Paren? && Stands(e, ts, at)
    ensures at < |ts| && ts[at] == LP && Close(ts, at) == at + |Flatten(e)| - 1
  {
    StandsParen(e, ts, at);
    CloseOver(e.e, ts, at + 1, 1);
  }

  // The first bracket of an expression closes within it.
  lemma {:induction false} FrontClose(e: Expr<Item>, ts: seq<Tok<Item>>, at: nat)
    requires Stands(e, ts, at)
    ensures at < |ts| && (ts[at] == LP ==> at <= Close(ts, at) < at + |Flatten(e)|)
    decreases e
  {
    hide Stands;
    match e
    case Var(_) => StandsVar(e, ts, at);
    case Paren(_) => CloseParen(e, ts, at);
    case Bin(_, l, _) =>
      StandsBin(e, ts, at);
      FrontClose(l, ts, at);
  }

  // ---- which operator the scan settles on ----

  datatype Best = Best(prec: int, pos: int)

  // The running choice after passing over a tree that stands at `at`.
  ghost function Pass(e: Expr<Item>, at: nat, b: Best): Best {
    match e
    case Var(a) => if 0 < TokPrec(Atom(a)) <= b.prec then Best(TokPrec(Atom(a)), at) else b
    case Paren(_) => b
    case Bin(op, l, r) =>
      var x := Pass(l, at, b);
      var m := at + |Flatten(l)|;
      var y := if 0 < OpPrec(op) <= x.prec then Best(OpPrec(op), m) else x;
      Pass(r, m + 1, y)
  }

  lemma {:induction false} ScanPasses(e: Expr<Item>, ts: seq<Tok<Item>>, at: nat, b: Best)
    requires Stands(e, ts, at)
    ensures at + |Flatten(e)| <= |ts|
    ensures Scan(ts, at, b.prec, b.pos) == Scan(ts, at + |Flatten(e)|, Pass(e, at, b).prec, Pass(e, at, b).pos)
    decreases e
  {
    hide *;
    StandsFits(e, ts, at);
    PassIs(e, at, b);
    match e
    case Var(_) =>
      StandsVar(e, ts, at);
      ScanStep(ts, at, b);
    case Paren(_) =>
      CloseParen(e, ts, at);
      ScanStep(ts, at, b);
    case Bin(op, l, r) =>
      StandsBin(e, ts, at);
      ScanPasses(l, ts, at, b);
      var x := Pass(l, at, b);
      var m := at + |Flatten(l)|;
      ScanStep(ts, m, x);
      ScanPasses(r, ts, m + 1, if 0 < OpPrec(op) <= x.prec then Best(OpPrec(op), m) else x);
  }

  lemma StandsFits(e: Expr<Item>, ts: seq<Tok<Item>>, at: nat)
    requires Stands(e, ts, at)
    ensures at + |Flatten(e)| <= |ts| && |Flatten(e)| > 0
  {
    FlattenSome(e);
  }

  lemma PassIs(e: Expr<Item>, at: nat, b: Best)
    ensures Pass(e, at, b)
         == match e
            case Var(a) => if 0 < TokPrec(Atom(a)) <= b.prec then Best(TokPrec(Atom(a)), at) else b
            case Paren(_) => b
            case Bin(op, l, r) =>
              var x := Pass(l, at, b);
              var m := at + |Flatten(l)|;
              Pass(r, m + 1, if 0 < OpPrec(op) <= x.prec then Best(OpPrec(op), m) else x)
  {
  }

  lemma ScanStep(ts: seq<Tok<Item>>, i: nat, b: Best)
    requires i < |ts|
    ensures ts[i] == LP && Close(ts, i) != -1 ==> Scan(ts, i, b.prec, b.pos) == Scan(ts, Close(ts, i) + 1, b.prec, b.pos)
    ensures ts[i] != LP ==>
              var p := TokPrec(ts[i]);
              Scan(ts, i, b.prec, b.pos) == if 0 < p <= b.prec then Scan(ts, i + 1, p, i) else Scan(ts, i + 1, b.prec, b.pos)
    ensures ts[i].Op? ==> TokPrec(ts[i]) == OpPrec(ts[i].c)
  {
  }

  // A number written with a sign that the scan took for an operator: before it stands an operator,
  // unless it is the very first token.
  ghost predicate Sign(e: Expr<Item>, at: nat, b: Best) {
    var k := b.pos - at;
    && b.prec == 9 && 0 <= k < |Flatten(e)| && Flatten(e)[k].Atom?
    && (k > 0 ==> Flatten(e)[k - 1].Op?)
  }

  // In a tree shaped by the table the scan ends on the root, on such a number, or where it began.
  lemma {:induction false} PassRoot(e: Expr<Item>, at: nat, b: Best)
    requires Shaped(LintPrec(), e) && OpsIn(e, Supported)
    ensures var x := Pass(e, at, b);
            || x == b
            || (e.Bin? && x == Best(OpPrec(e.op), at + |Flatten(e.l)|))
            || Sign(e, at, x)
    ensures Pass(e, at, b).prec <= b.prec && (e.Bin? ==> Pass(e, at, b).prec <= OpPrec(e.op))
    decreases e
  {
    match e
    case Var(a) => assert Flatten(e)[0] == Atom(a);
    case Paren(_) =>
    case Bin(op, l, r) =>
      var x := Pass(l, at, b);
      var m := at + |Flatten(l)|;
      var y := if 0 < OpPrec(op) <= x.prec then Best(OpPrec(op), m) else x;
      PassRoot(l, at, b);
      PassRoot(r, m + 1, y);
      assert OpPrec(op) > 0;
      var z := Pass(r, m + 1, y);
      assert y.prec <= OpPrec(op);
      if r.Bin? { assert OpPrec(op) < OpPrec(r.op); }
      if l.Bin? { assert OpPrec(op) <= OpPrec(l.op); }
      SignLeft(e, at, x);
      SignRight(e, at, z);
  }

  lemma SignLeft(e: Expr<Item>, at: nat, x: Best)
    requires e.Bin?
    ensures Sign(e.l, at, x) ==> Sign(e, at, x)
  {
    var k := x.pos - at;
    if 0 <= k < |Flatten(e.l)| { assert Flatten(e)[k] == Flatten(e.l)[k]; }
    if 0 < k < |Flatten(e.l)| { assert Flatten(e)[k - 1] == Flatten(e.l)[k - 1]; }
  }

  lemma SignRight(e: Expr<Item>, at: nat, x: Best)
    requires e.Bin?
    ensures Sign(e.r, at + |Flatten(e.l)| + 1, x) ==> Sign(e, at, x)
  {
    var n := |Flatten(e.l)| + 1;
    var k := x.pos - at;
    assert Flatten(e)[n - 1] == Op(e.op);
    if n <= k < n + |Flatten(e.r)| { assert Flatten(e)[k] == Flatten(e.r)[k - n]; }
    if n < k < n + |Flatten(e.r)| { assert Flatten(e)[k - 1] == Flatten(e.r)[k - 1 - n]; }
  }

  // ---- what the evaluator computes on a tree ----

  // A span that ends in an operator has no value.
  lemma {:induction false} EndsInOp(ts: seq<Tok<Item>>, sc: Scope)
    requires Sane(sc) && ts != [] && ts[|ts| - 1].Op?
    ensures Eval(ts, sc).r.Unknown?
    decreases |ts|
  {
    var scan := Scan(ts, 0, 1000, -1);
    if |ts| > 1 && scan.Some? && 0 < scan.value < |ts| - 1 {
      EndsInOp(ts[scan.value + 1..], sc);
    }
  }

  lemma EvalParen(b: Expr<Item>, sc: Scope)
    requires Sane(sc)
    ensures Eval(Flatten(Paren(b)), sc) == Eval(Flatten(b), sc)
  {
    var ts := Flatten(Paren(b));
    assert Stands(Paren(b), ts, 0) by { assert ts[0..|ts|] == ts; }
    CloseParen(Paren(b), ts, 0);
    assert ts == [LP] + Flatten(b) + [RP];
    assert ts[1..|ts| - 1] == Flatten(b);
  }

  // At a binary operator: no value, or the combination of its operands' values.
  lemma EvalBin(e: Expr<Item>, sc: Scope)
    requires Sane(sc) && e.Bin? && Shaped(LintPrec(), e) && OpsIn(e, Supported)
    ensures var x, a, b := Eval(Flatten(e), sc), Eval(Flatten(e.l), sc), Eval(Flatten(e.r), sc);
            x.r.Known? ==>
              && a.r.Known? && b.r.Known?
              && x.r == RangeApply(e.op, a.r, b.r).r
              && x.overflow == (a.overflow || b.overflow || RangeApply(e.op, a.r, b.r).overflow)
  {
    var ts, n := Flatten(e), |Flatten(e.l)|;
    EvalRoot(e);
    BinParts(e);
    hide Scan;
    var root := Scan(ts, 0, 1000, -1).value;
    if root != n && 0 < root < |ts| - 1 { EndsInOp(ts[..root], sc); }
  }

  lemma BinParts(e: Expr<Item>)
    requires e.Bin?
    ensures var ts, n := Flatten(e), |Flatten(e.l)|;
            && n > 0 && |Flatten(e.r)| > 0 && |ts| == n + 1 + |Flatten(e.r)|
            && ts[n] == Op(e.op) && ts[..n] == Flatten(e.l) && ts[n + 1..] == Flatten(e.r)
  {
    FlattenSome(e.l);
    FlattenSome(e.r);
  }

  lemma EvalRoot(e: Expr<Item>)
    requires e.Bin? && Shaped(LintPrec(), e) && OpsIn(e, Supported)
    ensures var ts := Flatten(e); var s := Scan(ts, 0, 1000, -1);
            && |ts| > 1 && !(ts[0] == LP && Close(ts, 0) == |ts| - 1) && s.Some?
            && (s.value == |Flatten(e.l)| || s.value == 0
                || (0 < s.value < |ts| && ts[..s.value] != [] && ts[..s.value][s.value - 1].Op?))
  {
    hide *;
    var ts := Flatten(e);
    BinParts(e);
    StandsAtFront(e);
    StandsBin(e, ts, 0);
    FrontClose(e.l, ts, 0);
    ScanPasses(e, ts, 0, Best(1000, -1));
    PassRoot(e, 0, Best(1000, -1));
    ScanEnds(ts, Pass(e, 0, Best(1000, -1)));
    RootBinds(e, Pass(e, 0, Best(1000, -1)));
  }

  lemma StandsAtFront(e: Expr<Item>)
    ensures Stands(e, Flatten(e), 0)
  {
    var ts := Flatten(e);
    assert ts[0..|ts|] == ts;
  }

  lemma ScanEnds(ts: seq<Tok<Item>>, b: Best)
    ensures Scan(ts, |ts|, b.prec, b.pos) == Some(b.pos)
  {
  }

  lemma RootBinds(e: Expr<Item>, x: Best)
    requires e.Bin? && OpsIn(e, Supported)
    ensures OpPrec(e.op) < 1000
    ensures Sign(e, 0, x) ==> 0 <= x.pos < |Flatten(e)| && (x.pos > 0 ==> Flatten(e)[..x.pos] != [] && Flatten(e)[..x.pos][x.pos - 1].Op?)
  {
  }

  // ---- concrete values ----

  function Lookup(sc: Scope, vals: seq<int>, name: string): Value
    requires |vals| == |sc.names|
  {
    var k := IndexOf(sc.names, name, 0);
    if k == -1 then NoValue else Value(vals[k])
  }

  ghost function Val(e: Expr<Item>, sc: Scope, vals: seq<int>): Value
    requires |vals| == |sc.names|
  {
    match e
    case Var(Num(v, _)) => Value(v)
    case Var(Id(name)) => Lookup(sc, vals, name)
    case Paren(b) => Val(b, sc, vals)
    case Bin(op, l, r) =>
      match Val(l, sc, vals)
      case NoValue => NoValue
      case Value(x) =>
        match Val(r, sc, vals)
        case NoValue => NoValue
        case Value(y) => Apply(op, x, y)
  }

  // Every intermediate result exists and is an int64 value.
  ghost predicate Fit(e: Expr<Item>, sc: Scope, vals: seq<int>)
    requires |vals| == |sc.names|
  {
    && Val(e, sc, vals).Value? && InS8(Val(e, sc, vals).v)
    && match e
       case Var(_) => true
       case Paren(b) => Fit(b, sc, vals)
       case Bin(_, l, r) => Fit(l, sc, vals) && Fit(r, sc, vals)
  }

  // The value v of a variable is one that the fact allows.
  predicate Describes(f: Fact, v: int) {
    && InS8(v) && (f.rangeKnown ==> f.lo <= v <= f.hi) && (f.valueKnown ==> v == f.value) && (!f.mayZero ==> v != 0)
  }

  ghost predicate StateDescribes(facts: seq<Fact>, vals: seq<int>) {
    |facts| == |vals| && forall k | 0 <= k < |facts| :: Describes(facts[k], vals[k])
  }

  // An interval that range_eval reports holds the value of the expression, whenever that value and all
  // intermediate ones are int64 values; and they all are when the overflow flag stays clear.
  lemma {:induction false} RangeSound(e: Expr<Item>, sc: Scope, vals: seq<int>)
    requires Shaped(LintPrec(), e) && OpsIn(e, Supported)
    requires Sane(sc) && |vals| == |sc.names| && StateDescribes(sc.facts, vals)
    requires Eval(Flatten(e), sc).r.Known?
    ensures Fit(e, sc, vals) ==> Eval(Flatten(e), sc).r.Has(Val(e, sc, vals).v)
    ensures !Eval(Flatten(e), sc).overflow ==> Fit(e, sc, vals)
    decreases e
  {
    match e
    case Var(a) =>
      assert Flatten(e) == [Atom(a)];
    case Paren(b) =>
      EvalParen(b, sc);
      RangeSound(b, sc, vals);
    case Bin(op, l, r) =>
      EvalBin(e, sc);
      RangeSound(l, sc, vals);
      RangeSound(r, sc, vals);
      SoundStep(e, sc, vals);
  }

  lemma SoundStep(e: Expr<Item>, sc: Scope, vals: seq<int>)
    requires e.Bin? && Supported(e.op) && Sane(sc) && |vals| == |sc.names|
    requires var x, a, b := Eval(Flatten(e), sc), Eval(Flatten(e.l), sc), Eval(Flatten(e.r), sc);
             && x.r.Known? && a.r.Known? && b.r.Known?
             && x.r == RangeApply(e.op, a.r, b.r).r
             && x.overflow == (a.overflow || b.overflow || RangeApply(e.op, a.r, b.r).overflow)
             && (Fit(e.l, sc, vals) ==> a.r.Has(Val(e.l, sc, vals).v)) && (!a.overflow ==> Fit(e.l, sc, vals))
             && (Fit(e.r, sc, vals) ==> b.r.Has(Val(e.r, sc, vals).v)) && (!b.overflow ==> Fit(e.r, sc, vals))
    ensures Fit(e, sc, vals) ==> Eval(Flatten(e), sc).r.Has(Val(e, sc, vals).v)
    ensures !Eval(Flatten(e), sc).overflow ==> Fit(e, sc, vals)
  {
    var a, b := Eval(Flatten(e.l), sc), Eval(Flatten(e.r), sc);
    hide Eval;
    if Fit(e.l, sc, vals) && Fit(e.r, sc, vals) {
      RangeApplySound(e.op, a.r, b.r, Val(e.l, sc, vals).v, Val(e.r, sc, vals).v);
    }
    hide RangeApply;
    hide Apply;
  }

  // The same for token lists: for every infix expression, with the tree that the table prescribes.
  lemma InfixSound(args: seq<Operand<Item>>, ops: seq<char>, sc: Scope, vals: seq<int>)
    requires Valid(args, ops) && OpsIn(Tree(LintPrec(), args, ops), Supported)
    requires Sane(sc) && |vals| == |sc.names| && StateDescribes(sc.facts, vals)
    requires Eval(Toks(args, ops), sc).r.Known?
    ensures var e := Tree(LintPrec(), args, ops);
            && (Fit(e, sc, vals) ==> Eval(Toks(args, ops), sc).r.Has(Val(e, sc, vals).v))
            && (!Eval(Toks(args, ops), sc).overflow ==> Fit(e, sc, vals))
  {
    TreeFlattens(LintPrec(), args, ops);
    TreeShaped(LintPrec(), args, ops);
    RangeSound(Tree(LintPrec(), args, ops), sc, vals);
  }
}
