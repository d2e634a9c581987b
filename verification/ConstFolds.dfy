// When eval_expr finds a constant: on every expression written in infix, in reverse Polish notation or in
// a mixture of both, and what the constant is.
module ConstFolds {
  import opened Infix
  import opened Brackets
  import opened Int64
  import opened Intervals
  import opened RangeEval
  import opened RangeSound
  import opened ConstRange

  // An expression with the notation of each operator.
  datatype Notated =
    | Lone(a: Item)
    | Group(body: Notated)
    | Between(op: char, l: Notated, r: Notated)  // l op r
    | Behind(op: char, l: Notated, r: Notated)   // l r op

  function Text(e: Notated): seq<Tok<Item>> {
    match e
    case Lone(a) => [Atom(a)]
    case Group(b) => [LP] + Text(b) + [RP]
    case Between(op, l, r) => Text(l) + [Op(op)] + Text(r)
    case Behind(op, l, r) => Text(l) + Text(r) + [Op(op)]
  }

  predicate Single(e: Notated) {
    e.Lone? || e.Group?
  }

  // Between two operands stands one operator; in reverse Polish notation the right operand is a single one.
  predicate Readable(e: Notated) {
    match e
    case Lone(_) => true
    case Group(b) => Readable(b)
    case Between(_, l, r) => Single(l) && Single(r) && Readable(l) && Readable(r)
    case Behind(_, l, r) => Single(r) && Readable(l) && Readable(r)
  }

  // The expression without its notation.
  function Erase(e: Notated): Expr<Item> {
    match e
    case Lone(a) => Var(a)
    case Group(b) => Paren(Erase(b))
    case Between(op, l, r) => Bin(op, Erase(l), Erase(r))
    case Behind(op, l, r) => Bin(op, Erase(l), Erase(r))
  }

  ghost predicate UsesOnly(e: Notated, table: char -> bool) {
    OpsIn(Erase(e), table)
  }

  // ---- how the scans see such a text ----

  ghost predicate At(w: seq<Tok<Item>>, ts: seq<Tok<Item>>, at: nat) {
    at + |w| <= |ts| && ts[at..at + |w|] == w
  }

  lemma AtParts(a: seq<Tok<Item>>, b: seq<Tok<Item>>, ts: seq<Tok<Item>>, at: nat)
    requires At(a + b, ts, at)
    ensures At(a, ts, at) && At(b, ts, at + |a|)
  {
    assert ts[at..at + |a| + |b|][..|a|] == ts[at..at + |a|];
    assert ts[at..at + |a| + |b|][|a|..] == ts[at + |a|..at + |a| + |b|];
  }

  lemma AtThree(a: seq<Tok<Item>>, b: seq<Tok<Item>>, c: seq<Tok<Item>>, ts: seq<Tok<Item>>, at: nat)
    requires At(a + b + c, ts, at)
    ensures At(a, ts, at) && At(b, ts, at + |a|) && At(c, ts, at + |a| + |b|) && at + |a| + |b| + |c| <= |ts|
  {
    AtParts(a + b, c, ts, at);
    AtParts(a, b, ts, at);
  }

  lemma AtOne(t: Tok<Item>, ts: seq<Tok<Item>>, at: nat)
    requires At([t], ts, at)
    ensures at < |ts| && ts[at] == t
  {
    assert ts[at..at + 1][0] == ts[at];
  }

  // Where the parts of a text stand.
  lemma PartsLone(e: Notated, ts: seq<Tok<Item>>, at: nat)
    requires e.Lone? && At(Text(e), ts, at)
    ensures at + 1 <= |ts| && |Text(e)| == 1 && ts[at] == Atom(e.a)
  {
    TextIs(e);
    AtOne(Atom(e.a), ts, at);
    hide *;
  }

  lemma PartsGroup(e: Notated, ts: seq<Tok<Item>>, at: nat)
    requires e.Group? && At(Text(e), ts, at)
    ensures var n := |Text(e.body)|;
            && |Text(e)| == n + 2 && at + n + 2 <= |ts|
            && ts[at] == LP && At(Text(e.body), ts, at + 1) && ts[at + n + 1] == RP
  {
    TextIs(e);
    hide *;
    AtThree([LP], Text(e.body), [RP], ts, at);
    AtOne(LP, ts, at);
    AtOne(RP, ts, at + 1 + |Text(e.body)|);
  }

  lemma PartsBetween(e: Notated, ts: seq<Tok<Item>>, at: nat)
    requires e.Between? && At(Text(e), ts, at)
    ensures var n, k := |Text(e.l)|, |Text(e.r)|;
            && n > 0 && k > 0 && |Text(e)| == n + 1 + k && at + n + 1 + k <= |ts|
            && At(Text(e.l), ts, at) && ts[at + n] == Op(e.op) && At(Text(e.r), ts, at + n + 1)
  {
    TextIs(e);
    TextSome(e.l);
    TextSome(e.r);
    hide *;
    AtThree(Text(e.l), [Op(e.op)], Text(e.r), ts, at);
    AtOne(Op(e.op), ts, at + |Text(e.l)|);
  }

  lemma PartsBehind(e: Notated, ts: seq<Tok<Item>>, at: nat)
    requires e.Behind? && At(Text(e), ts, at)
    ensures var n, k := |Text(e.l)|, |Text(e.r)|;
            && n > 0 && k > 0 && |Text(e)| == n + k + 1 && at + n + k + 1 <= |ts|
            && At(Text(e.l), ts, at) && At(Text(e.r), ts, at + n) && ts[at + n + k] == Op(e.op)
  {
    TextIs(e);
    TextSome(e.l);
    TextSome(e.r);
    hide *;
    AtThree(Text(e.l), Text(e.r), [Op(e.op)], ts, at);
    AtOne(Op(e.op), ts, at + |Text(e.l)| + |Text(e.r)|);
  }

  lemma TextIs(e: Notated)
    ensures match e
            case Lone(a) => Text(e) == [Atom(a)]
            case Group(b) => Text(e) == [LP] + Text(b) + [RP]
            case Between(op, l, r) => Text(e) == Text(l) + [Op(op)] + Text(r)
            case Behind(op, l, r) => Text(e) == Text(l) + Text(r) + [Op(op)]
  {
  }

  lemma {:induction false} TextSome(e: Notated)
    ensures |Text(e)| > 0
  {
  }

  // Inside a bracket the search for its partner passes over whole texts.
  lemma {:induction false} CloseOver(e: Notated, ts: seq<Tok<Item>>, at: nat, depth: int)
    requires At(Text(e), ts, at) && depth > 0
    ensures at + |Text(e)| <= |ts| && CloseFrom(ts, at, depth) == CloseFrom(ts, at + |Text(e)|, depth)
    decreases e
  {
    hide *;
    match e
    case Lone(_) =>
      PartsLone(e, ts, at);
      CloseStep(ts, at, depth);
    case Group(b) =>
      PartsGroup(e, ts, at);
      CloseStep(ts, at, depth);
      CloseOver(b, ts, at + 1, depth + 1);
      CloseStep(ts, at + 1 + |Text(b)|, depth + 1);
    case Between(_, l, r) =>
      PartsBetween(e, ts, at);
      CloseOver(l, ts, at, depth);
      CloseStep(ts, at + |Text(l)|, depth);
      CloseOver(r, ts, at + |Text(l)| + 1, depth);
    case Behind(_, l, r) =>
      PartsBehind(e, ts, at);
      CloseOver(l, ts, at, depth);
      CloseOver(r, ts, at + |Text(l)|, depth);
      CloseStep(ts, at + |Text(l)| + |Text(r)|, depth);
  }

  lemma CloseGroup(e: Notated, ts: seq<Tok<Item>>, at: nat)
    requires e.Group? && At(Text(e), ts, at)
    ensures at < |ts| && ts[at] == LP && Close(ts, at) == at + |Text(e)| - 1
  {
    PartsGroup(e, ts, at);
    CloseOver(e.body, ts, at + 1, 1);
    hide At;
    hide Text;
  }

  // The count of operators outside brackets after passing over a text that stands at `at`.
  function Count(e: Notated, at: nat, x: Ops): Ops {
    match e
    case Lone(_) => x
    case Group(_) => x
    case Between(_, l, r) => Count(r, at + |Text(l)| + 1, One(at + |Text(l)|, Count(l, at, x)))
    case Behind(_, l, r) => One(at + |Text(l)| + |Text(r)|, Count(r, at + |Text(l)|, Count(l, at, x)))
  }

  function One(i: nat, x: Ops): Ops {
    Ops(x.count + 1, if x.count == 0 then i else x.first, i)
  }

  lemma ScanOpsStep(ts: seq<Tok<Item>>, i: nat, x: Ops)
    requires i < |ts|
    ensures ts[i] == LP && Close(ts, i) != -1 ==> ScanOps(ts, i, x) == ScanOps(ts, Close(ts, i) + 1, x)
    ensures ts[i].Op? ==> ScanOps(ts, i, x) == ScanOps(ts, i + 1, One(i, x))
    ensures ts[i].Atom? ==> ScanOps(ts, i, x) == ScanOps(ts, i + 1, x)
  {
  }

  lemma {:induction false} CountsOver(e: Notated, ts: seq<Tok<Item>>, at: nat, x: Ops)
    requires At(Text(e), ts, at)
    ensures at + |Text(e)| <= |ts| && ScanOps(ts, at, x) == ScanOps(ts, at + |Text(e)|, Count(e, at, x))
    decreases e
  {
    hide *;
    CountIs(e, at, x);
    match e
    case Lone(_) =>
      PartsLone(e, ts, at);
      ScanOpsStep(ts, at, x);
    case Group(_) =>
      PartsGroup(e, ts, at);
      CloseGroup(e, ts, at);
      ScanOpsStep(ts, at, x);
    case Between(_, l, r) =>
      PartsBetween(e, ts, at);
      CountsOver(l, ts, at, x);
      ScanOpsStep(ts, at + |Text(l)|, Count(l, at, x));
      CountsOver(r, ts, at + |Text(l)| + 1, One(at + |Text(l)|, Count(l, at, x)));
    case Behind(_, l, r) =>
      PartsBehind(e, ts, at);
      CountsOver(l, ts, at, x);
      CountsOver(r, ts, at + |Text(l)|, Count(l, at, x));
      ScanOpsStep(ts, at + |Text(l)| + |Text(r)|, Count(r, at + |Text(l)|, Count(l, at, x)));
  }

  lemma CountIs(e: Notated, at: nat, x: Ops)
    ensures match e
            case Lone(_) => Count(e, at, x) == x
            case Group(_) => Count(e, at, x) == x
            case Between(_, l, r) => Count(e, at, x) == Count(r, at + |Text(l)| + 1, One(at + |Text(l)|, Count(l, at, x)))
            case Behind(_, l, r) => Count(e, at, x) == One(at + |Text(l)| + |Text(r)|, Count(r, at + |Text(l)|, Count(l, at, x)))
  {
  }

  lemma {:induction false} CountGrows(e: Notated, at: nat, x: Ops)
    ensures Count(e, at, x).count >= x.count && (Single(e) ==> Count(e, at, x) == x)
    decreases e
  {
    match e
    case Lone(_) =>
    case Group(_) =>
    case Between(_, l, r) =>
      CountGrows(l, at, x);
      CountGrows(r, at + |Text(l)| + 1, One(at + |Text(l)|, Count(l, at, x)));
    case Behind(_, l, r) =>
      CountGrows(l, at, x);
      CountGrows(r, at + |Text(l)|, Count(l, at, x));
  }

  // ---- what eval_expr computes on such a text ----

  lemma Whole(e: Notated)
    ensures At(Text(e), Text(e), 0)
  {
    var ts := Text(e);
    assert ts[0..|ts|] == ts;
  }

  lemma FoldLeaf(e: Notated, sc: Scope)
    requires e.Lone? && |sc.names| == |sc.facts|
    ensures EvalExpr(Text(e), sc) == AtomConst(Atom(e.a), sc)
  {
    hide AtomConst;
  }

  lemma FoldGroup(e: Notated, sc: Scope)
    requires e.Group? && |sc.names| == |sc.facts|
    ensures EvalExpr(Text(e), sc) == EvalExpr(Text(e.body), sc)
  {
    var ts := Text(e);
    Whole(e);
    PartsGroup(e, ts, 0);
    CloseGroup(e, ts, 0);
    TextIs(e);
    assert ts[1..|ts| - 1] == Text(e.body);
    hide Close;
    hide ScanOps;
  }

  lemma SpanBetween(ts: seq<Tok<Item>>, sc: Scope, n: nat)
    requires |sc.names| == |sc.facts| && 0 < n < |ts| - 1 && !(ts[0] == LP && Close(ts, 0) == |ts| - 1)
    requires ScanOps(ts, 0, Ops(0, -1, -1)) == Some(Ops(1, n, n))
    ensures EvalExpr(ts, sc) == Combine(OpOf(ts[n]), EvalExpr(ts[..n], sc), EvalExpr(ts[n + 1..], sc))
  {
    hide Close;
    hide ScanOps;
    hide Combine;
    hide OpOf;
  }

  lemma SpanBehind(ts: seq<Tok<Item>>, sc: Scope, x: Ops, m: nat)
    requires |sc.names| == |sc.facts| && |ts| >= 2 && ts[|ts| - 1].Op?
    requires ScanOps(ts, 0, Ops(0, -1, -1)) == Some(x) && x.count >= 1 && x.last == |ts| - 1
    requires RightStart(ts) == m && 0 < m < |ts|
    ensures EvalExpr(ts, sc) == Combine(ts[|ts| - 1].c, EvalExpr(ts[..m], sc), EvalExpr(ts[m..|ts| - 1], sc))
  {
    hide CloseFrom;
    hide ScanOps;
    hide Combine;
    hide RightStart;
  }

  lemma FoldBetween(e: Notated, sc: Scope)
    requires e.Between? && Readable(e) && |sc.names| == |sc.facts|
    ensures EvalExpr(Text(e), sc) == Combine(e.op, EvalExpr(Text(e.l), sc), EvalExpr(Text(e.r), sc))
  {
    assert Single(e.l) && Single(e.r);
    hide *;
    var ts, n := Text(e), |Text(e.l)|;
    Whole(e);
    PartsBetween(e, ts, 0);
    if e.l.Group? {
      PartsGroup(e.l, ts, 0);
      CloseGroup(e.l, ts, 0);
    } else {
      PartsLone(e.l, ts, 0);
    }
    CountsOver(e, ts, 0, Ops(0, -1, -1));
    CountIs(e, 0, Ops(0, -1, -1));
    CountGrows(e.l, 0, Ops(0, -1, -1));
    CountGrows(e.r, n + 1, One(n, Ops(0, -1, -1)));
    CountFirst(n);
    CountEnds(ts, Ops(1, n, n));
    TextIs(e);
    assert ts[..n] == Text(e.l) && ts[n + 1..] == Text(e.r);
    SpanBetween(ts, sc, n);
    OpIs(e.op);
  }

  lemma OpIs(op: char)
    ensures OpOf(Op(op)) == op
  {
  }

  lemma CountFirst(n: nat)
    ensures One(n, Ops(0, -1, -1)) == Ops(1, n, n)
  {
  }

  lemma CountEnds(ts: seq<Tok<Item>>, x: Ops)
    ensures ScanOps(ts, |ts|, x) == Some(x)
  {
  }

  lemma FoldBehind(e: Notated, sc: Scope)
    requires e.Behind? && Readable(e) && |sc.names| == |sc.facts|
    ensures EvalExpr(Text(e), sc) == Combine(e.op, EvalExpr(Text(e.l), sc), EvalExpr(Text(e.r), sc))
  {
    assert Single(e.r);
    hide *;
    var ts, n, k := Text(e), |Text(e.l)|, |Text(e.r)|;
    Whole(e);
    PartsBehind(e, ts, 0);
    var none := Ops(0, -1, -1);
    CountsOver(e, ts, 0, none);
    CountIs(e, 0, none);
    CountGrows(e.l, 0, none);
    CountGrows(e.r, n, Count(e.l, 0, none));
    CountLast(n + k, Count(e.r, n, Count(e.l, 0, none)));
    CountEnds(ts, Count(e, 0, none));
    TextIs(e);
    assert ts[..n] == Text(e.l) && ts[n..|ts| - 1] == Text(e.r);
    RightIs(e, ts);
    SpanBehind(ts, sc, Count(e, 0, none), n);
  }

  lemma CountLast(n: nat, x: Ops)
    ensures One(n, x).last == n && One(n, x).count == x.count + 1
  {
  }

  // The right operand is found from behind.
  lemma RightIs(e: Notated, ts: seq<Tok<Item>>)
    requires e.Behind? && Single(e.r) && At(Text(e), ts, 0) && |ts| == |Text(e)|
    ensures |ts| >= 2 && RightStart(ts) == |Text(e.l)|
  {
    var n := |Text(e.l)|;
    PartsBehind(e, ts, 0);
    if e.r.Group? {
      PartsGroup(e.r, ts, n);
      CloseGroup(e.r, ts, n);
      OpenUndoesClose(ts, n, |ts| - 2);
    } else {
      PartsLone(e.r, ts, n);
    }
    hide At;
    hide Text;
    hide Open;
    hide Close;
  }

  // ---- constants ----

  // Every literal fits and every variable has a known value.
  ghost predicate Certain(e: Notated, sc: Scope)
    requires |sc.names| == |sc.facts|
  {
    match e
    case Lone(Num(v, _)) => InS8(v)
    case Lone(Id(name)) => var k := IndexOf(sc.names, name, 0); k != -1 && sc.facts[k].valueKnown
    case Group(b) => Certain(b, sc)
    case Between(_, l, r) => Certain(l, sc) && Certain(r, sc)
    case Behind(_, l, r) => Certain(l, sc) && Certain(r, sc)
  }

  // The one division that eval_expr refuses although its remainder exists.
  predicate Refused(op: char, x: int, y: int) {
    (op == '/' || op == '%') && x == MIN && y == -1
  }

  // All values on the way exist, fit int64 and come from no such division.
  ghost predicate Computable(e: Expr<Item>, sc: Scope, vals: seq<int>)
    requires |vals| == |sc.names|
  {
    && Val(e, sc, vals).Value? && InS8(Val(e, sc, vals).v)
    && match e
       case Var(_) => true
       case Paren(b) => Computable(b, sc, vals)
       case Bin(op, l, r) =>
         Computable(l, sc, vals) && Computable(r, sc, vals) && !Refused(op, Val(l, sc, vals).v, Val(r, sc, vals).v)
  }

  // Some literal does not fit, or some operator on two constants leaves int64.
  ghost predicate Overflows(e: Notated, sc: Scope, vals: seq<int>)
    requires |vals| == |sc.names| == |sc.facts|
  {
    match e
    case Lone(Num(v, _)) => !InS8(v)
    case Lone(_) => false
    case Group(b) => Overflows(b, sc, vals)
    case Between(op, l, r) => Overflows(l, sc, vals) || Overflows(r, sc, vals) || OverflowsHere(op, l, r, sc, vals)
    case Behind(op, l, r) => Overflows(l, sc, vals) || Overflows(r, sc, vals) || OverflowsHere(op, l, r, sc, vals)
  }

  ghost predicate OverflowsHere(op: char, l: Notated, r: Notated, sc: Scope, vals: seq<int>)
    requires |vals| == |sc.names| == |sc.facts|
  {
    && Certain(l, sc) && Computable(Erase(l), sc, vals) && Certain(r, sc) && Computable(Erase(r), sc, vals)
    && var x, y := Val(Erase(l), sc, vals).v, Val(Erase(r), sc, vals).v;
       Refused(op, x, y) || (Apply(op, x, y).Value? && !InS8(Apply(op, x, y).v))
  }

  predicate Foldable(c: char) {
    Supported(c) || c == '%'
  }

  // What is claimed of a text: it has a constant exactly when its leaves are known and every value on the
  // way fits, the constant is then its value, and overflow is reported exactly when something overflows.
  ghost predicate Folds(e: Notated, sc: Scope, vals: seq<int>)
    requires |vals| == |sc.names| == |sc.facts|
  {
    var c := EvalExpr(Text(e), sc);
    && (c.Const? <==> Certain(e, sc) && Computable(Erase(e), sc, vals))
    && (c.Const? ==> Val(Erase(e), sc, vals) == Value(c.v))
    && (c == NoConst(true) <==> Overflows(e, sc, vals))
  }

  // So it is for every text in either notation, and any values that the facts describe.
  lemma {:induction false} ConstFold(e: Notated, sc: Scope, vals: seq<int>)
    requires Readable(e) && UsesOnly(e, Foldable) && Sane(sc) && |vals| == |sc.names| && StateDescribes(sc.facts, vals)
    ensures Folds(e, sc, vals)
    decreases e
  {
    match e
    case Lone(_) => FoldsLeaf(e, sc, vals);
    case Group(b) =>
      FoldGroup(e, sc);
      ConstFold(b, sc, vals);
      hide EvalExpr;
      hide Text;
    case Between(_, l, r) =>
      FoldBetween(e, sc);
      ConstFold(l, sc, vals);
      ConstFold(r, sc, vals);
      FoldsOperator(e, e.op, l, r, sc, vals);
    case Behind(_, l, r) =>
      FoldBehind(e, sc);
      ConstFold(l, sc, vals);
      ConstFold(r, sc, vals);
      FoldsOperator(e, e.op, l, r, sc, vals);
  }

  lemma FoldsLeaf(e: Notated, sc: Scope, vals: seq<int>)
    requires e.Lone? && Sane(sc) && |vals| == |sc.names| && StateDescribes(sc.facts, vals)
    ensures Folds(e, sc, vals)
  {
    FoldLeaf(e, sc);
    hide EvalExpr;
  }

  lemma FoldsOperator(e: Notated, op: char, l: Notated, r: Notated, sc: Scope, vals: seq<int>)
    requires e == Between(op, l, r) || e == Behind(op, l, r)
    requires Foldable(op) && |vals| == |sc.names| == |sc.facts| && Folds(l, sc, vals) && Folds(r, sc, vals)
    requires EvalExpr(Text(e), sc) == Combine(op, EvalExpr(Text(l), sc), EvalExpr(Text(r), sc))
    ensures Folds(e, sc, vals)
  {
    assert Supported(op) || op == '%';
    hide *;
    var a, b, c := EvalExpr(Text(l), sc), EvalExpr(Text(r), sc), EvalExpr(Text(e), sc);
    FoldsIs(l, sc, vals);
    FoldsIs(r, sc, vals);
    FoldsIs(e, sc, vals);
    OperatorIs(e, op, l, r, sc, vals);
    CombineIs(op, a, b);
    if a.Const? && b.Const? {
      ConstExact(op, a.v, b.v);
      OverflowExact(op, a.v, b.v);
      RefusedIs(op, a.v, b.v);
    }
  }

  lemma FoldsIs(e: Notated, sc: Scope, vals: seq<int>)
    requires |vals| == |sc.names| == |sc.facts|
    ensures var c := EvalExpr(Text(e), sc);
            Folds(e, sc, vals) <==>
              && (c.Const? <==> Certain(e, sc) && Computable(Erase(e), sc, vals))
              && (c.Const? ==> Val(Erase(e), sc, vals) == Value(c.v))
              && (c == NoConst(true) <==> Overflows(e, sc, vals))
    ensures Computable(Erase(e), sc, vals) ==> Val(Erase(e), sc, vals).Value? && InS8(Val(Erase(e), sc, vals).v)
  {
    hide EvalExpr;
    hide Text;
    hide Certain;
    hide Overflows;
  }

  lemma CombineIs(op: char, a: Const, b: Const)
    ensures Combine(op, a, b)
         == if a == NoConst(true) || b == NoConst(true) then NoConst(true)
            else if a.Const? && b.Const? then EvalApply(op, a.v, b.v) else NoConst(false)
  {
  }

  lemma RefusedIs(op: char, x: int, y: int)
    ensures Refused(op, x, y) <==> (op == '/' || op == '%') && x == MIN && y == -1
    ensures InS8(x) <==> MIN <= x <= MAX
  {
  }

  lemma OperatorIs(e: Notated, op: char, l: Notated, r: Notated, sc: Scope, vals: seq<int>)
    requires e == Between(op, l, r) || e == Behind(op, l, r)
    requires |vals| == |sc.names| == |sc.facts|
    ensures Certain(e, sc) <==> Certain(l, sc) && Certain(r, sc)
    ensures Overflows(e, sc, vals) <==> Overflows(l, sc, vals) || Overflows(r, sc, vals) || OverflowsHere(op, l, r, sc, vals)
    ensures var x, y := Val(Erase(l), sc, vals), Val(Erase(r), sc, vals);
            Val(Erase(e), sc, vals) == if x.NoValue? || y.NoValue? then NoValue else Apply(op, x.v, y.v)
    ensures Computable(Erase(e), sc, vals) <==>
              && Val(Erase(e), sc, vals).Value? && InS8(Val(Erase(e), sc, vals).v)
              && Computable(Erase(l), sc, vals) && Computable(Erase(r), sc, vals)
              && !Refused(op, Val(Erase(l), sc, vals).v, Val(Erase(r), sc, vals).v)
    ensures OverflowsHere(op, l, r, sc, vals) <==>
              && Certain(l, sc) && Computable(Erase(l), sc, vals) && Certain(r, sc) && Computable(Erase(r), sc, vals)
              && var x, y := Val(Erase(l), sc, vals).v, Val(Erase(r), sc, vals).v;
                 Refused(op, x, y) || (Apply(op, x, y).Value? && !InS8(Apply(op, x, y).v))
  {
    hide Apply;
    hide Refused;
    hide InS8;
  }

  lemma OverflowExact(op: char, x: int, y: int)
    requires InS8(x) && InS8(y) && Foldable(op)
    ensures EvalApply(op, x, y) == NoConst(true)
       <==> Refused(op, x, y) || (Apply(op, x, y).Value? && !InS8(Apply(op, x, y).v))
  {
    if (op == '/' || op == '%') && y != 0 && !(x == MIN && y == -1) { DivisionFits(x, y); }
    hide TDiv;
    hide TMod;
  }

  // `5 3 -` is 2.
  lemma PolishOrder(sc: Scope)
    requires |sc.names| == |sc.facts|
    ensures EvalExpr([Atom(Num(5, ' ')), Atom(Num(3, ' ')), Op('-')], sc) == Const(2)
  {
    var e := Behind('-', Lone(Num(5, ' ')), Lone(Num(3, ' ')));
    FoldBehind(e, sc);
    FoldLeaf(e.l, sc);
    FoldLeaf(e.r, sc);
    assert Text(e) == [Atom(Num(5, ' ')), Atom(Num(3, ' ')), Op('-')];
    hide EvalExpr;
  }
}
