// The compiler and the linter read one expression with two precedence tables.
module TwoTables {
  import opened Infix
  import opened Shunt
  import opened Int64
  import opened Language
  import opened Intervals
  import opened RangeEval
  import opened RangeSound

  predicate Basic(c: char) {
    c == '+' || c == '-' || c == '*' || c == '/' || c == '%'
  }

  // The operators that the linter evaluates.
  predicate Linted(c: char) {
    Supported(c) || c == '%'
  }

  // The operators of one bracket group, which both tables order alike: only + - * / %, or all of one
  // precedence.
  ghost predicate Alike(ops: seq<char>) {
    || (forall k | 0 <= k < |ops| :: Basic(ops[k]))
    || (forall j, k | 0 <= j < |ops| && 0 <= k < |ops| :: OpPrec(ops[j]) == OpPrec(ops[k]))
  }

  ghost predicate AllLinted<A>(args: seq<Operand<A>>, ops: seq<char>)
    decreases args
  {
    && (forall k | 0 <= k < |ops| :: Linted(ops[k]))
    && (forall k | 0 <= k < |args| && args[k].Group? :: AllLinted(args[k].args, args[k].ops))
  }

  // Every bracket group is of that kind.
  ghost predicate AllAlike<A>(args: seq<Operand<A>>, ops: seq<char>)
    decreases args
  {
    && Alike(ops)
    && (forall k | 0 <= k < |args| && args[k].Group? :: AllAlike(args[k].args, args[k].ops))
  }

  // Two linted operators: both tables have one order on basic operators and the opposite one as soon
  // as a comparison or logical operator is among them, but the same classes.
  lemma Orders(c: char, d: char)
    requires Linted(c) && Linted(d)
    ensures Precedence(c) == Precedence(d) <==> OpPrec(c) == OpPrec(d)
    ensures Basic(c) && Basic(d) ==> (Precedence(c) <= Precedence(d) <==> OpPrec(c) <= OpPrec(d))
    ensures !(Basic(c) && Basic(d)) ==> (Precedence(c) <= Precedence(d) <==> OpPrec(d) <= OpPrec(c))
  {
  }

  lemma {:induction false} SameRoot(ops: seq<char>)
    requires ops != [] && (forall k | 0 <= k < |ops| :: Linted(ops[k])) && Alike(ops)
    ensures Root(Precedence, ops) == Root(LintPrec(), ops)
  {
    hide Precedence;
    hide OpPrec;
    hide Basic;
    hide Linted;
    var last := |ops| - 1;
    if last > 0 {
      assert Alike(ops[..last]);
      SameRoot(ops[..last]);
      var k := Root(Precedence, ops[..last]);
      Orders(ops[last], ops[k]);
    }
  }

  // Where both tables choose the same operator for the root, they order the whole group alike.
  lemma RootTells(ops: seq<char>)
    requires ops != [] && forall k | 0 <= k < |ops| :: Linted(ops[k])
    requires ops[Root(Precedence, ops)] == ops[Root(LintPrec(), ops)]
    ensures Alike(ops)
  {
    var c := ops[Root(Precedence, ops)];
    forall k | 0 <= k < |ops|
      ensures OpPrec(ops[k]) == OpPrec(c) || (Basic(c) && Basic(ops[k]))
    {
      Orders(c, ops[k]);
    }
    hide Precedence;
    hide Root;
    BasicClass(c);
  }

  // Basic operators share no class with the others.
  lemma BasicClass(c: char)
    ensures forall d | Linted(c) && Linted(d) && OpPrec(c) == OpPrec(d) :: Basic(c) <==> Basic(d)
  {
  }

  // Both tables give an expression the same tree exactly when every bracket group has only basic
  // operators or operators of one precedence.
  lemma {:induction false} SameTree<A>(args: seq<Operand<A>>, ops: seq<char>)
    requires Valid(args, ops) && AllLinted(args, ops)
    ensures Tree(Precedence, args, ops) == Tree(LintPrec(), args, ops) <==> AllAlike(args, ops)
    decreases args
  {
    hide *;
    GroupParts(args, ops);
    TreeIs(Precedence, args, ops);
    TreeIs(LintPrec(), args, ops);
    if |ops| == 0 {
      if args[0].Group? { SameTree(args[0].args, args[0].ops); }
    } else {
      if ops[Root(Precedence, ops)] == ops[Root(LintPrec(), ops)] { RootTells(ops); }
      if Alike(ops) {
        SameRoot(ops);
        var k := Root(Precedence, ops);
        SplitParts(args, ops, k);
        SameTree(args[..k + 1], ops[..k]);
        SameTree(args[k + 1..], ops[k + 1..]);
      }
    }
  }

  lemma GroupParts<A>(args: seq<Operand<A>>, ops: seq<char>)
    requires Valid(args, ops) && AllLinted(args, ops)
    ensures |args| == |ops| + 1 && forall k | 0 <= k < |ops| :: Linted(ops[k])
    ensures AllAlike(args, ops) ==> Alike(ops)
    ensures args[0].Group? ==> Valid(args[0].args, args[0].ops) && AllLinted(args[0].args, args[0].ops)
    ensures |ops| == 0 ==> (AllAlike(args, ops) <==> (args[0].Group? ==> AllAlike(args[0].args, args[0].ops)))
  {
    if |ops| == 0 { assert Alike(ops); }
  }

  // In a group of one kind, both sides of an operator are of that kind, and hold all its inner groups.
  lemma SplitParts<A>(args: seq<Operand<A>>, ops: seq<char>, k: nat)
    requires Valid(args, ops) && AllLinted(args, ops) && k < |ops| && Alike(ops)
    ensures Valid(args[..k + 1], ops[..k]) && AllLinted(args[..k + 1], ops[..k])
    ensures Valid(args[k + 1..], ops[k + 1..]) && AllLinted(args[k + 1..], ops[k + 1..])
    ensures AllAlike(args, ops) <==> AllAlike(args[..k + 1], ops[..k]) && AllAlike(args[k + 1..], ops[k + 1..])
  {
    hide Basic;
    hide OpPrec;
    hide Linted;
    ValidSplit(args, ops, k);
    var l, r := args[..k + 1], args[k + 1..];
    assert Alike(ops[..k]) && Alike(ops[k + 1..]);
    if AllAlike(l, ops[..k]) && AllAlike(r, ops[k + 1..]) {
      forall j | 0 <= j < |args| && args[j].Group?
        ensures AllAlike(args[j].args, args[j].ops)
      {
        if j <= k { assert l[j] == args[j]; } else { assert r[j - k - 1] == args[j]; }
      }
    }
  }

  lemma TreeIs<A>(prec: Prec, args: seq<Operand<A>>, ops: seq<char>)
    requires Valid(args, ops)
    ensures |ops| == 0 ==>
              Tree(prec, args, ops) == match args[0] case Leaf(a) => Var(a) case Group(xs, os) => Paren(Tree(prec, xs, os))
    ensures |ops| > 0 ==>
              var k := Root(prec, ops);
              && Valid(args[..k + 1], ops[..k]) && Valid(args[k + 1..], ops[k + 1..])
              && Tree(prec, args, ops) == Bin(ops[k], Tree(prec, args[..k + 1], ops[..k]), Tree(prec, args[k + 1..], ops[k + 1..]))
  {
    hide Root;
  }

  // What the compiled code computes: int64 arithmetic as the language means it.
  ghost function Runs(e: Expr<Item>, sc: Scope, vals: seq<int>): Option<int>
    requires |vals| == |sc.names|
  {
    match e
    case Var(Num(v, _)) => Some(v)
    case Var(Id(name)) => var x := Lookup(sc, vals, name); if x.Value? then Some(x.v) else None
    case Paren(b) => Runs(b, sc, vals)
    case Bin(op, l, r) =>
      match Runs(l, sc, vals)
      case None => None
      case Some(x) =>
        match Runs(r, sc, vals)
        case None => None
        case Some(y) => Meant(op, x, y)
  }

  // The linter's exact arithmetic is that of the language wherever the result fits.
  lemma LinterMeans(op: char, x: int, y: int)
    requires Supported(op) && InS8(x) && InS8(y) && Apply(op, x, y).Value? && InS8(Apply(op, x, y).v)
    ensures Meant(op, x, y) == Some(Apply(op, x, y).v)
  {
    assert TDiv(MIN, -1) == MAX + 1;
    hide TDiv;
    hide Wrap;
  }

  lemma {:induction false} FitRuns(e: Expr<Item>, sc: Scope, vals: seq<int>)
    requires |vals| == |sc.names| && OpsIn(e, Supported) && Fit(e, sc, vals)
    ensures Runs(e, sc, vals) == Some(Val(e, sc, vals).v)
    decreases e
  {
    match e
    case Var(_) =>
    case Paren(b) => FitRuns(b, sc, vals);
    case Bin(op, l, r) =>
      FitRuns(l, sc, vals);
      FitRuns(r, sc, vals);
      LinterMeans(op, Val(l, sc, vals).v, Val(r, sc, vals).v);
      hide Meant;
      hide Apply;
  }

  // So the linter's intervals are sound for the code that the compiler emits for such an expression: with
  // the flag clear, the code computes a value in the interval.
  lemma SoundForCompiler(args: seq<Operand<Item>>, ops: seq<char>, sc: Scope, vals: seq<int>)
    requires Valid(args, ops) && AllLinted(args, ops) && AllAlike(args, ops)
    requires OpsIn(Tree(Precedence, args, ops), Supported)
    requires Sane(sc) && |vals| == |sc.names| && StateDescribes(sc.facts, vals)
    requires Eval(Toks(args, ops), sc).r.Known?
    ensures var e := Tree(Precedence, args, ops);
            && (Fit(e, sc, vals) ==> Eval(Toks(args, ops), sc).r.Has(Val(e, sc, vals).v))
            && (!Eval(Toks(args, ops), sc).overflow ==>
                  Fit(e, sc, vals) && Runs(e, sc, vals).Some? && Eval(Toks(args, ops), sc).r.Has(Runs(e, sc, vals).value))
  {
    SameTree(args, ops);
    InfixSound(args, ops, sc, vals);
    if Fit(Tree(Precedence, args, ops), sc, vals) { FitRuns(Tree(Precedence, args, ops), sc, vals); }
    hide Eval;
    hide Fit;
    hide Runs;
  }

  lemma TreeOne(prec: Prec, a: Item)
    ensures Valid([Leaf(a)], []) && Tree(prec, [Leaf(a)], []) == Var(a)
  {
  }

  lemma TreeTwo(prec: Prec, a: Item, op: char, b: Item)
    ensures Valid([Leaf(a), Leaf(b)], [op]) && Tree(prec, [Leaf(a), Leaf(b)], [op]) == Bin(op, Var(a), Var(b))
  {
    var args, ops := [Leaf(a), Leaf(b)], [op];
    assert Root(prec, ops) == 0;
    assert args[..1] == [Leaf(a)] && args[1..] == [Leaf(b)] && ops[..0] == [] && ops[1..] == [];
    TreeOne(prec, a);
    TreeOne(prec, b);
  }

  lemma CompilerReads(a: Item, b: Item, c: Item)
    ensures Valid([Leaf(a), Leaf(b), Leaf(c)], ['+', '<'])
    ensures Tree(Precedence, [Leaf(a), Leaf(b), Leaf(c)], ['+', '<']) == Bin('+', Var(a), Bin('<', Var(b), Var(c)))
  {
    var args, ops := [Leaf(a), Leaf(b), Leaf(c)], ['+', '<'];
    assert Root(Precedence, ['+']) == 0 && ops[..1] == ['+'];
    assert Root(Precedence, ops) == 0;
    assert args[..1] == [Leaf(a)] && args[1..] == [Leaf(b), Leaf(c)] && ops[..0] == [] && ops[1..] == ['<'];
    TreeOne(Precedence, a);
    TreeTwo(Precedence, b, '<', c);
  }

  lemma LinterReads(a: Item, b: Item, c: Item)
    ensures Toks([Leaf(a), Leaf(b), Leaf(c)], ['+', '<']) == [Atom(a), Op('+'), Atom(b), Op('<'), Atom(c)]
  {
    var args, ops := [Leaf(a), Leaf(b), Leaf(c)], ['+', '<'];
    assert args[1..] == [Leaf(b), Leaf(c)] && ops[1..] == ['<'] && args[1..][1..] == [Leaf(c)] && ops[1..][1..] == [];
    assert Toks([Leaf(c)], []) == [Atom(c)];
    assert Toks([Leaf(b), Leaf(c)], ['<']) == [Atom(b), Op('<'), Atom(c)];
  }

  lemma LinterSays(ts: seq<Tok<Item>>)
    requires ts == [Atom(Num(1, ' ')), Op('+'), Atom(Num(2, ' ')), Op('<'), Atom(Num(3, ' '))]
    ensures Sane(Scope([], [])) && Eval(ts, Scope([], [])) == Ranged(Known(0, 0), false)
  {
    var sc := Scope([], []);
    assert Scan(ts, 5, 7, 3) == Some(3) && Scan(ts, 4, 7, 3) == Some(3) && Scan(ts, 3, 9, 1) == Some(3);
    assert Scan(ts, 2, 9, 1) == Some(3) && Scan(ts, 1, 1000, -1) == Some(3) && Scan(ts, 0, 1000, -1) == Some(3);
    var l := ts[..3];
    assert l == [Atom(Num(1, ' ')), Op('+'), Atom(Num(2, ' '))];
    assert Scan(l, 3, 9, 1) == Some(1) && Scan(l, 2, 9, 1) == Some(1) && Scan(l, 1, 1000, -1) == Some(1);
    assert Scan(l, 0, 1000, -1) == Some(1);
    assert l[..1] == [Atom(Num(1, ' '))] && l[2..] == [Atom(Num(2, ' '))] && ts[4..] == [Atom(Num(3, ' '))];
    assert Eval(l, sc) == Ranged(Known(3, 3), false);
  }

  // A comparison beside an arithmetic operator is the least case in which they disagree: the compiler reads 1 + 2 < 3 as
  // 1 + (2 < 3), which is 2, while the linter is certain of 0.
  lemma TablesDisagree()
    ensures var args := [Leaf(Num(1, ' ')), Leaf(Num(2, ' ')), Leaf(Num(3, ' '))];
            var ops := ['+', '<'];
            var sc := Scope([], []);
            && Valid(args, ops) && Sane(sc)
            && Val(Tree(Precedence, args, ops), sc, []) == Value(2)
            && Eval(Toks(args, ops), sc) == Ranged(Known(0, 0), false)
  {
    var a, b, c := Num(1, ' '), Num(2, ' '), Num(3, ' ');
    CompilerReads(a, b, c);
    LinterReads(a, b, c);
    LinterSays(Toks([Leaf(a), Leaf(b), Leaf(c)], ['+', '<']));
    hide Tree;
    hide Toks;
    hide Eval;
  }
}
