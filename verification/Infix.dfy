// Infix expressions as both tools see them: operands separated by one-letter binary operators,
// with bracketed groups.  The meaning of such an expression depends on a precedence table: the
// root is the right-most operator of lowest precedence, so equal operators associate to the left.
module Infix {

  datatype Option<+T> = None | Some(value: T) {
    predicate IsFailure() { None? }

    function PropagateFailure<U>(): Option<U>
      requires None?
    {
      None
    }

    function Extract(): T
      requires Some?
    {
      value
    }
  }

  datatype Tok<A> = Atom(a: A) | Op(c: char) | LP | RP

  datatype Operand<A> =
    | Leaf(a: A)
    | Group(args: seq<Operand<A>>, ops: seq<char>)

  datatype Expr<A> =
    | Var(a: A)
    | Paren(e: Expr<A>)
    | Bin(op: char, l: Expr<A>, r: Expr<A>)

  type Prec = char -> int

  // `args` are joined by `ops`: one operator between two neighbours, in every group.
  ghost predicate Valid<A>(args: seq<Operand<A>>, ops: seq<char>)
    decreases args
  {
    && |args| == |ops| + 1
    && (forall k | 0 <= k < |args| && args[k].Group? :: Valid(args[k].args, args[k].ops))
  }

  // The tokens of an expression in source order.
  ghost function Toks<A>(args: seq<Operand<A>>, ops: seq<char>): seq<Tok<A>>
    requires Valid(args, ops)
    decreases args
  {
    if |ops| == 0 then OperandToks(args[0])
    else OperandToks(args[0]) + [Op(ops[0])] + Toks(args[1..], ops[1..])
  }

  ghost function OperandToks<A>(o: Operand<A>): seq<Tok<A>>
    requires o.Group? ==> Valid(o.args, o.ops)
    decreases o
  {
    match o
    case Leaf(a) => [Atom(a)]
    case Group(args, ops) => [LP] + Toks(args, ops) + [RP]
  }

  // Position of the right-most operator of lowest precedence.
  function Root(prec: Prec, ops: seq<char>): (k: nat)
    requires ops != []
    ensures k < |ops|
    ensures forall i | 0 <= i < |ops| :: prec(ops[k]) <= prec(ops[i])
    ensures forall i | k < i < |ops| :: prec(ops[k]) < prec(ops[i])
  {
    var last := |ops| - 1;
    if last == 0 then 0
    else
      var k := Root(prec, ops[..last]);
      assert forall i | 0 <= i < last :: ops[..last][i] == ops[i];
      if prec(ops[last]) <= prec(ops[k]) then last else k
  }

  // The tree that a precedence table gives to an expression.
  ghost function Tree<A>(prec: Prec, args: seq<Operand<A>>, ops: seq<char>): Expr<A>
    requires Valid(args, ops)
    decreases args
  {
    if |ops| == 0 then OperandTree(prec, args[0])
    else
      var k := Root(prec, ops);
      Bin(ops[k], Tree(prec, args[..k + 1], ops[..k]), Tree(prec, args[k + 1..], ops[k + 1..]))
  }

  ghost function OperandTree<A>(prec: Prec, o: Operand<A>): Expr<A>
    requires o.Group? ==> Valid(o.args, o.ops)
    decreases o
  {
    match o
    case Leaf(a) => Var(a)
    case Group(args, ops) => Paren(Tree(prec, args, ops))
  }

  ghost function Flatten<A>(e: Expr<A>): seq<Tok<A>> {
    match e
    case Var(a) => [Atom(a)]
    case Paren(b) => [LP] + Flatten(b) + [RP]
    case Bin(op, l, r) => Flatten(l) + [Op(op)] + Flatten(r)
  }

  ghost function Postfix<A>(e: Expr<A>): seq<Tok<A>> {
    match e
    case Var(a) => [Atom(a)]
    case Paren(b) => Postfix(b)
    case Bin(op, l, r) => Postfix(l) + Postfix(r) + [Op(op)]
  }

  // Every operator of the unbracketed part of e binds at least (or strictly) tighter than p.
  ghost predicate Above<A>(prec: Prec, e: Expr<A>, p: int, strict: bool) {
    e.Bin? ==> (if strict then p < prec(e.op) else p <= prec(e.op))
  }

  // The shape that left-associative precedence parsing gives a tree.
  ghost predicate Shaped<A>(prec: Prec, e: Expr<A>) {
    match e
    case Var(_) => true
    case Paren(b) => Shaped(prec, b)
    case Bin(op, l, r) =>
      && Shaped(prec, l) && Above(prec, l, prec(op), false)
      && Shaped(prec, r) && Above(prec, r, prec(op), true)
  }

  ghost predicate OpsIn<A>(e: Expr<A>, table: char -> bool) {
    match e
    case Var(_) => true
    case Paren(b) => OpsIn(b, table)
    case Bin(op, l, r) => table(op) && OpsIn(l, table) && OpsIn(r, table)
  }

  ghost predicate AtomsIn<A>(e: Expr<A>, s: set<A>) {
    match e
    case Var(a) => a in s
    case Paren(b) => AtomsIn(b, s)
    case Bin(_, l, r) => AtomsIn(l, s) && AtomsIn(r, s)
  }

  lemma {:induction false} ToksSplit<A>(args: seq<Operand<A>>, ops: seq<char>, k: nat)
    requires Valid(args, ops) && k < |ops|
    ensures Toks(args, ops) == Toks(args[..k + 1], ops[..k]) + [Op(ops[k])] + Toks(args[k + 1..], ops[k + 1..])
    decreases k
  {
    if k > 0 {
      ToksSplit(args[1..], ops[1..], k - 1);
      assert args[1..][..k] == args[..k + 1][1..] && ops[1..][..k - 1] == ops[..k][1..];
      assert args[1..][k..] == args[k + 1..] && ops[1..][k..] == ops[k + 1..];
    }
  }

  // The tree reads back as exactly the tokens it was built from: no operand or operator is lost,
  // repeated or reordered.
  lemma {:induction false} TreeFlattens<A>(prec: Prec, args: seq<Operand<A>>, ops: seq<char>)
    requires Valid(args, ops)
    ensures Flatten(Tree(prec, args, ops)) == Toks(args, ops)
    decreases args
  {
    if |ops| == 0 {
      if args[0].Group? { TreeFlattens(prec, args[0].args, args[0].ops); }
    } else {
      var k := Root(prec, ops);
      ValidSplit(args, ops, k);
      TreeFlattens(prec, args[..k + 1], ops[..k]);
      TreeFlattens(prec, args[k + 1..], ops[k + 1..]);
      ToksSplit(args, ops, k);
    }
  }

  lemma ValidSplit<A>(args: seq<Operand<A>>, ops: seq<char>, k: nat)
    requires Valid(args, ops) && k < |ops|
    ensures Valid(args[..k + 1], ops[..k]) && Valid(args[k + 1..], ops[k + 1..])
  {
  }

  lemma {:induction false} TreeShaped<A>(prec: Prec, args: seq<Operand<A>>, ops: seq<char>)
    requires Valid(args, ops)
    ensures Shaped(prec, Tree(prec, args, ops))
    ensures Tree(prec, args, ops).Bin? <==> ops != []
    ensures ops != [] ==> Tree(prec, args, ops).op == ops[Root(prec, ops)]
    decreases args
  {
    if |ops| == 0 {
      if args[0].Group? { TreeShaped(prec, args[0].args, args[0].ops); }
    } else {
      var k := Root(prec, ops);
      ValidSplit(args, ops, k);
      var ll, rr := ops[..k], ops[k + 1..];
      TreeShaped(prec, args[..k + 1], ll);
      TreeShaped(prec, args[k + 1..], rr);
      if ll != [] { assert ll[Root(prec, ll)] == ops[Root(prec, ll)]; }
      if rr != [] { assert rr[Root(prec, rr)] == ops[k + 1 + Root(prec, rr)]; }
    }
  }
}
