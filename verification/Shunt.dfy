// The operator table of the expression compiler and its shunting-yard pass on tokens.
module Shunt {
  import opened Infix

  // isOperator: the characters the expression scanner treats as operators.
  predicate IsOperator(c: char) {
    IsBinary(c) || c == '(' || c == ')' || c == '{' || c == '}'
  }

  predicate IsBinary(c: char) {
    match c
    case '+' => true case '-' => true
    case '*' => true case '/' => true case '%' => true
    case '<' => true case 'L' => true case '>' => true case 'G' => true
    case 'E' => true case 'N' => true
    case '&' => true case '^' => true case '|' => true
    case 'A' => true case 'O' => true
    case '$' => true case '@' => true
    case _ => false
  }

  function Precedence(c: char): int {
    match c
    case '+' => 2 case '-' => 2
    case '*' => 3 case '/' => 3 case '%' => 3
    case '$' => 4 case '@' => 4
    case '<' => 5 case 'L' => 5 case '>' => 5 case 'G' => 5
    case 'E' => 6 case 'N' => 6
    case '&' => 7
    case '^' => 8
    case '|' => 9
    case 'A' => 10
    case 'O' => 11
    case '(' => 1 case ')' => 1 case '#' => 1
    case _ => 0
  }

  // The operators above the '#' marker of the running conversion, and the postfix written so far.
  datatype Yard = Yard(ops: seq<char>, out: seq<Tok<string>>)

  function TopPrec(ops: seq<char>): int {
    if ops == [] then Precedence('#') else Precedence(ops[|ops| - 1])
  }

  function Unwind(p: int, y: Yard): Yard
    decreases |y.ops|
  {
    var last := |y.ops| - 1;
    if last < 0 || TopPrec(y.ops) < p then y
    else Unwind(p, Yard(y.ops[..last], y.out + [Op(y.ops[last])]))
  }

  function UnwindToParen(y: Yard): Option<Yard>
    decreases |y.ops|
  {
    var last := |y.ops| - 1;
    if last < 0 then None
    else if y.ops[last] == '(' then Some(y.(ops := y.ops[..last]))
    else UnwindToParen(Yard(y.ops[..last], y.out + [Op(y.ops[last])]))
  }

  function UnwindAll(y: Yard): (r: Yard)
    ensures r.ops == []
    decreases |y.ops|
  {
    var last := |y.ops| - 1;
    if last < 0 then y
    else UnwindAll(Yard(y.ops[..last], y.out + [Op(y.ops[last])]))
  }

  function Step(t: Tok<string>, y: Yard): Option<Yard> {
    match t
    case Atom(_) => Some(y.(out := y.out + [t]))
    case LP => Some(y.(ops := y.ops + ['(']))
    case RP => UnwindToParen(y)
    case Op(c) =>
      var z := Unwind(Precedence(c), y);
      Some(z.(ops := z.ops + [c]))
  }

  function Steps(ts: seq<Tok<string>>, y: Yard): Option<Yard> {
    if ts == [] then Some(y)
    else
      match Step(ts[0], y)
      case None => None
      case Some(z) => Steps(ts[1..], z)
  }

  function ToPostfix(ts: seq<Tok<string>>): Option<seq<Tok<string>>> {
    match Steps(ts, Yard([], []))
    case None => None
    case Some(y) => Some(UnwindAll(y).out)
  }

  lemma {:induction false} StepsAppend(a: seq<Tok<string>>, b: seq<Tok<string>>, y: Yard)
    ensures Steps(a + b, y) == match Steps(a, y) { case None => None case Some(z) => Steps(b, z) }
  {
    if a == [] {
      assert a + b == b;
    } else {
      assert (a + b)[0] == a[0] && (a + b)[1..] == a[1..] + b;
      match Step(a[0], y) {
        case None =>
        case Some(z) => StepsAppend(a[1..], b, z);
      }
    }
  }

  // While a tree is being read, the operators on its right spine wait on the stack ...
  ghost function Spine(e: Expr<string>): seq<char> {
    if e.Bin? then [e.op] + Spine(e.r) else []
  }

  // ... and everything else has been written.
  ghost function Written(e: Expr<string>): seq<Tok<string>> {
    match e
    case Var(a) => [Atom(a)]
    case Paren(b) => Postfix(b)
    case Bin(op, l, r) => Postfix(l) + Written(r)
  }

  // Popping a whole spine completes the postfix form of its tree.
  lemma {:induction false} UnwindSpine(e: Expr<string>, p: int, ops: seq<char>, out: seq<Tok<string>>)
    requires Shaped(Precedence, e) && Above(Precedence, e, p, false)
    ensures Unwind(p, Yard(ops + Spine(e), out + Written(e))) == Unwind(p, Yard(ops, out + Postfix(e)))
    decreases e
  {
    hide Precedence;
    hide Unwind;
    match e
    case Var(_) => assert ops + Spine(e) == ops;
    case Paren(_) => assert ops + Spine(e) == ops;
    case Bin(op, l, r) =>
      assert ops + Spine(e) == (ops + [op]) + Spine(r);
      assert out + Written(e) == (out + Postfix(l)) + Written(r);
      UnwindSpine(r, p, ops + [op], out + Postfix(l));
      UnwindOne(op, p, ops, out + Postfix(l) + Postfix(r));
      assert out + Postfix(e) == (out + Postfix(l) + Postfix(r)) + [Op(op)];
  }

  lemma UnwindOne(op: char, p: int, ops: seq<char>, out: seq<Tok<string>>)
    requires p <= Precedence(op)
    ensures Unwind(p, Yard(ops + [op], out)) == Unwind(p, Yard(ops, out + [Op(op)]))
  {
    assert (ops + [op])[..|ops|] == ops;
  }

  lemma {:induction false} UnwindSpineToParen(e: Expr<string>, ops: seq<char>, out: seq<Tok<string>>)
    requires OpsIn(e, IsBinary)
    ensures UnwindToParen(Yard(ops + Spine(e), out + Written(e))) == UnwindToParen(Yard(ops, out + Postfix(e)))
    decreases e
  {
    match e
    case Var(_) => assert ops + Spine(e) == ops;
    case Paren(_) => assert ops + Spine(e) == ops;
    case Bin(op, l, r) =>
      assert ops + Spine(e) == (ops + [op]) + Spine(r);
      assert out + Written(e) == (out + Postfix(l)) + Written(r);
      UnwindSpineToParen(r, ops + [op], out + Postfix(l));
      assert (ops + [op])[..|ops|] == ops;
      assert out + Postfix(e) == (out + Postfix(l) + Postfix(r)) + [Op(op)];
  }

  lemma {:induction false} UnwindSpineAll(e: Expr<string>, ops: seq<char>, out: seq<Tok<string>>)
    ensures UnwindAll(Yard(ops + Spine(e), out + Written(e))) == UnwindAll(Yard(ops, out + Postfix(e)))
    decreases e
  {
    match e
    case Var(_) => assert ops + Spine(e) == ops;
    case Paren(_) => assert ops + Spine(e) == ops;
    case Bin(op, l, r) =>
      assert ops + Spine(e) == (ops + [op]) + Spine(r);
      assert out + Written(e) == (out + Postfix(l)) + Written(r);
      UnwindSpineAll(r, ops + [op], out + Postfix(l));
      assert (ops + [op])[..|ops|] == ops;
      assert out + Postfix(e) == (out + Postfix(l) + Postfix(r)) + [Op(op)];
  }

  lemma StepsSingle(t: Tok<string>, y: Yard)
    ensures Steps([t], y) == Step(t, y)
  {
    match Step(t, y)
    case None =>
    case Some(z) => assert Steps([], z) == Some(z);
  }

  // The stack discipline of the yard: reading a tree pushes its spine and writes the rest, whatever
  // lies below on the stack, provided the entry on top binds less tightly than the tree's root.
  lemma {:induction false} StepsTree(e: Expr<string>, ops: seq<char>, out: seq<Tok<string>>)
    requires Shaped(Precedence, e) && OpsIn(e, IsBinary)
    requires Above(Precedence, e, TopPrec(ops), true)
    ensures Steps(Flatten(e), Yard(ops, out)) == Some(Yard(ops + Spine(e), out + Written(e)))
    decreases e, 1
  {
    match e
    case Var(a) =>
      StepsSingle(Atom(a), Yard(ops, out));
      assert ops + Spine(e) == ops;
    case Paren(b) => StepsParen(b, ops, out);
    case Bin(op, l, r) =>
      StepsTree(l, ops, out);
      StepOperator(op, l, ops, out);
      StepsTree(r, ops + [op], out + Postfix(l));
      StepsThrough(Flatten(l), Op(op), Flatten(r), Yard(ops, out),
                   Yard(ops + Spine(l), out + Written(l)), Yard(ops + [op], out + Postfix(l)));
      SpineOfBin(op, l, r, ops, out);
  }

  lemma {:induction false} StepsParen(b: Expr<string>, ops: seq<char>, out: seq<Tok<string>>)
    requires Shaped(Precedence, b) && OpsIn(b, IsBinary)
    ensures Steps([LP] + Flatten(b) + [RP], Yard(ops, out)) == Some(Yard(ops + [], out + Postfix(b)))
    decreases b, 2
  {
    var inner := ops + ['('];
    assert Above(Precedence, b, TopPrec(inner), true) by { assert b.Bin? ==> 1 < Precedence(b.op); }
    StepsTree(b, inner, out);
    var y1, y2, y3 := Yard(inner, out), Yard(inner + Spine(b), out + Written(b)), Yard(ops + [], out + Postfix(b));
    StepsThrough([], LP, Flatten(b) + [RP], Yard(ops, out), Yard(ops, out), y1);
    assert Step(RP, y2) == Some(y3) by {
      UnwindSpineToParen(b, inner, out);
      assert inner[..|ops|] == ops + [];
    }
    StepsThrough(Flatten(b), RP, [], y1, y2, y3);
    assert [] + [LP] + (Flatten(b) + [RP]) == [LP] + Flatten(b) + [RP];
    assert Flatten(b) + [RP] + [] == Flatten(b) + [RP];
  }

  lemma SpineOfBin(op: char, l: Expr<string>, r: Expr<string>, ops: seq<char>, out: seq<Tok<string>>)
    ensures ops + [op] + Spine(r) == ops + Spine(Bin(op, l, r))
    ensures out + Postfix(l) + Written(r) == out + Written(Bin(op, l, r))
  {
  }

  lemma StepsThrough(a: seq<Tok<string>>, t: Tok<string>, b: seq<Tok<string>>, y: Yard, y1: Yard, y2: Yard)
    requires Steps(a, y) == Some(y1) && Step(t, y1) == Some(y2)
    ensures Steps(a + [t] + b, y) == Steps(b, y2)
  {
    StepsSingle(t, y1);
    StepsAppend(a, [t], y);
    StepsAppend(a + [t], b, y);
  }

  // An operator completes the tree on its left and takes its place on the stack.
  lemma StepOperator(op: char, l: Expr<string>, ops: seq<char>, out: seq<Tok<string>>)
    requires Shaped(Precedence, l) && Above(Precedence, l, Precedence(op), false)
    requires TopPrec(ops) < Precedence(op)
    ensures Step(Op(op), Yard(ops + Spine(l), out + Written(l))) == Some(Yard(ops + [op], out + Postfix(l)))
  {
    UnwindSpine(l, Precedence(op), ops, out);
  }

  // Shunting a left-associative tree's tokens writes its postfix form.
  lemma ShuntShaped(e: Expr<string>)
    requires Shaped(Precedence, e) && OpsIn(e, IsBinary)
    ensures ToPostfix(Flatten(e)) == Some(Postfix(e))
  {
    assert e.Bin? ==> 1 < Precedence(e.op);
    StepsTree(e, [], []);
    UnwindSpineAll(e, [], []);
    assert [] + Spine(e) == Spine(e) && [] + Written(e) == Written(e) && [] + Postfix(e) == Postfix(e);
  }

  // For every infix expression the shunting yard writes the postfix form of the tree that the
  // precedence table prescribes.
  lemma ShuntCorrect(args: seq<Operand<string>>, ops: seq<char>)
    requires Valid(args, ops)
    requires OpsIn(Tree(Precedence, args, ops), IsBinary)
    ensures ToPostfix(Toks(args, ops)) == Some(Postfix(Tree(Precedence, args, ops)))
  {
    TreeFlattens(Precedence, args, ops);
    TreeShaped(Precedence, args, ops);
    ShuntShaped(Tree(Precedence, args, ops));
  }
}
