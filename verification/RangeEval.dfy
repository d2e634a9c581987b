// The linter's two expression evaluators, on a list of tokens: to a constant and to an interval.
module RangeEval {
  import opened Infix
  import opened Brackets
  import opened Int64
  import opened Intervals

  // A number, with the sign it is written with (' ' for none), or a name.
  datatype Item = Num(v: int, sign: char) | Id(name: string)

  // What is known of a variable.
  datatype Fact = Fact(initialized: bool, rangeKnown: bool, lo: int, hi: int, valueKnown: bool, value: int, mayZero: bool)

  datatype Scope = Scope(names: seq<string>, facts: seq<Fact>)

  function IndexOf(names: seq<string>, name: string, from: nat): (r: int)
    requires from <= |names|
    ensures r == -1 ==> name !in names[from..]
    ensures r != -1 ==> from <= r < |names| && names[r] == name
    decreases |names| - from
  {
    if from == |names| then -1 else if names[from] == name then from else IndexOf(names, name, from + 1)
  }

  function FactRange(f: Fact): Range {
    if f.rangeKnown then Known(f.lo, f.hi)
    else if f.valueKnown then Exact(f.value)
    else Unknown
  }

  // range_of_var
  function RangeOfVar(sc: Scope, name: string): Range
    requires |sc.names| == |sc.facts|
  {
    var k := IndexOf(sc.names, name, 0);
    if k == -1 then Unknown else FactRange(sc.facts[k])
  }

  // The precedence of an operator text, here by its one-letter code.
  function OpPrec(c: char): int {
    match c
    case 'O' => 1
    case 'A' => 2
    case 'E' => 6 case 'N' => 6
    case '<' => 7 case '>' => 7 case 'L' => 7 case 'G' => 7
    case '+' => 9 case '-' => 9
    case '*' => 10 case '/' => 10 case '%' => 10
    case _ => -1
  }

  // operator_precedence of a token: a number written with a sign looks like an operator.
  function TokPrec(t: Tok<Item>): int {
    match t
    case Op(c) => OpPrec(c)
    case Atom(Num(_, sign)) => if sign == '+' || sign == '-' then 9 else -1
    case _ => -1
  }

  function OpOf(t: Tok<Item>): char {
    match t
    case Op(c) => c
    case Atom(Num(_, sign)) => sign
    case _ => ' '
  }

  // ---- range_eval ----

  // The right-most top-level operator of lowest precedence; None when a bracket has no partner.
  function Scan(ts: seq<Tok<Item>>, i: nat, best: int, pos: int): Option<int>
    requires i <= |ts|
    decreases |ts| - i
  {
    if i == |ts| then Some(pos)
    else if ts[i] == LP then
      var c := Close(ts, i);
      if c == -1 then None else Scan(ts, c + 1, best, pos)
    else
      var p := TokPrec(ts[i]);
      if 0 < p <= best then Scan(ts, i + 1, p, i) else Scan(ts, i + 1, best, pos)
  }

  function AtomRange(t: Tok<Item>, sc: Scope): Ranged
    requires |sc.names| == |sc.facts|
  {
    match t
    case Atom(Num(v, _)) => if InS8(v) then Ranged(Exact(v), false) else Ranged(Unknown, true)
    case Atom(Id(name)) => Ranged(RangeOfVar(sc, name), false)
    case _ => Ranged(Unknown, false)
  }

  // What every table entry satisfies.
  ghost predicate Sane(sc: Scope) {
    && |sc.names| == |sc.facts|
    && forall k | 0 <= k < |sc.facts| :: SaneFact(sc.facts[k])
  }

  predicate SaneFact(f: Fact) {
    && (f.rangeKnown ==> MIN <= f.lo <= f.hi <= MAX)
    && (f.valueKnown ==> InS8(f.value))
  }

  function Eval(ts: seq<Tok<Item>>, sc: Scope): (x: Ranged)
    requires Sane(sc)
    ensures x.r.Proper()
    decreases |ts|
  {
    if ts == [] then Ranged(Unknown, false)
    else if ts[0] == LP && Close(ts, 0) == |ts| - 1 then
      if |ts| == 1 then Ranged(Unknown, false) else Eval(ts[1..|ts| - 1], sc)
    else if |ts| == 1 then AtomRange(ts[0], sc)
    else
      match Scan(ts, 0, 1000, -1)
      case None => Ranged(Unknown, false)
      case Some(root) =>
        if !(0 < root < |ts| - 1) then Ranged(Unknown, false)
        else
          var a := Eval(ts[..root], sc);
          var b := Eval(ts[root + 1..], sc);
          if a.r.Unknown? || b.r.Unknown? then Ranged(Unknown, false)
          else
            var x := RangeApply(OpOf(ts[root]), a.r, b.r);
            Ranged(x.r, a.overflow || b.overflow || x.overflow)
  }

  // ---- eval_expr ----

  // How many top-level operators there are, and the first and the last of them.
  datatype Ops = Ops(count: nat, first: int, last: int)

  function ScanOps(ts: seq<Tok<Item>>, i: nat, x: Ops): Option<Ops>
    requires i <= |ts|
    decreases |ts| - i
  {
    if i == |ts| then Some(x)
    else if ts[i] == LP then
      var c := Close(ts, i);
      if c == -1 then None else ScanOps(ts, c + 1, x)
    else if ts[i].Op? then ScanOps(ts, i + 1, Ops(x.count + 1, if x.count == 0 then i else x.first, i))
    else ScanOps(ts, i + 1, x)
  }

  function AtomConst(t: Tok<Item>, sc: Scope): Const
    requires |sc.names| == |sc.facts|
  {
    match t
    case Atom(Num(v, _)) => Checked(v)
    case Atom(Id(name)) =>
      var k := IndexOf(sc.names, name, 0);
      if k != -1 && sc.facts[k].valueKnown then Const(sc.facts[k].value) else NoConst(false)
    case _ => NoConst(false)
  }

  function Combine(op: char, a: Const, b: Const): Const {
    if (a.NoConst? && a.overflow) || (b.NoConst? && b.overflow) then NoConst(true)
    else if a.Const? && b.Const? then EvalApply(op, a.v, b.v)
    else NoConst(false)
  }

  // Where the right operand of a postfix span starts; -1 when it cannot be found.
  function RightStart(ts: seq<Tok<Item>>): int
    requires |ts| >= 2
  {
    if ts[|ts| - 2] == RP then Open(ts, |ts| - 2) else |ts| - 2
  }

  function EvalExpr(ts: seq<Tok<Item>>, sc: Scope): Const
    requires |sc.names| == |sc.facts|
    decreases |ts|
  {
    if ts == [] then NoConst(false)
    else if |ts| == 1 then AtomConst(ts[0], sc)
    else if ts[0] == LP && Close(ts, 0) == |ts| - 1 then EvalExpr(ts[1..|ts| - 1], sc)
    else
      match ScanOps(ts, 0, Ops(0, -1, -1))
      case None => NoConst(false)
      case Some(x) =>
        if x.count >= 1 && x.last == |ts| - 1 then
          var m := RightStart(ts);
          if m <= 0 then NoConst(false)
          else Combine(OpOf(ts[|ts| - 1]), EvalExpr(ts[..m], sc), EvalExpr(ts[m..|ts| - 1], sc))
        else if x.count == 1 && 0 < x.first < |ts| - 1 then
          Combine(OpOf(ts[x.first]), EvalExpr(ts[..x.first], sc), EvalExpr(ts[x.first + 1..], sc))
        else NoConst(false)
  }
}
