// The compiler's output as assembler text: every instruction the compiler emits can be encoded, and
// every label it jumps to is defined.
module Assembly {
  import opened Infix
  import opened Shunt
  import opened Registers
  import opened Machine
  import opened Codegen
  import opened Lowering
  import A = Assembler
  import O = Opcodes

  // The opcode of an operator on int64 operands.
  function OpCode(c: char): nat {
    match c
    case '+' => 10 case '-' => 11 case '*' => 12 case '/' => 13
    case '$' => 18 case '@' => 19
    case 'A' => 20 case 'O' => 21
    case '&' => 22 case '|' => 23 case '^' => 24 case '%' => 25
    case 'E' => 26 case 'N' => 27
    case '>' => 28 case '<' => 29 case 'G' => 30 case 'L' => 31
    case _ => 0
  }

  const PULLQW: nat := 8

  function Digit(n: nat): char
    requires n < 10
  {
    '0' + n as char
  }

  function Digits(n: nat): (s: string)
    ensures forall k | 0 <= k < |s| :: '0' <= s[k] <= '9'
  {
    if n < 10 then [Digit(n)] else Digits(n / 10) + [Digit(n % 10)]
  }

  // As sprintf writes a number.
  function Decimal(n: int): (s: string)
    ensures forall k | 0 <= k < |s| :: '0' <= s[k] <= '9' || s[k] == '-'
  {
    if n < 0 then "-" + Digits(-n) else Digits(n)
  }

  function KindText(k: Kind): string {
    match k
    case IfL => ":if_" case EndIfL => ":endif_" case ElseL => ":else_"
    case WhileL => ":while_" case ForL => ":for_" case For2L => ":for2_" case ForEndL => ":forend_"
  }

  function LabelText(l: Label): string {
    KindText(l.kind) + Decimal(l.num)
  }

  lemma {:induction false} DigitsDiffer(m: nat, n: nat)
    requires Digits(m) == Digits(n)
    ensures m == n
    decreases m
  {
    var s, t := Digits(m), Digits(n);
    assert m < 10 <==> |s| == 1 by { if m >= 10 { assert |Digits(m / 10)| > 0; } }
    assert n < 10 <==> |t| == 1 by { if n >= 10 { assert |Digits(n / 10)| > 0; } }
    if m >= 10 {
      assert s[..|s| - 1] == Digits(m / 10) && t[..|t| - 1] == Digits(n / 10);
      assert s[|s| - 1] == Digit(m % 10) && t[|t| - 1] == Digit(n % 10);
      DigitsDiffer(m / 10, n / 10);
    }
  }

  lemma DecimalsDiffer(m: int, n: int)
    requires Decimal(m) == Decimal(n)
    ensures m == n
  {
    var s, t := Decimal(m), Decimal(n);
    DigitsSome(if m < 0 then -m else m);
    DigitsSome(if n < 0 then -n else n);
    assert s[0] == t[0];
    if m < 0 {
      assert s[1..] == Digits(-m) && t[1..] == Digits(-n);
      DigitsDiffer(-m, -n);
    } else {
      DigitsDiffer(m, n);
    }
  }

  lemma DigitsSome(n: nat)
    ensures |Digits(n)| > 0
  {
  }

  lemma LabelsDiffer(a: Label, b: Label)
    requires LabelText(a) == LabelText(b)
    ensures a == b
  {
    var x, y := KindText(a.kind), KindText(b.kind);
    LastMark(x, Decimal(a.num), |y| - 1);
    LastMark(y, Decimal(b.num), |x| - 1);
    var s, t := LabelText(a), LabelText(b);
    assert s[..|x|] == x && t[..|y|] == y;
    assert x[1] == y[1] && x[2] == y[2] && x[|x| - 2] == y[|x| - 2];
    assert s[|x|..] == Decimal(a.num) && t[|x|..] == Decimal(b.num);
    DecimalsDiffer(a.num, b.num);
  }

  lemma LastMark(x: string, u: string, j: nat)
    requires j < |x + u| && (x + u)[j] == '_' && forall k | 0 <= k < |u| :: '0' <= u[k] <= '9' || u[k] == '-'
    ensures j < |x|
  {
    assert forall k | 0 <= k < |u| :: (x + u)[|x| + k] == u[k];
    assert forall k | 0 <= k < |u| :: u[k] != '_';
  }

  // One emitted instruction as a line of assembler text.
  function ToLine(i: Instr): A.Line {
    match i
    case LoadA(v, r) => A.Inst(O.LOADA, [A.Ref(v), A.Num(0), A.Num(r)])
    case Load(v, r) => A.Inst(O.LOAD, [A.Ref(v), A.Num(0), A.Num(r)])
    case PullQW(src, base, off) => A.Inst(PULLQW, [A.Num(src), A.Num(base), A.Num(off)])
    case Alu(op, a, b, d) => A.Inst(OpCode(op), [A.Num(a), A.Num(b), A.Num(d)])
    case Jmp(l) => A.Inst(O.JMP, [A.Ref(LabelText(l))])
    case JmpI(r, l) => A.Inst(O.JMPI, [A.Num(r), A.Ref(LabelText(l))])
    case Here(l) => A.Def(LabelText(l))
  }

  function ToLines(code: seq<Instr>): (ls: seq<A.Line>)
    ensures |ls| == |code|
  {
    seq(|code|, k requires 0 <= k < |code| => ToLine(code[k]))
  }

  // Registers in range and variables known.
  ghost predicate Encodable(i: Instr, declared: set<string>) {
    match i
    case LoadA(v, r) => v in declared && r < MAXREG
    case Load(v, r) => v in declared && r < MAXREG
    case PullQW(src, base, off) => src < MAXREG && base < MAXREG && off < MAXREG
    case Alu(op, a, b, d) => IsBinary(op) && a < MAXREG && b < MAXREG && d < MAXREG
    case Jmp(_) => true
    case JmpI(r, _) => r < MAXREG
    case Here(_) => true
  }

  // Every jump goes to a label that the code defines, or to one of those still to be defined.
  ghost predicate Lands(code: seq<Instr>, owed: set<Label>) {
    forall i | i in code && (i.Jmp? || i.JmpI?) :: i.target in owed || Here(i.target) in code
  }

  ghost predicate Fine(g: Gen, declared: set<string>, owed: set<Label>) {
    && |g.table| == MAXREG && g.opReg < MAXREG && g.loadReg < MAXREG && (forall k | 0 <= k < |g.rstack| :: g.rstack[k] < MAXREG)
    && (forall i | i in g.code :: Encodable(i, declared)) && Lands(g.code, owed)
  }

  ghost predicate Keeps(g: Gen, h: Gen) {
    forall i | i in g.code :: i in h.code
  }

  lemma LoadFine(v: string, declared: set<string>, owed: set<Label>, g: Gen)
    requires Fine(g, declared, owed) && LoadVariable(v, declared, g).Some?
    ensures Fine(LoadVariable(v, declared, g).value, declared, owed) && Keeps(g, LoadVariable(v, declared, g).value)
  {
  }

  lemma TokFine(t: Tok<string>, target: string, declared: set<string>, owed: set<Label>, g: Gen)
    requires Fine(g, declared, owed) && GenTok(t, target, declared, g).Some?
    ensures Fine(GenTok(t, target, declared, g).value, declared, owed) && Keeps(g, GenTok(t, target, declared, g).value)
  {
    if t.Atom? { LoadFine(Resolve(t.a, target), declared, owed, g); }
  }

  lemma KeepsItself(g: Gen)
    ensures Keeps(g, g)
  {
  }

  lemma {:induction false} ToksFine(ts: seq<Tok<string>>, target: string, declared: set<string>, owed: set<Label>, g: Gen)
    requires Fine(g, declared, owed) && GenToks(ts, target, declared, g).Some?
    ensures Fine(GenToks(ts, target, declared, g).value, declared, owed) && Keeps(g, GenToks(ts, target, declared, g).value)
  {
    hide Fine;
    hide GenTok;
    KeepsItself(g);
    if ts != [] {
      TokFine(ts[0], target, declared, owed, g);
      ToksFine(ts[1..], target, declared, owed, GenTok(ts[0], target, declared, g).value);
    }
  }

  lemma StmtFine(m: Mode, ts: seq<Tok<string>>, target: string, owed: set<Label>, g: Gen)
    requires Fine(g, m.declared, owed) && GenStmt(ts, target, m.declared, m.noPull, g).Some?
    ensures Fine(GenStmt(ts, target, m.declared, m.noPull, g).value, m.declared, owed)
    ensures Keeps(g, GenStmt(ts, target, m.declared, m.noPull, g).value)
  {
    var x := g.(opReg := -1, loadReg := -1);
    ToksFine(ts, target, m.declared, owed, x);
    hide GenToks;
    var h := GenToks(ts, target, m.declared, x).value;
    assert ResultReg(h) < MAXREG;
  }

  // Emitting jumps and labels: what is owed changes by what they mention.
  lemma EmitFine(g: Gen, code: seq<Instr>, declared: set<string>, owed: set<Label>, now: set<Label>)
    requires Fine(g, declared, owed) && forall i | i in code :: Encodable(i, declared)
    requires forall i | i in code && (i.Jmp? || i.JmpI?) :: i.target in now || Here(i.target) in code || Here(i.target) in g.code
    requires forall l | l in owed :: l in now || Here(l) in code
    ensures Fine(Emit(g, code), declared, now) && Keeps(g, Emit(g, code))
  {
  }

  lemma InitFine(m: Mode, g: Gen, owed: set<Label>)
    requires Fine(g, m.declared, owed)
    ensures Fine(InitIf(m, g), m.declared, owed) && Keeps(g, InitIf(m, g))
  {
  }

  lemma TestFine(m: Mode, v: string, yes: Label, no: Label, g: Gen, owed: set<Label>)
    requires Fine(g, m.declared, owed) && GenTest(m, v, yes, no, g).Some?
    ensures Fine(GenTest(m, v, yes, no, g).value, m.declared, owed + {no}) && Keeps(g, GenTest(m, v, yes, no, g).value)
  {
    InitFine(m, g, owed);
    LoadFine(v, m.declared, owed, InitIf(m, g));
    var h := GenCond(m, v, InitIf(m, g)).value;
    EmitFine(h, [JmpI(h.loadReg, yes), Jmp(no), Here(yes)], m.declared, owed, owed + {no});
  }

  lemma CaseFine(m: Mode, x: string, y: string, k: nat, g: Gen, owed: set<Label>)
    requires Fine(g, m.declared, owed) && GenCase(m, x, y, k, g).Some?
    ensures Fine(GenCase(m, x, y, k, g).value, m.declared, owed + {Label(EndIfL, k)}) && Keeps(g, GenCase(m, x, y, k, g).value)
  {
    InitFine(m, g, owed);
    LoadFine(y, m.declared, owed, InitIf(m, g));
    var h1 := GenCond(m, y, InitIf(m, g)).value;
    LoadFine(x, m.declared, owed, h1);
    var h2 := GenCond(m, x, h1).value;
    var d := NextFree(h2.table);
    EmitFine(h2.(table := h2.table[d := "temp"]),
             [Alu('E', h1.loadReg, h2.loadReg, d), JmpI(d, Label(IfL, k)), Jmp(Label(EndIfL, k)), Here(Label(IfL, k))],
             m.declared, owed, owed + {Label(EndIfL, k)});
  }

  lemma ElseFine(m: Mode, k: nat, g: Gen, owed: set<Label>)
    requires Fine(g, m.declared, owed + {Label(ElseL, k)})
    ensures Fine(GenElse(m, k, g), m.declared, owed + {Label(EndIfL, k)}) && Keeps(g, GenElse(m, k, g))
  {
    InitFine(m, g, owed + {Label(ElseL, k)});
    EmitFine(InitIf(m, g), [Jmp(Label(EndIfL, k)), Here(Label(ElseL, k))], m.declared, owed + {Label(ElseL, k)}, owed + {Label(EndIfL, k)});
  }

  lemma EndIfFine(m: Mode, k: nat, g: Gen, owed: set<Label>)
    requires Fine(g, m.declared, owed + {Label(EndIfL, k)})
    ensures Fine(GenEndIf(m, k, g), m.declared, owed) && Keeps(g, GenEndIf(m, k, g))
  {
    EmitFine(g, [Here(Label(EndIfL, k))], m.declared, owed + {Label(EndIfL, k)}, owed);
    InitFine(m, Emit(g, [Here(Label(EndIfL, k))]), owed);
  }

  lemma {:induction false} ProgFine(m: Mode, p: Stmt, l: Low, owed: set<Label>)
    requires Fine(l.g, m.declared, owed) && GenProg(m, p, l).Some?
    ensures Fine(GenProg(m, p, l).value.g, m.declared, owed)
    ensures Keeps(l.g, GenProg(m, p, l).value.g)
    decreases p
  {
    hide GenProg;
    hide Fine;
    GenProgIs(m, p, l);
    match p
    case Skip =>
    case Seq(a, b) =>
      ProgFine(m, a, l, owed);
      ProgFine(m, b, GenProg(m, a, l).value, owed);
    case Assign(_, target, e) => StmtFine(m, Postfix(e), target, owed, l.g);
    case If(v, body) =>
      TestFine(m, v, Label(IfL, l.ifs), Label(EndIfL, l.ifs), l.g, owed);
      var x := l.(g := GenIf(m, v, l.ifs, EndIfL, l.g).value, ifs := l.ifs + 1);
      ProgFine(m, body, x, owed + {Label(EndIfL, l.ifs)});
      EndIfFine(m, l.ifs, GenProg(m, body, x).value.g, owed);
    case IfElse(v, a, b) =>
      TestFine(m, v, Label(IfL, l.ifs), Label(ElseL, l.ifs), l.g, owed);
      var x := l.(g := GenIf(m, v, l.ifs, ElseL, l.g).value, ifs := l.ifs + 1);
      ProgFine(m, a, x, owed + {Label(ElseL, l.ifs)});
      var y := GenProg(m, a, x).value;
      ElseFine(m, l.ifs, y.g, owed);
      var z := y.(g := GenElse(m, l.ifs, y.g));
      ProgFine(m, b, z, owed + {Label(EndIfL, l.ifs)});
      EndIfFine(m, l.ifs, GenProg(m, b, z).value.g, owed);
    case Switch(body) =>
      InitFine(m, l.g, owed);
      var x := l.(g := InitIf(m, l.g), switches := l.switches + 1);
      ProgFine(m, body, x, owed);
      InitFine(m, GenProg(m, body, x).value.g, owed);
    case Case(v, w, body) =>
      CaseFine(m, v, w, l.ifs, l.g, owed);
      var x := l.(g := GenCase(m, v, w, l.ifs, l.g).value, ifs := l.ifs + 1);
      ProgFine(m, body, x, owed + {Label(EndIfL, l.ifs)});
      EndIfFine(m, l.ifs, GenProg(m, body, x).value.g, owed);
    case DoWhile(body, v) =>
      DoFine(m, l.whiles, l.g, owed);
      var x := l.(g := GenDo(m, l.whiles, l.g), whiles := l.whiles + 1);
      ProgFine(m, body, x, owed);
      WhileFine(m, v, l.whiles, x.g, GenProg(m, body, x).value.g, owed);
    case For(pre, v, body) =>
      ForLoopFine(m, l.fors, l.g, owed);
      var x := l.(g := GenForLoop(m, l.fors, l.g), fors := l.fors + 1);
      ProgFine(m, pre, x, owed);
      var y := GenProg(m, pre, x).value;
      TestFine(m, v, Label(For2L, l.fors), Label(ForEndL, l.fors), y.g, owed);
      var z := y.(g := GenFor(m, v, l.fors, y.g).value);
      ProgFine(m, body, z, owed + {Label(ForEndL, l.fors)});
      NextFine(m, l.fors, x.g, y.g, z.g, GenProg(m, body, z).value.g, owed);
  }

  lemma DoFine(m: Mode, k: nat, g: Gen, owed: set<Label>)
    requires Fine(g, m.declared, owed)
    ensures Fine(GenDo(m, k, g), m.declared, owed) && Keeps(g, GenDo(m, k, g))
    ensures Here(Label(WhileL, k)) in GenDo(m, k, g).code
  {
    InitFine(m, g, owed);
    EmitFine(InitIf(m, g), [Here(Label(WhileL, k))], m.declared, owed, owed);
  }

  lemma WhileFine(m: Mode, v: string, k: nat, f: Gen, g: Gen, owed: set<Label>)
    requires Fine(g, m.declared, owed) && Keeps(f, g) && Here(Label(WhileL, k)) in f.code && GenWhile(m, v, k, g).Some?
    ensures Fine(GenWhile(m, v, k, g).value, m.declared, owed) && Keeps(g, GenWhile(m, v, k, g).value)
  {
    LoadFine(v, m.declared, owed, g);
    var h := GenCond(m, v, g).value;
    EmitFine(h, [JmpI(h.loadReg, Label(WhileL, k))], m.declared, owed, owed);
  }

  lemma ForLoopFine(m: Mode, k: nat, g: Gen, owed: set<Label>)
    requires Fine(g, m.declared, owed)
    ensures Fine(GenForLoop(m, k, g), m.declared, owed) && Keeps(g, GenForLoop(m, k, g))
    ensures Here(Label(ForL, k)) in GenForLoop(m, k, g).code
  {
    InitFine(m, g, owed);
    EmitFine(InitIf(m, g), [Here(Label(ForL, k))], m.declared, owed, owed);
  }

  lemma NextFine(m: Mode, k: nat, f1: Gen, f2: Gen, f3: Gen, g: Gen, owed: set<Label>)
    requires Fine(g, m.declared, owed + {Label(ForEndL, k)}) && Keeps(f1, f2) && Keeps(f2, f3) && Keeps(f3, g)
    requires Here(Label(ForL, k)) in f1.code
    ensures Fine(GenNext(m, k, g), m.declared, owed) && Keeps(g, GenNext(m, k, g))
  {
    var code := [Jmp(Label(ForL, k)), Here(Label(ForEndL, k))];
    EmitFine(g, code, m.declared, owed + {Label(ForEndL, k)}, owed);
    InitFine(m, Emit(g, code), owed);
  }
}
