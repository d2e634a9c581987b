// The slot tables behave as a stack of open blocks: on every well-nested program the highest open
// slot is the innermost open block, no slot is ever taken twice, and the flat pass over the lines
// emits what the structured generator emits.
module LoweringCorrect {
  import opened Infix
  import opened Shunt
  import opened Convert
  import opened Statement
  import opened Registers
  import opened Machine
  import opened Codegen
  import opened Lowering

  // The slots taken so far are exactly the lowest ones.
  ghost predicate IfsTaken(t: seq<IfSlot>, n: nat) {
    |t| == MAXSLOTS && n <= MAXSLOTS && forall k | 0 <= k < MAXSLOTS :: t[k].use.Unused? <==> n <= k
  }

  ghost predicate LoopsTaken(t: seq<LoopSlot>, n: nat) {
    |t| == MAXSLOTS && n <= MAXSLOTS && forall k | 0 <= k < MAXSLOTS :: t[k].use.Unused? <==> n <= k
  }

  ghost predicate Rel(c: Comp, l: Low) {
    && c.g == l.g && IfsTaken(c.ifs, l.ifs)
    && LoopsTaken(c.whiles, l.whiles) && LoopsTaken(c.fors, l.fors) && LoopsTaken(c.switches, l.switches)
  }

  // Blocks opened before are as they were; every block opened since has been closed.
  ghost predicate IfsKept(t: seq<IfSlot>, u: seq<IfSlot>, n: nat) {
    |t| == |u| && forall k | 0 <= k < |t| :: if k < n then u[k] == t[k] else !u[k].use.Open?
  }

  ghost predicate LoopsKept(t: seq<LoopSlot>, u: seq<LoopSlot>, n: nat) {
    |t| == |u| && forall k | 0 <= k < |t| :: if k < n then u[k] == t[k] else !u[k].use.Open?
  }

  ghost predicate Kept(c: Comp, d: Comp, l: Low) {
    && IfsKept(c.ifs, d.ifs, l.ifs) && LoopsKept(c.whiles, d.whiles, l.whiles)
    && LoopsKept(c.fors, d.fors, l.fors) && LoopsKept(c.switches, d.switches, l.switches)
  }

  lemma InnermostIf(t: seq<IfSlot>, plus: bool, k: nat)
    requires k < |t| && t[k].use.Open? && (plus ==> t[k].plus) && forall j | k < j < |t| :: !t[j].use.Open?
    ensures LastIf(t, plus, |t|) == k
  {
  }

  lemma InnermostLoop(t: seq<LoopSlot>, k: nat)
    requires k < |t| && t[k].use.Open? && forall j | k < j < |t| :: !t[j].use.Open?
    ensures LastLoop(t, |t|) == k
  {
  }

  lemma LowestIf(t: seq<IfSlot>, n: nat)
    requires IfsTaken(t, n)
    ensures |t| == MAXSLOTS && n <= MAXSLOTS && FreeIf(t, 0) == if n < MAXSLOTS then n else -1
  {
    if n < MAXSLOTS { assert t[n].use.Unused?; }
  }

  lemma LowestLoop(t: seq<LoopSlot>, n: nat)
    requires LoopsTaken(t, n)
    ensures |t| == MAXSLOTS && n <= MAXSLOTS && FreeLoop(t, 0) == if n < MAXSLOTS then n else -1
  {
    if n < MAXSLOTS { assert t[n].use.Unused?; }
  }

  ghost predicate Above(l: Low, x: Low) {
    l.ifs <= x.ifs && l.whiles <= x.whiles && l.fors <= x.fors && l.switches <= x.switches
  }

  function Taken(l: Low): Slots {
    Slots(l.ifs, l.whiles, l.fors, l.switches)
  }

  // The tables have room for the blocks that follow.
  predicate Room(p: Stmt, n: Slots) {
    n.Plus(Blocks(p)).Fit()
  }

  // The counters count the blocks.
  lemma {:induction false} CountersAdd(m: Mode, p: Stmt, l: Low)
    requires GenProg(m, p, l).Some?
    ensures Taken(GenProg(m, p, l).value) == Taken(l).Plus(Blocks(p))
  {
    hide GenProg;
    hide Blocks;
    hide GenIf;
    hide GenElse;
    hide GenEndIf;
    hide GenCase;
    hide GenStmt;
    hide GenDo;
    hide GenWhile;
    hide GenForLoop;
    hide GenFor;
    hide GenNext;
    GenProgIs(m, p, l);
    BlocksIs(p);
    match p
    case Skip =>
    case Seq(a, b) =>
      CountersAdd(m, a, l);
      CountersAdd(m, b, GenProg(m, a, l).value);
    case Assign(_, target, e) =>
    case If(v, body) =>
      CountersAdd(m, body, l.(g := GenIf(m, v, l.ifs, EndIfL, l.g).value, ifs := l.ifs + 1));
    case IfElse(v, a, b) =>
      var x := l.(g := GenIf(m, v, l.ifs, ElseL, l.g).value, ifs := l.ifs + 1);
      CountersAdd(m, a, x);
      var y := GenProg(m, a, x).value;
      CountersAdd(m, b, y.(g := GenElse(m, l.ifs, y.g)));
    case Switch(body) =>
      CountersAdd(m, body, l.(g := InitIf(m, l.g), switches := l.switches + 1));
    case Case(v, w, body) =>
      CountersAdd(m, body, l.(g := GenCase(m, v, w, l.ifs, l.g).value, ifs := l.ifs + 1));
    case DoWhile(body, v) =>
      CountersAdd(m, body, l.(g := GenDo(m, l.whiles, l.g), whiles := l.whiles + 1));
    case For(pre, v, body) =>
      var x := l.(g := GenForLoop(m, l.fors, l.g), fors := l.fors + 1);
      CountersAdd(m, pre, x);
      var y := GenProg(m, pre, x).value;
      CountersAdd(m, body, y.(g := GenFor(m, v, l.fors, y.g).value));
  }

  lemma BlocksIs(p: Stmt)
    ensures match p
            case Skip => Blocks(p) == Slots(0, 0, 0, 0)
            case Assign(_, _, _) => Blocks(p) == Slots(0, 0, 0, 0)
            case Seq(a, b) => Blocks(p) == Blocks(a).Plus(Blocks(b))
            case If(_, body) => Blocks(p) == Slots(1, 0, 0, 0).Plus(Blocks(body))
            case IfElse(_, a, b) => Blocks(p) == Slots(1, 0, 0, 0).Plus(Blocks(a)).Plus(Blocks(b))
            case Switch(body) => Blocks(p) == Slots(0, 0, 0, 1).Plus(Blocks(body))
            case Case(_, _, body) => Blocks(p) == Slots(1, 0, 0, 0).Plus(Blocks(body))
            case DoWhile(body, _) => Blocks(p) == Slots(0, 1, 0, 0).Plus(Blocks(body))
            case For(pre, _, body) => Blocks(p) == Slots(0, 0, 1, 0).Plus(Blocks(pre)).Plus(Blocks(body))
  {
  }

  // The counters behind the opening line of a block.
  ghost predicate Entered(p: Stmt, l: Low, x: Low) {
    && x.ifs == (if p.If? || p.IfElse? || p.Case? then l.ifs + 1 else l.ifs)
    && x.whiles == (if p.DoWhile? then l.whiles + 1 else l.whiles)
    && x.fors == (if p.For? then l.fors + 1 else l.fors)
    && x.switches == (if p.Switch? then l.switches + 1 else l.switches)
  }

  lemma RoomOwn(p: Stmt, l: Low)
    requires Room(p, Taken(l))
    ensures p.If? || p.IfElse? || p.Case? ==> l.ifs < MAXSLOTS
    ensures p.DoWhile? ==> l.whiles < MAXSLOTS
    ensures p.For? ==> l.fors < MAXSLOTS
    ensures p.Switch? ==> l.switches < MAXSLOTS
  {
    BlocksIs(p);
    hide Blocks;
  }

  // A program with room leaves room for its parts, each after the one before it.
  lemma RoomBody(p: Stmt, body: Stmt, l: Low, x: Low)
    requires (p.If? || p.Case? || p.Switch? || p.DoWhile?) && p.body == body && Room(p, Taken(l)) && Entered(p, l, x)
    ensures Room(body, Taken(x))
  {
    BlocksIs(p);
    hide Blocks;
  }

  lemma RoomInside(m: Mode, p: Stmt, a: Stmt, b: Stmt, l: Low, x: Low)
    requires (p.Seq? && p.a == a && p.b == b) || (p.IfElse? && p.a == a && p.b == b) || (p.For? && p.pre == a && p.body == b)
    requires Room(p, Taken(l)) && Entered(p, l, x)
    ensures Room(a, Taken(x)) && (GenProg(m, a, x).Some? ==> Room(b, Taken(GenProg(m, a, x).value)))
  {
    RoomParts(p, a, b, l, x);
    hide *;
    if GenProg(m, a, x).Some? {
      CountersAdd(m, a, x);
      RoomAfter(a, b, x, GenProg(m, a, x).value);
    }
  }

  lemma RoomParts(p: Stmt, a: Stmt, b: Stmt, l: Low, x: Low)
    requires (p.Seq? && p.a == a && p.b == b) || (p.IfElse? && p.a == a && p.b == b) || (p.For? && p.pre == a && p.body == b)
    requires Room(p, Taken(l)) && Entered(p, l, x)
    ensures Room(a, Taken(x)) && Taken(x).Plus(Blocks(a)).Plus(Blocks(b)).Fit()
  {
    BlocksIs(p);
    hide Blocks;
  }

  lemma RoomAfter(a: Stmt, b: Stmt, x: Low, y: Low)
    requires Taken(x).Plus(Blocks(a)).Plus(Blocks(b)).Fit() && Taken(y) == Taken(x).Plus(Blocks(a))
    ensures Room(b, Taken(y))
  {
  }

  // Result of a run of lines, as compared with the structured generator.
  ghost predicate Agrees(out: Option<Comp>, c: Comp, l: Low, x: Option<Low>) {
    && (out.Some? <==> x.Some?)
    && (out.Some? ==> Rel(out.value, x.value) && Kept(c, out.value, l) && Above(l, x.value))
  }

  lemma KeptSelf(c: Comp, l: Low)
    requires Rel(c, l)
    ensures Kept(c, c, l)
  {
  }

  lemma KeptTrans(c: Comp, d: Comp, f: Comp, l: Low, x: Low)
    requires Kept(c, d, l) && Kept(d, f, x) && Above(l, x)
    ensures Kept(c, f, l)
  {
  }

  // Taking the next slot of a table opens a block ...
  lemma OpenIf(c: Comp, l: Low, s: IfSlot, h: Gen)
    requires Rel(c, l) && l.ifs < MAXSLOTS && s.use.Open?
    ensures Rel(c.(ifs := c.ifs[l.ifs := s], g := h), l.(ifs := l.ifs + 1, g := h))
  {
  }

  lemma OpenFor(c: Comp, l: Low, s: LoopSlot, h: Gen)
    requires Rel(c, l) && l.fors < MAXSLOTS && s.use.Open?
    ensures Rel(c.(fors := c.fors[l.fors := s], g := h), l.(fors := l.fors + 1, g := h))
  {
  }

  lemma OpenWhile(c: Comp, l: Low, s: LoopSlot, h: Gen)
    requires Rel(c, l) && l.whiles < MAXSLOTS && s.use.Open?
    ensures Rel(c.(whiles := c.whiles[l.whiles := s], g := h), l.(whiles := l.whiles + 1, g := h))
  {
  }

  lemma OpenSwitch(c: Comp, l: Low, s: LoopSlot, h: Gen)
    requires Rel(c, l) && l.switches < MAXSLOTS && s.use.Open?
    ensures Rel(c.(switches := c.switches[l.switches := s], g := h), l.(switches := l.switches + 1, g := h))
  {
  }

  // Marking an open block leaves it where it is.
  lemma MarkIf(c: Comp, l: Low, k: nat, s: IfSlot, h: Gen)
    requires Rel(c, l) && k < l.ifs && s.use.Open?
    ensures Rel(c.(ifs := c.ifs[k := s], g := h), l.(g := h))
  {
  }

  lemma MarkFor(c: Comp, l: Low, k: nat, s: LoopSlot, h: Gen)
    requires Rel(c, l) && k < l.fors && s.use.Open?
    ensures Rel(c.(fors := c.fors[k := s], g := h), l.(g := h))
  {
  }

  // ... and after any balanced run it is again the innermost one, as it was left.
  lemma CloseIfBlock(c: Comp, l: Low, s: IfSlot, h: Gen, d: Comp, x: Low, last: IfSlot, h': Gen)
    requires Rel(c, l) && l.ifs < MAXSLOTS && s.use.Open? && last.use.Done?
    requires Rel(d, x) && Kept(c.(ifs := c.ifs[l.ifs := s], g := h), d, l.(ifs := l.ifs + 1, g := h))
    requires Above(l.(ifs := l.ifs + 1), x)
    ensures |d.ifs| == MAXSLOTS && d.ifs[l.ifs] == s && LastIf(d.ifs, false, |d.ifs|) == l.ifs
    ensures s.plus ==> LastIf(d.ifs, true, |d.ifs|) == l.ifs
    ensures Rel(d.(ifs := d.ifs[l.ifs := last], g := h'), x.(g := h'))
    ensures Kept(c, d.(ifs := d.ifs[l.ifs := last], g := h'), l)
  {
    InnermostIf(d.ifs, false, l.ifs);
    if s.plus { InnermostIf(d.ifs, true, l.ifs); }
  }

  lemma CloseForBlock(c: Comp, l: Low, s: LoopSlot, h: Gen, d: Comp, x: Low, last: LoopSlot, h': Gen)
    requires Rel(c, l) && l.fors < MAXSLOTS && s.use.Open? && last.use.Done?
    requires Rel(d, x) && Kept(c.(fors := c.fors[l.fors := s], g := h), d, l.(fors := l.fors + 1, g := h))
    requires Above(l.(fors := l.fors + 1), x)
    ensures |d.fors| == MAXSLOTS && d.fors[l.fors] == s && LastLoop(d.fors, |d.fors|) == l.fors
    ensures Rel(d.(fors := d.fors[l.fors := last], g := h'), x.(g := h'))
    ensures Kept(c, d.(fors := d.fors[l.fors := last], g := h'), l)
  {
    InnermostLoop(d.fors, l.fors);
  }

  lemma CloseWhileBlock(c: Comp, l: Low, s: LoopSlot, h: Gen, d: Comp, x: Low, last: LoopSlot, h': Gen)
    requires Rel(c, l) && l.whiles < MAXSLOTS && s.use.Open? && last.use.Done?
    requires Rel(d, x) && Kept(c.(whiles := c.whiles[l.whiles := s], g := h), d, l.(whiles := l.whiles + 1, g := h))
    requires Above(l.(whiles := l.whiles + 1), x)
    ensures |d.whiles| == MAXSLOTS && d.whiles[l.whiles] == s && LastLoop(d.whiles, |d.whiles|) == l.whiles
    ensures Rel(d.(whiles := d.whiles[l.whiles := last], g := h'), x.(g := h'))
    ensures Kept(c, d.(whiles := d.whiles[l.whiles := last], g := h'), l)
  {
    InnermostLoop(d.whiles, l.whiles);
  }

  lemma CloseSwitchBlock(c: Comp, l: Low, s: LoopSlot, h: Gen, d: Comp, x: Low, last: LoopSlot, h': Gen)
    requires Rel(c, l) && l.switches < MAXSLOTS && s.use.Open? && last.use.Done?
    requires Rel(d, x) && Kept(c.(switches := c.switches[l.switches := s], g := h), d, l.(switches := l.switches + 1, g := h))
    requires Above(l.(switches := l.switches + 1), x)
    ensures |d.switches| == MAXSLOTS && d.switches[l.switches] == s && LastLoop(d.switches, |d.switches|) == l.switches
    ensures Rel(d.(switches := d.switches[l.switches := last], g := h'), x.(g := h'))
    ensures Kept(c, d.(switches := d.switches[l.switches := last], g := h'), l)
  {
    InnermostLoop(d.switches, l.switches);
  }

  lemma DoBlock(m: Mode, first: Line, inner: seq<Line>, last: Line, c: Comp)
    ensures DoLines(m, [first] + inner + [last], c)
         == match DoLine(m, first, c)
            case None => None
            case Some(d) =>
              match DoLines(m, inner, d)
              case None => None
              case Some(f) => DoLine(m, last, f)
  {
    DoLinesAppend(m, [first] + inner, [last], c);
    DoLinesAppend(m, [first], inner, c);
    DoLinesOne(m, first, c);
    match DoLine(m, first, c) {
      case None =>
      case Some(d) =>
        match DoLines(m, inner, d) {
          case None =>
          case Some(f) => DoLinesOne(m, last, f);
        }
    }
  }

  lemma DoTwoBlocks(m: Mode, first: Line, a: seq<Line>, mid: Line, b: seq<Line>, last: Line, c: Comp)
    ensures DoLines(m, [first] + a + [mid] + b + [last], c)
         == match DoLine(m, first, c)
            case None => None
            case Some(d) =>
              match DoLines(m, a, d)
              case None => None
              case Some(f) =>
                match DoLine(m, mid, f)
                case None => None
                case Some(h) => DoLines(m, b + [last], h)
  {
    var front := [first] + a + [mid];
    assert [first] + a + [mid] + b + [last] == front + (b + [last]);
    DoLinesAppend(m, front, b + [last], c);
    DoBlock(m, first, a, mid, c);
  }

  lemma {:induction false} LinesAgree(m: Mode, p: Stmt, c: Comp, l: Low)
    requires WellFormed(p) && Rel(c, l) && Room(p, Taken(l))
    ensures Agrees(DoLines(m, Lines(p), c), c, l, GenProg(m, p, l))
    decreases p, 1
  {
    match p
    case Skip => KeptSelf(c, l);
    case Seq(a, b) => SeqAgrees(m, a, b, c, l);
    case Assign(line, target, e) =>
      DoLinesOne(m, line, c);
      AssignAgrees(m, line, target, e, c, l);
    case If(v, body) => IfAgrees(m, LIf(v), body, LEndIf, c, l, p);
    case Case(v, w, body) => IfAgrees(m, LCase(v, w), body, LBreak, c, l, p);
    case IfElse(v, a, b) => IfElseAgrees(m, v, a, b, c, l);
    case Switch(body) => SwitchAgrees(m, body, c, l);
    case DoWhile(body, v) => WhileAgrees(m, body, v, c, l);
    case For(pre, v, body) => ForAgrees(m, pre, v, body, c, l);
  }

  lemma SeqAgrees(m: Mode, a: Stmt, b: Stmt, c: Comp, l: Low)
    requires WellFormed(a) && WellFormed(b) && Rel(c, l) && Room(Seq(a, b), Taken(l))
    ensures Agrees(DoLines(m, Lines(a) + Lines(b), c), c, l, GenProg(m, Seq(a, b), l))
    decreases Seq(a, b), 0
  {
    hide GenProg;
    hide DoLines;
    hide IfsTaken;
    hide LoopsTaken;
    hide IfsKept;
    hide LoopsKept;
    hide GenCond;
    hide LoadVariable;
    hide Room;
    hide Blocks;
    hide Slots.Plus;
    GenProgIs(m, Seq(a, b), l);
    DoLinesAppend(m, Lines(a), Lines(b), c);
    RoomInside(m, Seq(a, b), a, b, l, l);
    LinesAgree(m, a, c, l);
    if DoLines(m, Lines(a), c).Some? {
      var d, x := DoLines(m, Lines(a), c).value, GenProg(m, a, l).value;
      LinesAgree(m, b, d, x);
      if DoLines(m, Lines(b), d).Some? {
        KeptTrans(c, d, DoLines(m, Lines(b), d).value, l, x);
      }
    }
  }

  lemma AssignAgrees(m: Mode, line: Line, target: string, e: Expr<string>, c: Comp, l: Low)
    requires Denotes(line, target, e) && Rel(c, l)
    ensures Agrees(DoLine(m, line, c), c, l, GenProg(m, Assign(line, target, e), l))
  {
    KeptSelf(c, l);
    if line.LInfix? { InfixLineParses(c.stk, line.text, target, e); }
  }

  // if ... endif and x y ? ... break.
  lemma IfAgrees(m: Mode, first: Line, body: Stmt, last: Line, c: Comp, l: Low, p: Stmt)
    requires p == (if first.LIf? then If(first.v, body) else if first.LCase? then Case(first.x, first.y, body) else Skip)
    requires (first.LIf? && last.LEndIf?) || (first.LCase? && last.LBreak?)
    requires WellFormed(body) && Rel(c, l) && Room(p, Taken(l))
    ensures Agrees(DoLines(m, [first] + Lines(body) + [last], c), c, l, GenProg(m, p, l))
    decreases p, 0
  {
    hide GenProg;
    hide DoLines;
    hide IfsTaken;
    hide LoopsTaken;
    hide IfsKept;
    hide LoopsKept;
    hide GenCond;
    hide LoadVariable;
    hide Room;
    hide Blocks;
    hide Slots.Plus;
    GenProgIs(m, p, l);
    DoBlock(m, first, Lines(body), last, c);
    RoomOwn(p, l);
    LowestIf(c.ifs, l.ifs);
    var k := l.ifs;
    var h := if first.LIf? then GenIf(m, first.v, k, EndIfL, c.g) else GenCase(m, first.x, first.y, k, c.g);
    if h.Some? {
      var s := IfSlot(Open, false, c.ifs[k].elseSet);
      OpenIf(c, l, s, h.value);
      var d, x := c.(ifs := c.ifs[k := s], g := h.value), l.(g := h.value, ifs := k + 1);
      assert DoLine(m, first, c) == Some(d);
      RoomBody(p, body, l, x);
      LinesAgree(m, body, d, x);
      if DoLines(m, Lines(body), d).Some? {
        var d1, x1 := DoLines(m, Lines(body), d).value, GenProg(m, body, x).value;
        CloseIfBlock(c, l, s, h.value, d1, x1, s.(use := Done), GenEndIf(m, k, d1.g));
        assert DoLine(m, last, d1) == Some(CloseIf(m, k, d1));
      }
    }
  }

  lemma IfElseAgrees(m: Mode, v: string, a: Stmt, b: Stmt, c: Comp, l: Low)
    requires WellFormed(a) && WellFormed(b) && Rel(c, l) && Room(IfElse(v, a, b), Taken(l))
    ensures Agrees(DoLines(m, Lines(IfElse(v, a, b)), c), c, l, GenProg(m, IfElse(v, a, b), l))
    decreases IfElse(v, a, b), 0
  {
    hide GenProg;
    hide DoLines;
    hide IfsTaken;
    hide LoopsTaken;
    hide IfsKept;
    hide LoopsKept;
    hide GenCond;
    hide LoadVariable;
    hide Room;
    hide Blocks;
    hide Slots.Plus;
    GenProgIs(m, IfElse(v, a, b), l);
    DoTwoBlocks(m, LIfPlus(v), Lines(a), LElse, Lines(b), LEndIf, c);
    LowestIf(c.ifs, l.ifs);
    RoomOwn(IfElse(v, a, b), l);
    var k := l.ifs;
    if GenIf(m, v, k, ElseL, l.g).Some? {
      var h := GenIf(m, v, k, ElseL, l.g).value;
      var s := IfSlot(Open, true, c.ifs[k].elseSet);
      OpenIf(c, l, s, h);
      var d, x := c.(ifs := c.ifs[k := s], g := h), l.(g := h, ifs := k + 1);
      RoomInside(m, IfElse(v, a, b), a, b, l, x);
      LinesAgree(m, a, d, x);
      if DoLines(m, Lines(a), d).Some? {
        var d1, x1 := DoLines(m, Lines(a), d).value, GenProg(m, a, x).value;
        ElseAgrees(m, b, c, l, s, h, d1, x1);
      }
    }
  }

  lemma ElseAgrees(m: Mode, b: Stmt, c: Comp, l: Low, s: IfSlot, h: Gen, d1: Comp, x1: Low)
    requires WellFormed(b) && Rel(c, l) && l.ifs < MAXSLOTS && s.use.Open? && s.plus
    requires Room(b, Taken(x1))
    requires Rel(d1, x1) && Kept(c.(ifs := c.ifs[l.ifs := s], g := h), d1, l.(ifs := l.ifs + 1, g := h))
    requires Above(l.(ifs := l.ifs + 1), x1)
    ensures DoLine(m, LElse, d1).Some?
    ensures var y := GenProg(m, b, x1.(g := GenElse(m, l.ifs, x1.g)));
            Agrees(DoLines(m, Lines(b) + [LEndIf], DoLine(m, LElse, d1).value), c, l,
                   if y.None? then None else Some(y.value.(g := GenEndIf(m, l.ifs, y.value.g))))
    decreases b, 2
  {
    hide GenProg;
    hide DoLines;
    hide IfsTaken;
    hide LoopsTaken;
    hide IfsKept;
    hide LoopsKept;
    hide GenCond;
    hide LoadVariable;
    hide Room;
    hide Blocks;
    hide Slots.Plus;
    var k, h2 := l.ifs, GenElse(m, l.ifs, x1.g);
    CloseIfBlock(c, l, s, h, d1, x1, s.(use := Done), h2);
    var s2 := s.(elseSet := true);
    var d2, x2 := d1.(ifs := d1.ifs[k := s2], g := h2), x1.(g := h2);
    assert DoLine(m, LElse, d1) == Some(d2);
    MarkIf(d1, x1, k, s2, h2);
    LinesAgree(m, b, d2, x2);
    DoLinesAppend(m, Lines(b), [LEndIf], d2);
    if DoLines(m, Lines(b), d2).Some? {
      var d3, x3 := DoLines(m, Lines(b), d2).value, GenProg(m, b, x2).value;
      DoLinesOne(m, LEndIf, d3);
      KeptElse(c, l, s, s2, h, h2, d1, d2, d3, x1, x2);
      CloseIfBlock(c, l, s2, h2, d3, x3, s2.(use := Done), GenEndIf(m, k, d3.g));
    }
  }

  lemma KeptElse(c: Comp, l: Low, s: IfSlot, s2: IfSlot, h: Gen, h2: Gen, d1: Comp, d2: Comp, d3: Comp, x1: Low, x2: Low)
    requires Rel(c, l) && l.ifs < MAXSLOTS && Above(l.(ifs := l.ifs + 1), x1) && x2 == x1.(g := h2) && Rel(d1, x1)
    requires Kept(c.(ifs := c.ifs[l.ifs := s], g := h), d1, l.(ifs := l.ifs + 1, g := h))
    requires d2 == d1.(ifs := d1.ifs[l.ifs := s2], g := h2) && Kept(d2, d3, x2)
    ensures Kept(c.(ifs := c.ifs[l.ifs := s2], g := h2), d3, l.(ifs := l.ifs + 1, g := h2))
  {
    KeptTrans(c.(ifs := c.ifs[l.ifs := s2], g := h2), d2, d3, l.(ifs := l.ifs + 1, g := h2), x2);
  }

  lemma SwitchAgrees(m: Mode, body: Stmt, c: Comp, l: Low)
    requires WellFormed(body) && Rel(c, l) && Room(Switch(body), Taken(l))
    ensures Agrees(DoLines(m, Lines(Switch(body)), c), c, l, GenProg(m, Switch(body), l))
    decreases Switch(body), 0
  {
    hide GenProg;
    hide DoLines;
    hide IfsTaken;
    hide LoopsTaken;
    hide IfsKept;
    hide LoopsKept;
    hide GenCond;
    hide LoadVariable;
    hide Room;
    hide Blocks;
    hide Slots.Plus;
    GenProgIs(m, Switch(body), l);
    DoBlock(m, LSwitch, Lines(body), LSwitchEnd, c);
    LowestLoop(c.switches, l.switches);
    RoomOwn(Switch(body), l);
    var s, h := LoopSlot(Open, false), InitIf(m, c.g);
    OpenSwitch(c, l, s, h);
    var d, x := c.(switches := c.switches[l.switches := s], g := h), l.(g := h, switches := l.switches + 1);
    assert DoLine(m, LSwitch, c) == Some(d);
    RoomBody(Switch(body), body, l, x);
    LinesAgree(m, body, d, x);
    if DoLines(m, Lines(body), d).Some? {
      var d1, x1 := DoLines(m, Lines(body), d).value, GenProg(m, body, x).value;
      CloseSwitchBlock(c, l, s, h, d1, x1, s.(use := Done), InitIf(m, d1.g));
    }
  }

  lemma WhileAgrees(m: Mode, body: Stmt, v: string, c: Comp, l: Low)
    requires WellFormed(body) && Rel(c, l) && Room(DoWhile(body, v), Taken(l))
    ensures Agrees(DoLines(m, Lines(DoWhile(body, v)), c), c, l, GenProg(m, DoWhile(body, v), l))
    decreases DoWhile(body, v), 0
  {
    hide GenProg;
    hide DoLines;
    hide IfsTaken;
    hide LoopsTaken;
    hide IfsKept;
    hide LoopsKept;
    hide GenCond;
    hide LoadVariable;
    hide Room;
    hide Blocks;
    hide Slots.Plus;
    GenProgIs(m, DoWhile(body, v), l);
    DoBlock(m, LDo, Lines(body), LWhile(v), c);
    LowestLoop(c.whiles, l.whiles);
    RoomOwn(DoWhile(body, v), l);
    var s, h := LoopSlot(Open, false), GenDo(m, l.whiles, c.g);
    OpenWhile(c, l, s, h);
    var d, x := c.(whiles := c.whiles[l.whiles := s], g := h), l.(g := h, whiles := l.whiles + 1);
    assert DoLine(m, LDo, c) == Some(d);
    RoomBody(DoWhile(body, v), body, l, x);
    LinesAgree(m, body, d, x);
    if DoLines(m, Lines(body), d).Some? {
      var d1, x1 := DoLines(m, Lines(body), d).value, GenProg(m, body, x).value;
      var h1 := GenWhile(m, v, l.whiles, d1.g);
      CloseWhileBlock(c, l, s, h, d1, x1, s.(use := Done), if h1.Some? then h1.value else h);
      assert DoLine(m, LWhile(v), d1) == if h1.None? then None
             else Some(d1.(whiles := d1.whiles[l.whiles := s.(use := Done)], g := h1.value));
    }
  }

  // What follows the condition code of a for loop, flat and structured.
  ghost function ForRest(m: Mode, v: string, body: Stmt, d: Comp): Option<Comp> {
    var f :- DoLine(m, LFor(v), d);
    DoLines(m, Lines(body) + [LNext], f)
  }

  ghost function GenForRest(m: Mode, v: string, body: Stmt, k: nat, x: Low): Option<Low> {
    var h :- GenFor(m, v, k, x.g);
    var y :- GenProg(m, body, x.(g := h));
    Some(y.(g := GenNext(m, k, y.g)))
  }

  lemma ForAgrees(m: Mode, pre: Stmt, v: string, body: Stmt, c: Comp, l: Low)
    requires WellFormed(pre) && WellFormed(body) && Rel(c, l) && Room(For(pre, v, body), Taken(l))
    ensures Agrees(DoLines(m, Lines(For(pre, v, body)), c), c, l, GenProg(m, For(pre, v, body), l))
    decreases For(pre, v, body), 0
  {
    hide GenProg;
    hide DoLines;
    hide IfsTaken;
    hide LoopsTaken;
    hide IfsKept;
    hide LoopsKept;
    hide GenCond;
    hide LoadVariable;
    hide Room;
    hide Blocks;
    hide Slots.Plus;
    GenProgIs(m, For(pre, v, body), l);
    DoTwoBlocks(m, LForLoop, Lines(pre), LFor(v), Lines(body), LNext, c);
    LowestLoop(c.fors, l.fors);
    RoomOwn(For(pre, v, body), l);
    var s, h := LoopSlot(Open, false), GenForLoop(m, l.fors, c.g);
    OpenFor(c, l, s, h);
    var d, x := c.(fors := c.fors[l.fors := s], g := h), l.(g := h, fors := l.fors + 1);
    RoomInside(m, For(pre, v, body), pre, body, l, x);
    LinesAgree(m, pre, d, x);
    assert DoLine(m, LForLoop, c) == Some(d);
    if DoLines(m, Lines(pre), d).Some? {
      var d1, x1 := DoLines(m, Lines(pre), d).value, GenProg(m, pre, x).value;
      ForBodyAgrees(m, v, body, c, l, s, h, d1, x1);
    }
  }

  lemma ForBodyAgrees(m: Mode, v: string, body: Stmt, c: Comp, l: Low, s: LoopSlot, h: Gen, d1: Comp, x1: Low)
    requires WellFormed(body) && Rel(c, l) && l.fors < MAXSLOTS && s == LoopSlot(Open, false)
    requires Room(body, Taken(x1))
    requires Rel(d1, x1) && Kept(c.(fors := c.fors[l.fors := s], g := h), d1, l.(fors := l.fors + 1, g := h))
    requires Above(l.(fors := l.fors + 1), x1)
    ensures Agrees(ForRest(m, v, body, d1), c, l, GenForRest(m, v, body, l.fors, x1))
    decreases body, 2
  {
    hide GenProg;
    hide DoLines;
    hide IfsTaken;
    hide LoopsTaken;
    hide IfsKept;
    hide LoopsKept;
    hide GenCond;
    hide LoadVariable;
    hide Room;
    hide Blocks;
    hide Slots.Plus;
    var k, h2 := l.fors, GenFor(m, v, l.fors, x1.g);
    CloseForBlock(c, l, s, h, d1, x1, s.(use := Done), h);
    if h2.Some? {
      var s2 := s.(entered := true);
      var d2, x2 := d1.(fors := d1.fors[k := s2], g := h2.value), x1.(g := h2.value);
      assert DoLine(m, LFor(v), d1) == Some(d2);
      MarkFor(d1, x1, k, s2, h2.value);
      LinesAgree(m, body, d2, x2);
      DoLinesAppend(m, Lines(body), [LNext], d2);
      if DoLines(m, Lines(body), d2).Some? {
        var d3, x3 := DoLines(m, Lines(body), d2).value, GenProg(m, body, x2).value;
        DoLinesOne(m, LNext, d3);
        KeptFor(c, l, s, s2, h, h2.value, d1, d2, d3, x1, x2);
        CloseForBlock(c, l, s2, h2.value, d3, x3, s2.(use := Done), GenNext(m, k, d3.g));
      }
    }
  }

  lemma KeptFor(c: Comp, l: Low, s: LoopSlot, s2: LoopSlot, h: Gen, h2: Gen, d1: Comp, d2: Comp, d3: Comp, x1: Low, x2: Low)
    requires Rel(c, l) && l.fors < MAXSLOTS && Above(l.(fors := l.fors + 1), x1) && x2 == x1.(g := h2) && Rel(d1, x1)
    requires Kept(c.(fors := c.fors[l.fors := s], g := h), d1, l.(fors := l.fors + 1, g := h))
    requires d2 == d1.(fors := d1.fors[l.fors := s2], g := h2) && Kept(d2, d3, x2)
    ensures Kept(c.(fors := c.fors[l.fors := s2], g := h2), d3, l.(fors := l.fors + 1, g := h2))
  {
    KeptTrans(c.(fors := c.fors[l.fors := s2], g := h2), d2, d3, l.(fors := l.fors + 1, g := h2), x2);
  }
}
