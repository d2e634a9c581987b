// Full slot tables: a line that finds its table full is taken for compiled.  Which programs that can
// happen to, and which of them the compiler still accepts.
module SlotLimits {
  import opened Infix
  import opened Convert
  import opened Statement
  import opened Registers
  import opened Machine
  import opened Codegen
  import opened Lowering
  import opened LoweringCorrect
  import opened Program

  datatype Table = IfT | WhileT | ForT | SwitchT

  function IfUses(s: seq<IfSlot>): (us: seq<Use>) {
    seq(|s|, k requires 0 <= k < |s| => s[k].use)
  }

  function LoopUses(s: seq<LoopSlot>): (us: seq<Use>) {
    seq(|s|, k requires 0 <= k < |s| => s[k].use)
  }

  function Uses(c: Comp, t: Table): seq<Use> {
    match t
    case IfT => IfUses(c.ifs) case WhileT => LoopUses(c.whiles) case ForT => LoopUses(c.fors) case SwitchT => LoopUses(c.switches)
  }

  function Free(c: Comp, t: Table): nat {
    multiset(Uses(c, t))[Unused]
  }

  function Closed(c: Comp, t: Table): nat {
    multiset(Uses(c, t))[Done]
  }

  // The table in which a line takes a slot.
  function Takes(line: Line): Option<Table> {
    if line.LIf? || line.LIfPlus? || line.LCase? then Some(IfT)
    else if line.LDo? then Some(WhileT)
    else if line.LForLoop? then Some(ForT)
    else if line.LSwitch? then Some(SwitchT)
    else None
  }

  // The table in which a line needs an open slot; `break` does without.
  function Needs(line: Line): Option<Table> {
    if line.LEndIf? then Some(IfT)
    else if line.LWhile? then Some(WhileT)
    else if line.LNext? then Some(ForT)
    else if line.LSwitchEnd? then Some(SwitchT)
    else None
  }

  // What a line can do to a table.
  datatype Change = Same | Opens(k: nat) | Closes(k: nat)

  ghost predicate Did(a: seq<Use>, b: seq<Use>, x: Change) {
    match x
    case Same => b == a
    case Opens(k) => k < |a| && a[k] == Unused && b == a[k := Open]
    case Closes(k) => k < |a| && a[k] == Open && b == a[k := Done]
  }

  ghost function Changed(line: Line, c: Comp, t: Table): Change {
    if Takes(line) == Some(t) then
      var k := if t.IfT? then FreeIf(c.ifs, 0)
               else FreeLoop(if t.WhileT? then c.whiles else if t.ForT? then c.fors else c.switches, 0);
      if k == -1 then Same else Opens(k)
    else if Needs(line) == Some(t) || (line.LBreak? && t.IfT?) then
      var k := if t.IfT? then LastIf(c.ifs, false, |c.ifs|)
               else if t.WhileT? then LastLoop(c.whiles, |c.whiles|)
               else if t.ForT? then LastLoop(c.fors, |c.fors|) else LastLoop(c.switches, |c.switches|);
      if k == -1 then Same else Closes(k)
    else Same
  }

  lemma TextKeeps(m: Mode, line: Line, c: Comp, t: Table)
    requires (line.LRpn? || line.LInfix?) && DoLine(m, line, c).Some?
    ensures Uses(DoLine(m, line, c).value, t) == Uses(c, t)
  {
    hide GenStmt;
    hide ConvertLine;
    hide Parse;
  }

  // Every line that is accepted changes the tables in this way, and a closing line closes.
  lemma LineUses(m: Mode, line: Line, c: Comp, t: Table)
    requires DoLine(m, line, c).Some?
    ensures Did(Uses(c, t), Uses(DoLine(m, line, c).value, t), Changed(line, c, t))
    ensures Takes(line) == Some(t) ==> (Changed(line, c, t).Same? <==> Unused !in Uses(c, t))
    ensures Takes(line) != Some(t) ==> !Changed(line, c, t).Opens?
    ensures Needs(line) == Some(t) ==> Changed(line, c, t).Closes?
  {
    if line.LRpn? || line.LInfix? {
      TextKeeps(m, line, c, t);
    } else if t.IfT? {
      LineIfs(m, line, c);
    } else if OfIfs(line) {
      IfsKeepLoops(m, line, c, t);
    } else {
      LineLoops(m, line, c, t);
    }
  }

  lemma LineIfs(m: Mode, line: Line, c: Comp)
    requires DoLine(m, line, c).Some? && !line.LRpn? && !line.LInfix?
    ensures Did(Uses(c, IfT), Uses(DoLine(m, line, c).value, IfT), Changed(line, c, IfT))
    ensures Takes(line) == Some(IfT) ==> (Changed(line, c, IfT).Same? <==> Unused !in Uses(c, IfT))
    ensures Takes(line) != Some(IfT) ==> !Changed(line, c, IfT).Opens?
    ensures Needs(line) == Some(IfT) ==> Changed(line, c, IfT).Closes?
  {
    hide DoText;
    hide GenIf;
    hide GenElse;
    hide GenEndIf;
    hide GenCase;
    hide GenBareTest;
    hide GenBareCase;
    hide GenDo;
    hide GenWhile;
    hide GenForLoop;
    hide GenFor;
    hide GenNext;
    hide InitIf;
    hide ConvertLine;
    hide LoopUses;
  }

  predicate OfIfs(line: Line) {
    line.LIf? || line.LIfPlus? || line.LCase? || line.LElse? || line.LEndIf? || line.LBreak?
  }

  lemma IfsKeepLoops(m: Mode, line: Line, c: Comp, t: Table)
    requires DoLine(m, line, c).Some? && OfIfs(line) && !t.IfT?
    ensures Uses(DoLine(m, line, c).value, t) == Uses(c, t)
  {
    hide DoText;
    hide GenIf;
    hide GenElse;
    hide GenEndIf;
    hide GenCase;
    hide GenBareTest;
    hide GenBareCase;
    hide GenDo;
    hide GenWhile;
    hide GenForLoop;
    hide GenFor;
    hide GenNext;
    hide InitIf;
    hide ConvertLine;
    hide FreeIf;
    hide LastIf;
    hide IfUses;
  }

  lemma LineLoops(m: Mode, line: Line, c: Comp, t: Table)
    requires DoLine(m, line, c).Some? && !line.LRpn? && !line.LInfix? && !OfIfs(line) && !t.IfT?
    ensures Did(Uses(c, t), Uses(DoLine(m, line, c).value, t), Changed(line, c, t))
    ensures Takes(line) == Some(t) ==> (Changed(line, c, t).Same? <==> Unused !in Uses(c, t))
    ensures Takes(line) != Some(t) ==> !Changed(line, c, t).Opens?
    ensures Needs(line) == Some(t) ==> Changed(line, c, t).Closes?
  {
    hide DoText;
    hide GenIf;
    hide GenElse;
    hide GenEndIf;
    hide GenCase;
    hide GenBareTest;
    hide GenBareCase;
    hide GenDo;
    hide GenWhile;
    hide GenForLoop;
    hide GenFor;
    hide GenNext;
    hide InitIf;
    hide ConvertLine;
    hide FreeIf;
    hide LastIf;
    hide IfUses;
  }

  lemma {:induction false} CountsFollow(a: seq<Use>, b: seq<Use>, x: Change)
    requires Did(a, b, x)
    ensures multiset(b)[Unused] == multiset(a)[Unused] - (if x.Opens? then 1 else 0)
    ensures multiset(b)[Done] == multiset(a)[Done] + (if x.Closes? then 1 else 0)
    ensures |b| == |a|
  {
  }

  lemma {:induction false} CountsMean(a: seq<Use>)
    ensures multiset(a)[Unused] == 0 <==> Unused !in a
    ensures multiset(a)[Done] <= |a|
  {
    assert |multiset(a)| == |a|;
    assert multiset(a)[Done := 0] <= multiset(a);
  }

  // ---- runs of lines ----

  // Every line that takes a slot finds one.
  ghost predicate Finds(m: Mode, lines: seq<Line>, c: Comp) {
    lines == [] ||
    (&& (Takes(lines[0]).Some? ==> Free(c, Takes(lines[0]).value) > 0)
     && match DoLine(m, lines[0], c) case None => true case Some(d) => Finds(m, lines[1..], d))
  }

  function Taking(lines: seq<Line>, t: Table): nat {
    if lines == [] then 0 else (if Takes(lines[0]) == Some(t) then 1 else 0) + Taking(lines[1..], t)
  }

  function Needing(lines: seq<Line>, t: Table): nat {
    if lines == [] then 0 else (if Needs(lines[0]) == Some(t) then 1 else 0) + Needing(lines[1..], t)
  }

  lemma LineCounts(m: Mode, line: Line, c: Comp, t: Table)
    requires DoLine(m, line, c).Some?
    ensures var d := DoLine(m, line, c).value;
            && |Uses(d, t)| == |Uses(c, t)|
            && Free(d, t) == Free(c, t) - (if Takes(line) == Some(t) && Free(c, t) > 0 then 1 else 0)
            && Closed(d, t) >= Closed(c, t) + (if Needs(line) == Some(t) then 1 else 0)
  {
    LineUses(m, line, c, t);
    CountsFollow(Uses(c, t), Uses(DoLine(m, line, c).value, t), Changed(line, c, t));
    CountsMean(Uses(c, t));
    hide Uses;
    hide Changed;
    hide DoLine;
  }

  // In an accepted text no table is ever found full exactly when it has a slot for each line that takes one.
  lemma {:induction false} FindsExact(m: Mode, lines: seq<Line>, c: Comp)
    requires DoLines(m, lines, c).Some?
    ensures Finds(m, lines, c) <==> forall t: Table :: Taking(lines, t) <= Free(c, t)
    decreases |lines|
  {
    if lines != [] {
      var d := DoLine(m, lines[0], c).value;
      FindsExact(m, lines[1..], d);
      forall t: Table
        ensures Free(d, t) == Free(c, t) - (if Takes(lines[0]) == Some(t) && Free(c, t) > 0 then 1 else 0)
        ensures Taking(lines, t) == (if Takes(lines[0]) == Some(t) then 1 else 0) + Taking(lines[1..], t)
      {
        LineCounts(m, lines[0], c, t);
      }
      hide Free;
      hide Taking;
      hide DoLine;
      hide Takes;
    }
  }

  // And no more lines that need an open slot are accepted than there are slots not yet closed.
  lemma {:induction false} NeedsBound(m: Mode, lines: seq<Line>, c: Comp, t: Table)
    requires DoLines(m, lines, c).Some?
    ensures Needing(lines, t) + Closed(c, t) <= |Uses(c, t)|
    decreases |lines|
  {
    if lines != [] {
      LineCounts(m, lines[0], c, t);
      NeedsBound(m, lines[1..], DoLine(m, lines[0], c).value, t);
      hide Uses;
      hide Closed;
      hide DoLine;
    } else {
      CountsMean(Uses(c, t));
    }
  }

  // ---- programs ----

  function Part(n: Slots, t: Table): nat {
    match t case IfT => n.ifs case WhileT => n.whiles case ForT => n.fors case SwitchT => n.switches
  }

  // How many `?` blocks a program has.
  function Cases(p: Stmt): nat {
    match p
    case Skip => 0
    case Assign(_, _, _) => 0
    case Seq(a, b) => Cases(a) + Cases(b)
    case If(_, body) => Cases(body)
    case IfElse(_, a, b) => Cases(a) + Cases(b)
    case Switch(body) => Cases(body)
    case Case(_, _, body) => 1 + Cases(body)
    case DoWhile(body, _) => Cases(body)
    case For(pre, _, body) => Cases(pre) + Cases(body)
  }

  lemma {:induction false} CountAppend(a: seq<Line>, b: seq<Line>, t: Table)
    ensures Taking(a + b, t) == Taking(a, t) + Taking(b, t)
    ensures Needing(a + b, t) == Needing(a, t) + Needing(b, t)
    decreases |a|
  {
    if a == [] {
      assert a + b == b;
    } else {
      assert (a + b)[0] == a[0] && (a + b)[1..] == a[1..] + b;
      CountAppend(a[1..], b, t);
    }
  }

  lemma CountOne(line: Line, t: Table)
    ensures Taking([line], t) == if Takes(line) == Some(t) then 1 else 0
    ensures Needing([line], t) == if Needs(line) == Some(t) then 1 else 0
  {
    assert [line][1..] == [];
  }

  lemma CountBlock(first: Line, inner: seq<Line>, last: Line, t: Table)
    ensures Taking([first] + inner + [last], t) == Taking([first], t) + Taking(inner, t) + Taking([last], t)
    ensures Needing([first] + inner + [last], t) == Needing([first], t) + Needing(inner, t) + Needing([last], t)
  {
    CountAppend([first] + inner, [last], t);
    CountAppend([first], inner, t);
  }

  lemma PartsOf(p: Stmt, t: Table)
    ensures var own := if t == (if p.Switch? then SwitchT else if p.DoWhile? then WhileT else if p.For? then ForT else IfT) then 1 else 0;
            match p
            case Skip => Part(Blocks(p), t) == 0
            case Assign(_, _, _) => Part(Blocks(p), t) == 0
            case Seq(a, b) => Part(Blocks(p), t) == Part(Blocks(a), t) + Part(Blocks(b), t)
            case If(_, body) => Part(Blocks(p), t) == own + Part(Blocks(body), t)
            case IfElse(_, a, b) => Part(Blocks(p), t) == own + Part(Blocks(a), t) + Part(Blocks(b), t)
            case Switch(body) => Part(Blocks(p), t) == own + Part(Blocks(body), t)
            case Case(_, _, body) => Part(Blocks(p), t) == own + Part(Blocks(body), t)
            case DoWhile(body, _) => Part(Blocks(p), t) == own + Part(Blocks(body), t)
            case For(pre, _, body) => Part(Blocks(p), t) == own + Part(Blocks(pre), t) + Part(Blocks(body), t)
  {
    BlocksIs(p);
    hide Blocks;
  }

  // The lines of a program take as many slots as it has blocks.
  lemma {:induction false} LinesTake(p: Stmt, t: Table)
    requires WellFormed(p)
    ensures Taking(Lines(p), t) == Part(Blocks(p), t)
    decreases p
  {
    hide Taking;
    hide Needing;
    hide Blocks;
    hide Part;
    hide WellFormed;
    WellFormedIs(p);
    NoLines(t);
    PartsOf(p, t);
    match p
    case Skip =>
    case Assign(line, _, _) => CountOne(line, t);
    case Seq(a, b) =>
      LinesTake(a, t);
      LinesTake(b, t);
      CountAppend(Lines(a), Lines(b), t);
    case If(v, body) =>
      LinesTake(body, t);
      CountBlock(LIf(v), Lines(body), LEndIf, t);
      CountOne(LIf(v), t);
      CountOne(LEndIf, t);
    case IfElse(v, a, b) =>
      LinesTake(a, t);
      LinesTake(b, t);
      CountTwo(LIfPlus(v), Lines(a), LElse, Lines(b), LEndIf, t);
    case Switch(body) =>
      LinesTake(body, t);
      CountBlock(LSwitch, Lines(body), LSwitchEnd, t);
      CountOne(LSwitch, t);
      CountOne(LSwitchEnd, t);
    case Case(x, y, body) =>
      LinesTake(body, t);
      CountBlock(LCase(x, y), Lines(body), LBreak, t);
      CountOne(LCase(x, y), t);
      CountOne(LBreak, t);
    case DoWhile(body, v) =>
      LinesTake(body, t);
      CountBlock(LDo, Lines(body), LWhile(v), t);
      CountOne(LDo, t);
      CountOne(LWhile(v), t);
    case For(pre, v, body) =>
      LinesTake(pre, t);
      LinesTake(body, t);
      CountTwo(LForLoop, Lines(pre), LFor(v), Lines(body), LNext, t);
  }

  function InCases(p: Stmt, t: Table): nat {
    if t.IfT? then Cases(p) else 0
  }

  lemma InCasesIs(p: Stmt, t: Table)
    ensures match p
            case Skip => InCases(p, t) == 0
            case Assign(_, _, _) => InCases(p, t) == 0
            case Seq(a, b) => InCases(p, t) == InCases(a, t) + InCases(b, t)
            case If(_, body) => InCases(p, t) == InCases(body, t)
            case IfElse(_, a, b) => InCases(p, t) == InCases(a, t) + InCases(b, t)
            case Switch(body) => InCases(p, t) == InCases(body, t)
            case Case(_, _, body) => InCases(p, t) == (if t.IfT? then 1 else 0) + InCases(body, t)
            case DoWhile(body, _) => InCases(p, t) == InCases(body, t)
            case For(pre, _, body) => InCases(p, t) == InCases(pre, t) + InCases(body, t)
  {
  }

  // And they need as many, but for the `?` blocks, which need none at their end.
  lemma {:induction false} LinesNeed(p: Stmt, t: Table)
    requires WellFormed(p)
    ensures Needing(Lines(p), t) + InCases(p, t) == Part(Blocks(p), t)
    decreases p
  {
    hide InCases;
    InCasesIs(p, t);
    hide Taking;
    hide Needing;
    hide Blocks;
    hide Part;
    hide WellFormed;
    WellFormedIs(p);
    NoLines(t);
    PartsOf(p, t);
    match p
    case Skip =>
    case Assign(line, _, _) => CountOne(line, t);
    case Seq(a, b) =>
      LinesNeed(a, t);
      LinesNeed(b, t);
      CountAppend(Lines(a), Lines(b), t);
    case If(v, body) =>
      LinesNeed(body, t);
      CountBlock(LIf(v), Lines(body), LEndIf, t);
      CountOne(LIf(v), t);
      CountOne(LEndIf, t);
    case IfElse(v, a, b) =>
      LinesNeed(a, t);
      LinesNeed(b, t);
      CountTwo(LIfPlus(v), Lines(a), LElse, Lines(b), LEndIf, t);
    case Switch(body) =>
      LinesNeed(body, t);
      CountBlock(LSwitch, Lines(body), LSwitchEnd, t);
      CountOne(LSwitch, t);
      CountOne(LSwitchEnd, t);
    case Case(x, y, body) =>
      LinesNeed(body, t);
      CountBlock(LCase(x, y), Lines(body), LBreak, t);
      CountOne(LCase(x, y), t);
      CountOne(LBreak, t);
    case DoWhile(body, v) =>
      LinesNeed(body, t);
      CountBlock(LDo, Lines(body), LWhile(v), t);
      CountOne(LDo, t);
      CountOne(LWhile(v), t);
    case For(pre, v, body) =>
      LinesNeed(pre, t);
      LinesNeed(body, t);
      CountTwo(LForLoop, Lines(pre), LFor(v), Lines(body), LNext, t);
  }

  lemma WellFormedIs(p: Stmt)
    requires WellFormed(p)
    ensures match p
            case Skip => true
            case Seq(a, b) => WellFormed(a) && WellFormed(b)
            case Assign(line, _, _) => Takes(line) == None && Needs(line) == None
            case If(_, body) => WellFormed(body)
            case IfElse(_, a, b) => WellFormed(a) && WellFormed(b)
            case Switch(body) => WellFormed(body)
            case Case(_, _, body) => WellFormed(body)
            case DoWhile(body, _) => WellFormed(body)
            case For(pre, _, body) => WellFormed(pre) && WellFormed(body)
  {
  }

  lemma NoLines(t: Table)
    ensures Taking([], t) == Needing([], t) == 0
  {
  }

  lemma CountTwo(first: Line, a: seq<Line>, mid: Line, b: seq<Line>, last: Line, t: Table)
    requires (first.LIfPlus? && mid.LElse? && last.LEndIf?) || (first.LForLoop? && mid.LFor? && last.LNext?)
    ensures var n := if t == (if first.LIfPlus? then IfT else ForT) then 1 else 0;
            && Taking([first] + a + [mid] + b + [last], t) == n + Taking(a, t) + Taking(b, t)
            && Needing([first] + a + [mid] + b + [last], t) == n + Needing(a, t) + Needing(b, t)
  {
    hide Taking;
    hide Needing;
    CountAppend([first] + a + [mid] + b, [last], t);
    CountAppend([first] + a + [mid], b, t);
    CountBlock(first, a, mid, t);
    CountOne(first, t);
    CountOne(mid, t);
    CountOne(last, t);
  }

  lemma {:induction false} AllFree(us: seq<Use>)
    requires forall k | 0 <= k < |us| :: us[k] == Unused
    ensures multiset(us)[Unused] == |us|
  {
    if us != [] {
      var last := |us| - 1;
      assert us == us[..last] + [us[last]];
      AllFree(us[..last]);
    }
  }

  lemma StartFree(t: Table)
    ensures |Uses(Start(), t)| == MAXSLOTS && Free(Start(), t) == MAXSLOTS
  {
    AllFree(Uses(Start(), t));
  }

  // In an accepted program every block finds a slot exactly when the tables have one for each.
  lemma SlotsExact(m: Mode, p: Stmt)
    requires WellFormed(p) && DoLines(m, Lines(p), Start()).Some?
    ensures Finds(m, Lines(p), Start()) <==> SlotsFit(p)
  {
    FindsExact(m, Lines(p), Start());
    forall t: Table
      ensures Taking(Lines(p), t) <= Free(Start(), t) <==> Part(Blocks(p), t) <= MAXSLOTS
    {
      LinesTake(p, t);
      StartFree(t);
    }
    FitParts(Blocks(p));
    hide *;
    FitIs(p);
  }

  lemma FitParts(n: Slots)
    ensures n.Fit() <==> forall t: Table :: Part(n, t) <= MAXSLOTS
  {
    assert Part(n, IfT) == n.ifs && Part(n, WhileT) == n.whiles && Part(n, ForT) == n.fors && Part(n, SwitchT) == n.switches;
  }

  lemma FitIs(p: Stmt)
    ensures SlotsFit(p) == Blocks(p).Fit()
  {
  }

  // Only the table of if, if+ and ? overflows, and that by `?` blocks.
  predicate ManyCases(p: Stmt) {
    var n := Blocks(p);
    && n.whiles <= MAXSLOTS && n.fors <= MAXSLOTS && n.switches <= MAXSLOTS
    && n.ifs - Cases(p) <= MAXSLOTS < n.ifs
  }

  // Other programs with too many blocks are refused, at a line that finds no open slot.
  lemma TooManyBlocks(m: Mode, p: Stmt)
    requires WellFormed(p) && DoLines(m, Lines(p), Start()).Some?
    ensures SlotsFit(p) || ManyCases(p)
  {
    hide *;
    forall t: Table
      ensures Part(Blocks(p), t) - InCases(p, t) <= MAXSLOTS
    {
      LinesNeed(p, t);
      NeedsBound(m, Lines(p), Start(), t);
      StartFree(t);
    }
    Overflows(p);
  }

  lemma Overflows(p: Stmt)
    requires forall t: Table :: Part(Blocks(p), t) - InCases(p, t) <= MAXSLOTS
    ensures SlotsFit(p) || ManyCases(p)
  {
    var n := Blocks(p);
    hide Blocks;
    hide Cases;
    assert Part(n, IfT) == n.ifs && Part(n, WhileT) == n.whiles && Part(n, ForT) == n.fors && Part(n, SwitchT) == n.switches;
  }
}
