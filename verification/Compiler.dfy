// The compiler as the program runs it: one object whose tables, stacks and code list every source
// line updates in place.  Each method does exactly what the line functions describe.
module Compiler {
  import opened Infix
  import opened Shunt
  import opened Convert
  import opened Symbols
  import opened Statement
  import opened Registers
  import opened Machine
  import opened Codegen
  import opened Lowering

  class Compiler {
    const table: RegisterTable
    const ifs: array<IfSlot>
    const whiles: array<LoopSlot>
    const fors: array<LoopSlot>
    const switches: array<LoopSlot>
    const declared: set<string>
    var nested: bool
    var noPull: bool
    var stackOb: seq<string>
    var stackReg: seq<int>
    var code: seq<Instr>
    var opReg: int
    var loadReg: int

    ghost predicate Valid()
      reads this
    {
      && "" !in declared && table.regi.Length == MAXREG && ifs.Length == MAXSLOTS
      && whiles.Length == MAXSLOTS && fors.Length == MAXSLOTS && switches.Length == MAXSLOTS
      && whiles != fors && whiles != switches && fors != switches
    }

    ghost function M(): Mode
      reads this
    {
      Mode(declared, nested, noPull)
    }

    ghost function G(): Gen
      reads this, table.regi
    {
      Gen(table.regi[..], stackReg, code, opReg, loadReg)
    }

    ghost function State(): Comp
      reads this, table.regi, ifs, whiles, fors, switches
    {
      Comp(G(), stackOb, ifs[..], whiles[..], fors[..], switches[..])
    }

    constructor (declared: set<string>)
      requires "" !in declared
      ensures Valid() && nested && !noPull && this.declared == declared
      ensures State() == Comp(Gen(Empty(), [], [], -1, -1), [],
                              seq(MAXSLOTS, _ => IfSlot(Unused, false, false)), seq(MAXSLOTS, _ => LoopSlot(Unused, false)),
                              seq(MAXSLOTS, _ => LoopSlot(Unused, false)), seq(MAXSLOTS, _ => LoopSlot(Unused, false)))
      ensures fresh(table.regi) && fresh(ifs) && fresh(whiles) && fresh(fors) && fresh(switches)
    {
      table := new RegisterTable();
      ifs := new IfSlot[MAXSLOTS](_ => IfSlot(Unused, false, false));
      whiles := new LoopSlot[MAXSLOTS](_ => LoopSlot(Unused, false));
      fors := new LoopSlot[MAXSLOTS](_ => LoopSlot(Unused, false));
      switches := new LoopSlot[MAXSLOTS](_ => LoopSlot(Unused, false));
      this.declared := declared;
      nested, noPull := true, false;
      stackOb, stackReg, code, opReg, loadReg := [], [], [], -1, -1;
    }

    // ---- expressions ----

    method LoadVariableInt(v: string) returns (ok: bool)
      requires Valid()
      modifies this`code, this`loadReg, table.regi
      ensures Valid()
      ensures ok <==> LoadVariable(v, declared, old(G())).Some?
      ensures ok ==> G() == LoadVariable(v, declared, old(G())).value
    {
      if v !in declared { return false; }
      loadReg := table.GetRegi(v);
      if loadReg == -1 {
        var f := table.GetFreeRegi();
        if f == -1 { return false; }
        table.SetRegi(f, v);
        code := code + [LoadA(v, f)];
        loadReg := f;
      }
      return true;
    }

    method Operator(c: char) returns (ok: bool)
      requires Valid()
      modifies this`code, this`opReg, this`stackReg, table.regi
      ensures Valid()
      ensures ok <==> GenTok(Op(c), "", declared, old(G())).Some?
      ensures ok ==> G() == GenTok(Op(c), "", declared, old(G())).value
    {
      var n := |stackReg|;
      if n < 2 || !IsBinary(c) { return false; }
      var reg2, reg1 := stackReg[n - 1], stackReg[n - 2];
      var d := table.GetFreeRegi();
      if reg1 < 0 || reg2 < 0 || d == -1 { return false; }
      table.SetRegi(d, "cont_temp");
      code := code + [Alu(c, reg1, reg2, d)];
      stackReg := stackReg[..n - 2] + [d];
      opReg := d;
      return true;
    }

    method ParseTokens(s: string, begin: nat, target: string) returns (ok: bool)
      requires Valid() && begin <= |s|
      modifies this`code, this`opReg, this`loadReg, this`stackReg, this`stackOb, table.regi
      ensures Valid()
      ensures ok <==> Rest(s, begin, target, declared, old(G()), old(stackOb)).Some?
      ensures ok ==> Some((G(), stackOb)) == Rest(s, begin, target, declared, old(G()), old(stackOb))
    {
      var i := begin;
      while i < |s| && s[i] != '}'
        invariant begin <= i <= |s| && Valid()
        invariant Rest(s, i, target, declared, G(), stackOb) == Rest(s, begin, target, declared, old(G()), old(stackOb))
        decreases |s| - i
      {
        if s[i] == ' ' {
          i := i + 1;
        } else if IsOperator(s[i]) {
          RestOperator(s, i, target, declared, G(), stackOb);
          ok := Operator(s[i]);
          if !ok { return; }
          i := i + 1;
        } else {
          var pos := i;
          while pos < |s| && s[pos] != ' ' && s[pos] != '}'
            invariant i <= pos <= |s| && NameEnd(s, pos) == NameEnd(s, i)
          {
            pos := pos + 1;
          }
          if pos == |s| { return false; }
          RestName(s, i, target, declared, G(), stackOb);
          var name := Resolve(s[i..pos], target);
          ok := LoadVariableInt(name);
          if !ok { return; }
          stackOb := stackOb + [name];
          stackReg := stackReg + [loadReg];
          i := pos;
        }
      }
      ok := true;
      assert stackOb + [] == stackOb;
    }
  
    // get_target_var.
    method GetTargetVar(line: string) returns (ok: bool, name: string, begin: nat)
      ensures ok <==> Pos(line, '=', 0) + 1 < |line|
      ensures ok ==> begin == Pos(line, '=', 0) + 1 && name == Name(line[..begin - 1])
    {
      begin, name := 0, "";
      while begin < |line| && line[begin] != '='
        invariant begin <= |line| && Pos(line, '=', begin) == Pos(line, '=', 0) && name == Name(line[..begin])
      {
        NameSnoc(line[..begin], line[begin]);
        assert line[..begin + 1] == line[..begin] + [line[begin]];
        if line[begin] != ' ' && line[begin] != '{' { name := name + [line[begin]]; }
        begin := begin + 1;
      }
      ok := begin + 1 < |line|;
      begin := begin + 1;
    }

    // The store at the end of parse_rpolish.
    method StoreResult(target: string) returns (ok: bool)
      requires Valid()
      modifies this`code, table.regi
      ensures Valid()
      ensures ok <==> Store(target, declared, old(G())).Some?
      ensures ok ==> G() == Store(target, declared, old(G())).value
    {
      var d := if opReg != -1 then opReg else loadReg;
      var a := table.GetFreeRegi();
      if target !in declared || d < 0 || d >= MAXREG || a == -1 { return false; }
      code := code + [Load(target, a)];
      table.SetRegi(a, "temp");
      code := code + [PullQW(d, a, 0)];
      assert code == old(code) + [Load(target, a), PullQW(d, a, 0)];
      table.ForgetRegi(target);
      table.SetRegi(d, "");
      table.SetRegi(a, "");
      return true;
    }

    // The no_var_pull ending of parse_rpolish.
    method KeepResult(target: string) returns (ok: bool)
      requires Valid()
      modifies table.regi
      ensures Valid()
      ensures ok <==> Keep(target, declared, old(G())).Some?
      ensures ok ==> G() == Keep(target, declared, old(G())).value
    {
      var d := if opReg != -1 then opReg else loadReg;
      if target !in declared || d < 0 || d >= MAXREG { return false; }
      table.ForgetRegi(target);
      table.SetRegi(d, target);
      return true;
    }

    method ParseRpolish(postfix: string) returns (ok: bool)
      requires Valid()
      modifies this`code, this`opReg, this`loadReg, this`stackReg, this`stackOb, table.regi
      ensures Valid()
      ensures ok <==> DoText(M(), postfix, old(State())).Some?
      ensures ok ==> State() == DoText(M(), postfix, old(State())).value
    {
      hide Lex;
      hide GenToks;
      hide RecodeAll;
      hide Rest;
      hide DoText;
      hide Store;
      hide Keep;
      var found, target, begin := GetTargetVar(postfix);
      if !found || (target != "" && target[0] == 'B') {
        DoTextRefuses(M(), postfix, State());
        return false;
      }
      var line := new char[|postfix|](i requires 0 <= i < |postfix| => postfix[i]);
      assert line[..] == postfix;
      ReplaceSymbols(line);
      RecodeAllProps(postfix);
      var s := line[..];
      DoTextRest(M(), postfix, State());
      opReg, loadReg := -1, -1;
      ok := ParseTokens(s, begin, target);
      if ok {
        if noPull { ok := KeepResult(target); } else { ok := StoreResult(target); }
      }
    }
  
    // ---- convert ----

    method PopStack() returns (item: string)
      requires stackOb != []
      modifies this`stackOb
      ensures item == old(stackOb)[|old(stackOb)| - 1] && stackOb == Drop(old(stackOb))
    {
      item := stackOb[|stackOb| - 1];
      stackOb := stackOb[..|stackOb| - 1];
    }

    method ScanSymbol(symbol: char, out: string) returns (ok: bool, postfix: string)
      modifies this`stackOb
      ensures ok <==> ScanChar(symbol, Scan(old(stackOb), out)).Some?
      ensures ok ==> ScanChar(symbol, Scan(old(stackOb), out)) == Some(Scan(stackOb, postfix))
    {
      postfix := out;
      if !IsOperator(symbol) {
        postfix := postfix + [symbol];
      } else if symbol == '(' {
        stackOb := stackOb + [[symbol]];
      } else if symbol == ')' {
        while stackOb != [] && Top(stackOb) != '('
          invariant PopToParen(Scan(stackOb, postfix)) == PopToParen(Scan(old(stackOb), out))
          decreases |stackOb|
        {
          var buf := PopStack();
          postfix := postfix + " " + buf + " ";
        }
        if stackOb == [] { return false, postfix; }
        var paren := PopStack();
      } else {
        while stackOb != [] && Precedence(symbol) <= Precedence(Top(stackOb))
          invariant PopTighter(Precedence(symbol), Scan(stackOb, postfix)) == PopTighter(Precedence(symbol), Scan(old(stackOb), out))
          decreases |stackOb|
        {
          var buf := PopStack();
          postfix := postfix + buf;
        }
        if stackOb == [] { return false, postfix; }
        stackOb := stackOb + [[symbol]];
      }
      ok := true;
    }

    // The scanning loop and the final unwinding, on the expression s[from..end].
    method ScanExpr(s: string, from: nat, end: nat) returns (ok: bool, postfix: string)
      requires from <= end <= |s|
      modifies this`stackOb
      ensures ok <==> ConvertExpr(old(stackOb), s[from..end]).Some?
      ensures ok ==> ConvertExpr(old(stackOb), s[from..end]) == Some(Scan(stackOb, postfix))
    {
      stackOb := stackOb + ["#"];
      postfix := "";
      var i := from;
      while i < end
        invariant from <= i <= end
        invariant ScanChars(s[i..end], Scan(stackOb, postfix)) == ScanChars(s[from..end], Scan(old(stackOb) + ["#"], ""))
      {
        assert s[i..end][0] == s[i] && s[i..end][1..] == s[i + 1..end];
        ok, postfix := ScanSymbol(s[i], postfix);
        if !ok { return; }
        i := i + 1;
      }
      assert s[i..end] == "";
      ghost var v := Scan(stackOb, postfix);
      while stackOb != [] && Top(stackOb) != '#'
        invariant PopToMarker(Scan(stackOb, postfix)) == PopToMarker(v)
        decreases |stackOb|
      {
        var buf := PopStack();
        postfix := postfix + " " + buf;
      }
      ok := stackOb != [];
    }

    method Convert(infix: array<char>) returns (ok: bool, postfix: string)
      modifies this`stackOb, infix
      ensures ok <==> ConvertLine(old(stackOb), old(infix[..])).Some?
      ensures ok ==> ConvertLine(old(stackOb), old(infix[..])) == Some(Scan(stackOb, postfix))
    {
      ReplaceSymbols(infix);
      var s := infix[..];
      var i, startexp := 0, 0;
      while i < |s| && s[i] != '}'
        invariant i <= |s| && Pos(s, '}', i) == Pos(s, '}', 0) && startexp == PastEquals(s, i)
      {
        if s[i] == '=' { startexp := i + 1; }
        i := i + 1;
      }
      if startexp == 0 { return false, ""; }
      var from := if startexp < i && s[startexp] == ' ' then startexp + 1 else startexp;
      ok, postfix := ScanExpr(s, from, i);
      postfix := s[..startexp] + postfix;
    }

    // ---- the line handlers ----

    method GetIfPos(plus: bool) returns (k: int)
      requires Valid()
      modifies ifs
      ensures k == FreeIf(old(ifs[..]), 0)
      ensures ifs[..] == if k == -1 then old(ifs[..]) else old(ifs[..])[k := IfSlot(Open, plus, old(ifs[k]).elseSet)]
    {
      k := 0;
      while k < ifs.Length
        invariant 0 <= k <= ifs.Length && FreeIf(ifs[..], k) == FreeIf(ifs[..], 0) && ifs[..] == old(ifs[..])
        decreases ifs.Length - k
      {
        if ifs[k].use.Unused? {
          ifs[k] := IfSlot(Open, plus, ifs[k].elseSet);
          return;
        }
        k := k + 1;
      }
      k := -1;
    }

    // get_act_if and get_act_ifplus.
    method GetActIf(plus: bool) returns (k: int)
      requires Valid()
      ensures k == LastIf(ifs[..], plus, ifs.Length)
    {
      k := ifs.Length - 1;
      while k >= 0
        invariant -1 <= k < ifs.Length && LastIf(ifs[..], plus, k + 1) == LastIf(ifs[..], plus, ifs.Length)
        decreases k
      {
        if ifs[k].use.Open? && (!plus || ifs[k].plus) { return; }
        k := k - 1;
      }
    }

    // The searches of the while, for and switch tables.
    method GetLoopPos(t: array<LoopSlot>) returns (k: int)
      modifies t
      ensures k == FreeLoop(old(t[..]), 0)
      ensures t[..] == if k == -1 then old(t[..]) else old(t[..])[k := LoopSlot(Open, false)]
    {
      k := 0;
      while k < t.Length
        invariant 0 <= k <= t.Length && FreeLoop(t[..], k) == FreeLoop(t[..], 0) && t[..] == old(t[..])
        decreases t.Length - k
      {
        if t[k].use.Unused? {
          t[k] := LoopSlot(Open, false);
          return;
        }
        k := k + 1;
      }
      k := -1;
    }

    method GetActLoop(t: array<LoopSlot>) returns (k: int)
      ensures k == LastLoop(t[..], t.Length)
    {
      k := t.Length - 1;
      while k >= 0
        invariant -1 <= k < t.Length && LastLoop(t[..], k + 1) == LastLoop(t[..], t.Length)
        decreases k
      {
        if t[k].use.Open? { return; }
        k := k - 1;
      }
    }

    method InitIfNested()
      requires Valid()
      modifies table.regi
      ensures Valid() && G() == InitIf(M(), old(G()))
    {
      if nested { table.InitRegisters(); }
    }

    // The jumps that go with a test of the register just loaded.
    method Jumps(yes: Label, no: Label)
      requires Valid() && loadReg >= 0
      modifies this`code
      ensures Valid() && G() == Emit(old(G()), [JmpI(loadReg, yes), Jmp(no), Here(yes)])
    {
      ghost var before := code;
      code := code + [JmpI(loadReg, yes)];
      code := code + [Jmp(no)];
      code := code + [Here(yes)];
      assert code == before + [JmpI(loadReg, yes), Jmp(no), Here(yes)];
    }

    method Test(v: string) returns (ok: bool)
      requires Valid()
      modifies this`code, this`loadReg, table.regi
      ensures Valid()
      ensures ok <==> GenBareTest(M(), v, old(G())).Some?
      ensures ok ==> G() == GenBareTest(M(), v, old(G())).value && loadReg >= 0
    {
      InitIfNested();
      ok := Operand(v);
    }

    method If(v: string, plus: bool) returns (ok: bool)
      requires Valid()
      modifies this`code, this`loadReg, table.regi, ifs
      ensures Valid()
      ensures var line := if plus then LIfPlus(v) else LIf(v);
              && (ok <==> DoLine(M(), line, old(State())).Some?)
              && (ok ==> State() == DoLine(M(), line, old(State())).value)
    {
      ok := Test(v);
      if !ok { return; }
      hide GenCond;
      var k := GetIfPos(plus);
      if k == -1 { return; }
      Jumps(Label(IfL, k), if plus then Label(ElseL, k) else Label(EndIfL, k));
    }

    // Load a variable that a line tests or compares.
    method Operand(v: string) returns (ok: bool)
      requires Valid()
      modifies this`code, this`loadReg, table.regi
      ensures Valid()
      ensures ok <==> GenCond(M(), v, old(G())).Some?
      ensures ok ==> G() == GenCond(M(), v, old(G())).value
    {
      ok := LoadVariableInt(v);
      ok := ok && loadReg >= 0;
    }

    method Compare(x: string, y: string) returns (ok: bool, target: int)
      requires Valid()
      modifies this`code, this`loadReg, table.regi
      ensures Valid()
      ensures ok <==> GenBareCase(M(), x, y, old(G())).Some?
      ensures ok ==> G() == GenBareCase(M(), x, y, old(G())).value
      ensures ok ==> target >= 0 && forall k | k >= 0 ::
                GenCase(M(), x, y, k, old(G())) == Some(Emit(G(), [JmpI(target, Label(IfL, k)), Jmp(Label(EndIfL, k)), Here(Label(IfL, k))]))
    {
      target := -1;
      InitIfNested();
      ok := Operand(y);
      if !ok { return; }
      var reg := loadReg;
      ok := Operand(x);
      if !ok { return; }
      target := table.GetFreeRegi();
      if target == -1 { return false, -1; }
      table.SetRegi(target, "temp");
      ghost var before := code;
      code := code + [Alu('E', reg, loadReg, target)];
      forall k: nat
        ensures code + [JmpI(target, Label(IfL, k)), Jmp(Label(EndIfL, k)), Here(Label(IfL, k))]
             == before + [Alu('E', reg, loadReg, target), JmpI(target, Label(IfL, k)), Jmp(Label(EndIfL, k)), Here(Label(IfL, k))]
      {
      }
    }

    method Case(x: string, y: string) returns (ok: bool)
      requires Valid()
      modifies this`code, this`loadReg, table.regi, ifs
      ensures Valid()
      ensures ok <==> DoLine(M(), LCase(x, y), old(State())).Some?
      ensures ok ==> State() == DoLine(M(), LCase(x, y), old(State())).value
    {
      var target;
      ok, target := Compare(x, y);
      CaseNeeds(M(), x, y, old(G()));
      if !ok { return; }
      hide GenBareCase;
      hide GenCase;
      var k := GetIfPos(false);
      if k == -1 { return; }
      ghost var before := code;
      code := code + [JmpI(target, Label(IfL, k))];
      code := code + [Jmp(Label(EndIfL, k))];
      code := code + [Here(Label(IfL, k))];
      assert code == before + [JmpI(target, Label(IfL, k)), Jmp(Label(EndIfL, k)), Here(Label(IfL, k))];
    }

    method Else() returns (ok: bool)
      requires Valid()
      modifies this`code, table.regi, ifs
      ensures Valid()
      ensures ok <==> DoLine(M(), LElse, old(State())).Some?
      ensures ok ==> State() == DoLine(M(), LElse, old(State())).value
    {
      InitIfNested();
      var k := GetActIf(true);
      if k == -1 { return false; }
      ifs[k] := ifs[k].(elseSet := true);
      code := code + [Jmp(Label(EndIfL, k))];
      code := code + [Here(Label(ElseL, k))];
      assert code == old(code) + [Jmp(Label(EndIfL, k)), Here(Label(ElseL, k))];
      ok := true;
    }

    // endif, and break, which closes the block without asking for an else.
    method EndIf(isBreak: bool) returns (ok: bool)
      requires Valid()
      modifies this`code, table.regi, ifs
      ensures Valid()
      ensures var line := if isBreak then LBreak else LEndIf;
              && (ok <==> DoLine(M(), line, old(State())).Some?)
              && (ok ==> State() == DoLine(M(), line, old(State())).value)
    {
      var k := GetActIf(false);
      if !isBreak && (k == -1 || (ifs[k].plus && !ifs[k].elseSet)) { return false; }
      code := code + [Here(Label(EndIfL, k))];
      if k != -1 { ifs[k] := ifs[k].(use := Done); }
      InitIfNested();
      ok := true;
    }

    method Switch() returns (ok: bool)
      requires Valid()
      modifies table.regi, switches
      ensures Valid()
      ensures ok <==> DoLine(M(), LSwitch, old(State())).Some?
      ensures ok ==> State() == DoLine(M(), LSwitch, old(State())).value
    {
      ok := true;
      var k := GetLoopPos(switches);
      if k == -1 { return; }
      InitIfNested();
    }

    method SwitchEnd() returns (ok: bool)
      requires Valid()
      modifies table.regi, switches
      ensures Valid()
      ensures ok <==> DoLine(M(), LSwitchEnd, old(State())).Some?
      ensures ok ==> State() == DoLine(M(), LSwitchEnd, old(State())).value
    {
      InitIfNested();
      var k := GetActLoop(switches);
      if k == -1 { return false; }
      switches[k] := switches[k].(use := Done);
      ok := true;
    }

    method Do() returns (ok: bool)
      requires Valid()
      modifies this`code, table.regi, whiles
      ensures Valid()
      ensures ok <==> DoLine(M(), LDo, old(State())).Some?
      ensures ok ==> State() == DoLine(M(), LDo, old(State())).value
    {
      ok := true;
      InitIfNested();
      var k := GetLoopPos(whiles);
      if k == -1 { return; }
      code := code + [Here(Label(WhileL, k))];
    }

    method While(v: string) returns (ok: bool)
      requires Valid()
      modifies this`code, this`loadReg, table.regi, whiles
      ensures Valid()
      ensures ok <==> DoLine(M(), LWhile(v), old(State())).Some?
      ensures ok ==> State() == DoLine(M(), LWhile(v), old(State())).value
    {
      ok := Operand(v);
      if !ok { return; }
      var k := GetActLoop(whiles);
      if k == -1 { return false; }
      code := code + [JmpI(loadReg, Label(WhileL, k))];
      whiles[k] := whiles[k].(use := Done);
    }

    method ForLoop() returns (ok: bool)
      requires Valid()
      modifies this`code, table.regi, fors
      ensures Valid()
      ensures ok <==> DoLine(M(), LForLoop, old(State())).Some?
      ensures ok ==> State() == DoLine(M(), LForLoop, old(State())).value
    {
      ok := true;
      InitIfNested();
      var k := GetLoopPos(fors);
      if k == -1 { return; }
      code := code + [Here(Label(ForL, k))];
    }

    method For(v: string) returns (ok: bool)
      requires Valid()
      modifies this`code, this`loadReg, table.regi, fors
      ensures Valid()
      ensures ok <==> DoLine(M(), LFor(v), old(State())).Some?
      ensures ok ==> State() == DoLine(M(), LFor(v), old(State())).value
    {
      ok := Test(v);
      if !ok { return; }
      hide GenCond;
      var k := GetActLoop(fors);
      if k == -1 { return; }
      Jumps(Label(For2L, k), Label(ForEndL, k));
      fors[k] := fors[k].(entered := true);
    }

    method Next() returns (ok: bool)
      requires Valid()
      modifies this`code, table.regi, fors
      ensures Valid()
      ensures ok <==> DoLine(M(), LNext, old(State())).Some?
      ensures ok ==> State() == DoLine(M(), LNext, old(State())).value
    {
      var k := GetActLoop(fors);
      if k == -1 || !fors[k].entered { return false; }
      code := code + [Jmp(Label(ForL, k))];
      code := code + [Here(Label(ForEndL, k))];
      assert code == old(code) + [Jmp(Label(ForL, k)), Here(Label(ForEndL, k))];
      fors[k] := fors[k].(use := Done);
      InitIfNested();
      ok := true;
    }

    // parse_line, for the lines modelled here.
    method ParseLine(line: Line) returns (ok: bool)
      requires Valid()
      modifies this`code, this`opReg, this`loadReg, this`stackReg, this`stackOb, table.regi, ifs, whiles, fors, switches
      ensures Valid()
      ensures ok <==> DoLine(M(), line, old(State())).Some?
      ensures ok ==> State() == DoLine(M(), line, old(State())).value
    {
      match line
      case LRpn(text) => ok := ParseRpolish(text);
      case LInfix(text) =>
        var infix := new char[|text|](i requires 0 <= i < |text| => text[i]);
        assert infix[..] == text;
        var postfix: string;
        ok, postfix := Convert(infix);
        if ok { ok := ParseRpolish(postfix); }
      case LIf(v) => ok := If(v, false);
      case LIfPlus(v) => ok := If(v, true);
      case LElse => ok := Else();
      case LEndIf => ok := EndIf(false);
      case LSwitch => ok := Switch();
      case LCase(x, y) => ok := Case(x, y);
      case LBreak => ok := EndIf(true);
      case LSwitchEnd => ok := SwitchEnd();
      case LDo => ok := Do();
      case LWhile(v) => ok := While(v);
      case LForLoop => ok := ForLoop();
      case LFor(v) => ok := For(v);
      case LNext => ok := Next();
    }

    // The loop over the lines of a source file.
    method ParseLines(lines: seq<Line>) returns (ok: bool)
      requires Valid()
      modifies this`code, this`opReg, this`loadReg, this`stackReg, this`stackOb, table.regi, ifs, whiles, fors, switches
      ensures Valid()
      ensures ok <==> DoLines(M(), lines, old(State())).Some?
      ensures ok ==> State() == DoLines(M(), lines, old(State())).value
    {
      for i := 0 to |lines|
        invariant Valid() && DoLines(M(), lines[i..], State()) == DoLines(M(), lines, old(State()))
      {
        assert lines[i..][0] == lines[i] && lines[i..][1..] == lines[i + 1..];
        ok := ParseLine(lines[i]);
        if !ok { return; }
      }
      assert lines[|lines|..] == [];
      ok := true;
    }
  }

  lemma CaseNeeds(m: Mode, x: string, y: string, g: Gen)
    ensures forall k | k >= 0 :: GenCase(m, x, y, k, g).Some? <==> GenBareCase(m, x, y, g).Some?
  {
    hide LoadVariable;
  }

  lemma DoTextRefuses(m: Mode, postfix: string, c: Comp)
    requires var eq := Pos(postfix, '=', 0);
             eq + 1 >= |postfix| || (Name(postfix[..eq]) != "" && Name(postfix[..eq])[0] == 'B')
    ensures DoText(m, postfix, c) == None
  {
  }

  // A statement is its tokens followed by the ending that the mode asks for.
  lemma DoTextRest(m: Mode, postfix: string, c: Comp)
    requires var eq := Pos(postfix, '=', 0);
             eq + 1 < |postfix| && (Name(postfix[..eq]) == "" || Name(postfix[..eq])[0] != 'B')
    ensures |RecodeAll(postfix)| == |postfix|
    ensures var eq := Pos(postfix, '=', 0);
            var target := Name(postfix[..eq]);
            var rest := Rest(RecodeAll(postfix), eq + 1, target, m.declared, c.g.(opReg := -1, loadReg := -1), c.stk);
            DoText(m, postfix, c) ==
              if rest.None? then None
              else
                var k := if m.noPull then Keep(target, m.declared, rest.value.0) else Store(target, m.declared, rest.value.0);
                if k.None? then None else Some(c.(g := k.value, stk := rest.value.1))
  {
    RecodeAllProps(postfix);
  }

  lemma {:induction false} NameSnoc(s: string, c: char)
    ensures Name(s + [c]) == Name(s) + (if c == ' ' || c == '{' then "" else [c])
  {
    if s == "" {
      assert (s + [c])[1..] == "";
    } else {
      assert (s + [c])[1..] == s[1..] + [c];
      NameSnoc(s[1..], c);
    }
  }

  // What is left to do of a statement from position i of its text.
  ghost function Rest(s: string, i: nat, target: string, declared: set<string>, g: Gen, stk: seq<string>): Option<(Gen, seq<string>)>
    requires i <= |s|
  {
    var ts :- Lex(s, i);
    var h :- GenToks(ts, target, declared, g);
    Some((h, stk + Names(ts, target)))
  }

  lemma RestOperator(s: string, i: nat, target: string, declared: set<string>, g: Gen, stk: seq<string>)
    requires i < |s| && IsOperator(s[i]) && s[i] != '}'
    ensures Rest(s, i, target, declared, g, stk)
         == match GenTok(Op(s[i]), "", declared, g)
            case None => None
            case Some(h) => Rest(s, i + 1, target, declared, h, stk)
  {
    if Lex(s, i + 1).Some? {
      var ts := Lex(s, i + 1).value;
      assert ([Op(s[i])] + ts)[1..] == ts;
      assert [] + Names(ts, target) == Names(ts, target);
    }
  }

  lemma RestName(s: string, i: nat, target: string, declared: set<string>, g: Gen, stk: seq<string>)
    requires i < |s| && !IsOperator(s[i]) && s[i] != ' ' && NameEnd(s, i) < |s|
    ensures var e := NameEnd(s, i);
            var name := Resolve(s[i..e], target);
            var h := LoadVariable(name, declared, g);
            Rest(s, i, target, declared, g, stk) ==
              if h.None? then None
              else Rest(s, e, target, declared, h.value.(rstack := h.value.rstack + [h.value.loadReg]), stk + [name])
  {
    var e := NameEnd(s, i);
    var name := Resolve(s[i..e], target);
    if Lex(s, e).Some? {
      var ts := Lex(s, e).value;
      assert ([Atom(s[i..e])] + ts)[1..] == ts;
      if s[e] == '}' { assert [Atom(s[i..e])] + ts == [Atom(s[i..e])]; }
      assert Lex(s, i) == Some([Atom(s[i..e])] + ts);
      assert stk + ([name] + Names(ts, target)) == stk + [name] + Names(ts, target);
    }
  }
}
