// Resolving labels to byte addresses: the loaded code behaves as the labelled program.
module Resolution {
  import opened Infix
  import opened Int64
  import opened Language
  import opened Bytes
  import opened Registers
  import opened Machine
  import opened Shunt
  import opened Assembly
  import opened Execution
  import O = Opcodes
  import A = Assembler
  import CS = CodeSection
  import F = ObjectFile

  // Everything the agreement needs of a program: encodable, without dangling labels, small enough.
  ghost predicate Linked(prog: seq<Instr>, syms: A.SymbolTable) {
    && (forall i | i in prog :: Encodable(i, syms.Keys))
    && (forall i | i in prog && (i.Jmp? || i.JmpI?) :: Here(i.target) in prog)
    && (forall v | v in syms :: Fits(syms[v], 8))
    && A.HEADER + A.CodeSize(ToLines(prog)) < 0x8000_0000_0000_0000
  }

  // The variables at these addresses, and the operators as the language means them.
  function EnvOf(syms: A.SymbolTable): Env {
    Env(syms, Meant)
  }

  // The opcode of an operator computes what the operator means.
  lemma OpcodeMeans(c: char, x: int, y: int)
    requires IsBinary(c)
    ensures Alu64(OpCode(c), x, y) == Meant(c, x, y)
  {
    hide TDiv;
    hide TMod;
    hide Power;
    hide BitAnd;
    hide BitOr;
    hide BitXor;
    hide Wrap;
  }

  // The code section after loading.
  ghost function Image(prog: seq<Instr>, syms: A.SymbolTable): seq<byte>
    requires A.AllOk(ToLines(prog), syms)
  {
    F.Memory(ToLines(prog), syms, A.Addresses(ToLines(prog)))
  }

  // Where instruction k is in memory.
  ghost function Address(prog: seq<Instr>, k: nat): nat
    requires k <= |prog|
  {
    CS.Start(ToLines(prog), k)
  }

  lemma LinkedLines(prog: seq<Instr>, syms: A.SymbolTable)
    requires forall i | i in prog :: Encodable(i, syms.Keys)
    ensures A.AllOk(ToLines(prog), syms)
  {
    forall k | 0 <= k < |prog|
      ensures A.LineOk(ToLines(prog)[k], syms)
    {
      assert prog[k] in prog;
      LineEncodable(prog[k], syms);
    }
  }

  lemma LineEncodable(i: Instr, syms: A.SymbolTable)
    requires Encodable(i, syms.Keys)
    ensures A.LineOk(ToLine(i), syms)
  {
    match i
    case Alu(op, _, _, _) => AluCode(op);
    case _ =>
  }

  lemma AluCode(op: char)
    requires IsBinary(op)
    ensures IsAlu(OpCode(op)) && O.ArgTypes(OpCode(op)) == [O.Reg, O.Reg, O.Reg]
  {
  }

  // The position that the assembler's table ends up with is the address of the label's definition.
  lemma {:induction false} LabelAddress(prog: seq<Instr>, l: Label)
    ensures var t := Target(prog, l);
            A.DefPos(ToLines(prog), LabelText(l)) == if t == -1 then -1 else Address(prog, t)
  {
    if prog != [] {
      var last := |prog| - 1;
      var ls := ToLines(prog);
      LabelAddress(prog[..last], l);
      assert ls[..last] == ToLines(prog[..last]);
      if prog[last].Here? && LabelText(prog[last].l) == LabelText(l) { LabelsDiffer(prog[last].l, l); }
      var t := Target(prog[..last], l);
      if prog[last] != Here(l) && t != -1 { assert ls[..last][..t] == ls[..t]; }
    }
  }

  // The operands of an encoded instruction.
  ghost function Vals(i: Instr, syms: A.SymbolTable, f: string -> int): seq<int>
    requires Encodable(i, syms.Keys)
  {
    match i
    case LoadA(v, r) => [syms[v], 0, r]
    case Load(v, r) => [syms[v], 0, r]
    case PullQW(src, base, off) => [src, base, off]
    case Alu(_, a, b, d) => [a, b, d]
    case Jmp(l) => [f(LabelText(l))]
    case JmpI(r, l) => [r, f(LabelText(l))]
    case Here(_) => []
  }

  lemma LineValues(prog: seq<Instr>, syms: A.SymbolTable, k: nat)
    requires Linked(prog, syms) && k < |prog| && !prog[k].Here?
    ensures A.LineOk(ToLine(prog[k]), syms) && Encodable(prog[k], syms.Keys)
    ensures var f := A.Addresses(ToLines(prog)); var l := ToLine(prog[k]);
            && A.Values(l, syms, f) == Vals(prog[k], syms, f)
            && Representable(O.ArgTypes(l.op), A.Values(l, syms, f))
  {
    var f := A.Addresses(ToLines(prog));
    assert prog[k] in prog;
    LineEncodable(prog[k], syms);
    ValuesAre(prog[k], syms, f);
    ValsFit(prog[k], syms, prog);
  }

  lemma ValuesAre(i: Instr, syms: A.SymbolTable, f: string -> int)
    requires Encodable(i, syms.Keys) && !i.Here? && A.LineOk(ToLine(i), syms)
    ensures A.Values(ToLine(i), syms, f) == Vals(i, syms, f)
  {
    match i
    case Alu(op, _, _, _) => AluCode(op);
    case _ =>
  }

  lemma ValsFit(i: Instr, syms: A.SymbolTable, prog: seq<Instr>)
    requires Encodable(i, syms.Keys) && !i.Here? && Linked(prog, syms)
    ensures Representable(O.ArgTypes(ToLine(i).op), Vals(i, syms, A.Addresses(ToLines(prog))))
  {
    FitsRange(0);
    hide Fits;
    match i
    case LoadA(v, _) => assert Fits(syms[v], 8);
    case Load(v, _) => assert Fits(syms[v], 8);
    case PullQW(_, _, _) =>
    case Jmp(l) => AddressFits(prog, syms, l);
    case JmpI(r, l) => AddressFits(prog, syms, l);
    case Alu(op, _, _, _) => AluCode(op);
  }

  lemma AddressFits(prog: seq<Instr>, syms: A.SymbolTable, l: Label)
    requires Linked(prog, syms)
    ensures Fits(A.DefPos(ToLines(prog), LabelText(l)), 8)
  {
    LabelAddress(prog, l);
    var t := Target(prog, l);
    if t != -1 { A.SizesUpTo(ToLines(prog), t); }
    FitsRange(A.DefPos(ToLines(prog), LabelText(l)));
  }

  // A labelled machine and a byte machine in the same situation.
  ghost predicate Agree(prog: seq<Instr>, c: Config, x: Place) {
    match c
    case Stopped => x.Halted?
    case At(pc, s) => pc <= |prog| && x == Running(Address(prog, pc), s)
  }

  lemma StepAgrees(prog: seq<Instr>, syms: A.SymbolTable, pc: nat, s: State)
    requires Linked(prog, syms) && A.AllOk(ToLines(prog), syms) && pc < |prog| && !prog[pc].Here? && |s.reg| == MAXREG
    ensures Agree(prog, Cycle(prog, EnvOf(syms), At(pc, s)), Tick(Image(prog, syms), Running(Address(prog, pc), s)))
  {
    hide *;
    var ls, f := ToLines(prog), A.Addresses(ToLines(prog));
    LineAt(prog, pc);
    LineValues(prog, syms, pc);
    DecodeLine(ls, syms, f, pc);
    var c, k := Image(prog, syms), A.CodeSize(ls[..pc]);
    TickIs(c, k, s);
    ActAgrees(prog, syms, pc, s);
  }

  lemma LineAt(prog: seq<Instr>, k: nat)
    requires k < |prog| && !prog[k].Here?
    ensures ToLines(prog)[k] == ToLine(prog[k]) && ToLine(prog[k]).Inst?
    ensures forall syms | A.AllOk(ToLines(prog), syms) :: Image(prog, syms) == F.Memory(ToLines(prog), syms, A.Addresses(ToLines(prog)))
    ensures Address(prog, k) == CS.Start(ToLines(prog), k) && Address(prog, k + 1) == CS.Start(ToLines(prog), k + 1)
    ensures Address(prog, k) == A.HEADER + A.CodeSize(ToLines(prog)[..k])
    ensures A.HEADER >= 0
  {
  }

  lemma TickIs(c: seq<byte>, k: nat, s: State)
    requires InstrAt(c, k)
    ensures Tick(c, Running(A.HEADER + k, s))
         == Act(c[k], Operands(c, k + 1, O.ArgTypes(c[k])), A.HEADER + k + O.InstrSize(c[k]), s)
  {
    hide Act;
    hide Operands;
  }

  lemma ActAgrees(prog: seq<Instr>, syms: A.SymbolTable, pc: nat, s: State)
    requires Linked(prog, syms) && pc < |prog| && !prog[pc].Here? && |s.reg| == MAXREG && Encodable(prog[pc], syms.Keys)
    requires var op := ToLine(prog[pc]).op;
             op < O.MAXOPCODES && |Vals(prog[pc], syms, A.Addresses(ToLines(prog)))| == |O.ArgTypes(op)|
    ensures Agree(prog, Cycle(prog, EnvOf(syms), At(pc, s)),
                  Act(ToLine(prog[pc]).op, Vals(prog[pc], syms, A.Addresses(ToLines(prog))), Address(prog, pc + 1), s))
  {
    hide *;
    if Straight(prog[pc]) {
      StraightAgrees(prog[pc], syms, A.Addresses(ToLines(prog)), Address(prog, pc + 1), s);
      StraightStep(prog, EnvOf(syms), pc, s);
    } else {
      JumpAgrees(prog, syms, pc, s);
    }
  }

  lemma StraightStep(prog: seq<Instr>, env: Env, pc: nat, s: State)
    requires pc < |prog| && Straight(prog[pc])
    ensures Agree(prog, Cycle(prog, env, At(pc, s)),
                  match Do(prog[pc], env, s) case None => Halted case Some(t) => Running(Address(prog, pc + 1), t))
  {
    hide Address;
    hide Do;
  }

  lemma JumpAgrees(prog: seq<Instr>, syms: A.SymbolTable, pc: nat, s: State)
    requires Linked(prog, syms) && pc < |prog| && !prog[pc].Here? && !Straight(prog[pc]) && |s.reg| == MAXREG
    requires Encodable(prog[pc], syms.Keys)
    requires var op := ToLine(prog[pc]).op;
             op < O.MAXOPCODES && |Vals(prog[pc], syms, A.Addresses(ToLines(prog)))| == |O.ArgTypes(op)|
    ensures Agree(prog, Cycle(prog, EnvOf(syms), At(pc, s)),
                  Act(ToLine(prog[pc]).op, Vals(prog[pc], syms, A.Addresses(ToLines(prog))), Address(prog, pc + 1), s))
  {
    var f, next := A.Addresses(ToLines(prog)), Address(prog, pc + 1);
    assert prog[pc] in prog;
    JumpTarget(prog, syms, prog[pc].target);
    assert Here(prog[pc].target) in prog;
    hide *;
    JumpLine(prog[pc], syms, f, next, s);
    JumpCycle(prog, EnvOf(syms), pc, s);
  }

  lemma JumpLine(i: Instr, syms: A.SymbolTable, f: string -> int, next: nat, s: State)
    requires (i.Jmp? || i.JmpI?) && Encodable(i, syms.Keys) && |s.reg| == MAXREG
    requires ToLine(i).op < O.MAXOPCODES && |Vals(i, syms, f)| == |O.ArgTypes(ToLine(i).op)|
    ensures i.JmpI? ==> 0 <= i.r < MAXREG
    ensures Act(ToLine(i).op, Vals(i, syms, f), next, s)
         == Running(if i.JmpI? && s.reg[i.r] == 0 then next else f(LabelText(i.target)), s)
  {
  }

  lemma JumpCycle(prog: seq<Instr>, env: Env, pc: nat, s: State)
    requires pc < |prog| && (prog[pc].Jmp? || prog[pc].JmpI?) && (prog[pc].JmpI? ==> 0 <= prog[pc].r < |s.reg|)
    requires Target(prog, prog[pc].target) != -1
    ensures var pc' := if prog[pc].JmpI? && s.reg[prog[pc].r] == 0 then pc + 1 else Target(prog, prog[pc].target);
            pc' <= |prog| && Agree(prog, Cycle(prog, env, At(pc, s)), Running(Address(prog, pc'), s))
  {
    hide Address;
  }

  lemma StraightAgrees(i: Instr, syms: A.SymbolTable, f: string -> int, next: nat, s: State)
    requires Straight(i) && |s.reg| == MAXREG && Encodable(i, syms.Keys)
    requires ToLine(i).op < O.MAXOPCODES && |Vals(i, syms, f)| == |O.ArgTypes(ToLine(i).op)|
    ensures Act(ToLine(i).op, Vals(i, syms, f), next, s)
         == match Do(i, EnvOf(syms), s) case None => Halted case Some(t) => Running(next, t)
  {
    match i
    case Alu(op, a, b, _) =>
      AluCode(op);
      OpcodeMeans(op, s.reg[a], s.reg[b]);
      hide Alu64;
      hide Meant;
      hide OpCode;
    case _ =>
  }

  lemma JumpTarget(prog: seq<Instr>, syms: A.SymbolTable, l: Label)
    requires Here(l) in prog
    ensures Target(prog, l) != -1
    ensures A.Addresses(ToLines(prog))(LabelText(l)) == Address(prog, Target(prog, l))
  {
    LabelAddress(prog, l);
  }

  // ---- runs ----

  lemma AddressSteps(prog: seq<Instr>, k: nat)
    requires k < |prog|
    ensures Address(prog, k + 1) == Address(prog, k) + A.LineSize(ToLine(prog[k])) <= A.HEADER + A.CodeSize(ToLines(prog))
    ensures prog[k].Here? <==> A.LineSize(ToLine(prog[k])) == 0
  {
    var ls := ToLines(prog);
    assert ls[..k + 1][..k] == ls[..k];
    A.SizesUpTo(ls, k + 1);
  }

  lemma AddressEnd(prog: seq<Instr>, syms: A.SymbolTable)
    requires A.AllOk(ToLines(prog), syms)
    ensures Address(prog, 0) == A.HEADER && Address(prog, |prog|) == A.HEADER + |Image(prog, syms)|
  {
    assert ToLines(prog)[..|prog|] == ToLines(prog);
    assert ToLines(prog)[..0] == [];
  }

  lemma KeepsRegisters(prog: seq<Instr>, env: Env, c: Config)
    requires c.At?
    ensures Cycle(prog, env, c).At? ==> |Cycle(prog, env, c).s.reg| == |c.s.reg|
    ensures Cycle(prog, env, c).At? && c.pc <= |prog| ==> Cycle(prog, env, c).pc <= |prog|
  {
  }

  lemma {:induction false} Forward(prog: seq<Instr>, syms: A.SymbolTable, n: nat, pc: nat, s: State) returns (m: nat)
    requires Linked(prog, syms) && A.AllOk(ToLines(prog), syms) && pc <= |prog| && |s.reg| == MAXREG
    ensures m <= n
    ensures Agree(prog, Cycles(prog, EnvOf(syms), n, At(pc, s)), Ticks(Image(prog, syms), m, Running(Address(prog, pc), s)))
    decreases n
  {
    hide *;
    var env, c, x := EnvOf(syms), Image(prog, syms), Running(Address(prog, pc), s);
    if n == 0 || pc == |prog| {
      Still(prog, syms, n, 0, pc, s);
      m := 0;
    } else if prog[pc].Here? {
      OverHere(prog, env, pc, s);
      m := Forward(prog, syms, n - 1, pc + 1, s);
      CyclesStep(prog, env, n, At(pc, s));
    } else {
      var d := Round(prog, syms, pc, s);
      CyclesStep(prog, env, n, At(pc, s));
      if d.Stopped? {
        BothStopped(prog, syms, n - 1, 0);
        m := 1;
      } else {
        m := Forward(prog, syms, n - 1, d.pc, d.s);
        m := m + 1;
      }
      TicksStep(c, m, x);
    }
  }

  // One instruction on both machines.
  lemma Round(prog: seq<Instr>, syms: A.SymbolTable, pc: nat, s: State) returns (d: Config)
    requires Linked(prog, syms) && A.AllOk(ToLines(prog), syms) && pc < |prog| && !prog[pc].Here? && |s.reg| == MAXREG
    ensures d == Cycle(prog, EnvOf(syms), At(pc, s))
    ensures d.At? ==> d.pc <= |prog| && |d.s.reg| == MAXREG
    ensures Tick(Image(prog, syms), Running(Address(prog, pc), s)) == if d.At? then Running(Address(prog, d.pc), d.s) else Halted
  {
    d := Cycle(prog, EnvOf(syms), At(pc, s));
    StepAgrees(prog, syms, pc, s);
    KeepsRegisters(prog, EnvOf(syms), At(pc, s));
    hide Cycle;
    hide Tick;
    hide Image;
    hide Address;
  }

  lemma CyclesStep(prog: seq<Instr>, env: Env, n: nat, c: Config)
    requires n > 0
    ensures Cycles(prog, env, n, c) == Cycles(prog, env, n - 1, Cycle(prog, env, c))
  {
  }

  lemma TicksStep(c: seq<byte>, n: nat, x: Place)
    requires n > 0
    ensures Ticks(c, n, x) == Ticks(c, n - 1, Tick(c, x))
  {
  }

  lemma Still(prog: seq<Instr>, syms: A.SymbolTable, n: nat, m: nat, pc: nat, s: State)
    requires A.AllOk(ToLines(prog), syms) && pc <= |prog| && ((n == 0 && m == 0) || pc == |prog|)
    ensures Agree(prog, Cycles(prog, EnvOf(syms), n, At(pc, s)), Ticks(Image(prog, syms), m, Running(Address(prog, pc), s)))
  {
    AddressEnd(prog, syms);
    hide Image;
    hide Address;
    if n > 0 { Stays(prog, EnvOf(syms), n, At(pc, s)); }
    if m > 0 { Rests(Image(prog, syms), m, Running(Address(prog, pc), s)); }
  }

  lemma BothStopped(prog: seq<Instr>, syms: A.SymbolTable, n: nat, m: nat)
    requires A.AllOk(ToLines(prog), syms)
    ensures Agree(prog, Cycles(prog, EnvOf(syms), n, Stopped), Ticks(Image(prog, syms), m, Halted))
  {
    Stays(prog, EnvOf(syms), n, Stopped);
    Rests(Image(prog, syms), m, Halted);
  }

  lemma OverHere(prog: seq<Instr>, env: Env, pc: nat, s: State)
    requires pc < |prog| && prog[pc].Here?
    ensures Cycle(prog, env, At(pc, s)) == At(pc + 1, s) && Address(prog, pc + 1) == Address(prog, pc)
  {
    AddressSteps(prog, pc);
  }

  lemma {:induction false} Backward(prog: seq<Instr>, syms: A.SymbolTable, m: nat, pc: nat, s: State) returns (n: nat)
    requires Linked(prog, syms) && A.AllOk(ToLines(prog), syms) && pc <= |prog| && |s.reg| == MAXREG
    ensures Agree(prog, Cycles(prog, EnvOf(syms), n, At(pc, s)), Ticks(Image(prog, syms), m, Running(Address(prog, pc), s)))
    decreases m, |prog| - pc
  {
    hide *;
    var env, c, x := EnvOf(syms), Image(prog, syms), Running(Address(prog, pc), s);
    if m == 0 || pc == |prog| {
      Still(prog, syms, 0, m, pc, s);
      n := 0;
    } else if prog[pc].Here? {
      OverHere(prog, env, pc, s);
      n := Backward(prog, syms, m, pc + 1, s);
      n := n + 1;
      CyclesStep(prog, env, n, At(pc, s));
    } else {
      var d := Round(prog, syms, pc, s);
      TicksStep(c, m, x);
      if d.Stopped? {
        BothStopped(prog, syms, 0, m - 1);
        n := 1;
      } else {
        n := Backward(prog, syms, m - 1, d.pc, d.s);
        n := n + 1;
      }
      CyclesStep(prog, env, n, At(pc, s));
    }
  }

  // A labelled machine at the end of the bytes reaches the end of its program.
  lemma {:induction false} Finish(prog: seq<Instr>, env: Env, pc: nat, s: State) returns (k: nat)
    requires pc <= |prog| && Address(prog, pc) == A.HEADER + A.CodeSize(ToLines(prog))
    ensures Cycles(prog, env, k, At(pc, s)) == At(|prog|, s)
    decreases |prog| - pc
  {
    hide *;
    if pc == |prog| {
      k := 0;
      NoCycles(prog, env, At(pc, s));
    } else {
      AddressSteps(prog, pc);
      OverHere(prog, env, pc, s);
      k := Finish(prog, env, pc + 1, s);
      k := k + 1;
      CyclesStep(prog, env, k, At(pc, s));
    }
  }

  lemma NoCycles(prog: seq<Instr>, env: Env, c: Config)
    ensures Cycles(prog, env, 0, c) == c
  {
  }
}
