// The register machine that the compiler targets: 256 integer registers, memory cells, labels.
module Machine {
  import opened Infix
  import opened Registers

  datatype Kind = IfL | EndIfL | ElseL | WhileL | ForL | For2L | ForEndL

  datatype Label = Label(kind: Kind, num: int)

  datatype Instr =
    | LoadA(v: string, r: nat)              // loada v, 0, r    register := variable
    | Load(v: string, r: nat)               // load v, 0, r     register := address of variable
    | PullQW(src: nat, base: nat, off: nat) // pullqw           memory[base + off] := src
    | Alu(op: char, a: nat, b: nat, d: nat) // three-register operation
    | Jmp(target: Label)
    | JmpI(r: nat, target: Label)           // jump when the register is not zero
    | Here(l: Label)

  // Where variables live, and what each operator computes (None when the VM stops, as for a
  // division by zero).
  datatype Env = Env(layout: map<string, int>, alu: (char, int, int) -> Option<int>)

  datatype State = State(reg: seq<int>, mem: map<int, int>)

  ghost predicate Layout(lay: map<string, int>) {
    && (forall v, w | v in lay && w in lay && v != w :: lay[v] != lay[w])
    && "" !in lay && "temp" !in lay && "cont_temp" !in lay
  }

  // Every variable has a memory cell.
  ghost predicate Loaded(env: Env, s: State) {
    |s.reg| == MAXREG && forall v | v in env.layout :: env.layout[v] in s.mem
  }

  // The variables' values.
  function Vars(env: Env, mem: map<int, int>): map<string, int> {
    map v | v in env.layout && env.layout[v] in mem :: mem[env.layout[v]]
  }

  predicate Straight(i: Instr) {
    i.LoadA? || i.Load? || i.PullQW? || i.Alu?
  }

  // One straight-line instruction; None when the VM stops.
  function Do(i: Instr, env: Env, s: State): Option<State> {
    match i
    case LoadA(v, r) =>
      if v in env.layout && env.layout[v] in s.mem && r < |s.reg|
      then Some(s.(reg := s.reg[r := s.mem[env.layout[v]]])) else None
    case Load(v, r) =>
      if v in env.layout && r < |s.reg| then Some(s.(reg := s.reg[r := env.layout[v]])) else None
    case PullQW(src, base, off) =>
      if src < |s.reg| && base < |s.reg| && off < |s.reg| && s.reg[base] + s.reg[off] in s.mem
      then Some(s.(mem := s.mem[s.reg[base] + s.reg[off] := s.reg[src]])) else None
    case Alu(op, a, b, d) =>
      if a < |s.reg| && b < |s.reg| && d < |s.reg| then
        match env.alu(op, s.reg[a], s.reg[b])
        case None => None
        case Some(x) => Some(s.(reg := s.reg[d := x]))
      else None
    case _ => Some(s)
  }

  function Run(code: seq<Instr>, env: Env, s: State): Option<State> {
    if code == [] then Some(s)
    else
      match Do(code[0], env, s)
      case None => None
      case Some(t) => Run(code[1..], env, t)
  }

  lemma {:induction false} RunAppend(a: seq<Instr>, b: seq<Instr>, env: Env, s: State)
    ensures Run(a + b, env, s) == match Run(a, env, s) { case None => None case Some(t) => Run(b, env, t) }
    decreases |a|
  {
    if a == [] {
      assert a + b == b;
    } else {
      assert (a + b)[0] == a[0] && (a + b)[1..] == a[1..] + b;
      match Do(a[0], env, s) {
        case None =>
        case Some(t) => RunAppend(a[1..], b, env, t);
      }
    }
  }

  // ---- programs with labels ----

  // Index of the last definition of a label, as the assembler's label table ends up holding it.
  function Target(prog: seq<Instr>, l: Label): (k: int)
    ensures k == -1 ==> forall j | 0 <= j < |prog| :: prog[j] != Here(l)
    ensures k != -1 ==> 0 <= k < |prog| && prog[k] == Here(l) && forall j | k < j < |prog| :: prog[j] != Here(l)
  {
    if prog == [] then -1
    else
      var last := |prog| - 1;
      if prog[last] == Here(l) then last
      else
        var k := Target(prog[..last], l);
        assert forall j | 0 <= j < last :: prog[..last][j] == prog[j];
        k
  }

  datatype Config = At(pc: nat, s: State) | Stopped

  // One step; a machine past the end of its program stays there.
  function Cycle(prog: seq<Instr>, env: Env, c: Config): Config {
    if c.Stopped? || c.pc >= |prog| then c
    else
      match prog[c.pc]
      case Jmp(l) => if Target(prog, l) == -1 then Stopped else At(Target(prog, l), c.s)
      case JmpI(r, l) =>
        if r >= |c.s.reg| then Stopped
        else if c.s.reg[r] == 0 then At(c.pc + 1, c.s)
        else if Target(prog, l) == -1 then Stopped else At(Target(prog, l), c.s)
      case _ =>
        match Do(prog[c.pc], env, c.s)
        case None => Stopped
        case Some(t) => At(c.pc + 1, t)
  }

  function Cycles(prog: seq<Instr>, env: Env, n: nat, c: Config): Config {
    if n == 0 then c else Cycles(prog, env, n - 1, Cycle(prog, env, c))
  }

  lemma {:induction false} CyclesAdd(prog: seq<Instr>, env: Env, m: nat, n: nat, c: Config)
    ensures Cycles(prog, env, m + n, c) == Cycles(prog, env, n, Cycles(prog, env, m, c))
    decreases m
  {
    if m > 0 { CyclesAdd(prog, env, m - 1, n, Cycle(prog, env, c)); }
  }

  lemma {:induction false} Stays(prog: seq<Instr>, env: Env, n: nat, c: Config)
    requires c.Stopped? || c.pc >= |prog|
    ensures Cycles(prog, env, n, c) == c
  {
    if n > 0 { Stays(prog, env, n - 1, c); }
  }

  // Straight-line code inside a program runs as it does alone.
  lemma {:induction false} RunInside(prog: seq<Instr>, env: Env, o: nat, code: seq<Instr>, s: State)
    requires o + |code| <= |prog| && prog[o..o + |code|] == code && forall i | i in code :: Straight(i)
    ensures Run(code, env, s).Some? ==> Cycles(prog, env, |code|, At(o, s)) == At(o + |code|, Run(code, env, s).value)
    ensures Run(code, env, s).None? ==> Cycles(prog, env, |code|, At(o, s)) == Stopped
    decreases |code|
  {
    if code != [] {
      assert prog[o] == code[0] && Straight(code[0]);
      assert prog[o + 1..o + 1 + |code[1..]|] == code[1..];
      match Do(code[0], env, s) {
        case None => Stays(prog, env, |code| - 1, Stopped);
        case Some(t) =>
          assert Cycle(prog, env, At(o, s)) == At(o + 1, t);
          RunInside(prog, env, o + 1, code[1..], t);
      }
    }
  }
}
