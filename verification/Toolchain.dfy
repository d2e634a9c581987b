// Compiler, assembler, loader and virtual machine together: a program runs from its object file as
// its source says.
module Toolchain {
  import opened Infix
  import opened Bytes
  import opened Registers
  import opened Machine
  import opened Codegen
  import opened Lowering
  import opened LoweringCorrect
  import opened Labels
  import opened Simulation
  import opened Program
  import opened Assembly
  import opened Execution
  import opened Resolution
  import A = Assembler
  import CS = CodeSection
  import D = DataSection
  import F = ObjectFile
  import LC = LabelCount

  // Int64 variables with names that the compiler can use, each defined once.
  ghost predicate Variables(vars: seq<D.Variable>) {
    && D.VarsOk(vars)
    && (forall k | 0 <= k < |vars| :: vars[k].ty == D.TQuad && vars[k].count > 0)
    && (forall k | 0 <= k < |vars| :: vars[k].name !in {"", "temp", "cont_temp"})
    && (forall j, k | 0 <= j < k < |vars| :: vars[j].name != vars[k].name)
  }

  // The operands that the assembler resolves variable names to.
  ghost function Syms(vars: seq<D.Variable>): A.SymbolTable {
    map k | 0 <= k < |vars| :: vars[k].name := D.Operand(D.Table(vars), vars[k].name)
  }

  lemma {:induction false} SymsAt(vars: seq<D.Variable>, k: nat)
    requires Variables(vars) && k < |vars|
    ensures vars[k].name in Syms(vars) && Syms(vars)[vars[k].name] == D.Offset(vars[..k])
    ensures forall j | k < j < |vars| :: D.Offset(vars[..k]) + 8 <= D.Offset(vars[..j])
    ensures D.Offset(vars[..k]) + 8 <= D.Offset(vars)
  {
    D.LayoutAgrees(vars, k);
    D.TableAt(vars, k);
    D.Fewer(1, vars[k].count, 8);
  }

  lemma {:induction false} SymsLayout(vars: seq<D.Variable>)
    requires Variables(vars)
    ensures Layout(Syms(vars)) && forall v | v in Syms(vars) :: 0 <= Syms(vars)[v] < D.Offset(vars)
  {
    forall v | v in Syms(vars)
      ensures v !in {"", "temp", "cont_temp"} && 0 <= Syms(vars)[v] < D.Offset(vars)
      ensures forall w | w in Syms(vars) && v != w :: Syms(vars)[v] != Syms(vars)[w]
    {
      var j :| 0 <= j < |vars| && vars[j].name == v;
      SymsAt(vars, j);
      forall w | w in Syms(vars) && v != w
        ensures Syms(vars)[v] != Syms(vars)[w]
      {
        var k :| 0 <= k < |vars| && vars[k].name == w;
        SymsAt(vars, k);
      }
    }
  }

  // What the assembler accepts and the loader brings back.
  lemma CompiledLinks(p: Stmt, syms: A.SymbolTable, maxCode: int, max: int)
    requires WellFormed(p) && SlotsFit(p) && Layout(syms) && Compiled(p, EnvOf(syms)).Some?
    requires forall v | v in syms :: 0 <= syms[v] < max
    requires max < 0x8000_0000_0000_0000 && maxCode < 0x8000_0000_0000_0000
    requires A.HEADER + A.CodeSize(ToLines(Compiled(p, EnvOf(syms)).value)) <= maxCode
    ensures Linked(Compiled(p, EnvOf(syms)).value, syms)
  {
    var env := EnvOf(syms);
    var prog := Compiled(p, env).value;
    var l := Low(Program.Start().g, 0, 0, 0, 0);
    var x := CompiledWhole(p, env);
    assert Fine(l.g, syms.Keys, {});
    ProgFine(Standard(env), p, l, {});
    forall v | v in syms
      ensures Fits(syms[v], 8)
    {
      FitsRange(syms[v]);
    }
  }

  // Every label that the compiled code uses is defined, so the patching pass reports no error.
  lemma AllDefined(prog: seq<Instr>, syms: A.SymbolTable)
    requires Linked(prog, syms)
    ensures A.AllOk(ToLines(prog), syms) && !CS.Dangling(ToLines(prog), syms, |prog|)
  {
    LinkedLines(prog, syms);
    var ls := ToLines(prog);
    forall k, name | 0 <= k < |prog| && A.UsesLabel(ls[k], syms, name)
      ensures A.Def(name) in ls
    {
      var i := prog[k];
      assert i in prog;
      if i.Alu? { AluCode(i.op); }
      assert i.Jmp? || i.JmpI?;
      assert name == LabelText(i.target);
      var j :| 0 <= j < |prog| && prog[j] == Here(i.target);
      assert ls[j] == A.Def(name);
    }
  }

  // The assembler reads these lines and patches them without an error.
  ghost predicate Accepts(ls: seq<A.Line>, syms: A.SymbolTable) {
    A.AllOk(ls, syms) && |A.Named(ls, syms)| <= A.MAXLABELS && !CS.Dangling(ls, syms, |ls|)
  }

  // It accepts the code of a program exactly when the program's labels fit its table.
  lemma Accepted(p: Stmt, syms: A.SymbolTable)
    requires WellFormed(p) && SlotsFit(p) && Layout(syms) && Compiled(p, EnvOf(syms)).Some?
    requires Linked(Compiled(p, EnvOf(syms)).value, syms)
    ensures Accepts(ToLines(Compiled(p, EnvOf(syms)).value), syms) <==> LC.Count(p) <= A.MAXLABELS
  {
    hide *;
    var prog := Compiled(p, EnvOf(syms)).value;
    AllDefined(prog, syms);
    CompiledLabels(p, syms);
    LC.NamedCount(prog, syms);
    AcceptsIs(ToLines(prog), syms);
    assert |ToLines(prog)| == |prog|;
  }

  lemma AcceptsIs(ls: seq<A.Line>, syms: A.SymbolTable)
    ensures Accepts(ls, syms) <==> A.AllOk(ls, syms) && |A.Named(ls, syms)| <= A.MAXLABELS && !CS.Dangling(ls, syms, |ls|)
  {
  }

  // Every label of compiled code is defined once, as many as the source has.
  lemma CompiledLabels(p: Stmt, syms: A.SymbolTable)
    requires WellFormed(p) && SlotsFit(p) && Layout(syms) && Compiled(p, EnvOf(syms)).Some?
    ensures var prog := Compiled(p, EnvOf(syms)).value; Lands(prog, {}) && Distinct(prog, 0) && LC.Heres(prog) == LC.Count(p)
  {
    hide *;
    var env := EnvOf(syms);
    var l := Low(Program.Start().g, 0, 0, 0, 0);
    StartFine(syms, l);
    var x := CompiledWhole(p, env);
    ProgLabels(Standard(env), p, l);
    LC.ProgAdds(Standard(env), p, l);
    ProgFine(Standard(env), p, l, {});
    LabelsFrom(l, x, Standard(env).declared);
  }

  lemma StartFine(syms: A.SymbolTable, l: Low)
    requires Layout(syms) && l == Low(Program.Start().g, 0, 0, 0, 0)
    ensures Standard(EnvOf(syms)).declared == syms.Keys && "" !in syms.Keys && Layout(EnvOf(syms).layout)
    ensures Fine(l.g, syms.Keys, {}) && Ready(l.g) && l.g.code == [] && LC.Heres(l.g.code) == 0
  {
  }

  lemma LabelsFrom(l: Low, x: Low, declared: set<string>)
    requires l.g.code == [] && NewLabels(l, x) && Fine(x.g, declared, {})
    ensures Distinct(x.g.code, 0) && Lands(x.g.code, {})
    ensures forall n :: LC.Adds(l.g, x.g, n) ==> LC.Heres(x.g.code) == n
  {
  }

  // ---- runs of the loaded code ----

  ghost predicate ByteEnds(c: seq<byte>, syms: A.SymbolTable, s: State, vars: map<string, int>) {
    exists m: nat :: ByteEndsAfter(c, syms, s, m, vars)
  }

  ghost predicate ByteEndsAfter(c: seq<byte>, syms: A.SymbolTable, s: State, m: nat, vars: map<string, int>) {
    var x := Ticks(c, m, Running(A.HEADER, s));
    x.Running? && x.ep == A.HEADER + |c| && Vars(EnvOf(syms), x.s.mem) == vars
  }

  ghost predicate ByteStops(c: seq<byte>, s: State) {
    exists m: nat :: Ticks(c, m, Running(A.HEADER, s)) == Halted
  }

  // The machine on bytes ends, with the same values, exactly when the machine on labels does.
  lemma BytesAgree(prog: seq<Instr>, syms: A.SymbolTable, s: State)
    requires Linked(prog, syms) && A.AllOk(ToLines(prog), syms) && |s.reg| == MAXREG
    ensures forall v :: ByteEnds(Image(prog, syms), syms, s, v) <==> EndsWith(prog, EnvOf(syms), s, v)
    ensures ByteStops(Image(prog, syms), s) <==> Stops(prog, EnvOf(syms), s)
  {
    hide *;
    forall v
      ensures ByteEnds(Image(prog, syms), syms, s, v) <==> EndsWith(prog, EnvOf(syms), s, v)
    {
      if ByteEnds(Image(prog, syms), syms, s, v) { EndsBack(prog, syms, s, v); }
      if EndsWith(prog, EnvOf(syms), s, v) { EndsOn(prog, syms, s, v); }
    }
    StopsBoth(prog, syms, s);
  }

  lemma EndsOn(prog: seq<Instr>, syms: A.SymbolTable, s: State, v: map<string, int>)
    requires Linked(prog, syms) && A.AllOk(ToLines(prog), syms) && |s.reg| == MAXREG
    requires EndsWith(prog, EnvOf(syms), s, v)
    ensures ByteEnds(Image(prog, syms), syms, s, v)
  {
    hide Linked;
    hide Image;
    var n: nat :| EndsAfter(prog, EnvOf(syms), s, n, v);
    var m := Forward(prog, syms, n, 0, s);
    AddressEnd(prog, syms);
    hide Address;
    assert ByteEndsAfter(Image(prog, syms), syms, s, m, v);
  }

  lemma EndsBack(prog: seq<Instr>, syms: A.SymbolTable, s: State, v: map<string, int>)
    requires Linked(prog, syms) && A.AllOk(ToLines(prog), syms) && |s.reg| == MAXREG
    requires ByteEnds(Image(prog, syms), syms, s, v)
    ensures EndsWith(prog, EnvOf(syms), s, v)
  {
    hide Linked;
    var m: nat :| ByteEndsAfter(Image(prog, syms), syms, s, m, v);
    var n := Backward(prog, syms, m, 0, s);
    AddressEnd(prog, syms);
    var c := Cycles(prog, EnvOf(syms), n, At(0, s));
    assert |Image(prog, syms)| == A.CodeSize(ToLines(prog));
    hide Image;
    hide Address;
    var k := Finish(prog, EnvOf(syms), c.pc, c.s);
    CyclesAdd(prog, EnvOf(syms), n, k, At(0, s));
    assert EndsAfter(prog, EnvOf(syms), s, n + k, v);
  }

  lemma StopsBoth(prog: seq<Instr>, syms: A.SymbolTable, s: State)
    requires Linked(prog, syms) && A.AllOk(ToLines(prog), syms) && |s.reg| == MAXREG
    ensures ByteStops(Image(prog, syms), s) <==> Stops(prog, EnvOf(syms), s)
  {
    hide Linked;
    AddressEnd(prog, syms);
    hide Image;
    hide Address;
    if n: nat :| Cycles(prog, EnvOf(syms), n, At(0, s)) == Stopped {
      var m := Forward(prog, syms, n, 0, s);
      assert Ticks(Image(prog, syms), m, Running(A.HEADER, s)) == Halted;
    }
    if m: nat :| Ticks(Image(prog, syms), m, Running(A.HEADER, s)) == Halted {
      var n := Backward(prog, syms, m, 0, s);
    }
  }

  // From source to bytes and back: a well-formed program that compiles is accepted by the assembler
  // exactly when its labels fit the label table; its object file loads, and the loaded bytes end with
  // certain values of the variables exactly when the source program does, and are stopped exactly when
  // an operator of its run has no value.
  lemma ToolchainCorrect(p: Stmt, vars: seq<D.Variable>, s: State, maxCode: int, maxData: int, stack: nat)
    requires WellFormed(p) && SlotsFit(p) && Variables(vars)
    requires Compiled(p, EnvOf(Syms(vars))).Some? && Ready0(EnvOf(Syms(vars)), s)
    requires var ls := ToLines(Compiled(p, EnvOf(Syms(vars))).value);
             A.HEADER < A.HEADER + A.CodeSize(ls) <= maxCode < 0x8000_0000_0000_0000
    requires D.Offset(vars) + stack <= maxData < 0x8000_0000_0000_0000
    ensures var env := EnvOf(Syms(vars)); var prog := Compiled(p, env).value;
            var start := Vars(env, s.mem);
            && A.AllOk(ToLines(prog), Syms(vars)) && !CS.Dangling(ToLines(prog), Syms(vars), |prog|)
            && (Accepts(ToLines(prog), Syms(vars)) <==> LC.Count(p) <= A.MAXLABELS)
            && F.Load(F.Object(ToLines(prog), Syms(vars), vars), maxCode, maxData, stack).Some?
            && var code := F.Load(F.Object(ToLines(prog), Syms(vars), vars), maxCode, maxData, stack).value.code;
               && (forall v :: ByteEnds(code, Syms(vars), s, v) <==> Means(p, env, start, Finished(v)))
               && (ByteStops(code, s) <==> Means(p, env, start, Fault))
  {
    var env := EnvOf(Syms(vars));
    var prog := Compiled(p, env).value;
    SymsLayout(vars);
    CompiledLinks(p, Syms(vars), maxCode, D.Offset(vars));
    AllDefined(prog, Syms(vars));
    Accepted(p, Syms(vars));
    F.RoundTrip(ToLines(prog), Syms(vars), vars, maxCode, maxData, stack);
    BytesAgree(prog, Syms(vars), s);
    CompilerCorrect(p, env, s);
  }

  // ---- where a run starts ----

  // A memory whose cells hold what the loader has put at the variables' addresses.
  ghost predicate Populated(vars: seq<D.Variable>, data: seq<byte>, mem: map<int, int>) {
    forall k | 0 <= k < |vars| ::
      var o := D.Offset(vars[..k]);
      o + 8 <= |data| && o in mem && mem[o] == F.HostValue(data[o..o + 8])
  }

  // The values that the source declares.
  ghost function Initial(vars: seq<D.Variable>): map<string, int>
    requires forall j, k | 0 <= j < k < |vars| :: vars[j].name != vars[k].name
  {
    map k | 0 <= k < |vars| :: vars[k].name := F.Element(vars[k], 0)
  }

  lemma {:induction false} InitialAt(vars: seq<D.Variable>, k: nat, mem: map<int, int>)
    requires Variables(vars) && k < |vars| && Fits(F.Element(vars[k], 0), 8) && Populated(vars, F.DataMemory(vars), mem)
    ensures Syms(vars)[vars[k].name] in mem && mem[Syms(vars)[vars[k].name]] == F.Element(vars[k], 0)
  {
    hide *;
    VariableAt(vars, k, mem);
    SymsAt(vars, k);
    F.MemoryAt(vars, k);
    F.LoadedElement(vars[k], 0);
    var o, n := D.Offset(vars[..k]), D.Total(vars[k]);
    FirstEight(F.DataMemory(vars), o, n);
  }

  lemma VariableAt(vars: seq<D.Variable>, k: nat, mem: map<int, int>)
    requires Variables(vars) && k < |vars| && Populated(vars, F.DataMemory(vars), mem)
    ensures D.VarsOk(vars) && vars[k].ty == D.TQuad && D.Size(vars[k].ty) == 8 && |vars[k].vals| <= vars[k].count
    ensures 0 < vars[k].count && 8 <= D.Total(vars[k])
    ensures var o := D.Offset(vars[..k]); var data := F.DataMemory(vars);
            o + 8 <= |data| && o in mem && mem[o] == F.HostValue(data[o..o + 8])
  {
    D.Fewer(1, vars[k].count, 8);
    hide F.DataMemory;
    hide F.HostValue;
    hide D.Offset;
  }

  lemma FirstEight(m: seq<byte>, o: nat, n: nat)
    requires 8 <= n && o + n <= |m|
    ensures m[o..o + n][0 * 8..(0 + 1) * 8] == m[o..o + 8]
  {
  }

  // Compiler, assembler and loader agree on where variables are: a machine started on the loaded data
  // starts with the declared values.
  lemma {:induction false} InitialValues(vars: seq<D.Variable>, mem: map<int, int>)
    requires Variables(vars) && Populated(vars, F.DataMemory(vars), mem)
    requires forall k | 0 <= k < |vars| :: Fits(F.Element(vars[k], 0), 8)
    ensures Vars(EnvOf(Syms(vars)), mem) == Initial(vars)
  {
    forall k | 0 <= k < |vars|
      ensures HasInitial(vars, mem, k)
    {
      InitialAt(vars, k, mem);
    }
    hide Populated;
    hide HasInitial;
    VarsAre(vars, mem);
  }

  ghost predicate HasInitial(vars: seq<D.Variable>, mem: map<int, int>, k: nat)
    requires k < |vars|
  {
    && vars[k].name in Syms(vars) && Syms(vars)[vars[k].name] in mem
    && mem[Syms(vars)[vars[k].name]] == F.Element(vars[k], 0)
  }

  lemma {:induction false} VarsAre(vars: seq<D.Variable>, mem: map<int, int>)
    requires forall j, k | 0 <= j < k < |vars| :: vars[j].name != vars[k].name
    requires forall k | 0 <= k < |vars| :: HasInitial(vars, mem, k)
    ensures Vars(EnvOf(Syms(vars)), mem) == Initial(vars)
  {
    hide *;
    var x, y := Vars(EnvOf(Syms(vars)), mem), Initial(vars);
    forall v
      ensures v in x <==> v in y
      ensures v in x && v in y ==> x[v] == y[v]
    {
      VarIs(vars, mem, v);
    }
  }

  lemma {:induction false} VarIs(vars: seq<D.Variable>, mem: map<int, int>, v: string)
    requires forall j, k | 0 <= j < k < |vars| :: vars[j].name != vars[k].name
    requires forall k | 0 <= k < |vars| :: HasInitial(vars, mem, k)
    ensures var x, y := Vars(EnvOf(Syms(vars)), mem), Initial(vars);
            && (v in x <==> v in y) && (v in x && v in y ==> x[v] == y[v])
  {
    hide F.Element;
    hide D.Operand;
    hide D.Table;
    if k :| 0 <= k < |vars| && vars[k].name == v { assert HasInitial(vars, mem, k); }
  }

  // ---- what the assembler's guard on writing lets through ----

  lemma {:induction false} LandedVariables(vars: seq<D.Variable>, max: nat)
    requires Variables(vars)
    ensures var ws := D.LandedAll(vars, max); Variables(ws) && Syms(ws) == Syms(vars)
  {
    assert D.VarsOk(vars);
    D.LandedShape(vars, max);
    var ws := D.LandedAll(vars, max);
    forall k | 0 <= k < |vars|
      ensures ws[k].name == vars[k].name && ws[k].ty == vars[k].ty && ws[k].count == vars[k].count
    {
      D.LandedAt(vars, max, k);
    }
    hide *;
    SameNames(vars, ws);
  }

  lemma {:induction false} SameNames(vars: seq<D.Variable>, ws: seq<D.Variable>)
    requires Variables(vars) && D.VarsOk(ws) && |ws| == |vars| && D.Table(ws) == D.Table(vars)
    requires forall k | 0 <= k < |vars| ::
               ws[k].name == vars[k].name && ws[k].ty == vars[k].ty && ws[k].count == vars[k].count
    ensures Variables(ws) && Syms(ws) == Syms(vars)
  {
    hide D.Operand;
    hide D.Table;
    hide D.VarsOk;
  }

  // Loading gives the declared values exactly when all values other than zero were written.
  lemma {:induction false} LoadedDeclared(vars: seq<D.Variable>, max: nat)
    requires Variables(vars) && forall k, j | 0 <= k < |vars| && 0 <= j < |vars[k].vals| :: Fits(vars[k].vals[j], 8)
    ensures var ws := D.LandedAll(vars, max);
            D.VarsOk(ws) && (F.DataMemory(ws) == F.DataMemory(vars) <==> D.AllLand(vars, max))
  {
    var ws := D.LandedAll(vars, max);
    LandedVariables(vars, max);
    D.LandedExact(vars, max);
    assert D.VarsOk(ws);
    if F.DataMemory(ws) == F.DataMemory(vars) {
      forall k | 0 <= k < |vars|
        ensures ws[k] == vars[k]
      {
        SameVariable(vars, max, k);
      }
      assert ws == vars;
    }
  }

  lemma {:induction false} SameVariable(vars: seq<D.Variable>, max: nat, k: nat)
    requires Variables(vars) && k < |vars| && forall j | 0 <= j < |vars[k].vals| :: Fits(vars[k].vals[j], 8)
    requires D.VarsOk(D.LandedAll(vars, max)) && F.DataMemory(D.LandedAll(vars, max)) == F.DataMemory(vars)
    ensures D.LandedAll(vars, max)[k] == vars[k]
  {
    var ws := D.LandedAll(vars, max);
    hide D.Offset;
    hide F.DataMemory;
    D.LandedAt(vars, max, k);
    LandedPrefix(vars, max, k);
    F.MemoryAt(vars, k);
    F.MemoryAt(ws, k);
    assert F.VarMemory(ws[k]) == F.VarMemory(vars[k]);
    forall j | 0 <= j < |vars[k].vals|
      ensures ws[k].vals[j] == vars[k].vals[j]
    {
      assert Fits(0, 8);
      F.LoadedElement(vars[k], j);
      F.LoadedElement(ws[k], j);
    }
    assert ws[k].vals == vars[k].vals;
  }

  lemma {:induction false} LandedPrefix(vars: seq<D.Variable>, max: nat, k: nat)
    requires k <= |vars|
    ensures D.Offset(D.LandedAll(vars, max)[..k]) == D.Offset(vars[..k])
  {
    var ws := D.LandedAll(vars, max);
    forall j | 0 <= j < k
      ensures ws[..k][j] == D.LandedAll(vars[..k], max)[j]
    {
      D.LandedAt(vars, max, j);
      D.LandedAt(vars[..k], max, j);
      assert vars[..k][..j] == vars[..j];
    }
    assert ws[..k] == D.LandedAll(vars[..k], max);
    D.LandedShape(vars[..k], max);
  }

  lemma {:induction false} LandedEntries(vars: seq<D.Variable>, max: nat)
    ensures F.Entries(D.LandedAll(vars, max), 0) == F.Entries(vars, 0)
  {
    forall k | 0 <= k < |vars|
      ensures var w := D.LandedAll(vars, max)[k]; w.ty == vars[k].ty && w.count == vars[k].count
    {
      D.LandedAt(vars, max, k);
    }
    hide D.LandedAll;
    F.EntriesShape(D.LandedAll(vars, max), vars, 0);
  }

  // So a run starts with the declared values exactly when the first value of each variable was written.
  lemma {:induction false} InitialLanded(vars: seq<D.Variable>, max: nat)
    requires Variables(vars)
    ensures Variables(D.LandedAll(vars, max))
    ensures Initial(D.LandedAll(vars, max)) == Initial(vars) <==> forall k | 0 <= k < |vars| :: FirstLands(vars, max, k)
  {
    hide *;
    var ws := D.LandedAll(vars, max);
    LandedVariables(vars, max);
    forall k | 0 <= k < |vars|
      ensures |ws| == |vars| && ws[k].name == vars[k].name
      ensures F.Element(ws[k], 0) == F.Element(vars[k], 0) <==> FirstLands(vars, max, k)
    {
      FirstLanded(vars, max, k);
    }
    InitialHas(ws);
    InitialHas(vars);
    if vars == [] { assert ws == vars by { NoneLanded(max); } }
    SameInitial(ws, vars, Initial(ws), Initial(vars));
  }

  predicate FirstLands(vars: seq<D.Variable>, max: nat, k: nat)
    requires k < |vars|
  {
    F.Element(vars[k], 0) == 0 || D.Lands(vars[k], 8 + D.Offset(vars[..k]), 0, max)
  }

  lemma FirstLanded(vars: seq<D.Variable>, max: nat, k: nat)
    requires k < |vars|
    ensures |D.LandedAll(vars, max)| == |vars|
    ensures var w := D.LandedAll(vars, max)[k];
            w.name == vars[k].name && (F.Element(w, 0) == F.Element(vars[k], 0) <==> FirstLands(vars, max, k))
  {
    hide D.Lands;
    hide D.Offset;
    D.LandedAt(vars, max, k);
  }

  lemma NoneLanded(max: nat)
    ensures D.LandedAll([], max) == []
  {
  }

  lemma {:induction false} InitialHas(ws: seq<D.Variable>)
    requires Variables(ws)
    ensures forall j, k | 0 <= j < k < |ws| :: ws[j].name != ws[k].name
    ensures forall k | 0 <= k < |ws| :: ws[k].name in Initial(ws) && Initial(ws)[ws[k].name] == F.Element(ws[k], 0)
    ensures forall v | v in Initial(ws) :: exists k :: 0 <= k < |ws| && ws[k].name == v
  {
    hide F.Element;
    hide D.VarsOk;
  }

  lemma {:induction false} SameInitial(ws: seq<D.Variable>, vars: seq<D.Variable>, a: map<string, int>, b: map<string, int>)
    requires |ws| == |vars| && forall k | 0 <= k < |vars| :: ws[k].name == vars[k].name
    requires forall k | 0 <= k < |vars| :: ws[k].name in a && a[ws[k].name] == F.Element(ws[k], 0)
    requires forall k | 0 <= k < |vars| :: vars[k].name in b && b[vars[k].name] == F.Element(vars[k], 0)
    requires forall v | v in a :: exists k :: 0 <= k < |ws| && ws[k].name == v
    requires forall v | v in b :: exists k :: 0 <= k < |vars| && vars[k].name == v
    ensures a == b <==> forall k | 0 <= k < |vars| :: F.Element(ws[k], 0) == F.Element(vars[k], 0)
  {
    hide F.Element;
    if forall k | 0 <= k < |vars| :: F.Element(ws[k], 0) == F.Element(vars[k], 0) {
      forall v
        ensures v in a <==> v in b
        ensures v in a ==> a[v] == b[v]
      {
      }
    } else {
      var k :| 0 <= k < |vars| && F.Element(ws[k], 0) != F.Element(vars[k], 0);
      assert a[vars[k].name] != b[vars[k].name];
    }
  }
}
