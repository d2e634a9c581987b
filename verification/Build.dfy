// The tools one after the other, each through its own procedures: compile, assemble, write the object
// file, load it.
module Build {
  import opened Infix
  import opened Bytes
  import opened Machine
  import opened Lowering
  import opened SlotLimits
  import opened Planning
  import opened Simulation
  import opened Program
  import opened Assembly
  import opened Execution
  import opened Resolution
  import opened Toolchain
  import A = Assembler
  import CS = CodeSection
  import D = DataSection
  import F = ObjectFile
  import LC = LabelCount
  import C = Compiler
  import L = Loader

  // The code of a program with these variables.
  ghost function Code(p: Stmt, vars: seq<D.Variable>): Option<seq<Instr>> {
    Compiled(p, EnvOf(Syms(vars)))
  }

  // It compiles to at least one instruction exactly when its registers last and it is not empty.
  lemma {:induction false} CodeFromSource(p: Stmt, vars: seq<D.Variable>)
    requires WellFormed(p) && SlotsFit(p) && Variables(vars)
    ensures Code(p, vars).Some? <==> Plan(p, NamesOf(vars), NOTHING).Some?
    ensures Code(p, vars).Some? ==> (A.CodeSize(ToLines(Code(p, vars).value)) > 0 <==> !Idle(p))
  {
    var m := Standard(EnvOf(Syms(vars)));
    StandingHere(vars, m);
    CompilesExactly(m, p);
    if Code(p, vars).Some? {
      SymsLayout(vars);
      var x := CompiledWhole(p, EnvOf(Syms(vars)));
      var l := Low(Program.Start().g, 0, 0, 0, 0);
      ProgActive(m, p, l);
      SizeActive(x.g.code);
    }
    hide *;
  }

  lemma {:induction false} StandingHere(vars: seq<D.Variable>, m: Mode)
    requires Variables(vars) && m == Standard(EnvOf(Syms(vars)))
    ensures Standing(m) && m.declared == NamesOf(vars)
  {
    KeysOf(vars);
    hide D.Operand;
    hide D.Table;
  }

  lemma {:induction false} SizeActive(code: seq<Instr>)
    ensures A.CodeSize(ToLines(code)) > 0 <==> Active(code, 0)
    decreases |code|
  {
    hide *;
    var last := |code| - 1;
    if last < 0 {
      NoCode(code);
    } else {
      SizeOfLast(code);
      SizeActive(code[..last]);
      ActiveLast(code);
    }
  }

  lemma NoCode(code: seq<Instr>)
    requires code == []
    ensures A.CodeSize(ToLines(code)) == 0 && !Active(code, 0)
  {
  }

  lemma {:induction false} SizeOfLast(code: seq<Instr>)
    requires code != []
    ensures var last := |code| - 1;
            && A.CodeSize(ToLines(code)) == A.CodeSize(ToLines(code[..last])) + A.LineSize(ToLine(code[last]))
            && (A.LineSize(ToLine(code[last])) > 0 <==> !code[last].Here?)
  {
    var last := |code| - 1;
    assert ToLines(code)[..last] == ToLines(code[..last]) && ToLines(code)[last] == ToLine(code[last]);
    hide ToLine;
    assert A.LineSize(ToLine(code[last])) > 0 <==> !code[last].Here? by { LabelSize(code[last]); }
    hide A.LineSize;
  }

  lemma LabelSize(i: Instr)
    ensures A.LineSize(ToLine(i)) > 0 <==> !i.Here?
  {
  }

  lemma ActiveLast(code: seq<Instr>)
    requires code != []
    ensures Active(code, 0) <==> Active(code[..|code| - 1], 0) || !code[|code| - 1].Here?
  {
    var last := |code| - 1;
    if Active(code[..last], 0) { ActiveOn(code[..last], code, 0); }
    if !code[last].Here? { ActiveAt(code, 0, last); }
  }

  // What decides whether a program can be built, from the source: its registers last and it is not
  // empty, its variables and labels fit the tables, and its data the data memory.
  ghost predicate Buildable(p: Stmt, vars: seq<D.Variable>, dataMax: nat) {
    && Plan(p, NamesOf(vars), NOTHING).Some? && !Idle(p)
    && |vars| <= D.MAXDATAINFO && LC.Count(p) <= A.MAXLABELS
    && 8 + D.Offset(vars) <= dataMax
  }

  // Loaded code that does what the program says, with the operators of the language, from any start.
  ghost predicate Behaves(code: seq<byte>, p: Stmt, vars: seq<D.Variable>, s: State) {
    var env := EnvOf(Syms(vars));
    && (forall v :: ByteEnds(code, Syms(vars), s, v) <==> Means(p, env, Vars(env, s.mem), Finished(v)))
    && (ByteStops(code, s) <==> Means(p, env, Vars(env, s.mem), Fault))
  }

  // Room in the code buffer, with a byte to spare, and the limits of the loader.
  ghost predicate Roomy(p: Stmt, vars: seq<D.Variable>, codeMax: nat, maxCode: int, maxData: int, stack: nat) {
    && A.HEADER < codeMax < 0x8000_0000_0000_0000 && maxCode < 0x8000_0000_0000_0000 && D.Offset(vars) + stack <= maxData < 0x8000_0000_0000_0000
    && (Code(p, vars).Some? ==>
          var n := A.HEADER + A.CodeSize(ToLines(Code(p, vars).value)); n + 1 < codeMax && n <= maxCode)
  }

  function NamesOf(vars: seq<D.Variable>): set<string> {
    set k | 0 <= k < |vars| :: vars[k].name
  }

  // The loader holds the compiler's table of addresses and what the assembler has written of the data.
  ghost predicate HoldsData(loader: L.Loader, vars: seq<D.Variable>, dataMax: nat)
    reads loader, loader.data
  {
    var ws := D.LandedAll(vars, dataMax);
    && loader.entries == F.Entries(vars, 0)
    && D.VarsOk(ws) && D.Offset(vars) <= loader.data.Length && loader.data[..D.Offset(vars)] == F.DataMemory(ws)
  }

  // Values that an int64 holds, as the compiler demands.
  ghost predicate InRange(vars: seq<D.Variable>) {
    forall k, j | 0 <= k < |vars| && 0 <= j < |vars[k].vals| :: Fits(vars[k].vals[j], 8)
  }

  // Building a program whose blocks fit the slot tables succeeds exactly when it is buildable, and then
  // the loader holds code that behaves as the source says, the addresses and the data.  The values in
  // memory are the declared ones exactly when there was room to write each of them.  Of the other
  // programs only those get through that have too many `?` blocks.
  method BuildAndLoad(source: seq<Line>, vars: seq<D.Variable>, codeMax: nat, dataMax: nat,
                      maxCode: int, maxData: int, stack: nat, ghost p: Stmt)
    returns (ok: bool, loader: L.Loader)
    requires source == Lines(p) && WellFormed(p) && Variables(vars)
    requires 8 <= dataMax && Roomy(p, vars, codeMax, maxCode, maxData, stack)
    ensures SlotsFit(p) ==> (ok <==> Buildable(p, vars, dataMax))
    ensures ok ==> SlotsFit(p) || ManyCases(p)
    ensures ok && SlotsFit(p) ==>
              loader.code.Length > A.HEADER && D.Offset(vars) <= loader.data.Length && HoldsData(loader, vars, dataMax)
    ensures ok && SlotsFit(p) && InRange(vars) ==>
              (loader.data[..D.Offset(vars)] == F.DataMemory(vars) <==> D.AllLand(vars, dataMax))
    ensures ok && SlotsFit(p) ==>
              forall s | Ready0(EnvOf(Syms(vars)), s) :: Behaves(loader.code[A.HEADER..], p, vars, s)
  {
    hide F.Load;
    hide Behaves;
    hide Variables;
    hide WellFormed;
    hide SlotsFit;
    hide ManyCases;
    hide Code;
    hide HoldsData;
    hide InRange;
    hide Plan;
    hide Idle;
    hide D.AllLand;
    hide D.Offset;
    loader := new L.Loader();
    // the compiler refuses one more variable than its table holds
    if |vars| > D.MAXDATAINFO { return false, loader; }
    var code: seq<Instr>;
    ok, code := Compile(source, vars, p);
    if SlotsFit(p) { CodeFromSource(p, vars); }
    if !ok { return; }
    Refused(p, vars);
    var file;
    ok, file := Assemble(code, vars, codeMax, dataMax);
    if SlotsFit(p) { AssemblerTakes(code, vars, codeMax, p); }
    if !ok { return; }
    if SlotsFit(p) { FileLoads(p, vars, dataMax, maxCode, maxData, stack); }
    ok := loader.LoadObject(file, maxCode, maxData, stack);
    if ok && SlotsFit(p) {
      LoadedBehaves(p, vars, maxCode);
      DataHeld(loader, vars, dataMax);
    }
  }

  method Compile(source: seq<Line>, vars: seq<D.Variable>, ghost p: Stmt) returns (ok: bool, code: seq<Instr>)
    requires source == Lines(p) && Variables(vars)
    ensures ok <==> Code(p, vars).Some?
    ensures ok ==> code == Code(p, vars).value
  {
    KeysOf(vars);
    StartsLikeThat(vars, p);
    hide DoLines;
    var compiler := new C.Compiler(NamesOf(vars));
    ok := compiler.ParseLines(source);
    code := compiler.code;
  }

  // The assembler takes any code that is well formed, has all its labels and fits its tables.
  method Assemble(code: seq<Instr>, vars: seq<D.Variable>, codeMax: nat, dataMax: nat)
    returns (ok: bool, file: seq<byte>)
    requires Variables(vars) && |vars| <= D.MAXDATAINFO
    requires 8 <= dataMax && A.HEADER + A.CodeSize(ToLines(code)) + 1 < codeMax
    ensures ok <==> 8 + D.Offset(vars) <= dataMax && Accepts(ToLines(code), Syms(vars))
    ensures ok ==> D.VarsOk(D.LandedAll(vars, dataMax))
                   && file == F.Object(ToLines(code), Syms(vars), D.LandedAll(vars, dataMax))
  {
    AcceptsIs(ToLines(code), Syms(vars));
    hide *;
    file := [];
    var d, syms;
    ok, d, syms := AssembleData(vars, dataMax);
    if !ok { return; }
    var c := new CS.Section(codeMax, syms);
    ok := c.ParseLines(ToLines(code));
    if !ok { return; }
    c.InLine();
    var err := c.WriteCodeLabels();
    if err { return false, []; }
    file := L.DumpObject(c, d);
  }

  // The data block, and what its names stand for.
  method AssembleData(vars: seq<D.Variable>, dataMax: nat) returns (ok: bool, d: D.Section, syms: A.SymbolTable)
    requires Variables(vars) && |vars| <= D.MAXDATAINFO && 8 <= dataMax
    ensures fresh(d) && fresh(d.data)
    ensures ok <==> 8 + D.Offset(vars) <= dataMax
    ensures ok ==> d.Valid() && d.vars == D.LandedAll(vars, dataMax) && D.VarsOk(d.vars) && syms == Syms(vars)
  {
    hide *;
    VariablesOk(vars);
    d := new D.Section(dataMax);
    syms := map[];
    ok := d.DefineAll(vars);
    if !ok { return; }
    syms := map v | v in NamesOf(vars) :: D.Operand(d.info, v);
    TableOfSymbols(d, vars, dataMax, syms);
  }

  lemma VariablesOk(vars: seq<D.Variable>)
    requires Variables(vars)
    ensures D.VarsOk(vars)
  {
  }

  lemma {:induction false} KeysOf(vars: seq<D.Variable>)
    requires Variables(vars)
    ensures Syms(vars).Keys == NamesOf(vars) && "" !in NamesOf(vars)
  {
  }

  lemma {:induction false} TableOfSymbols(d: D.Section, vars: seq<D.Variable>, max: nat, syms: A.SymbolTable)
    requires Variables(vars) && d.Valid() && d.vars == D.LandedAll(vars, max)
    requires syms == map v | v in NamesOf(vars) :: D.Operand(d.info, v)
    ensures syms == Syms(vars) && D.VarsOk(d.vars)
  {
    hide D.Operand;
    hide D.Table;
    D.LandedShape(vars, max);
    KeysOf(vars);
  }

  lemma {:induction false} StartsLikeThat(vars: seq<D.Variable>, p: Stmt)
    requires Variables(vars)
    ensures Code(p, vars)
         == match DoLines(Mode(NamesOf(vars), true, false), Lines(p), Start()) case None => None case Some(c) => Some(c.g.code)
  {
    KeysOf(vars);
    hide DoLines;
    hide Start;
  }

  // The assembler accepts compiled code exactly when its labels fit.
  lemma AssemblerTakes(code: seq<Instr>, vars: seq<D.Variable>, codeMax: int, p: Stmt)
    requires WellFormed(p) && SlotsFit(p) && Variables(vars) && Code(p, vars) == Some(code)
    requires A.HEADER + A.CodeSize(ToLines(code)) <= codeMax < 0x8000_0000_0000_0000
    requires D.Offset(vars) < 0x8000_0000_0000_0000
    ensures A.AllOk(ToLines(code), Syms(vars))
    ensures Accepts(ToLines(code), Syms(vars)) <==> LC.Count(p) <= A.MAXLABELS
  {
    SymsLayout(vars);
    CompiledLinks(p, Syms(vars), codeMax, D.Offset(vars));
    AllDefined(code, Syms(vars));
    Accepted(p, Syms(vars));
  }

  // A well-formed program that compiles has slots for all its blocks, or too many `?` blocks.
  lemma Refused(p: Stmt, vars: seq<D.Variable>)
    requires WellFormed(p) && Code(p, vars).Some?
    ensures SlotsFit(p) || ManyCases(p)
  {
    TooManyBlocks(Standard(EnvOf(Syms(vars))), p);
  }

  lemma FileLoads(p: Stmt, vars: seq<D.Variable>, dataMax: nat, maxCode: int, maxData: int, stack: nat)
    requires WellFormed(p) && SlotsFit(p) && Variables(vars) && Code(p, vars).Some?
    requires var ls := ToLines(Code(p, vars).value);
             A.AllOk(ls, Syms(vars)) && A.HEADER + A.CodeSize(ls) <= maxCode < 0x8000_0000_0000_0000
    requires D.Offset(vars) + stack <= maxData < 0x8000_0000_0000_0000
    ensures var ls := ToLines(Code(p, vars).value); var ws := D.LandedAll(vars, dataMax);
            D.VarsOk(ws) && F.Load(F.Object(ls, Syms(vars), ws), maxCode, maxData, stack)
            == if A.CodeSize(ls) == 0 then None
               else Some(F.Loaded(Image(Code(p, vars).value, Syms(vars)), F.Entries(ws, 0), F.DataMemory(ws)))
  {
    D.LandedShape(vars, dataMax);
    F.RoundTrip(ToLines(Code(p, vars).value), Syms(vars), D.LandedAll(vars, dataMax), maxCode, maxData, stack);
  }

  lemma DataHeld(loader: L.Loader, vars: seq<D.Variable>, dataMax: nat)
    requires Variables(vars)
    requires var ws := D.LandedAll(vars, dataMax);
             && loader.entries == F.Entries(ws, 0) && D.VarsOk(ws)
             && |F.DataMemory(ws)| <= loader.data.Length && loader.data[..|F.DataMemory(ws)|] == F.DataMemory(ws)
    ensures D.Offset(vars) <= loader.data.Length && HoldsData(loader, vars, dataMax) && D.VarsOk(vars)
    ensures InRange(vars) ==> (loader.data[..D.Offset(vars)] == F.DataMemory(vars) <==> D.AllLand(vars, dataMax))
  {
    LandedEntries(vars, dataMax);
    D.LandedShape(vars, dataMax);
    F.MemoryLength(D.LandedAll(vars, dataMax));
    if InRange(vars) { LoadedDeclared(vars, dataMax); }
    hide F.DataMemory;
    hide F.Entries;
    hide D.AllLand;
    hide D.LandedAll;
  }

  lemma LoadedBehaves(p: Stmt, vars: seq<D.Variable>, maxCode: int)
    requires WellFormed(p) && SlotsFit(p) && Variables(vars) && Code(p, vars).Some?
    requires var ls := ToLines(Code(p, vars).value);
             A.AllOk(ls, Syms(vars)) && A.HEADER + A.CodeSize(ls) <= maxCode < 0x8000_0000_0000_0000
    requires D.Offset(vars) < 0x8000_0000_0000_0000
    ensures forall s | Ready0(EnvOf(Syms(vars)), s) :: Behaves(Image(Code(p, vars).value, Syms(vars)), p, vars, s)
  {
    forall s | Ready0(EnvOf(Syms(vars)), s)
      ensures Behaves(Image(Code(p, vars).value, Syms(vars)), p, vars, s)
    {
      RunBehaves(p, vars, maxCode, s);
    }
  }

  lemma RunBehaves(p: Stmt, vars: seq<D.Variable>, maxCode: int, s: State)
    requires WellFormed(p) && SlotsFit(p) && Variables(vars) && Code(p, vars).Some? && Ready0(EnvOf(Syms(vars)), s)
    requires var ls := ToLines(Code(p, vars).value);
             A.AllOk(ls, Syms(vars)) && A.HEADER + A.CodeSize(ls) <= maxCode < 0x8000_0000_0000_0000
    requires D.Offset(vars) < 0x8000_0000_0000_0000
    ensures Behaves(Image(Code(p, vars).value, Syms(vars)), p, vars, s)
  {
    SymsLayout(vars);
    CompiledLinks(p, Syms(vars), maxCode, D.Offset(vars));
    BytesAgree(Code(p, vars).value, Syms(vars), s);
    CompilerCorrect(p, EnvOf(Syms(vars)), s);
    hide ByteEnds;
    hide ByteStops;
    hide Means;
    hide Compiled;
    hide Image;
  }
}
