// The code section of the assembler.  The first pass writes instructions with label numbers in place
// of addresses; write_code_labels then walks the code and puts the addresses in.
module Assembler {
  import opened Bytes
  import opened Opcodes

  const MAXLABELS: nat := 4096
  const HEADER: nat := 16

  datatype Arg = Num(n: int) | Ref(name: string)

  datatype Line = Def(name: string) | Inst(op: nat, args: seq<Arg>)

  // A label and the position of its last definition so far, -1 when there is none.
  datatype Entry = Entry(name: string, pos: int)

  type SymbolTable = map<string, int>

  predicate ArgOk(a: Arg, ty: ArgType, data: SymbolTable) {
    match ty
    case DataRef => a.Ref? && a.name in data
    case LabelRef => a.Ref?
    case _ => a.Num?
  }

  // The first n operands are of the right types.
  predicate ArgsOk(args: seq<Arg>, tys: seq<ArgType>, data: SymbolTable, n: nat) {
    n <= |args| && |args| == |tys| && forall j | 0 <= j < n :: ArgOk(args[j], tys[j], data)
  }

  predicate LineOk(l: Line, data: SymbolTable) {
    l.Inst? ==>
      && l.op < MAXOPCODES && |l.args| == |ArgTypes(l.op)|
      && ArgsOk(l.args, ArgTypes(l.op), data, |l.args|)
  }

  ghost predicate AllOk(ls: seq<Line>, data: SymbolTable) {
    forall k | 0 <= k < |ls| :: LineOk(ls[k], data)
  }

  // Which operand of an instruction is a label, if any, and where its bytes start.
  function LabelArg(op: nat): int {
    if op == JMP || op == LOADL || op == JSR then 0
    else if op == JMPI then 1
    else if op == INCLSIJMPI || op == DECGRIJMPI then 2
    else -1
  }

  predicate UsesLabel(l: Line, data: SymbolTable, name: string) {
    l.Inst? && LineOk(l, data) && LabelArg(l.op) >= 0 && l.args[LabelArg(l.op)].name == name
  }

  // ---- the code that a list of lines stands for, given the value of each label ----

  ghost function ArgValue(a: Arg, data: SymbolTable, ty: ArgType, f: string -> int): int
    requires ArgOk(a, ty, data)
  {
    match ty
    case DataRef => data[a.name]
    case LabelRef => f(a.name)
    case _ => a.n
  }

  ghost function Values(l: Line, data: SymbolTable, f: string -> int): (vals: seq<int>)
    requires l.Inst? && LineOk(l, data)
    ensures |vals| == |l.args|
  {
    seq(|l.args|, j requires 0 <= j < |l.args| => ArgValue(l.args[j], data, ArgTypes(l.op)[j], f))
  }

  ghost function EncodeLine(l: Line, data: SymbolTable, f: string -> int): (w: seq<byte>)
    requires LineOk(l, data)
    ensures |w| == LineSize(l)
  {
    if l.Def? then [] else EncodeInstr(l.op, Values(l, data, f))
  }

  function LineSize(l: Line): nat {
    if l.Def? then 0 else InstrSize(l.op)
  }

  function CodeSize(ls: seq<Line>): nat {
    var last := |ls| - 1;
    if last < 0 then 0 else CodeSize(ls[..last]) + LineSize(ls[last])
  }

  lemma {:induction false} SizesUpTo(ls: seq<Line>, k: nat)
    requires k <= |ls|
    ensures CodeSize(ls[..k]) <= CodeSize(ls)
  {
    var last := |ls| - 1;
    if k <= last {
      assert ls[..last][..k] == ls[..k];
      SizesUpTo(ls[..last], k);
    } else {
      assert ls[..k] == ls;
    }
  }

  ghost function Encode(ls: seq<Line>, data: SymbolTable, f: string -> int): (w: seq<byte>)
    requires AllOk(ls, data)
    ensures |w| == CodeSize(ls)
  {
    var last := |ls| - 1;
    if last < 0 then [] else Encode(ls[..last], data, f) + EncodeLine(ls[last], data, f)
  }

  // The position of a label's last definition, -1 when it has none.
  function DefPos(ls: seq<Line>, name: string): int {
    var last := |ls| - 1;
    if last < 0 then -1
    else if ls[last] == Def(name) then HEADER + CodeSize(ls[..last])
    else DefPos(ls[..last], name)
  }

  ghost function Addresses(ls: seq<Line>): string -> int {
    name => DefPos(ls, name)
  }

  // ---- the label table ----

  function FindLabel(t: seq<Entry>, name: string): (r: int)
    ensures r == -1 ==> forall k | 0 <= k < |t| :: t[k].name != name
    ensures r != -1 ==> 0 <= r < |t| && t[r].name == name && forall k | 0 <= k < r :: t[k].name != name
  {
    FindFrom(t, name, 0)
  }

  function FindFrom(t: seq<Entry>, name: string, from: nat): (r: int)
    requires from <= |t|
    ensures r == -1 ==> forall k | from <= k < |t| :: t[k].name != name
    ensures r != -1 ==> from <= r < |t| && t[r].name == name && forall k | from <= k < r :: t[k].name != name
    decreases |t| - from
  {
    if from == |t| then -1 else if t[from].name == name then from else FindFrom(t, name, from + 1)
  }

  ghost function Numbers(t: seq<Entry>): string -> int {
    name => FindLabel(t, name)
  }

  // A label definition and a label operand both enter the label; the definition sets its position.
  function Define(t: seq<Entry>, name: string, pos: int): seq<Entry> {
    var k := FindLabel(t, name);
    if k == -1 then t + [Entry(name, pos)] else t[k := Entry(name, pos)]
  }

  function MentionArg(t: seq<Entry>, a: Arg): seq<Entry> {
    if a.Ref? && FindLabel(t, a.name) == -1 then t + [Entry(a.name, -1)] else t
  }

  function Enter(t: seq<Entry>, l: Line, data: SymbolTable, pos: int): seq<Entry>
    requires LineOk(l, data)
  {
    if l.Def? then Define(t, l.name, pos)
    else if LabelArg(l.op) >= 0 then MentionArg(t, l.args[LabelArg(l.op)])
    else t
  }

  // The table knows every label of the lines, with the position of its last definition.
  ghost predicate Table(t: seq<Entry>, ls: seq<Line>, data: SymbolTable) {
    && Apart(t)
    && (forall i | 0 <= i < |t| :: t[i].pos == DefPos(ls, t[i].name))
    && (forall k, name | 0 <= k < |ls| && (ls[k] == Def(name) || UsesLabel(ls[k], data, name)) :: FindLabel(t, name) != -1)
  }

  lemma {:induction false} UndefinedHas(ls: seq<Line>, name: string)
    ensures DefPos(ls, name) >= -1
    ensures DefPos(ls, name) == -1 <==> Def(name) !in ls
  {
    var last := |ls| - 1;
    if last >= 0 {
      UndefinedHas(ls[..last], name);
      assert ls == ls[..last] + [ls[last]];
    }
  }

  ghost predicate Apart(t: seq<Entry>) {
    forall i, j | 0 <= i < j < |t| :: t[i].name != t[j].name
  }

  // What entering a line's label does to the table.
  lemma Entered(t: seq<Entry>, l: Line, data: SymbolTable, pos: int)
    requires Apart(t) && LineOk(l, data)
    ensures var u := Enter(t, l, data, pos);
            && Apart(u) && |t| <= |u| <= |t| + 1
            && (forall i | 0 <= i < |t| :: u[i] == if l == Def(t[i].name) then Entry(t[i].name, pos) else t[i])
            && (|u| > |t| ==> FindLabel(t, u[|t|].name) == -1 && u[|t|].pos == if l.Def? then pos else -1)
            && (|u| > |t| && l.Def? ==> l.name == u[|t|].name)
            && (forall name | FindLabel(t, name) != -1 :: FindLabel(u, name) == FindLabel(t, name))
            && (forall name | l == Def(name) || UsesLabel(l, data, name) :: FindLabel(u, name) != -1)
  {
    var u := Enter(t, l, data, pos);
    forall name | FindLabel(t, name) != -1
      ensures FindLabel(u, name) == FindLabel(t, name)
    {
      var k := FindLabel(t, name);
      assert u[k].name == name && forall j | 0 <= j < k :: u[j].name == t[j].name;
    }
    if |u| > |t| { assert FindLabel(u, u[|t|].name) != -1; }
  }

  lemma TableGrows(t: seq<Entry>, ls: seq<Line>, data: SymbolTable, l: Line)
    requires Table(t, ls, data) && LineOk(l, data)
    ensures Table(Enter(t, l, data, HEADER + CodeSize(ls)), ls + [l], data)
    ensures forall name | FindLabel(t, name) != -1 ::
              FindLabel(Enter(t, l, data, HEADER + CodeSize(ls)), name) == FindLabel(t, name)
  {
    hide LineOk;
    hide CodeSize;
    hide LabelArg;
    var pos := HEADER + CodeSize(ls);
    var u := Enter(t, l, data, pos);
    var ms := ls + [l];
    Entered(t, l, data, pos);
    assert ms[..|ls|] == ls;
    hide Enter;
    forall i | 0 <= i < |u|
      ensures u[i].pos == DefPos(ms, u[i].name)
    {
      if i == |t| { NewLabel(t, ls, data, u[i].name); }
    }
    forall k, name | 0 <= k < |ms| && (ms[k] == Def(name) || UsesLabel(ms[k], data, name))
      ensures FindLabel(u, name) != -1
    {
      if k < |ls| { assert ms[k] == ls[k]; }
    }
  }

  lemma NewLabel(t: seq<Entry>, ls: seq<Line>, data: SymbolTable, name: string)
    requires Table(t, ls, data) && FindLabel(t, name) == -1
    ensures DefPos(ls, name) == -1
  {
    UndefinedHas(ls, name);
    assert forall k | 0 <= k < |ls| :: ls[k] != Def(name);
  }

  // Only labels that occur matter.
  lemma {:induction false} EncodeAgrees(ls: seq<Line>, data: SymbolTable, f: string -> int, g: string -> int)
    requires AllOk(ls, data)
    requires forall k, name | 0 <= k < |ls| && UsesLabel(ls[k], data, name) :: f(name) == g(name)
    ensures Encode(ls, data, f) == Encode(ls, data, g)
  {
    var last := |ls| - 1;
    if last >= 0 {
      assert forall k | 0 <= k < last :: ls[..last][k] == ls[k];
      EncodeAgrees(ls[..last], data, f, g);
      if ls[last].Inst? {
        LineAgrees(ls[last], data, f, g);
      }
    }
  }

  lemma LineAgrees(l: Line, data: SymbolTable, f: string -> int, g: string -> int)
    requires LineOk(l, data)
    requires forall name | UsesLabel(l, data, name) :: f(name) == g(name)
    ensures EncodeLine(l, data, f) == EncodeLine(l, data, g)
  {
    if l.Inst? {
      assert LabelArg(l.op) >= 0 ==> UsesLabel(l, data, l.args[LabelArg(l.op)].name);
      assert Values(l, data, f) == Values(l, data, g);
    }
  }

  // ---- how many labels there are ----

  // The labels that lines define or use.
  ghost function Named(ls: seq<Line>, data: SymbolTable): set<string>
    requires AllOk(ls, data)
  {
    var last := |ls| - 1;
    if last < 0 then {} else Named(ls[..last], data) + NamedIn(ls[last])
  }

  ghost function NamedIn(l: Line): set<string> {
    if l.Def? then {l.name}
    else if 0 <= LabelArg(l.op) < |l.args| && l.args[LabelArg(l.op)].Ref? then {l.args[LabelArg(l.op)].name}
    else {}
  }

  // The table after reading some lines.
  ghost function TableOf(ls: seq<Line>, data: SymbolTable): seq<Entry>
    requires AllOk(ls, data)
  {
    var last := |ls| - 1;
    if last < 0 then [] else Enter(TableOf(ls[..last], data), ls[last], data, HEADER + CodeSize(ls[..last]))
  }

  // It has one entry for each of them.
  lemma {:induction false} TableCounts(ls: seq<Line>, data: SymbolTable)
    requires AllOk(ls, data)
    ensures |TableOf(ls, data)| == |Named(ls, data)| && Lists(TableOf(ls, data), Named(ls, data))
  {
    hide LineOk;
    hide Enter;
    hide Lists;
    var last := |ls| - 1;
    if last < 0 {
      NoneListed();
    } else {
      TableCounts(ls[..last], data);
      EnterCounts(TableOf(ls[..last], data), Named(ls[..last], data), ls[last], data, HEADER + CodeSize(ls[..last]));
    }
  }

  ghost predicate Lists(t: seq<Entry>, names: set<string>) {
    forall name :: name in names <==> exists k :: 0 <= k < |t| && t[k].name == name
  }

  lemma NoneListed()
    ensures Lists([], {})
  {
  }

  lemma EnterCounts(t: seq<Entry>, names: set<string>, l: Line, data: SymbolTable, pos: int)
    requires LineOk(l, data) && |t| == |names| && Lists(t, names)
    ensures |Enter(t, l, data, pos)| == |names + NamedIn(l)| && Lists(Enter(t, l, data, pos), names + NamedIn(l))
  {
    if NamedIn(l) == {} {
      assert names + NamedIn(l) == names;
    } else {
      var n := if l.Def? then l.name else l.args[LabelArg(l.op)].name;
      assert NamedIn(l) == {n};
      EnterOne(t, names, n, Enter(t, l, data, pos));
    }
  }

  lemma EnterOne(t: seq<Entry>, names: set<string>, n: string, u: seq<Entry>)
    requires |t| == |names| && Lists(t, names)
    requires if FindLabel(t, n) != -1 then |u| == |t| && forall k | 0 <= k < |t| :: u[k].name == t[k].name
             else |u| == |t| + 1 && u[..|t|] == t && u[|t|].name == n
    ensures |u| == |names + {n}| && Lists(u, names + {n})
  {
    var k := FindLabel(t, n);
    hide FindLabel;
    if k != -1 {
      assert t[k].name == n;
      assert names + {n} == names;
      forall name
        ensures name in names <==> exists i :: 0 <= i < |u| && u[i].name == name
      {
        if i :| 0 <= i < |t| && t[i].name == name { assert u[i].name == name; }
        if i :| 0 <= i < |u| && u[i].name == name { assert t[i].name == name; }
      }
    } else {
      assert n !in names;
      forall name
        ensures name in names + {n} <==> exists i :: 0 <= i < |u| && u[i].name == name
      {
        if i :| 0 <= i < |t| && t[i].name == name { assert u[i].name == name; }
        if i :| 0 <= i < |u| && u[i].name == name { assert i < |t| ==> t[i].name == name; }
        if name == n { assert u[|t|].name == name; }
      }
    }
  }

  // ---- the bytes of a label operand ----

  // The hand-written positions of write_code_labels are where the opcode table puts the label.
  function LabelByte(op: nat): nat {
    if op == JMP || op == LOADL || op == JSR then 1
    else if op == JMPI then 2
    else 3
  }

  lemma LabelPlace(l: Line, data: SymbolTable, f: string -> int)
    requires LineOk(l, data) && l.Inst? && LabelArg(l.op) >= 0
    ensures var d := LabelByte(l.op); var name := l.args[LabelArg(l.op)].name;
            && d + 8 <= LineSize(l)
            && EncodeLine(l, data, f)[d..d + 8] == Word(f(name), 8)
            && forall g: string -> int :: EncodeLine(l, data, g) ==
                 EncodeLine(l, data, f)[..d] + Word(g(name), 8) + EncodeLine(l, data, f)[d + 8..]
  {
    var d := LabelByte(l.op);
    var name := l.args[LabelArg(l.op)].name;
    LabelPlaceOf(l, data, f);
    forall g: string -> int
      ensures EncodeLine(l, data, g) == EncodeLine(l, data, f)[..d] + Word(g(name), 8) + EncodeLine(l, data, f)[d + 8..]
    {
      LabelPlaceOf(l, data, g);
    }
  }

  ghost function Front(l: Line, data: SymbolTable): seq<byte>
    requires LineOk(l, data) && l.Inst? && LabelArg(l.op) >= 0
  {
    if LabelArg(l.op) == 0 then [l.op]
    else if l.op == JMPI then [l.op] + Word(l.args[0].n, 1)
    else [l.op] + Word(l.args[0].n, 1) + Word(l.args[1].n, 1)
  }

  ghost function Back(l: Line, data: SymbolTable): seq<byte>
    requires LineOk(l, data) && l.Inst? && LabelArg(l.op) >= 0
  {
    if l.op == LOADL then Word(l.args[1].n, 1) else []
  }

  lemma LabelPlaceOf(l: Line, data: SymbolTable, f: string -> int)
    requires LineOk(l, data) && l.Inst? && LabelArg(l.op) >= 0
    ensures var name := l.args[LabelArg(l.op)].name;
            EncodeLine(l, data, f) == Front(l, data) + Word(f(name), 8) + Back(l, data)
    ensures |Front(l, data)| == LabelByte(l.op)
  {
    hide Word;
    hide EncodeArgs;
    var tys, vals := ArgTypes(l.op), Values(l, data, f);
    EncodeUnfold(tys, vals);
  }

  lemma EncodeUnfold(tys: seq<ArgType>, vals: seq<int>)
    requires |tys| == |vals| && 1 <= |tys| <= 3
    ensures |tys| == 1 ==> EncodeArgs(tys, vals) == Word(vals[0], Width(tys[0]))
    ensures |tys| == 2 ==> EncodeArgs(tys, vals) == Word(vals[0], Width(tys[0])) + Word(vals[1], Width(tys[1]))
    ensures |tys| == 3 ==>
              EncodeArgs(tys, vals)
              == Word(vals[0], Width(tys[0])) + Word(vals[1], Width(tys[1])) + Word(vals[2], Width(tys[2]))
  {
    assert EncodeArgs([], []) == [];
    if |tys| > 1 {
      EncodeUnfold(tys[..|tys| - 1], vals[..|tys| - 1]);
    }
  }
}
