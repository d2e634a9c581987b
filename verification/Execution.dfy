// The virtual machine on the bytes that the loader leaves in memory, and its agreement with the
// machine that knows labels: resolving labels to byte addresses changes nothing.
module Execution {
  import opened Infix
  import opened Int64
  import opened Bytes
  import opened Registers
  import opened Machine
  import opened Shunt
  import opened Assembly
  import O = Opcodes
  import A = Assembler
  import CS = CodeSection
  import F = ObjectFile

  // Running at a byte address, or stopped by the virtual machine.
  datatype Place = Running(ep: int, s: State) | Halted

  // ---- decoding ----

  function OperandAt(c: seq<byte>, p: nat, ty: O.ArgType): int
    requires p + O.Width(ty) <= |c|
  {
    if O.Width(ty) == 1 then c[p] else F.HostValue(c[p..p + 8])
  }

  function Operands(c: seq<byte>, p: nat, tys: seq<O.ArgType>): (vals: seq<int>)
    requires p + O.Widths(tys) <= |c|
    ensures |vals| == |tys|
  {
    var last := |tys| - 1;
    if last < 0 then []
    else Operands(c, p, tys[..last]) + [OperandAt(c, p + O.Widths(tys[..last]), tys[last])]
  }

  function SetReg(s: State, r: int, x: int): State
    requires 0 <= r < |s.reg|
  {
    s.(reg := s.reg[r := x])
  }

  predicate IsAlu(op: nat) {
    10 <= op <= 13 || 18 <= op <= 31
  }

  // The three-register operations on int64 by opcode.  None where the virtual machine stops, and where C
  // leaves the result open.
  function Alu64(op: nat, x: int, y: int): Option<int> {
    match op
    case 10 => Some(Wrap(x + y))
    case 11 => Some(Wrap(x - y))
    case 12 => Some(Wrap(x * y))
    case 13 => if y == 0 || (x == MIN && y == -1) then None else Some(TDiv(x, y))
    case 18 => if 0 <= y < 64 then Some(Wrap(x * Power(y))) else None
    case 19 => if 0 <= y < 64 then Some(x / Power(y)) else None
    case 20 => Some(Bool(x != 0 && y != 0))
    case 21 => Some(Bool(x != 0 || y != 0))
    case 22 => Some(BitAnd(x, y))
    case 23 => Some(BitOr(x, y))
    case 24 => Some(BitXor(x, y))
    case 25 => if y == 0 || (x == MIN && y == -1) then None else Some(TMod(x, y))
    case 26 => Some(Bool(x == y))
    case 27 => Some(Bool(x != y))
    case 28 => Some(Bool(x > y))
    case 29 => Some(Bool(x < y))
    case 30 => Some(Bool(x >= y))
    case 31 => Some(Bool(x <= y))
    case _ => None
  }

  // One decoded instruction; `next` is the address behind it.  Opcodes that compiled int64 code does
  // not use stop the machine.
  function Act(op: nat, a: seq<int>, next: int, s: State): Place
    requires op < O.MAXOPCODES && |a| == |O.ArgTypes(op)|
  {
    if op == O.JMP then Running(a[0], s)
    else if op == O.JMPI then
      if 0 <= a[0] < |s.reg| then Running(if s.reg[a[0]] != 0 then a[1] else next, s) else Halted
    else if op == O.LOADA then
      if a[0] + a[1] in s.mem && 0 <= a[2] < |s.reg| then Running(next, SetReg(s, a[2], s.mem[a[0] + a[1]])) else Halted
    else if op == O.LOAD then
      if 0 <= a[2] < |s.reg| then Running(next, SetReg(s, a[2], a[0] + a[1])) else Halted
    else if op == PULLQW then
      if 0 <= a[0] < |s.reg| && 0 <= a[1] < |s.reg| && 0 <= a[2] < |s.reg| && s.reg[a[1]] + s.reg[a[2]] in s.mem
      then Running(next, s.(mem := s.mem[s.reg[a[1]] + s.reg[a[2]] := s.reg[a[0]]])) else Halted
    else if IsAlu(op) then
      if 0 <= a[0] < |s.reg| && 0 <= a[1] < |s.reg| && 0 <= a[2] < |s.reg| then
        match Alu64(op, s.reg[a[0]], s.reg[a[1]])
        case None => Halted
        case Some(x) => Running(next, SetReg(s, a[2], x))
      else Halted
    else Halted
  }

  // One step of a machine whose code section `c` starts at address 16; it rests outside the code.
  function Tick(c: seq<byte>, x: Place): Place {
    if x.Halted? || x.ep < A.HEADER || x.ep >= A.HEADER + |c| then x
    else
      var k := x.ep - A.HEADER;
      if !InstrAt(c, k) then Halted
      else Act(c[k], Operands(c, k + 1, O.ArgTypes(c[k])), x.ep + O.InstrSize(c[k]), x.s)
  }

  predicate InstrAt(c: seq<byte>, k: nat) {
    k < |c| && c[k] < O.MAXOPCODES && k + O.InstrSize(c[k]) <= |c|
  }

  function Ticks(c: seq<byte>, n: nat, x: Place): Place {
    if n == 0 then x else Ticks(c, n - 1, Tick(c, x))
  }

  lemma {:induction false} Rests(c: seq<byte>, n: nat, x: Place)
    requires x.Halted? || x.ep == A.HEADER + |c|
    ensures Ticks(c, n, x) == x
  {
    if n > 0 { Rests(c, n - 1, x); }
  }

  // ---- operands read back ----

  // Register numbers fit a byte and the rest eight.
  ghost predicate Representable(tys: seq<O.ArgType>, vals: seq<int>) {
    |tys| == |vals| && forall j | 0 <= j < |tys| :: if O.Width(tys[j]) == 1 then 0 <= vals[j] < 256 else Fits(vals[j], 8)
  }

  lemma OneBack(ty: O.ArgType, v: int)
    requires if O.Width(ty) == 1 then 0 <= v < 256 else Fits(v, 8)
    ensures |Word(v, O.Width(ty))| == O.Width(ty)
    ensures if O.Width(ty) == 1 then Reverse(Word(v, O.Width(ty)))[0] == v
            else O.Width(ty) == 8 && F.HostValue(Reverse(Word(v, O.Width(ty)))) == v
  {
    if O.Width(ty) == 1 {
      assert Word(v, 1) == [v % 256];
    } else {
      ReverseTwice(Word(v, 8));
      SignedWord(v, 8);
    }
  }

  lemma {:induction false} OperandsBack(pre: seq<byte>, tys: seq<O.ArgType>, vals: seq<int>, rest: seq<byte>)
    requires |tys| == |vals| && Representable(tys, vals)
    ensures O.Widths(tys) == |F.SwapArgs(tys, O.EncodeArgs(tys, vals))|
    ensures Operands(pre + F.SwapArgs(tys, O.EncodeArgs(tys, vals)) + rest, |pre|, tys) == vals
  {
    hide *;
    if |tys| == 0 {
      NoOperands(pre, tys, vals, rest);
    } else {
      var last := |tys| - 1;
      OperandsUnfold(tys, vals);
      var m, w := F.SwapArgs(tys[..last], O.EncodeArgs(tys[..last], vals[..last])), Reverse(Word(vals[last], O.Width(tys[last])));
      var c := pre + F.SwapArgs(tys, O.EncodeArgs(tys, vals)) + rest;
      assert c == pre + m + (w + rest);
      OperandsBack(pre, tys[..last], vals[..last], w + rest);
      LastOperand(pre + m, w, rest, c);
      OperandsStep(c, |pre|, tys);
      OperandValue(c, |pre + m|, w, tys[last], vals[last]);
      assert vals == vals[..last] + [vals[last]];
    }
  }

  lemma NoOperands(pre: seq<byte>, tys: seq<O.ArgType>, vals: seq<int>, rest: seq<byte>)
    requires |tys| == |vals| == 0
    ensures O.Widths(tys) == |F.SwapArgs(tys, O.EncodeArgs(tys, vals))|
    ensures Operands(pre + F.SwapArgs(tys, O.EncodeArgs(tys, vals)) + rest, |pre|, tys) == vals
  {
  }

  lemma OperandsUnfold(tys: seq<O.ArgType>, vals: seq<int>)
    requires |tys| == |vals| && Representable(tys, vals) && |tys| > 0
    ensures var last := |tys| - 1; var v, ty := vals[last], tys[last];
            && Representable(tys[..last], vals[..last])
            && (if O.Width(ty) == 1 then 0 <= v < 256 else Fits(v, 8))
            && O.Widths(tys) == O.Widths(tys[..last]) + O.Width(ty)
            && |F.SwapArgs(tys, O.EncodeArgs(tys, vals))| == O.Widths(tys)
            && F.SwapArgs(tys, O.EncodeArgs(tys, vals))
               == F.SwapArgs(tys[..last], O.EncodeArgs(tys[..last], vals[..last])) + Reverse(Word(v, O.Width(ty)))
            && |Reverse(Word(v, O.Width(ty)))| == O.Width(ty)
  {
    hide Word;
    hide Reverse;
    hide Fits;
    var last := |tys| - 1;
    var a, w := O.EncodeArgs(tys[..last], vals[..last]), Word(vals[last], O.Width(tys[last]));
    assert O.EncodeArgs(tys, vals) == a + w && (a + w)[..|a|] == a && (a + w)[|a|..] == w;
  }

  lemma LastOperand(a: seq<byte>, w: seq<byte>, rest: seq<byte>, c: seq<byte>)
    requires c == a + (w + rest)
    ensures |a| + |w| <= |c| && c[|a|..|a| + |w|] == w
  {
  }

  lemma OperandsStep(c: seq<byte>, p: nat, tys: seq<O.ArgType>)
    requires |tys| > 0 && p + O.Widths(tys) <= |c| && O.Widths(tys) == O.Widths(tys[..|tys| - 1]) + O.Width(tys[|tys| - 1])
    ensures var last := |tys| - 1;
            Operands(c, p, tys) == Operands(c, p, tys[..last]) + [OperandAt(c, p + O.Widths(tys[..last]), tys[last])]
  {
  }

  lemma OperandValue(c: seq<byte>, p: nat, w: seq<byte>, ty: O.ArgType, v: int)
    requires p + |w| <= |c| && c[p..p + |w|] == w && w == Reverse(Word(v, O.Width(ty)))
    requires if O.Width(ty) == 1 then 0 <= v < 256 else Fits(v, 8)
    ensures |w| == O.Width(ty) && OperandAt(c, p, ty) == v
  {
    OneBack(ty, v);
    if O.Width(ty) == 1 { assert c[p..p + |w|][0] == c[p]; }
  }

  // Line k's instruction is decoded as it was written.
  lemma DecodeLine(ls: seq<A.Line>, syms: A.SymbolTable, f: string -> int, k: nat)
    requires A.AllOk(ls, syms) && k < |ls| && ls[k].Inst?
    requires Representable(O.ArgTypes(ls[k].op), A.Values(ls[k], syms, f))
    ensures var c := F.Memory(ls, syms, f); var i := A.CodeSize(ls[..k]);
            && CS.Start(ls, k) == A.HEADER + i && CS.Start(ls, k + 1) == A.HEADER + i + O.InstrSize(ls[k].op)
            && i + O.InstrSize(ls[k].op) <= |c| == A.CodeSize(ls) && InstrAt(c, i)
            && c[i] == ls[k].op < O.MAXOPCODES
            && Operands(c, i + 1, O.ArgTypes(ls[k].op)) == A.Values(ls[k], syms, f)
  {
    hide *;
    LineFacts(ls, syms, f, k);
    var c, i, j := F.Memory(ls, syms, f), A.CodeSize(ls[..k]), A.CodeSize(ls[..k + 1]);
    var tys, vals := O.ArgTypes(ls[k].op), A.Values(ls[k], syms, f);
    var m := F.SwapArgs(tys, O.EncodeArgs(tys, vals));
    OperandsBack(c[..i] + [ls[k].op], tys, vals, c[j..]);
    CutAround(c, i, ls[k].op, m, c[j..]);
    InstrIs(c, i);
  }

  lemma InstrIs(c: seq<byte>, k: nat)
    requires k < |c| && k + O.InstrSize(c[k]) <= |c| && c[k] < O.MAXOPCODES
    ensures InstrAt(c, k)
  {
  }

  lemma CutAround(c: seq<byte>, i: nat, op: byte, m: seq<byte>, rest: seq<byte>)
    requires i <= |c| && c[i..] == [op] + m + rest
    ensures i < |c| && c == c[..i] + [op] + m + rest && c[i] == op && |c[..i] + [op]| == i + 1
  {
    assert c == c[..i] + c[i..];
    assert c[i] == c[i..][0];
  }

  lemma LineFacts(ls: seq<A.Line>, syms: A.SymbolTable, f: string -> int, k: nat)
    requires A.AllOk(ls, syms) && k < |ls| && ls[k].Inst?
    ensures A.LineOk(ls[k], syms) && ls[k].op < O.MAXOPCODES <= 256 && |O.ArgTypes(ls[k].op)| == |A.Values(ls[k], syms, f)|
    ensures var c := F.Memory(ls, syms, f); var i := A.CodeSize(ls[..k]); var j := A.CodeSize(ls[..k + 1]);
            var tys, vals := O.ArgTypes(ls[k].op), A.Values(ls[k], syms, f);
            && CS.Start(ls, k) == A.HEADER + i && CS.Start(ls, k + 1) == A.HEADER + j
            && j == i + O.InstrSize(ls[k].op) <= |c| == A.CodeSize(ls)
            && |O.EncodeArgs(tys, vals)| == O.Widths(tys) && O.InstrSize(ls[k].op) == 1 + O.Widths(tys)
            && c[i..] == [ls[k].op] + F.SwapArgs(tys, O.EncodeArgs(tys, vals)) + c[j..]
  {
    F.MemorySplit(ls, syms, f, k);
    InstrMemory(ls[k], syms, f);
    hide F.MemLine;
    hide F.Memory;
    hide A.Encode;
  }

  lemma InstrMemory(l: A.Line, syms: A.SymbolTable, f: string -> int)
    requires A.LineOk(l, syms) && l.Inst?
    ensures F.MemLine(l, syms, f) == [l.op] + F.SwapArgs(O.ArgTypes(l.op), O.EncodeArgs(O.ArgTypes(l.op), A.Values(l, syms, f)))
  {
    var w := A.EncodeLine(l, syms, f);
    assert w[1..] == O.EncodeArgs(O.ArgTypes(l.op), A.Values(l, syms, f));
  }
}
