// The assembler's code buffer: parse_line fills it, write_code_labels patches it.
module CodeSection {
  import opened Bytes
  import opened Opcodes
  import opened Assembler
  import opened Sets

  // Line k starts at this place.
  ghost function Start(ls: seq<Line>, k: nat): nat
    requires k <= |ls|
  {
    HEADER + CodeSize(ls[..k])
  }

  lemma {:induction false} EncodeSplit(ls: seq<Line>, data: SymbolTable, f: string -> int, k: nat)
    requires AllOk(ls, data) && k < |ls|
    ensures Start(ls, k) + LineSize(ls[k]) <= HEADER + CodeSize(ls)
    ensures var w := Encode(ls, data, f); var i := CodeSize(ls[..k]);
            w[i..i + LineSize(ls[k])] == EncodeLine(ls[k], data, f)
  {
    hide EncodeLine;
    hide LineSize;
    hide LineOk;
    var last := |ls| - 1;
    var v, e := Encode(ls[..last], data, f), EncodeLine(ls[last], data, f);
    var i := CodeSize(ls[..k]);
    if k < last {
      assert ls[..last][..k] == ls[..k];
      EncodeSplit(ls[..last], data, f, k);
      assert (v + e)[i..i + LineSize(ls[k])] == v[i..i + LineSize(ls[k])];
    } else {
      assert (v + e)[|v|..] == e;
    }
  }

  // The next instruction at or after line k, past label definitions, which take no room.
  lemma {:induction false} NextInst(ls: seq<Line>, data: SymbolTable, k: nat) returns (n: nat)
    requires AllOk(ls, data) && k <= |ls|
    ensures k <= n <= |ls| && Start(ls, n) == Start(ls, k)
    ensures (forall j | k <= j < n :: ls[j].Def?) && (n < |ls| ==> ls[n].Inst?)
    ensures if n == |ls| then Start(ls, k) == HEADER + CodeSize(ls) else Start(ls, k) < HEADER + CodeSize(ls)
    decreases |ls| - k
  {
    hide Encode;
    hide CodeSize;
    if k == |ls| {
      assert ls[..k] == ls;
      n := k;
    } else if ls[k].Inst? {
      EncodeSplit(ls, data, Addresses(ls), k);
      n := k;
    } else {
      SkipDef(ls, data, Addresses(ls), k);
      n := NextInst(ls, data, k + 1);
    }
  }

  lemma SkipDef(ls: seq<Line>, data: SymbolTable, f: string -> int, k: nat)
    requires AllOk(ls, data) && k < |ls| && ls[k].Def?
    ensures Start(ls, k + 1) == Start(ls, k) && Encode(ls[..k + 1], data, f) == Encode(ls[..k], data, f)
  {
    assert ls[..k + 1][..k] == ls[..k];
  }

  // One of the first n lines refers to a label that no line defines.
  ghost predicate Dangling(ls: seq<Line>, data: SymbolTable, n: nat)
    requires n <= |ls|
  {
    exists k :: 0 <= k < n && Misses(ls[k], data, ls)
  }

  ghost predicate Misses(l: Line, data: SymbolTable, ls: seq<Line>) {
    exists name :: UsesLabel(l, data, name) && Def(name) !in ls
  }

  // The guards of write_code_byte and write_code_quadword.
  predicate HasRoom(at: nat, n: nat, max: nat) {
    if n <= 1 then at + n <= max else at + n < max
  }

  ghost function PutCode(d: seq<byte>, at: nat, w: seq<byte>): (r: seq<byte>)
    ensures |r| == |d|
  {
    if HasRoom(at, |w|, |d|) then d[..at] + w + d[at + |w|..] else d
  }

  lemma PutWhole(d: seq<byte>, at: nat, w: seq<byte>)
    requires at + |w| < |d|
    ensures PutCode(d, at, w)[..at + |w|] == d[..at] + w
  {
  }

  // How many lines are read: the first one that would start at the last byte or behind it ends it.
  ghost function LinesRead(ls: seq<Line>, max: nat, k: nat): (n: nat)
    requires k <= |ls|
    ensures k <= n <= |ls|
    decreases |ls| - k
  {
    if k == |ls| || Start(ls, k) + 1 >= max then k else LinesRead(ls, max, k + 1)
  }

  lemma {:induction false} ReadUpTo(ls: seq<Line>, max: nat, from: nat, k: nat)
    requires from <= |ls| && from <= k <= LinesRead(ls, max, from)
    ensures var n := LinesRead(ls, max, from);
            && (k < n <==> k < |ls| && Start(ls, k) + 1 < max)
            && HEADER + CodeSize(ls[..n][..k]) == Start(ls, k)
    decreases k - from
  {
    assert ls[..LinesRead(ls, max, from)][..k] == ls[..k];
    if from < k { ReadUpTo(ls, max, from + 1, k); }
  }

  lemma {:induction false} ReadAll(ls: seq<Line>, max: nat, k: nat)
    requires k <= |ls| && HEADER + CodeSize(ls) + 1 < max
    ensures LinesRead(ls, max, k) == |ls| && ls[..|ls|] == ls
    decreases |ls| - k
  {
    SizesUpTo(ls, k);
    if k < |ls| { ReadAll(ls, max, k + 1); }
  }

  class Section {
    const code: array<byte>
    const data: SymbolTable
    var codeInd: nat
    var labels: seq<Entry>
    ghost var lines: seq<Line>

    // The lines read so far, and their labels.
    ghost predicate Listed()
      reads this
    {
      && AllOk(lines, data) && Table(labels, lines, data) && |labels| <= MAXLABELS
      && codeInd == HEADER + CodeSize(lines)
    }

    // They stand in the buffer, with the numbers of their labels.
    ghost predicate Valid()
      reads this, code
    {
      Listed() && codeInd <= code.Length && code[HEADER..codeInd] == Encode(lines, data, Numbers(labels))
    }

    constructor (codeMax: nat, data: SymbolTable)
      requires HEADER <= codeMax
      ensures Valid() && fresh(code) && code.Length == codeMax && this.data == data && lines == [] && labels == []
    {
      code := new byte[codeMax](_ => 0);
      this.data := data;
      codeInd := HEADER;
      labels := [];
      lines := [];
    }

    method GetLabelPos(name: string) returns (r: int)
      ensures r == FindLabel(labels, name)
    {
      for i := 0 to |labels|
        invariant FindLabel(labels, name) == FindFrom(labels, name, i)
      {
        if labels[i].name == name { return i; }
      }
      return -1;
    }

    method ReadQuadword(at: nat) returns (v: int)
      requires at + 8 <= code.Length
      ensures v == Signed(code[at..at + 8])
    {
      v := Signed(code[at..at + 8]);
    }

    // Near the end of the buffer nothing is written, and that is no error; the place moves on.
    method WriteCode(w: seq<byte>)
      modifies this`codeInd, code
      ensures code[..] == PutCode(old(code[..]), old(codeInd), w)
      ensures codeInd == old(codeInd) + |w|
    {
      if HasRoom(codeInd, |w|, code.Length) { WriteBytes(code, codeInd, w); }
      codeInd := codeInd + |w|;
    }

    // One operand of an instruction; a label that is new enters the table without a position.
    method ParseArg(a: Arg, ty: ArgType) returns (ok: bool)
      requires |labels| <= MAXLABELS
      modifies this, code
      ensures lines == old(lines)
      ensures ok <==> ArgOk(a, ty, data) && (ty.LabelRef? ==> |MentionArg(old(labels), a)| <= MAXLABELS)
      ensures ok ==> labels == if ty.LabelRef? then MentionArg(old(labels), a) else old(labels)
      ensures ok ==> codeInd == old(codeInd) + Width(ty)
      ensures ok ==> code[..] == PutCode(old(code[..]), old(codeInd), Word(ArgValue(a, data, ty, Numbers(labels)), Width(ty)))
    {
      hide Word;
      hide FindLabel;
      hide PutCode;
      if !ArgOk(a, ty, data) { return false; }
      match ty {
        case DataRef =>
          WriteCode(Word(data[a.name], 8));
        case LabelRef =>
          var pos := GetLabelPos(a.name);
          if pos == -1 {
            if |labels| >= MAXLABELS { return false; }
            pos := |labels|;
            labels := labels + [Entry(a.name, -1)];
            NewNumber(old(labels), a.name);
          }
          WriteCode(Word(pos, 8));
        case _ =>
          WriteCode(Word(a.n, Width(ty)));
      }
      return true;
    }

    method ParseInst(op: nat, args: seq<Arg>) returns (ok: bool)
      requires op < MAXOPCODES && |args| == |ArgTypes(op)| && |labels| <= MAXLABELS
      modifies this, code
      ensures lines == old(lines)
      ensures ok <==> old(codeInd) < code.Length && LineOk(Inst(op, args), data)
                      && |Enter(old(labels), Inst(op, args), data, 0)| <= MAXLABELS
      ensures ok ==> labels == Enter(old(labels), Inst(op, args), data, 0)
      ensures ok ==> codeInd == old(codeInd) + InstrSize(op)
      ensures ok && codeInd < code.Length ==>
                code[..codeInd] == old(code[..codeInd]) + EncodeLine(Inst(op, args), data, Numbers(labels))
    {
      hide LabelArg;
      hide Widths;
      hide EncodeArgs;
      hide EncodeLine;
      hide Numbers;
      if codeInd >= code.Length { return false; }
      ghost var was := code[..codeInd];
      WriteCode([op]);
      assert code[..codeInd] == was + [op];
      OneLabel(op);
      ok := ParseArgs(ArgTypes(op), args, LabelArg(op));
      hide ArgTypes;
      if ok {
        ghost var w := EncodeArgs(ArgTypes(op), ArgValues(args, ArgTypes(op), data, Numbers(labels), |args|));
        InstBytes(op, args, data, Numbers(labels));
        assert was + [op] + w == was + ([op] + w);
      }
    }

    // The operands of one instruction, from the first to the last; operand k is a label.
    method ParseArgs(tys: seq<ArgType>, args: seq<Arg>, ghost k: int) returns (ok: bool)
      requires |args| == |tys| && (forall j | 0 <= j < |tys| :: tys[j].LabelRef? <==> j == k) && k < |tys|
      requires |labels| <= MAXLABELS
      modifies this, code
      ensures lines == old(lines)
      ensures ok <==> ArgsOk(args, tys, data, |args|) && (k >= 0 ==> |MentionArg(old(labels), args[k])| <= MAXLABELS)
      ensures ok ==> labels == if k >= 0 then MentionArg(old(labels), args[k]) else old(labels)
      ensures ok ==> codeInd == old(codeInd) + Widths(tys)
      ensures ok && codeInd < code.Length ==>
                code[..codeInd] == old(code[..codeInd]) + EncodeArgs(tys, ArgValues(args, tys, data, Numbers(labels), |args|))
    {
      hide *;
      ghost var w: seq<byte> := [];
      ghost var whole := codeInd + Widths(tys) < code.Length;
      NoArgs(args, tys, data, Numbers(labels));
      for j := 0 to |args|
        invariant lines == old(lines) && |labels| <= MAXLABELS && ArgsOk(args, tys, data, j)
        invariant labels == if 0 <= k < j then MentionArg(old(labels), args[k]) else old(labels)
        invariant codeInd == old(codeInd) + Widths(tys[..j])
        invariant w == EncodeArgs(tys[..j], ArgValues(args, tys, data, Numbers(labels), j))
        invariant whole ==> codeInd < code.Length && code[..codeInd] == old(code[..codeInd]) + w
      {
        WidthsGrow(tys, j);
        MoreArgs(args, tys, data, j);
        ghost var before, was, at := Numbers(labels), code[..], codeInd;
        ok := ParseArg(args[j], tys[j]);
        if !ok { return false; }
        ghost var x := Word(ArgValue(args[j], data, tys[j], Numbers(labels)), Width(tys[j]));
        if whole { PutWhole(was, at, x); }
        ArgsGrow(args, tys, data, before, Numbers(labels), j);
        w := w + x;
      }
      assert tys[..|args|] == tys;
      return true;
    }

    method ParseDef(name: string) returns (ok: bool)
      requires |labels| <= MAXLABELS
      modifies this`labels
      ensures ok <==> |Define(old(labels), name, codeInd)| <= MAXLABELS
      ensures ok ==> labels == Define(old(labels), name, codeInd)
    {
      var pos := GetLabelPos(name);
      if pos == -1 {
        if |labels| >= MAXLABELS { return false; }
        labels := labels + [Entry(name, codeInd)];
      } else {
        labels := labels[pos := Entry(name, codeInd)];
      }
      return true;
    }

    // parse_line for the code block.  The line's code is all there when a byte is left behind it.
    method ParseLine(l: Line) returns (ok: bool)
      requires Listed()
      modifies this, code
      ensures ok <==> LineOk(l, data) && (l.Inst? ==> old(codeInd) < code.Length)
                      && |Enter(old(labels), l, data, old(codeInd))| <= MAXLABELS
      ensures ok ==> Listed() && lines == old(lines) + [l] && labels == Enter(old(labels), l, data, old(codeInd))
      ensures ok && old(Valid()) && codeInd < code.Length ==> Valid()
    {
      hide EncodeLine;
      hide Encode;
      hide Table;
      hide CodeSize;
      match l {
        case Def(name) =>
          ok := ParseDef(name);
        case Inst(op, args) =>
          if op >= MAXOPCODES || |args| != |ArgTypes(op)| { return false; }
          ok := ParseInst(op, args);
      }
      if !ok { return false; }
      Grown(old(labels), lines, data, l);
      lines := lines + [l];
      if old(Valid()) && codeInd < code.Length {
        ghost var w := EncodeLine(l, data, Numbers(labels));
        assert code[..codeInd] == old(code[..codeInd]) + w;
        assert code[HEADER..codeInd] == old(code[HEADER..codeInd]) + w;
      }
    }

    // The code block.  Reading stops without an error one byte before the end of the buffer; up to there
    // it succeeds exactly when all lines are well formed and their labels fit the table.  With a byte to
    // spare behind the code of all lines, all are read and all of their code is there.
    method ParseLines(ls: seq<Line>) returns (ok: bool)
      requires Valid() && lines == [] && labels == []
      modifies this, code
      ensures var read := ls[..LinesRead(ls, code.Length, 0)];
              && (ok <==> AllOk(read, data) && |Named(read, data)| <= MAXLABELS)
              && (ok ==> Listed() && lines == read)
      ensures HEADER + CodeSize(ls) + 1 < code.Length ==>
                && (ok <==> AllOk(ls, data) && |Named(ls, data)| <= MAXLABELS)
                && (ok ==> Valid() && lines == ls)
    {
      hide *;
      ghost var n := LinesRead(ls, code.Length, 0);
      ghost var read := ls[..n];
      NoLines(read, data);
      var k := 0;
      if HEADER + CodeSize(ls) + 1 < code.Length { ReadAll(ls, code.Length, 0); }
      ReadUpTo(ls, code.Length, 0, 0);
      InLine();
      while k < |ls| && codeInd + 1 < code.Length
        invariant 0 <= k <= n && (k < n <==> k < |ls| && codeInd + 1 < code.Length)
        invariant Listed() && lines == read[..k] && AllOk(read[..k], data) && labels == TableOf(read[..k], data)
        invariant |Named(read[..k], data)| <= MAXLABELS
        invariant HEADER + CodeSize(ls) + 1 < code.Length ==> Valid()
      {
        NextFits(read, data, k);
        InList();
        ok := ParseLine(ls[k]);
        if !ok { return; }
        k := k + 1;
        ReadUpTo(ls, code.Length, 0, k);
        InList();
      }
      assert read[..n] == read;
      return true;
    }

    lemma InList()
      requires Listed()
      ensures AllOk(lines, data) && Table(labels, lines, data) && |labels| <= MAXLABELS
      ensures codeInd == HEADER + CodeSize(lines)
    {
    }

    lemma InLine()
      requires Valid()
      ensures Listed() && AllOk(lines, data) && Table(labels, lines, data) && |labels| <= MAXLABELS
      ensures 0 <= HEADER <= codeInd == HEADER + CodeSize(lines) <= code.Length
      ensures code[..][HEADER..codeInd] == code[HEADER..codeInd] == Encode(lines, data, Numbers(labels))
    {
    }

    // One label operand: its number is replaced by the label's position.
    method PatchLabel(at: nat) returns (missing: bool)
      requires at + 8 <= code.Length && 0 <= Signed(code[at..at + 8]) < |labels|
      modifies code
      ensures code[..] == old(code[..at] + Word(labels[Signed(code[at..at + 8])].pos, 8) + code[at + 8..])
      ensures missing <==> labels[Signed(old(code[at..at + 8]))].pos == -1
    {
      var k := ReadQuadword(at);
      missing := labels[k].pos == -1;
      WriteBytes(code, at, Word(labels[k].pos, 8));
    }

    // The instruction at i, written for line k with a label number, gets the label's address.
    method PatchInst(i: nat, ghost k: nat) returns (missing: bool)
      requires AllOk(lines, data) && Table(labels, lines, data) && |labels| <= MAXLABELS
      requires k < |lines| && lines[k].Inst? && i + LineSize(lines[k]) <= code.Length
      requires code[i..i + LineSize(lines[k])] == EncodeLine(lines[k], data, Numbers(labels))
      modifies code
      ensures code[..] == old(code[..i]) + EncodeLine(lines[k], data, Addresses(lines)) + old(code[i + LineSize(lines[k])..])
      ensures missing <==> Misses(lines[k], data, lines)
      ensures code[i] == lines[k].op
    {
      ghost var was := code[..];
      assert was[i..i + LineSize(lines[k])] == code[i..i + LineSize(lines[k])];
      OpcodeHere(lines[k], data, Numbers(labels), was, i);
      var op := code[i];
      assert EncodeLine(lines[k], data, Addresses(lines))[0] == op;
      hide EncodeLine;
      missing := false;
      if LabelArg(op) >= 0 {
        LabelHere(labels, lines, data, k, was, i);
        assert was[i + LabelByte(op)..i + LabelByte(op) + 8] == code[i + LabelByte(op)..i + LabelByte(op) + 8];
        missing := PatchLabel(i + LabelByte(op));
      } else {
        LineAgrees(lines[k], data, Numbers(labels), Addresses(lines));
      }
    }

    // One round of the walk.
    method PatchLine(i: nat, ghost k: nat, ghost was: seq<byte>) returns (missing: bool, offset: nat)
      requires AllOk(lines, data) && Table(labels, lines, data) && |labels| <= MAXLABELS
      requires k < |lines| && lines[k].Inst? && i == Start(lines, k)
      requires codeInd == HEADER + CodeSize(lines) <= code.Length == |was|
      requires was[HEADER..codeInd] == Encode(lines, data, Numbers(labels))
      requires Walked(lines, data, was, code[..], k)
      modifies code
      ensures Walked(lines, data, was, code[..], k + 1)
      ensures missing <==> Misses(lines[k], data, lines)
      ensures i + offset == Start(lines, k + 1) && offset > 0
    {
      hide Encode;
      hide CodeSize;
      hide Walked;
      hide EncodeLine;
      hide Misses;
      hide Table;
      ghost var ls, now, w := lines, code[..], EncodeLine(lines[k], data, Addresses(lines));
      ghost var end := i + LineSize(lines[k]);
      PatchStep(ls, data, Numbers(labels), was, now, codeInd, k);
      assert now[..i] == code[..i] && now[end..] == code[end..] && now[i..end] == code[i..end];
      missing := PatchInst(i, k);
      assert code[..] == now[..i] + w + now[end..];
      offset := InstrOffset(code[i]);
    }

    // The walk of write_code_labels, from instruction to instruction.  Every label operand, forward or
    // backward, becomes the position of the label's last definition and no other byte changes; it
    // reports an error exactly when some label in use is never defined.
    method WriteCodeLabels() returns (err: bool)
      requires Valid()
      modifies code
      ensures code[HEADER..codeInd] == Encode(lines, data, Addresses(lines))
      ensures code[..HEADER] == old(code[..HEADER]) && code[codeInd..] == old(code[codeInd..])
      ensures err <==> Dangling(lines, data, |lines|)
    {
      hide *;
      InLine();
      ghost var was := code[..];
      StartWalk(lines, data, was);
      var i: nat := HEADER;
      err := false;
      ghost var k: nat := NextLine(lines, data, was, was, 0);
      while i < codeInd
        invariant k <= |lines| && i == Start(lines, k) <= codeInd && (k < |lines| <==> i < codeInd)
        invariant k < |lines| ==> lines[k].Inst?
        invariant Walked(lines, data, was, code[..], k)
        invariant err <==> Dangling(lines, data, k)
        decreases codeInd - i
      {
        var missing, offset := PatchLine(i, k, was);
        err := err || missing;
        i := i + offset;
        OneMore(lines, data, k);
        k := NextLine(lines, data, was, code[..], k + 1);
      }
      WholeWalk(lines, data, was, code[..]);
    }

    // The sum over the operand types.
    method InstrOffset(op: nat) returns (offset: nat)
      ensures offset == InstrSize(op)
    {
      var tys := ArgTypes(op);
      offset := 0;
      for j := 0 to |tys|
        invariant offset == Widths(tys[..j])
      {
        WidthsGrow(tys, j);
        offset := offset + Width(tys[j]);
      }
      assert tys[..|tys|] == tys;
      offset := offset + 1;
    }
  }

  // The first k lines have been patched, the rest is as it was.
  ghost predicate Walked(ls: seq<Line>, data: SymbolTable, was: seq<byte>, now: seq<byte>, k: nat) {
    && k <= |ls| && AllOk(ls, data) && Start(ls, k) <= |was|
    && now == was[..HEADER] + Encode(ls[..k], data, Addresses(ls)) + was[Start(ls, k)..]
  }

  lemma StartWalk(ls: seq<Line>, data: SymbolTable, was: seq<byte>)
    requires AllOk(ls, data) && HEADER <= |was|
    ensures Walked(ls, data, was, was, 0)
    ensures Start(ls, 0) == HEADER && !Dangling(ls, data, 0)
  {
    assert ls[..0] == [];
  }

  lemma WholeWalk(ls: seq<Line>, data: SymbolTable, was: seq<byte>, now: seq<byte>)
    requires Walked(ls, data, was, now, |ls|)
    ensures var n := HEADER + CodeSize(ls);
            && n <= |was| == |now| && now[HEADER..n] == Encode(ls, data, Addresses(ls))
            && now[..HEADER] == was[..HEADER] && now[n..] == was[n..]
  {
    assert ls[..|ls|] == ls;
    Parts(now, was[..HEADER], Encode(ls, data, Addresses(ls)), was[HEADER + CodeSize(ls)..]);
  }

  lemma {:induction false} WalkDefs(ls: seq<Line>, data: SymbolTable, was: seq<byte>, now: seq<byte>, k: nat, n: nat)
    requires Walked(ls, data, was, now, k) && k <= n <= |ls| && forall j | k <= j < n :: ls[j].Def?
    ensures Walked(ls, data, was, now, n)
    decreases n - k
  {
    if k < n {
      hide Encode;
      hide Start;
      SkipDef(ls, data, Addresses(ls), k);
      WalkDefs(ls, data, was, now, k + 1, n);
    }
  }

  lemma NextLine(ls: seq<Line>, data: SymbolTable, was: seq<byte>, now: seq<byte>, k: nat) returns (n: nat)
    requires k <= |ls| && AllOk(ls, data) && Walked(ls, data, was, now, k)
    ensures n <= |ls| && Start(ls, n) == Start(ls, k) <= HEADER + CodeSize(ls) && Walked(ls, data, was, now, n)
    ensures n < |ls| <==> Start(ls, n) < HEADER + CodeSize(ls)
    ensures n < |ls| ==> ls[n].Inst?
    ensures Dangling(ls, data, n) <==> Dangling(ls, data, k)
  {
    n := NextInst(ls, data, k);
    WalkDefs(ls, data, was, now, k, n);
    assert forall j | k <= j < n :: !Misses(ls[j], data, ls);
  }

  lemma OneMore(ls: seq<Line>, data: SymbolTable, k: nat)
    requires k < |ls|
    ensures Dangling(ls, data, k + 1) <==> Dangling(ls, data, k) || Misses(ls[k], data, ls)
  {
  }

  // At line k the buffer still holds the instruction as the first pass wrote it; once its address is
  // in place, k + 1 lines are done.
  lemma PatchStep(ls: seq<Line>, data: SymbolTable, f: string -> int, was: seq<byte>, now: seq<byte>, n: nat, k: nat)
    requires AllOk(ls, data) && k < |ls| && Walked(ls, data, was, now, k)
    requires n == HEADER + CodeSize(ls) <= |was| && was[HEADER..n] == Encode(ls, data, f)
    ensures var i := Start(ls, k); var size := LineSize(ls[k]);
            && |now| == |was| && i + size <= n && now[i..i + size] == EncodeLine(ls[k], data, f)
            && Start(ls, k + 1) == i + size
            && Walked(ls, data, was, now[..i] + EncodeLine(ls[k], data, Addresses(ls)) + now[i + size..], k + 1)
  {
    hide EncodeLine;
    hide LineSize;
    EncodeSplit(ls, data, f, k);
    assert ls[..k + 1][..k] == ls[..k];
    var i, size, h := Start(ls, k), LineSize(ls[k]), was[..HEADER];
    var v, e := Encode(ls[..k], data, Addresses(ls)), EncodeLine(ls[k], data, Addresses(ls));
    SliceOfSlice(was, HEADER, n, CodeSize(ls[..k]), size);
    Tail(was, now, h + v, i, size);
    assert Encode(ls[..k + 1], data, Addresses(ls)) == v + e;
    hide Encode;
    assert (h + v) + e == h + (v + e);
  }

  lemma Parts(s: seq<byte>, a: seq<byte>, b: seq<byte>, c: seq<byte>)
    requires s == a + b + c
    ensures s[..|a|] == a && s[|a|..|a| + |b|] == b && s[|a| + |b|..] == c
  {
  }

  lemma SliceOfSlice(s: seq<byte>, h: nat, n: nat, i: nat, size: nat)
    requires h + i + size <= n <= |s|
    ensures s[h..n][i..i + size] == s[h + i..h + i + size]
  {
    var a, b := s[h..n][i..i + size], s[h + i..h + i + size];
    assert forall j | 0 <= j < size :: a[j] == b[j];
  }

  lemma Tail(was: seq<byte>, now: seq<byte>, p: seq<byte>, i: nat, size: nat)
    requires |p| == i && i + size <= |was| && now == p + was[i..]
    ensures |now| == |was| && now[..i] == p && now[i + size..] == was[i + size..] && now[i..i + size] == was[i..i + size]
  {
  }

  lemma NoLines(ls: seq<Line>, data: SymbolTable)
    ensures AllOk(ls[..0], data) && TableOf(ls[..0], data) == [] && Named(ls[..0], data) == {}
  {
  }

  // Line k is refused exactly when the whole list is.
  lemma NextFits(ls: seq<Line>, data: SymbolTable, k: nat)
    requires k < |ls| && AllOk(ls[..k], data)
    ensures CodeSize(ls[..k]) + LineSize(ls[k]) <= CodeSize(ls) && ls[..k] + [ls[k]] == ls[..k + 1]
    ensures AllOk(ls, data) ==> LineOk(ls[k], data)
    ensures LineOk(ls[k], data) ==>
              && AllOk(ls[..k + 1], data)
              && TableOf(ls[..k + 1], data) == Enter(TableOf(ls[..k], data), ls[k], data, HEADER + CodeSize(ls[..k]))
              && |TableOf(ls[..k + 1], data)| == |Named(ls[..k + 1], data)|
              && (AllOk(ls, data) ==> |Named(ls[..k + 1], data)| <= |Named(ls, data)|)
  {
    hide *;
    OneMoreLine(ls, data, k);
    SizesUpTo(ls, k + 1);
    if LineOk(ls[k], data) {
      TableCounts(ls[..k + 1], data);
      if AllOk(ls, data) { NamedUpTo(ls, data, k + 1); }
    }
  }

  lemma OneMoreLine(ls: seq<Line>, data: SymbolTable, k: nat)
    requires k < |ls| && AllOk(ls[..k], data)
    ensures ls[..k] + [ls[k]] == ls[..k + 1] && CodeSize(ls[..k + 1]) == CodeSize(ls[..k]) + LineSize(ls[k])
    ensures AllOk(ls, data) ==> LineOk(ls[k], data)
    ensures LineOk(ls[k], data) ==> AllOk(ls[..k + 1], data)
    ensures AllOk(ls[..k + 1], data) && LineOk(ls[k], data) ==>
              TableOf(ls[..k + 1], data) == Enter(TableOf(ls[..k], data), ls[k], data, HEADER + CodeSize(ls[..k]))
  {
    hide LineOk;
    hide Enter;
    hide LineSize;
    assert ls[..k + 1][..k] == ls[..k] && ls[..k + 1][k] == ls[k];
  }

  lemma {:induction false} NamedUpTo(ls: seq<Line>, data: SymbolTable, k: nat)
    requires AllOk(ls, data) && k <= |ls|
    ensures AllOk(ls[..k], data) && Named(ls[..k], data) <= Named(ls, data) && |Named(ls[..k], data)| <= |Named(ls, data)|
  {
    var last := |ls| - 1;
    if k <= last {
      assert ls[..last][..k] == ls[..k];
      NamedUpTo(ls[..last], data, k);
      Smaller(Named(ls[..last], data), Named(ls, data));
    } else {
      assert ls[..k] == ls;
    }
  }

  // The label operand of line k, as the first pass wrote it, leads to the label's address.
  lemma LabelNumber(t: seq<Entry>, ls: seq<Line>, data: SymbolTable, k: nat)
    requires AllOk(ls, data) && Table(t, ls, data) && |t| <= MAXLABELS
    requires k < |ls| && ls[k].Inst? && LabelArg(ls[k].op) >= 0
    ensures var l := ls[k]; var d := LabelByte(l.op); var w := EncodeLine(l, data, Numbers(t));
            && d + 8 <= LineSize(l) && 0 <= Signed(w[d..d + 8]) < |t|
            && EncodeLine(l, data, Addresses(ls)) == w[..d] + Word(t[Signed(w[d..d + 8])].pos, 8) + w[d + 8..]
            && (t[Signed(w[d..d + 8])].pos == -1 <==> Misses(l, data, ls))
  {
    var l := ls[k];
    var name := l.args[LabelArg(l.op)].name;
    var n := FindLabel(t, name);
    assert UsesLabel(l, data, name);
    assert n != -1;
    FitsRange(n);
    SignedWord(n, 8);
    LabelPlace(l, data, Numbers(t));
    UndefinedHas(ls, name);
  }

  lemma OpcodeHere(l: Line, data: SymbolTable, f: string -> int, was: seq<byte>, i: nat)
    requires LineOk(l, data) && l.Inst? && i + LineSize(l) <= |was| && was[i..i + LineSize(l)] == EncodeLine(l, data, f)
    ensures was[i] == l.op && was == was[..i] + EncodeLine(l, data, f) + was[i + LineSize(l)..]
  {
    assert was[i..i + LineSize(l)][0] == was[i];
  }

  lemma LabelHere(t: seq<Entry>, ls: seq<Line>, data: SymbolTable, k: nat, was: seq<byte>, i: nat)
    requires AllOk(ls, data) && Table(t, ls, data) && |t| <= MAXLABELS
    requires k < |ls| && ls[k].Inst? && LabelArg(ls[k].op) >= 0 && i + LineSize(ls[k]) <= |was|
    requires was == was[..i] + EncodeLine(ls[k], data, Numbers(t)) + was[i + LineSize(ls[k])..]
    ensures var at := i + LabelByte(ls[k].op);
            && at + 8 <= |was| && 0 <= Signed(was[at..at + 8]) < |t|
            && (t[Signed(was[at..at + 8])].pos == -1 <==> Misses(ls[k], data, ls))
            && was[..at] + Word(t[Signed(was[at..at + 8])].pos, 8) + was[at + 8..]
               == was[..i] + EncodeLine(ls[k], data, Addresses(ls)) + was[i + LineSize(ls[k])..]
  {
    assert LineOk(ls[k], data);
    hide *;
    LabelNumber(t, ls, data, k);
    var a, e, b := was[..i], EncodeLine(ls[k], data, Numbers(t)), was[i + LineSize(ls[k])..];
    var d := LabelByte(ls[k].op);
    SliceOf(was, a, e, b, d);
    var w := Word(t[Signed(e[d..d + 8])].pos, 8);
    assert was[i + d..i + d + 8] == e[d..d + 8] && was[..i + d] == a + e[..d] && was[i + d + 8..] == e[d + 8..] + b;
    Regroup(a, e[..d], w, e[d + 8..], b);
  }

  lemma SliceOf(s: seq<byte>, a: seq<byte>, e: seq<byte>, b: seq<byte>, d: nat)
    requires s == a + e + b && d + 8 <= |e|
    ensures s[|a| + d..|a| + d + 8] == e[d..d + 8]
    ensures s[..|a| + d] == a + e[..d]
    ensures s[|a| + d + 8..] == e[d + 8..] + b
  {
  }

  lemma Regroup(a: seq<byte>, c: seq<byte>, w: seq<byte>, d: seq<byte>, b: seq<byte>)
    ensures (a + c) + w + (d + b) == a + (c + w + d) + b
  {
  }

  lemma Grown(t: seq<Entry>, ls: seq<Line>, data: SymbolTable, l: Line)
    requires AllOk(ls, data) && LineOk(l, data) && Table(t, ls, data)
    ensures var u := Enter(t, l, data, HEADER + CodeSize(ls));
            && AllOk(ls + [l], data) && Table(u, ls + [l], data)
            && CodeSize(ls + [l]) == CodeSize(ls) + LineSize(l)
            && Encode(ls + [l], data, Numbers(u)) == Encode(ls, data, Numbers(t)) + EncodeLine(l, data, Numbers(u))
  {
    var u := Enter(t, l, data, HEADER + CodeSize(ls));
    TableGrows(t, ls, data, l);
    LinesGrow(ls, l, data, Numbers(t), Numbers(u));
  }

  ghost function ArgValues(args: seq<Arg>, tys: seq<ArgType>, data: SymbolTable, f: string -> int, n: nat): (vals: seq<int>)
    requires n <= |args| && |args| == |tys| && ArgsOk(args, tys, data, n)
    ensures |vals| == n
  {
    seq(n, i requires 0 <= i < n => ArgValue(args[i], data, tys[i], f))
  }

  lemma ArgsGrow(args: seq<Arg>, tys: seq<ArgType>, data: SymbolTable, f: string -> int, g: string -> int, j: nat)
    requires j < |args| && |args| == |tys| && ArgsOk(args, tys, data, j + 1)
    requires f == g || forall i | 0 <= i < j :: !tys[i].LabelRef?
    ensures EncodeArgs(tys[..j + 1], ArgValues(args, tys, data, g, j + 1))
         == EncodeArgs(tys[..j], ArgValues(args, tys, data, f, j)) + Word(ArgValue(args[j], data, tys[j], g), Width(tys[j]))
  {
    assert ArgValues(args, tys, data, f, j) == ArgValues(args, tys, data, g, j);
    assert tys[..j + 1][..j] == tys[..j];
    assert ArgValues(args, tys, data, g, j + 1)[..j] == ArgValues(args, tys, data, g, j);
  }

  lemma InstBytes(op: nat, args: seq<Arg>, data: SymbolTable, f: string -> int)
    requires LineOk(Inst(op, args), data)
    ensures EncodeLine(Inst(op, args), data, f) == [op] + EncodeArgs(ArgTypes(op), ArgValues(args, ArgTypes(op), data, f, |args|))
  {
    assert ArgValues(args, ArgTypes(op), data, f, |args|) == Values(Inst(op, args), data, f);
  }

  lemma NewNumber(t: seq<Entry>, name: string)
    requires FindLabel(t, name) == -1
    ensures FindLabel(t + [Entry(name, -1)], name) == |t|
  {
    var u := t + [Entry(name, -1)];
    assert u[|t|].name == name && forall k | 0 <= k < |t| :: u[k] == t[k];
  }

  lemma OneLabel(op: nat)
    requires op < MAXOPCODES
    ensures forall j | 0 <= j < |ArgTypes(op)| :: ArgTypes(op)[j].LabelRef? <==> j == LabelArg(op)
    ensures LabelArg(op) < |ArgTypes(op)|
  {
  }

  lemma NoArgs(args: seq<Arg>, tys: seq<ArgType>, data: SymbolTable, f: string -> int)
    requires |args| == |tys|
    ensures Widths(tys[..0]) == 0 && ArgsOk(args, tys, data, 0) && EncodeArgs(tys[..0], ArgValues(args, tys, data, f, 0)) == []
  {
  }

  lemma MoreArgs(args: seq<Arg>, tys: seq<ArgType>, data: SymbolTable, j: nat)
    requires j < |args| == |tys| && ArgsOk(args, tys, data, j)
    ensures ArgsOk(args, tys, data, j + 1) <==> ArgOk(args[j], tys[j], data)
    ensures ArgsOk(args, tys, data, |args|) ==> ArgOk(args[j], tys[j], data)
    ensures ArgOk(args[j], tys[j], data) && tys[j].LabelRef? ==> args[j].Ref?
  {
  }

  lemma {:induction false} WidthsGrow(tys: seq<ArgType>, j: nat)
    requires j < |tys|
    ensures Widths(tys[..j + 1]) == Widths(tys[..j]) + Width(tys[j]) && Widths(tys[..j + 1]) <= Widths(tys)
  {
    assert tys[..j + 1][..j] == tys[..j];
    var last := |tys| - 1;
    if j < last {
      WidthsGrow(tys[..last], j);
      assert tys[..last][..j + 1] == tys[..j + 1] && tys[..last][..j] == tys[..j];
    } else {
      assert tys[..j + 1] == tys;
    }
  }

  // A line added at the end: earlier lines keep their code because their labels keep their numbers.
  lemma LinesGrow(ls: seq<Line>, l: Line, data: SymbolTable, f: string -> int, g: string -> int)
    requires AllOk(ls, data) && LineOk(l, data)
    requires forall k, name | 0 <= k < |ls| && UsesLabel(ls[k], data, name) :: f(name) == g(name)
    ensures AllOk(ls + [l], data)
    ensures CodeSize(ls + [l]) == CodeSize(ls) + LineSize(l)
    ensures Encode(ls + [l], data, g) == Encode(ls, data, f) + EncodeLine(l, data, g)
  {
    var ms := ls + [l];
    assert ms[..|ls|] == ls;
    EncodeAgrees(ls, data, f, g);
  }
}
