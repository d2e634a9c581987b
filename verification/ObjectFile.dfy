// The object file: dump_object writes it, load_object reads it back.
module ObjectFile {
  import opened Infix
  import opened Bytes
  import opened Opcodes
  import opened Assembler
  import opened CodeSection
  import D = DataSection

  const MAGIC: int := 0xC0DEBABE00002019 - 0x1_0000_0000_0000_0000
  const INFO: seq<byte> := ['i' as int, 'n' as int, 'f' as int, 'o' as int]
  const DATA: seq<byte> := ['d' as int, 'a' as int, 't' as int, 'a' as int]

  // ---- the file ----

  ghost function InfoBytes(vars: seq<D.Variable>): seq<byte> {
    if vars == [] then [] else [D.Code(vars[0].ty)] + Word(D.Total(vars[0]), 8) + InfoBytes(vars[1..])
  }

  ghost function Object(ls: seq<Line>, syms: SymbolTable, vars: seq<D.Variable>): seq<byte>
    requires AllOk(ls, syms) && D.VarsOk(vars)
  {
    Word(MAGIC, 8) + Word(HEADER + CodeSize(ls), 8) + Encode(ls, syms, Addresses(ls))
    + (INFO + InfoBytes(vars) + DATA + Word(8 + D.Offset(vars), 8) + D.Image(vars))
  }

  // ---- reading ----

  datatype DataEntry = DataEntry(ty: byte, size: int, offset: int, end: int)

  datatype Stored = Stored(entries: seq<DataEntry>, data: seq<byte>)

  datatype Loaded = Loaded(code: seq<byte>, entries: seq<DataEntry>, data: seq<byte>)

  // What was read from the front, and the rest of the file.
  datatype Taken<T> = Taken(items: seq<T>, rest: seq<byte>)

  // One line of the list of types and sizes.
  datatype Head = Head(ty: byte, size: int)

  // Operands become little endian in memory.
  function SwapArgs(tys: seq<ArgType>, w: seq<byte>): (m: seq<byte>)
    requires |w| == Widths(tys)
    ensures |m| == |w|
  {
    var last := |tys| - 1;
    if last < 0 then []
    else
      var k := Widths(tys[..last]);
      SwapArgs(tys[..last], w[..k]) + Reverse(w[k..])
  }

  function SwapInstr(w: seq<byte>): (m: seq<byte>)
    requires |w| > 0 && |w| == InstrSize(w[0])
    ensures |m| == |w|
  {
    [w[0]] + SwapArgs(ArgTypes(w[0]), w[1..])
  }

  // The code loop: at least one instruction, until `size` is reached; i is where the next one goes.
  function TakeCode(s: seq<byte>, i: nat, size: int): Option<Taken<byte>>
    decreases |s|
  {
    if s == [] || s[0] >= MAXOPCODES || InstrSize(s[0]) > |s| || i + InstrSize(s[0]) > size then None
    else
      var n := InstrSize(s[0]);
      if i + n > size - 1 then Some(Taken(SwapInstr(s[..n]), s[n..]))
      else Behind(SwapInstr(s[..n]), TakeCode(s[n..], i + n, size))
  }

  function Behind<T>(a: seq<T>, r: Option<Taken<T>>): (b: Option<Taken<T>>)
    ensures r.Some? ==> b == Some(Taken(a + r.value.items, r.value.rest))
  {
    match r case None => None case Some(p) => Some(Taken(a + p.items, p.rest))
  }

  // The list of types and sizes ends at a byte 'd'.
  function TakeInfo(s: seq<byte>): Option<Taken<Head>>
    decreases |s|
  {
    if s == [] then None
    else if s[0] == 'd' as int then Some(Taken([], s[1..]))
    else if |s| < 9 then None
    else Behind([Head(s[0], Signed(s[1..9]))], TakeInfo(s[9..]))
  }

  function TypeSize(ty: byte): nat {
    if ty == 8 then 1 else if ty == 9 then 2 else if ty == 10 then 4 else if ty == 11 || ty == 12 then 8 else 0
  }

  // How many elements are read for an entry.
  function Count(ty: byte, size: int): nat {
    if TypeSize(ty) == 0 || size < 0 then 0 else size / TypeSize(ty)
  }

  // No entry of a negative size.
  predicate Sane(heads: seq<Head>) {
    forall k | 0 <= k < |heads| :: heads[k].size >= 0
  }

  function SwapWords(s: seq<byte>, n: nat): (m: seq<byte>)
    requires n > 0
    ensures |m| <= |s|
    decreases |s|
  {
    if |s| < n then [] else Reverse(s[..n]) + SwapWords(s[n..], n)
  }

  // A double keeps the byte order of the file; its conversion is only printed.
  function Convert(ty: byte, s: seq<byte>): seq<byte> {
    if ty == 12 || TypeSize(ty) == 0 then s else SwapWords(s, TypeSize(ty))
  }

  function TakeData(s: seq<byte>, i: nat, heads: seq<Head>): Option<Stored>
    decreases |heads|
  {
    if heads == [] then Some(Stored([], []))
    else
      var ty, size := heads[0].ty, heads[0].size;
      var n := Count(ty, size) * TypeSize(ty);
      if n > |s| then None
      else
        var e := if TypeSize(ty) == 0 then DataEntry(ty, size, 0, 0) else DataEntry(ty, size, i, i + n - 1);
        Join(e, Convert(ty, s[..n]), TakeData(s[n..], i + n, heads[1..]))
  }

  function Join(e: DataEntry, d: seq<byte>, r: Option<Stored>): Option<Stored> {
    match r case None => None case Some(p) => Some(Stored([e] + p.entries, d + p.data))
  }

  function Sizes(heads: seq<Head>): int {
    if heads == [] then 0 else heads[0].size + Sizes(heads[1..])
  }

  function Starts(s: seq<byte>, w: seq<byte>): bool {
    |w| <= |s| && s[..|w|] == w
  }

  // load_object; `stack` is the room for the stacks of all CPUs.
  function Load(file: seq<byte>, maxCode: int, maxData: int, stack: nat): Option<Loaded> {
    if |file| < 16 || Signed(file[..8]) != MAGIC || !(0 <= Signed(file[8..16]) <= maxCode) then None
    else
      var c :- TakeCode(file[16..], HEADER, Signed(file[8..16]));
      LoadRest(c.items, c.rest, maxData, stack)
  }

  function LoadRest(code: seq<byte>, s: seq<byte>, maxData: int, stack: nat): Option<Loaded> {
    if !Starts(s, INFO) then None
    else
      var h :- TakeInfo(s[4..]);
      if !Starts(h.rest, DATA[1..]) || |h.rest| < 11 || !Sane(h.items) || Sizes(h.items) + stack > maxData then None
      else
        var d :- TakeData(h.rest[11..], 0, h.items);
        Some(Loaded(code, d.entries, d.data))
  }

  // ---- what the loader has in memory ----

  ghost function MemLine(l: Line, syms: SymbolTable, f: string -> int): (m: seq<byte>)
    requires LineOk(l, syms)
    ensures |m| == LineSize(l)
  {
    if l.Def? then [] else SwapInstr(EncodeLine(l, syms, f))
  }

  // The code section, from address 16 on.
  ghost function Memory(ls: seq<Line>, syms: SymbolTable, f: string -> int): (m: seq<byte>)
    requires AllOk(ls, syms)
    ensures |m| == CodeSize(ls)
  {
    var last := |ls| - 1;
    if last < 0 then [] else Memory(ls[..last], syms, f) + MemLine(ls[last], syms, f)
  }

  lemma {:induction false} MemorySplit(ls: seq<Line>, syms: SymbolTable, f: string -> int, k: nat)
    requires AllOk(ls, syms) && k < |ls|
    ensures Start(ls, k) + LineSize(ls[k]) == Start(ls, k + 1) <= HEADER + CodeSize(ls)
    ensures var i := CodeSize(ls[..k]); var j := CodeSize(ls[..k + 1]);
            && Encode(ls, syms, f)[i..] == EncodeLine(ls[k], syms, f) + Encode(ls, syms, f)[j..]
            && Memory(ls, syms, f)[i..] == MemLine(ls[k], syms, f) + Memory(ls, syms, f)[j..]
  {
    hide *;
    var last := |ls| - 1;
    SnocFacts(ls, syms, f, k);
    if k < last {
      MemorySplit(ls[..last], syms, f, k);
      MoveDrop(Encode(ls[..last], syms, f), EncodeLine(ls[last], syms, f), EncodeLine(ls[k], syms, f), CodeSize(ls[..k]), CodeSize(ls[..k + 1]));
      MoveDrop(Memory(ls[..last], syms, f), MemLine(ls[last], syms, f), MemLine(ls[k], syms, f), CodeSize(ls[..k]), CodeSize(ls[..k + 1]));
    } else {
      var a, b, e, m := Encode(ls[..last], syms, f), Memory(ls[..last], syms, f), EncodeLine(ls[k], syms, f), MemLine(ls[k], syms, f);
      assert (a + e)[|a|..] == e + (a + e)[|a| + |e|..];
      assert (b + m)[|b|..] == m + (b + m)[|b| + |m|..];
    }
  }

  lemma SnocFacts(ls: seq<Line>, syms: SymbolTable, f: string -> int, k: nat)
    requires AllOk(ls, syms) && k < |ls|
    ensures var last := |ls| - 1;
            && AllOk(ls[..last], syms) && LineOk(ls[last], syms) && LineOk(ls[k], syms)
            && Encode(ls, syms, f) == Encode(ls[..last], syms, f) + EncodeLine(ls[last], syms, f)
            && Memory(ls, syms, f) == Memory(ls[..last], syms, f) + MemLine(ls[last], syms, f)
            && CodeSize(ls) == CodeSize(ls[..last]) + LineSize(ls[last])
            && Start(ls, k) == HEADER + CodeSize(ls[..k]) && Start(ls, k + 1) == HEADER + CodeSize(ls[..k + 1])
            && CodeSize(ls[..k + 1]) == CodeSize(ls[..k]) + LineSize(ls[k])
            && (k < last ==> ls[..last][..k] == ls[..k] && ls[..last][..k + 1] == ls[..k + 1]
                             && Start(ls[..last], k) == Start(ls, k) && Start(ls[..last], k + 1) == Start(ls, k + 1))
            && (k == last ==> ls[..k + 1] == ls)
  {
    hide EncodeLine;
    hide MemLine;
    hide LineSize;
    assert ls[..k + 1][..k] == ls[..k];
  }

  lemma {:induction false} MoveDrop(a: seq<byte>, b: seq<byte>, e: seq<byte>, i: nat, j: nat)
    requires i <= j <= |a| && a[i..] == e + a[j..]
    ensures (a + b)[i..] == e + (a + b)[j..]
  {
    assert (a + b)[i..] == a[i..] + b && (a + b)[j..] == a[j..] + b;
  }

  // The loader reads back the code it was given and stops right behind it.
  lemma {:induction false} CodeReadBack(ls: seq<Line>, syms: SymbolTable, f: string -> int, k: nat, t: seq<byte>)
    requires AllOk(ls, syms) && k <= |ls| && Start(ls, k) < HEADER + CodeSize(ls)
    ensures var r := TakeCode(Encode(ls, syms, f)[CodeSize(ls[..k])..] + t, Start(ls, k), HEADER + CodeSize(ls));
            r.Some? && r.value.items == Memory(ls, syms, f)[CodeSize(ls[..k])..] && r.value.rest == t
    decreases |ls| - k
  {
    hide *;
    CodeFacts(ls, syms, f, k);
    var w, m, i, j := Encode(ls, syms, f), Memory(ls, syms, f), CodeSize(ls[..k]), CodeSize(ls[..k + 1]);
    if j < CodeSize(ls) {
      CodeReadBack(ls, syms, f, k + 1, t);
    }
    if ls[k].Def? {
      assert w[i..] == w[j..] && m[i..] == m[j..];
    } else {
      ReadFirst(EncodeLine(ls[k], syms, f), w[j..], m[j..], t, HEADER + i, HEADER + CodeSize(ls));
    }
  }

  lemma CodeFacts(ls: seq<Line>, syms: SymbolTable, f: string -> int, k: nat)
    requires AllOk(ls, syms) && k <= |ls| && Start(ls, k) < HEADER + CodeSize(ls)
    ensures k < |ls| && LineOk(ls[k], syms)
    ensures var i, j, e, m := CodeSize(ls[..k]), CodeSize(ls[..k + 1]), EncodeLine(ls[k], syms, f), MemLine(ls[k], syms, f);
            && Start(ls, k) == HEADER + i && Start(ls, k + 1) == HEADER + j && j == i + |e| <= CodeSize(ls)
            && Encode(ls, syms, f)[i..] == e + Encode(ls, syms, f)[j..]
            && Memory(ls, syms, f)[i..] == m + Memory(ls, syms, f)[j..]
            && (ls[k].Def? ==> e == [] && m == [])
            && (ls[k].Inst? ==> |e| > 0 && e[0] < MAXOPCODES && |e| == InstrSize(e[0]) && m == SwapInstr(e))
  {
    if k < |ls| {
      MemorySplit(ls, syms, f, k);
      LineBytes(ls[k], syms, f);
    } else {
      AllLines(ls, k);
    }
  }

  lemma AllLines(ls: seq<Line>, k: nat)
    requires k == |ls|
    ensures Start(ls, k) == HEADER + CodeSize(ls)
  {
    assert ls[..k] == ls;
  }

  lemma ReadFirst(e: seq<byte>, w: seq<byte>, m: seq<byte>, t: seq<byte>, i: nat, size: nat)
    requires |e| > 0 && e[0] < MAXOPCODES && |e| == InstrSize(e[0]) && i + |e| + |w| == size && |m| == |w|
    requires |w| > 0 ==>
               var r := TakeCode(w + t, i + |e|, size);
               r.Some? && r.value.items == m && r.value.rest == t
    ensures var r := TakeCode((e + w) + t, i, size);
            r.Some? && r.value.items == SwapInstr(e) + m && r.value.rest == t
  {
    ReadOne(e, w + t, i, size);
    assert (e + w) + t == e + (w + t);
    if |w| == 0 { assert w + t == t && SwapInstr(e) + m == SwapInstr(e); }
  }

  lemma LineBytes(l: Line, syms: SymbolTable, f: string -> int)
    requires LineOk(l, syms)
    ensures l.Def? ==> EncodeLine(l, syms, f) == [] && MemLine(l, syms, f) == [] && LineSize(l) == 0
    ensures l.Inst? ==>
              var e := EncodeLine(l, syms, f);
              |e| == LineSize(l) > 0 && e[0] < MAXOPCODES && |e| == InstrSize(e[0]) && MemLine(l, syms, f) == SwapInstr(e)
  {
  }

  lemma ReadOne(e: seq<byte>, t: seq<byte>, i: nat, size: int)
    requires |e| > 0 && e[0] < MAXOPCODES && |e| == InstrSize(e[0]) && i + |e| <= size
    ensures TakeCode(e + t, i, size)
         == if i + |e| == size then Some(Taken(SwapInstr(e), t)) else Behind(SwapInstr(e), TakeCode(t, i + |e|, size))
  {
    hide SwapInstr;
    assert (e + t)[..|e|] == e && (e + t)[|e|..] == t;
  }

  // ---- the list of types and sizes ----

  ghost function Heads(vars: seq<D.Variable>): (h: seq<Head>)
    ensures |h| == |vars|
  {
    seq(|vars|, k requires 0 <= k < |vars| => Head(D.Code(vars[k].ty), D.Total(vars[k])))
  }

  lemma {:induction false} InfoReadBack(vars: seq<D.Variable>, t: seq<byte>)
    requires forall k | 0 <= k < |vars| :: Fits(D.Total(vars[k]), 8)
    ensures var r := TakeInfo(InfoBytes(vars) + (DATA + t));
            r.Some? && r.value.items == Heads(vars) && r.value.rest == DATA[1..] + t
  {
    hide *;
    if vars == [] {
      InfoEnd(vars, t);
    } else {
      InfoFront(vars);
      InfoReadBack(vars[1..], t);
      var c, n := D.Code(vars[0].ty), D.Total(vars[0]);
      var w, rest := InfoBytes(vars[1..]), DATA + t;
      TakeHead(c, n, w + rest);
      assert [c] + Word(n, 8) + w + rest == [c] + Word(n, 8) + (w + rest);
    }
  }

  lemma InfoEnd(vars: seq<D.Variable>, t: seq<byte>)
    requires vars == []
    ensures TakeInfo(InfoBytes(vars) + (DATA + t)) == Some(Taken(Heads(vars), DATA[1..] + t))
  {
    assert [] + (DATA + t) == DATA + t;
    assert (DATA + t)[1..] == DATA[1..] + t;
  }

  lemma InfoFront(vars: seq<D.Variable>)
    requires vars != []
    ensures var c, n := D.Code(vars[0].ty), D.Total(vars[0]);
            && c != 'd' as int && InfoBytes(vars) == [c] + Word(n, 8) + InfoBytes(vars[1..])
            && Heads(vars) == [Head(c, n)] + Heads(vars[1..])
  {
    hide Word;
    hide D.Total;
  }

  lemma TakeHead(c: byte, n: int, rest: seq<byte>)
    requires c != 'd' as int && Fits(n, 8)
    ensures TakeInfo([c] + Word(n, 8) + rest) == Behind([Head(c, n)], TakeInfo(rest))
  {
    var s := [c] + Word(n, 8) + rest;
    SignedWord(n, 8);
    hide Word;
    assert s[1..9] == Word(n, 8) && s[9..] == rest;
  }

  // ---- the data ----

  ghost function VarMemory(v: D.Variable): seq<byte>
    requires |v.vals| <= v.count
  {
    Convert(D.Code(v.ty), D.VarBytes(v))
  }

  ghost function DataMemory(vars: seq<D.Variable>): seq<byte>
    requires D.VarsOk(vars)
  {
    if vars == [] then [] else VarMemory(vars[0]) + DataMemory(vars[1..])
  }

  // The loader's table: every variable at the compiler's offset, counted from `i`.
  ghost function Entries(vars: seq<D.Variable>, i: nat): seq<DataEntry> {
    if vars == [] then []
    else
      var n := D.Total(vars[0]);
      [DataEntry(D.Code(vars[0].ty), n, i, i + n - 1)] + Entries(vars[1..], i + n)
  }

  lemma CountElements(v: D.Variable)
    ensures Count(D.Code(v.ty), D.Total(v)) * TypeSize(D.Code(v.ty)) == D.Total(v)
    ensures TypeSize(D.Code(v.ty)) == D.Size(v.ty)
  {
    match v.ty case TByte => case TWord => case TDouble32 => case TQuad => case TFloat =>
  }

  lemma {:induction false} ImageFront(vars: seq<D.Variable>)
    requires D.VarsOk(vars) && vars != []
    ensures D.Image(vars) == D.VarBytes(vars[0]) + D.Image(vars[1..])
    ensures D.Offset(vars) == D.Total(vars[0]) + D.Offset(vars[1..])
  {
    hide D.VarBytes;
    hide D.Total;
    var last := |vars| - 1;
    if last > 0 {
      ImageFront(vars[..last]);
      assert vars[..last][1..] == vars[1..][..last - 1];
    }
  }

  lemma {:induction false} SizesOf(vars: seq<D.Variable>)
    requires D.VarsOk(vars)
    ensures Sizes(Heads(vars)) == D.Offset(vars) && Sane(Heads(vars))
  {
    if vars != [] {
      ImageFront(vars);
      SizesOf(vars[1..]);
      assert Heads(vars)[1..] == Heads(vars[1..]);
    }
  }

  lemma {:induction false} DataReadBack(vars: seq<D.Variable>, i: nat, t: seq<byte>)
    requires D.VarsOk(vars)
    ensures var r := TakeData(D.Image(vars) + t, i, Heads(vars));
            r.Some? && r.value.entries == Entries(vars, i) && r.value.data == DataMemory(vars)
  {
    if vars == [] {
      assert Heads(vars) == [];
    } else {
      DataReadBack(vars[1..], i + D.Total(vars[0]), t);
      DataStep(vars, i, t);
    }
  }

  lemma DataStep(vars: seq<D.Variable>, i: nat, t: seq<byte>)
    requires D.VarsOk(vars) && vars != []
    ensures TakeData(D.Image(vars) + t, i, Heads(vars))
         == Join(DataEntry(D.Code(vars[0].ty), D.Total(vars[0]), i, i + D.Total(vars[0]) - 1), VarMemory(vars[0]),
                 TakeData(D.Image(vars[1..]) + t, i + D.Total(vars[0]), Heads(vars[1..])))
  {
    hide *;
    DataFacts(vars);
    var v := vars[0];
    TakeOne(D.Code(v.ty), D.Total(v), D.VarBytes(v), D.Image(vars[1..]) + t, i, Heads(vars[1..]));
    assert D.Image(vars) + t == D.VarBytes(v) + (D.Image(vars[1..]) + t);
  }

  lemma DataFacts(vars: seq<D.Variable>)
    requires D.VarsOk(vars) && vars != []
    ensures var v := vars[0];
            && |v.vals| <= v.count && D.VarsOk(vars[1..])
            && D.Image(vars) == D.VarBytes(v) + D.Image(vars[1..])
            && VarMemory(v) == Convert(D.Code(v.ty), D.VarBytes(v))
            && Heads(vars) == [Head(D.Code(v.ty), D.Total(v))] + Heads(vars[1..])
            && TypeSize(D.Code(v.ty)) > 0 && |D.VarBytes(v)| == D.Total(v)
            && Count(D.Code(v.ty), D.Total(v)) * TypeSize(D.Code(v.ty)) == D.Total(v)
  {
    ImageFront(vars);
    CountElements(vars[0]);
  }

  lemma TakeOne(ty: byte, size: int, d: seq<byte>, rest: seq<byte>, i: nat, heads: seq<Head>)
    requires TypeSize(ty) > 0 && |d| == Count(ty, size) * TypeSize(ty)
    ensures TakeData(d + rest, i, [Head(ty, size)] + heads)
         == Join(DataEntry(ty, size, i, i + |d| - 1), Convert(ty, d), TakeData(rest, i + |d|, heads))
  {
    hide Count;
    hide TypeSize;
    hide Convert;
    assert (d + rest)[..|d|] == d && (d + rest)[|d|..] == rest;
    assert ([Head(ty, size)] + heads)[1..] == heads;
  }

  // ---- the whole file ----

  lemma CutHead(a: seq<byte>, b: seq<byte>, t: seq<byte>)
    requires |a| == 8 && |b| == 8
    ensures (a + b + t)[..8] == a && (a + b + t)[8..16] == b && (a + b + t)[16..] == t
  {
  }

  // A file written by dump_object loads, when it holds an instruction and fits, and what is in memory
  // are the instructions, the types and sizes, the compiler's offsets and the data.  A file without
  // code does not load: the first byte of the next section is taken for an instruction.
  lemma RoundTrip(ls: seq<Line>, syms: SymbolTable, vars: seq<D.Variable>, maxCode: int, maxData: int, stack: nat)
    requires AllOk(ls, syms) && D.VarsOk(vars)
    requires HEADER + CodeSize(ls) <= maxCode < 0x8000_0000_0000_0000
    requires D.Offset(vars) + stack <= maxData < 0x8000_0000_0000_0000
    ensures Load(Object(ls, syms, vars), maxCode, maxData, stack)
         == if CodeSize(ls) == 0 then None
            else Some(Loaded(Memory(ls, syms, Addresses(ls)), Entries(vars, 0), DataMemory(vars)))
  {
    hide *;
    var w, t := Encode(ls, syms, Addresses(ls)), Tail(vars);
    var size := HEADER + CodeSize(ls);
    FileParts(ls, syms, vars);
    CutHead(Word(MAGIC, 8), Word(size, 8), w + t);
    WordBack(MAGIC);
    WordBack(size);
    LoadUnfolds(Object(ls, syms, vars), maxCode, maxData, stack);
    if CodeSize(ls) == 0 {
      NoCode(vars, size);
    } else {
      StartOf(ls, syms);
      CodeReadBack(ls, syms, Addresses(ls), 0, t);
      RestReadBack(Memory(ls, syms, Addresses(ls)), vars, maxData, stack);
    }
  }

  ghost function Tail(vars: seq<D.Variable>): seq<byte>
    requires D.VarsOk(vars)
  {
    INFO + InfoBytes(vars) + DATA + Word(8 + D.Offset(vars), 8) + D.Image(vars)
  }

  lemma FileParts(ls: seq<Line>, syms: SymbolTable, vars: seq<D.Variable>)
    requires AllOk(ls, syms) && D.VarsOk(vars)
    ensures Object(ls, syms, vars)
         == Word(MAGIC, 8) + Word(HEADER + CodeSize(ls), 8) + (Encode(ls, syms, Addresses(ls)) + Tail(vars))
    ensures |Encode(ls, syms, Addresses(ls))| == CodeSize(ls)
  {
  }

  lemma WordBack(v: int)
    requires v == MAGIC || 0 <= v < 0x8000_0000_0000_0000
    ensures Signed(Word(v, 8)) == v
  {
    FitsRange(v);
    SignedWord(v, 8);
  }

  lemma LoadUnfolds(file: seq<byte>, maxCode: int, maxData: int, stack: nat)
    requires |file| >= 16 && Signed(file[..8]) == MAGIC && 0 <= Signed(file[8..16]) <= maxCode
    ensures Load(file, maxCode, maxData, stack)
         == var c := TakeCode(file[16..], HEADER, Signed(file[8..16]));
            if c.None? then None else LoadRest(c.value.items, c.value.rest, maxData, stack)
  {
    hide TakeCode;
    hide LoadRest;
  }

  lemma NoCode(vars: seq<D.Variable>, size: int)
    requires D.VarsOk(vars) && size == HEADER
    ensures TakeCode([] + Tail(vars), HEADER, size) == None
  {
    assert ([] + Tail(vars))[0] == 'i' as int;
  }

  lemma StartOf(ls: seq<Line>, syms: SymbolTable)
    ensures Start(ls, 0) == HEADER && CodeSize(ls[..0]) == 0
  {
  }

  lemma RestReadBack(code: seq<byte>, vars: seq<D.Variable>, maxData: int, stack: nat)
    requires D.VarsOk(vars) && D.Offset(vars) + stack <= maxData < 0x8000_0000_0000_0000
    ensures LoadRest(code, Tail(vars), maxData, stack) == Some(Loaded(code, Entries(vars, 0), DataMemory(vars)))
  {
    hide *;
    var t := Word(8 + D.Offset(vars), 8) + D.Image(vars);
    TailParts(vars);
    SizesFit(vars, maxData);
    InfoReadBack(vars, t);
    DataReadBack(vars, 0, []);
    SizesOf(vars);
    assert D.Image(vars) + [] == D.Image(vars);
    RestUnfolds(code, Heads(vars), Word(8 + D.Offset(vars), 8), D.Image(vars), Tail(vars), maxData, stack);
  }

  lemma TailParts(vars: seq<D.Variable>)
    requires D.VarsOk(vars)
    ensures Starts(Tail(vars), INFO)
    ensures Tail(vars)[4..] == InfoBytes(vars) + (DATA + (Word(8 + D.Offset(vars), 8) + D.Image(vars)))
  {
    assert Tail(vars) == INFO + (InfoBytes(vars) + (DATA + (Word(8 + D.Offset(vars), 8) + D.Image(vars))));
  }

  lemma RestUnfolds(code: seq<byte>, heads: seq<Head>, w: seq<byte>, image: seq<byte>, s: seq<byte>, maxData: int, stack: nat)
    requires Starts(s, INFO) && TakeInfo(s[4..]) == Some(Taken(heads, DATA[1..] + (w + image)))
    requires |w| == 8 && Sane(heads) && Sizes(heads) + stack <= maxData
    ensures LoadRest(code, s, maxData, stack)
         == var d := TakeData(image, 0, heads);
            if d.None? then None else Some(Loaded(code, d.value.entries, d.value.data))
  {
    hide TakeInfo;
    hide TakeData;
    hide Sizes;
    var r := DATA[1..] + (w + image);
    assert r[..3] == DATA[1..] && r[11..] == image;
  }

  lemma {:induction false} SizesFit(vars: seq<D.Variable>, max: int)
    requires D.VarsOk(vars) && D.Offset(vars) <= max < 0x8000_0000_0000_0000
    ensures forall k | 0 <= k < |vars| :: Fits(D.Total(vars[k]), 8)
  {
    forall k | 0 <= k < |vars|
      ensures Fits(D.Total(vars[k]), 8)
    {
      D.TableAt(vars, k);
      FitsRange(D.Total(vars[k]));
    }
  }

  // ---- what the loaded bytes mean ----

  // The loader's offset of a variable is the compiler's, and so is the assembler's operand.
  lemma {:induction false} EntryAt(vars: seq<D.Variable>, i: nat, k: nat)
    requires k < |vars|
    ensures |Entries(vars, i)| == |vars|
    ensures var o := i + D.Offset(vars[..k]); var n := D.Total(vars[k]);
            Entries(vars, i)[k] == DataEntry(D.Code(vars[k].ty), n, o, o + n - 1)
  {
    hide D.Total;
    hide D.Code;
    if |vars| > 1 { EntryAt(vars[1..], i + D.Total(vars[0]), if k == 0 then 0 else k - 1); }
    if k == 0 {
      assert vars[..0] == [];
    } else {
      OffsetFront(vars[..k]);
      assert vars[..k][1..] == vars[1..][..k - 1];
    }
  }

  lemma {:induction false} OffsetFront(vars: seq<D.Variable>)
    requires vars != []
    ensures D.Offset(vars) == D.Total(vars[0]) + D.Offset(vars[1..])
  {
    hide D.Total;
    var last := |vars| - 1;
    if last > 0 {
      OffsetFront(vars[..last]);
      assert vars[..last][1..] == vars[1..][..last - 1];
    }
  }

  lemma OneLayout(vars: seq<D.Variable>, k: nat)
    requires k < |vars| && forall j | 0 <= j < k :: vars[j].name != vars[k].name
    ensures |Entries(vars, 0)| == |vars|
    ensures Entries(vars, 0)[k].offset == D.Operand(D.Table(vars), vars[k].name) == D.Offset(vars[..k])
  {
    EntryAt(vars, 0, k);
    D.LayoutAgrees(vars, k);
  }

  function Element(v: D.Variable, k: nat): int {
    if k < |v.vals| then v.vals[k] else 0
  }

  lemma ElementBytes(v: D.Variable, k: nat)
    requires |v.vals| <= v.count && k < v.count
    ensures k * D.Size(v.ty) + D.Size(v.ty) == (k + 1) * D.Size(v.ty) <= D.Total(v)
    ensures D.VarBytes(v)[k * D.Size(v.ty)..(k + 1) * D.Size(v.ty)] == Word(Element(v, k), D.Size(v.ty))
  {
    var n := D.Size(v.ty);
    D.Fewer(k + 1, v.count, n);
    D.WordsLength(v.vals, n);
    if k < |v.vals| {
      D.Fewer(k + 1, |v.vals|, n);
      WordsAt(v.vals, k, n);
    } else {
      D.Fewer(|v.vals|, k, n);
      D.ZeroWord(n);
    }
  }

  lemma {:induction false} WordsAt(vals: seq<int>, k: nat, n: nat)
    requires k < |vals|
    ensures k * n + n == (k + 1) * n <= |D.Words(vals, n)| && D.Words(vals, n)[k * n..(k + 1) * n] == Word(vals[k], n)
  {
    hide Word;
    var last := |vals| - 1;
    var a, w := D.Words(vals[..last], n), Word(vals[last], n);
    D.WordsLength(vals[..last], n);
    D.WordsLength(vals, n);
    D.Fewer(k + 1, |vals|, n);
    assert D.Words(vals, n) == a + w;
    if k < last {
      WordsAt(vals[..last], k, n);
      SliceLeft(a, w, k * n, (k + 1) * n);
    } else {
      SliceRight(a, w);
    }
  }

  lemma SliceLeft(a: seq<byte>, w: seq<byte>, i: nat, j: nat)
    requires i <= j <= |a|
    ensures (a + w)[i..j] == a[i..j]
  {
  }

  lemma SliceRight(a: seq<byte>, w: seq<byte>)
    ensures (a + w)[|a|..|a| + |w|] == w
  {
  }

  // ---- values in memory, as a little-endian machine reads them ----

  function HostValue(m: seq<byte>): int {
    Signed(Reverse(m))
  }

  lemma {:induction false} SwapWordsAt(s: seq<byte>, n: nat, k: nat)
    requires n > 0 && (k + 1) * n <= |s|
    ensures 0 <= k * n <= (k + 1) * n == k * n + n <= |SwapWords(s, n)|
    ensures SwapWords(s, n)[k * n..(k + 1) * n] == Reverse(s[k * n..(k + 1) * n])
    decreases k
  {
    D.Step(k, k + 1, n);
    D.Fewer(1, k + 1, n);
    hide Reverse;
    var w, m := Reverse(s[..n]), SwapWords(s[n..], n);
    assert SwapWords(s, n) == w + m && |w| == n;
    if k == 0 {
      assert (w + m)[0..n] == w;
    } else {
      D.Step(k - 1, k, n);
      SwapWordsAt(s[n..], n, k - 1);
      hide SwapWords;
      SkipFront(w, m, (k - 1) * n, k * n);
      SkipFront(s[..n], s[n..], (k - 1) * n, k * n);
      assert s == s[..n] + s[n..];
    }
  }

  lemma SkipFront(a: seq<byte>, m: seq<byte>, i: nat, j: nat)
    requires i <= j <= |m|
    ensures (a + m)[|a| + i..|a| + j] == m[i..j]
  {
  }

  // Every element of an integer variable has its value in memory.  An element of a double variable
  // does exactly when its eight bytes read the same backwards, because only its printed copy is
  // converted.
  lemma LoadedElement(v: D.Variable, k: nat)
    requires |v.vals| <= v.count && k < v.count && Fits(Element(v, k), D.Size(v.ty))
    ensures var n := D.Size(v.ty); var w := Word(Element(v, k), n);
            && 0 <= k * n <= (k + 1) * n <= |VarMemory(v)|
            && (HostValue(VarMemory(v)[k * n..(k + 1) * n]) == Element(v, k) <==> (v.ty == D.TFloat ==> w == Reverse(w)))
  {
    hide Word;
    hide Signed;
    hide D.VarBytes;
    var n := D.Size(v.ty);
    var w := Word(Element(v, k), n);
    ElementBytes(v, k);
    SignedWord(Element(v, k), n);
    ReverseTwice(w);
    if v.ty == D.TFloat {
      WordSigned(Reverse(w));
    } else {
      SwapWordsAt(D.VarBytes(v), n, k);
    }
  }

  lemma {:induction false} ConvertLength(ty: byte, s: seq<byte>, count: nat)
    requires TypeSize(ty) > 0 && |s| == count * TypeSize(ty)
    ensures |Convert(ty, s)| == |s|
    decreases count
  {
    var n := TypeSize(ty);
    if ty != 12 && count > 0 {
      assert count * n == (count - 1) * n + n;
      ConvertLength(ty, s[n..], count - 1);
    }
  }

  // Every variable's bytes are at the compiler's offset.
  lemma {:induction false} MemoryAt(vars: seq<D.Variable>, k: nat)
    requires D.VarsOk(vars) && k < |vars|
    ensures var o := D.Offset(vars[..k]); var n := D.Total(vars[k]);
            && |VarMemory(vars[k])| == n && o + n <= |DataMemory(vars)|
            && DataMemory(vars)[o..o + n] == VarMemory(vars[k])
  {
    hide *;
    MemoryFront(vars);
    var m, rest := VarMemory(vars[0]), DataMemory(vars[1..]);
    if k == 0 {
      assert (m + rest)[0..|m|] == m;
    } else {
      MemoryAt(vars[1..], k - 1);
      OffsetFront(vars[..k]);
      assert vars[..k][1..] == vars[1..][..k - 1] && vars[1..][k - 1] == vars[k];
      SkipFront(m, rest, D.Offset(vars[1..][..k - 1]), D.Offset(vars[1..][..k - 1]) + D.Total(vars[k]));
    }
  }

  lemma {:induction false} MemoryFront(vars: seq<D.Variable>)
    requires D.VarsOk(vars) && vars != []
    ensures D.VarsOk(vars[1..]) && |vars[0].vals| <= vars[0].count && D.Offset(vars[..0]) == 0
    ensures DataMemory(vars) == VarMemory(vars[0]) + DataMemory(vars[1..]) && |VarMemory(vars[0])| == D.Total(vars[0])
  {
    var v := vars[0];
    CountElements(v);
    ConvertLength(D.Code(v.ty), D.VarBytes(v), v.count);
    hide D.VarBytes;
    hide Convert;
  }

  lemma {:induction false} MemoryLength(vars: seq<D.Variable>)
    requires D.VarsOk(vars)
    ensures |DataMemory(vars)| == D.Offset(vars)
  {
    if vars != [] {
      MemoryFront(vars);
      OffsetFront(vars);
      MemoryLength(vars[1..]);
      hide DataMemory;
      hide D.Offset;
    }
  }

  // The loader's table depends on types and sizes only.
  lemma {:induction false} EntriesShape(ws: seq<D.Variable>, vars: seq<D.Variable>, i: nat)
    requires |ws| == |vars| && forall k | 0 <= k < |vars| :: ws[k].ty == vars[k].ty && ws[k].count == vars[k].count
    ensures Entries(ws, i) == Entries(vars, i)
    decreases |vars|
  {
    if vars != [] {
      assert D.Total(ws[0]) == D.Total(vars[0]);
      hide D.Total;
      EntriesShape(ws[1..], vars[1..], i + D.Total(vars[0]));
    }
  }
}
