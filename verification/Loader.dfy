// load_object and dump_object as loops over their buffers.
module Loader {
  import opened Infix
  import opened Bytes
  import opened Opcodes
  import opened Assembler
  import CS = CodeSection
  import D = DataSection
  import opened ObjectFile

  class Loader {
    var code: array<byte>
    var entries: seq<DataEntry>
    var data: array<byte>

    constructor ()
      ensures entries == [] && fresh(code) && fresh(data)
    {
      code := new byte[0];
      data := new byte[0];
      entries := [];
    }

    // load_object on the bytes of a file.
    method LoadObject(file: seq<byte>, maxCode: int, maxData: int, stack: nat) returns (ok: bool)
      modifies this
      ensures ok <==> Load(file, maxCode, maxData, stack).Some?
      ensures ok ==> Holds(Load(file, maxCode, maxData, stack).value)
    {
      if |file| < 16 || Signed(file[..8]) != MAGIC || !(0 <= Signed(file[8..16]) <= maxCode) { return false; }
      hide Signed;
      hide TakeCode;
      hide LoadRest;
      hide Holds;
      code := new byte[Signed(file[8..16])](_ => 0);
      var pos: nat;
      ok, pos := ReadCode(file);
      if !ok { return false; }
      ok := LoadSections(file, pos, maxData, stack);
    }

    ghost predicate Holds(r: Loaded)
      reads this, code, data
    {
      && HEADER <= code.Length && code[HEADER..] == r.code && entries == r.entries
      && |r.data| <= data.Length && data[..|r.data|] == r.data
    }

    // The sections behind the code.
    method LoadSections(file: seq<byte>, pos: nat, maxData: int, stack: nat) returns (ok: bool)
      requires pos <= |file| && HEADER <= code.Length
      modifies this`entries, this`data
      ensures ok <==> LoadRest(code[HEADER..], file[pos..], maxData, stack).Some?
      ensures ok ==> Holds(LoadRest(code[HEADER..], file[pos..], maxData, stack).value)
    {
      hide TakeInfo;
      hide TakeData;
      hide Sane;
      hide Sizes;
      if !Starts(file[pos..], INFO) { return false; }
      assert file[pos..][4..] == file[pos + 4..];
      var n: nat, total: int;
      ok, n, total := ReadInfo(file, pos + 4);
      if !ok { return false; }
      if !Starts(file[n..], DATA[1..]) || |file| < n + 11 || !SaneEntries(entries) || total + stack > maxData { return false; }
      SaneSizes(HeadsOf(entries));
      data := new byte[total + stack](_ => 0);
      assert file[n..][11..] == file[n + 11..];
      ok := ReadData(file, n + 11);
    }

    // One instruction, from the file into code[i..].
    method ReadInstr(file: seq<byte>, i: nat) returns (ok: bool, n: nat)
      requires i <= |file|
      modifies code
      ensures ok <==> InstrFits(file, i, code.Length)
      ensures ok ==> n == InstrSize(file[i]) && Written(old(code[..]), i, SwapInstr(file[i..i + n]), code[..])
    {
      hide *;
      if !InstrFits(file, i, code.Length) { return false, 0; }
      InstrHere(file, i, code.Length);
      var op := file[i];
      n := InstrSize(op);
      ghost var was := code[..];
      ghost var w := file[i + 1..i + n];
      FirstByte(file, i, n, w);
      code[i] := op;
      ghost var now := code[..];
      WriteOne(was, i, op);
      assert now == was[i := op];
      ReadArgs(file, i + 1, ArgTypes(op));
      WrittenOn(was, i, [op], now, SwapArgs(ArgTypes(op), w), code[..]);
      ok := true;
    }

    // Its operands, one after the other.
    method ReadArgs(file: seq<byte>, at: nat, tys: seq<ArgType>)
      requires at + Widths(tys) <= |file| && at + Widths(tys) <= code.Length
      modifies code
      ensures Written(old(code[..]), at, SwapArgs(tys, file[at..at + Widths(tys)]), code[..])
    {
      hide *;
      ghost var was, w := code[..], file[at..at + Widths(tys)];
      ghost var m: seq<byte> := [];
      StartArgs(tys, w, was, at);
      var n: nat := 0;
      for j := 0 to |tys|
        invariant n == Widths(tys[..j]) == |m| <= |w|
        invariant m == SwapArgs(tys[..j], w[..n])
        invariant Written(was, at, m, code[..])
      {
        ArgStep(tys, w, j);
        var k := Width(tys[j]);
        ReadArg(file, at, n, k, was, w, m);
        m := m + Reverse(w[n..n + k]);
        n := n + k;
      }
      assert tys[..|tys|] == tys && w[..n] == w;
    }

    // The code section, at least one instruction.
    method ReadCode(file: seq<byte>) returns (ok: bool, pos: nat)
      requires |file| >= HEADER
      modifies code
      ensures ok <==> TakeCode(file[HEADER..], HEADER, code.Length).Some?
      ensures ok ==> HEADER < pos == code.Length <= |file|
      ensures ok ==> TakeCode(file[HEADER..], HEADER, code.Length).value == Taken(code[HEADER..], file[pos..])
    {
      hide *;
      var i: nat := HEADER;
      ghost var got: seq<byte> := [];
      NothingRead(TakeCode(file[i..], i, code.Length));
      var done := false;
      while !done
        invariant i == HEADER + |got| <= |file|
        invariant |got| > 0 ==> i <= code.Length && code[HEADER..i] == got
        invariant done ==> i == code.Length && |got| > 0
        invariant TakeCode(file[HEADER..], HEADER, code.Length)
               == Behind(got, if done then Some(Taken([], file[i..])) else TakeCode(file[i..], i, code.Length))
        decreases |file| - i, !done
      {
        CodeStep(file, i, code.Length, got);
        if InstrFits(file, i, code.Length) { InstrHere(file, i, code.Length); }
        ghost var was := code[..];
        var n;
        ok, n := ReadInstr(file, i);
        if !ok { return false, 0; }
        AfterWrite(was, HEADER, i, SwapInstr(file[i..i + n]), code[..]);
        got := got + SwapInstr(file[i..i + n]);
        i := i + n;
        done := i > code.Length - 1;
      }
      AllRead(got, file[i..]);
      return true, i;
    }

    // The list of types and sizes, with the sum of the sizes.
    method ReadInfo(file: seq<byte>, at: nat) returns (ok: bool, pos: nat, total: int)
      requires at <= |file|
      modifies this`entries
      ensures ok <==> TakeInfo(file[at..]).Some?
      ensures ok ==> pos <= |file| && TakeInfo(file[at..]).value == Taken(HeadsOf(entries), file[pos..])
      ensures ok ==> total == Sizes(HeadsOf(entries))
      ensures forall k | 0 <= k < |entries| :: entries[k].offset == 0 && entries[k].end == 0
    {
      hide *;
      entries := [];
      pos, total := at, 0;
      var done := false;
      NothingRead(TakeInfo(file[at..]));
      NoEntriesYet();
      while !done
        invariant pos <= |file|
        invariant TakeInfo(file[at..])
               == Behind(HeadsOf(entries), if done then Some(Taken([], file[pos..])) else TakeInfo(file[pos..]))
        invariant total == Sizes(HeadsOf(entries))
        invariant forall k | 0 <= k < |entries| :: entries[k].offset == 0 && entries[k].end == 0
        decreases |file| - pos, !done
      {
        InfoStep(file, pos, entries);
        if pos == |file| { return false, 0, 0; }
        if file[pos] == 'd' as int {
          pos := pos + 1;
          done := true;
        } else {
          if pos + 9 > |file| { return false, 0, 0; }
          var e := DataEntry(file[pos], Signed(file[pos + 1..pos + 9]), 0, 0);
          entries := entries + [e];
          total := total + e.size;
          pos := pos + 9;
        }
      }
      AllRead(HeadsOf(entries), file[pos..]);
      return true, pos, total;
    }

    // The elements of one entry, read from `pos` and put at i.
    method ReadElements(file: seq<byte>, pos: nat, i: nat, ty: byte, count: nat)
      requires TypeSize(ty) > 0 && pos + count * TypeSize(ty) <= |file| && i + count * TypeSize(ty) <= data.Length
      modifies data
      ensures Written(old(data[..]), i, Convert(ty, file[pos..pos + count * TypeSize(ty)]), data[..])
    {
      hide *;
      var n := TypeSize(ty);
      ghost var was, s := data[..], file[pos..pos + count * n];
      var at: nat := 0;
      StartElements(ty, s, was, i);
      for k := 0 to count
        invariant at == k * n
        invariant |Convert(ty, s[..at])| == at <= |s| && Written(was, i, Convert(ty, s[..at]), data[..])
      {
        ElementStep(ty, s, k, count);
        ghost var now, m := data[..], Convert(ty, s[..at]);
        SubSlice(file, pos, at, n, s);
        var w := file[pos + at..pos + at + n];
        if ty != 12 { w := Reverse(w); }
        WriteBytes(data, i + at, w);
        WrittenOn(was, i, m, now, w, data[..]);
        at := at + n;
      }
      assert s[..at] == s;
    }

    // The data section: fills `data` and completes the entries.
    method ReadData(file: seq<byte>, at: nat) returns (ok: bool)
      requires at <= |file| && Sane(HeadsOf(entries)) && Sizes(HeadsOf(entries)) <= data.Length
      requires forall k | 0 <= k < |entries| :: entries[k].offset == 0 && entries[k].end == 0
      modifies this`entries, data
      ensures ok <==> TakeData(file[at..], 0, HeadsOf(old(entries))).Some?
      ensures ok ==>
                var r := TakeData(file[at..], 0, HeadsOf(old(entries))).value;
                entries == r.entries && |r.data| <= data.Length && data[..|r.data|] == r.data
    {
      hide *;
      ghost var heads := HeadsOf(entries);
      var pos: nat, i: nat := at, 0;
      NoEntries(TakeData(file[at..], 0, heads));
      SaneSizes(heads);
      assert heads[0..] == heads;
      for j := 0 to |entries|
        invariant |entries| == |heads| && HeadsOf(entries) == heads && pos <= |file|
        invariant forall k | j <= k < |entries| :: entries[k].offset == 0 && entries[k].end == 0
        invariant Sane(heads[j..]) && i + Sizes(heads[j..]) <= data.Length && 0 <= Sizes(heads[j..])
        invariant TakeData(file[at..], 0, heads) == Ahead(entries[..j], data[..i], TakeData(file[pos..], i, heads[j..]))
      {
        var e := entries[j];
        assert e == DataEntry(e.ty, e.size, 0, 0);
        DataRound(file, pos, i, heads[j..], entries[..j], data[..i]);
        NextHead(entries, j);
        var n := Count(e.ty, e.size) * TypeSize(e.ty);
        if pos + n > |file| { return false; }
        ghost var was := data[..];
        if TypeSize(e.ty) != 0 {
          ReadElements(file, pos, i, e.ty, Count(e.ty, e.size));
          ConvertLength(e.ty, file[pos..pos + n], Count(e.ty, e.size));
          AfterWrite(was, 0, i, Convert(e.ty, file[pos..pos + n]), data[..]);
          e := e.(offset := i, end := i + n - 1);
        } else {
          NoConversion(e.ty, file[pos..pos + n]);
        }
        assert data[..i + n] == was[..i] + Convert(e.ty, file[pos..pos + n]);
        assert entries[j := e][..j + 1] == entries[..j] + [e];
        entries := entries[j := e];
        i := i + n;
        pos := pos + n;
      }
      assert heads[|entries|..] == [] && entries[..|entries|] == entries;
      EntriesDone(file[pos..], i, entries, data[..i]);
      return true;
    }

    // The operand of k bytes behind those that are done.
    method ReadArg(file: seq<byte>, at: nat, n: nat, k: nat, ghost was: seq<byte>, ghost w: seq<byte>, ghost m: seq<byte>)
      requires at + |w| <= |file| && w == file[at..at + |w|] && n + k <= |w| && at + n + k <= code.Length
      requires |m| == n && Written(was, at, m, code[..])
      modifies code
      ensures Written(was, at, m + Reverse(w[n..n + k]), code[..])
    {
      hide *;
      ghost var now := code[..];
      WriteReversed(file, at + n, k);
      SubSlice(file, at, n, k, w);
      WrittenOn(was, at, m, now, Reverse(w[n..n + k]), code[..]);
    }

    // conv_* and the copy: the bytes of an operand from the last to the first.
    method WriteReversed(file: seq<byte>, at: nat, k: nat)
      requires at + k <= |file| && at + k <= code.Length
      modifies code
      ensures Written(old(code[..]), at, Reverse(file[at..at + k]), code[..])
    {
      for b := 0 to k
        invariant forall x | 0 <= x < code.Length :: code[x] == if at <= x < at + b then file[at + k - 1 - (x - at)] else old(code[x])
      {
        code[at + b] := file[at + k - 1 - b];
      }
    }
  }

  function HeadsOf(es: seq<DataEntry>): (h: seq<Head>)
    ensures |h| == |es|
  {
    seq(|es|, k requires 0 <= k < |es| => Head(es[k].ty, es[k].size))
  }

  predicate SaneEntries(es: seq<DataEntry>)
    ensures SaneEntries(es) <==> Sane(HeadsOf(es))
  {
    assert forall k | 0 <= k < |es| :: HeadsOf(es)[k].size == es[k].size;
    forall k | 0 <= k < |es| :: es[k].size >= 0
  }

  lemma NoEntriesYet()
    ensures HeadsOf([]) == [] && Sizes([]) == 0
  {
  }

  lemma {:induction false} SizesAppend(h: seq<Head>, e: Head)
    ensures Sizes(h + [e]) == Sizes(h) + e.size
  {
    if h != [] {
      SizesAppend(h[1..], e);
      assert (h + [e])[1..] == h[1..] + [e];
    }
  }

  lemma InfoStep(file: seq<byte>, pos: nat, es: seq<DataEntry>)
    requires pos <= |file|
    ensures var r := Behind(HeadsOf(es), TakeInfo(file[pos..]));
            if pos == |file| then r == None
            else if file[pos] == 'd' as int then r == Behind(HeadsOf(es), Some(Taken([], file[pos + 1..])))
            else if pos + 9 > |file| then r == None
            else
              var e := DataEntry(file[pos], Signed(file[pos + 1..pos + 9]), 0, 0);
              r == Behind(HeadsOf(es + [e]), TakeInfo(file[pos + 9..]))
              && Sizes(HeadsOf(es + [e])) == Sizes(HeadsOf(es)) + e.size
  {
    var s := file[pos..];
    if s != [] && s[0] != 'd' as int && |s| >= 9 {
      assert s[1..9] == file[pos + 1..pos + 9] && s[9..] == file[pos + 9..];
      hide Signed;
      var e := DataEntry(s[0], Signed(s[1..9]), 0, 0);
      assert HeadsOf(es + [e]) == HeadsOf(es) + [Head(e.ty, e.size)];
      SizesAppend(HeadsOf(es), Head(e.ty, e.size));
      var r := TakeInfo(s[9..]);
      if r.Some? { assert HeadsOf(es) + ([Head(e.ty, e.size)] + r.value.items) == HeadsOf(es + [e]) + r.value.items; }
    } else if s != [] {
      assert s[1..] == file[pos + 1..];
    }
  }

  lemma StartElements(ty: byte, s: seq<byte>, was: seq<byte>, i: nat)
    requires i <= |was|
    ensures |Convert(ty, s[..0])| == 0 && Written(was, i, Convert(ty, s[..0]), was)
  {
  }

  lemma ElementStep(ty: byte, s: seq<byte>, k: nat, count: nat)
    requires TypeSize(ty) > 0 && k < count && |s| == count * TypeSize(ty)
    requires |Convert(ty, s[..k * TypeSize(ty)])| == k * TypeSize(ty)
    ensures var n := TypeSize(ty); var at := k * n;
            && at + n == (k + 1) * n <= |s|
            && Convert(ty, s[..at + n]) == Convert(ty, s[..at]) + (if ty == 12 then s[at..at + n] else Reverse(s[at..at + n]))
  {
    hide SwapWords;
    hide TypeSize;
    var n := TypeSize(ty);
    D.Step(k, count, n);
    var at := k * n;
    assert s[..at + n] == s[..at] + s[at..at + n];
    if ty != 12 { SwapSnoc(s[..at], s[at..at + n], n, k); }
  }

  lemma {:induction false} SwapSnoc(a: seq<byte>, b: seq<byte>, n: nat, k: nat)
    requires n > 0 && |a| == k * n && |b| == n
    ensures SwapWords(a + b, n) == SwapWords(a, n) + Reverse(b)
    decreases k
  {
    if k == 0 {
      assert a + b == b && b[..n] == b && b[n..] == [];
    } else {
      assert k * n == (k - 1) * n + n;
      SwapSnoc(a[n..], b, n, k - 1);
      assert (a + b)[..n] == a[..n] && (a + b)[n..] == a[n..] + b;
    }
  }

  // What the entries before the current one have put in memory, then the rest.
  ghost function Ahead(es: seq<DataEntry>, d: seq<byte>, r: Option<Stored>): Option<Stored> {
    match r case None => None case Some(p) => Some(Stored(es + p.entries, d + p.data))
  }

  lemma NoEntries(r: Option<Stored>)
    ensures Ahead([], [], r) == r
  {
    match r case None => case Some(p) => assert [] + p.entries == p.entries && [] + p.data == p.data;
  }

  lemma EntriesDone(file: seq<byte>, i: nat, es: seq<DataEntry>, d: seq<byte>)
    ensures Ahead(es, d, TakeData(file, i, [])) == Some(Stored(es, d))
  {
    assert es + [] == es && d + [] == d;
  }

  // One entry, in terms of the whole list.
  lemma DataRound(file: seq<byte>, pos: nat, i: nat, heads: seq<Head>, es: seq<DataEntry>, d: seq<byte>)
    requires pos <= |file| && heads != [] && Sane(heads)
    ensures var ty, size := heads[0].ty, heads[0].size; var n := Count(ty, size) * TypeSize(ty);
            && 0 <= n <= size && Sane(heads[1..]) && Sizes(heads) == size + Sizes(heads[1..]) && 0 <= Sizes(heads[1..])
            && if pos + n > |file| then Ahead(es, d, TakeData(file[pos..], i, heads)) == None
               else
                 var e := if TypeSize(ty) == 0 then DataEntry(ty, size, 0, 0) else DataEntry(ty, size, i, i + n - 1);
                 Ahead(es, d, TakeData(file[pos..], i, heads))
                 == Ahead(es + [e], d + Convert(ty, file[pos..pos + n]), TakeData(file[pos + n..], i + n, heads[1..]))
  {
    hide *;
    RoundSizes(heads);
    var ty, size := heads[0].ty, heads[0].size;
    var n := Count(ty, size) * TypeSize(ty);
    if pos + n <= |file| {
      DataUnfold(file, pos, i, heads);
      var e := if TypeSize(ty) == 0 then DataEntry(ty, size, 0, 0) else DataEntry(ty, size, i, i + n - 1);
      AheadTwice(es, d, e, Convert(ty, file[pos..pos + n]), TakeData(file[pos + n..], i + n, heads[1..]));
    } else {
      DataShort(file, pos, i, heads, es, d);
    }
  }

  lemma RoundSizes(heads: seq<Head>)
    requires heads != [] && Sane(heads)
    ensures 0 <= Count(heads[0].ty, heads[0].size) * TypeSize(heads[0].ty) <= heads[0].size
    ensures Sane(heads[1..]) && Sizes(heads) == heads[0].size + Sizes(heads[1..]) && 0 <= Sizes(heads[1..])
  {
    SaneSizes(heads[1..]);
    CountFits(heads[0].ty, heads[0].size);
    hide Count;
    hide TypeSize;
  }

  lemma CountFits(ty: byte, size: int)
    requires size >= 0
    ensures 0 <= Count(ty, size) * TypeSize(ty) <= size
  {
    assert TypeSize(ty) in {0, 1, 2, 4, 8};
  }

  lemma DataShort(file: seq<byte>, pos: nat, i: nat, heads: seq<Head>, es: seq<DataEntry>, d: seq<byte>)
    requires heads != [] && pos <= |file| < pos + Count(heads[0].ty, heads[0].size) * TypeSize(heads[0].ty)
    ensures Ahead(es, d, TakeData(file[pos..], i, heads)) == None
  {
    hide Count;
    hide TypeSize;
  }

  lemma AheadTwice(es: seq<DataEntry>, d: seq<byte>, e: DataEntry, c: seq<byte>, r: Option<Stored>)
    ensures Ahead(es, d, Join(e, c, r)) == Ahead(es + [e], d + c, r)
  {
    if r.Some? { assert es + ([e] + r.value.entries) == es + [e] + r.value.entries && d + (c + r.value.data) == d + c + r.value.data; }
  }

  lemma DataUnfold(file: seq<byte>, pos: nat, i: nat, heads: seq<Head>)
    requires heads != [] && pos + Count(heads[0].ty, heads[0].size) * TypeSize(heads[0].ty) <= |file|
    ensures var ty, size := heads[0].ty, heads[0].size; var n := Count(ty, size) * TypeSize(ty);
            TakeData(file[pos..], i, heads)
            == Join(if TypeSize(ty) == 0 then DataEntry(ty, size, 0, 0) else DataEntry(ty, size, i, i + n - 1),
                    Convert(ty, file[pos..pos + n]), TakeData(file[pos + n..], i + n, heads[1..]))
  {
    hide Convert;
    hide Count;
    hide TypeSize;
    var n := Count(heads[0].ty, heads[0].size) * TypeSize(heads[0].ty);
    assert file[pos..][..n] == file[pos..pos + n] && file[pos..][n..] == file[pos + n..];
  }

  lemma {:induction false} SaneSizes(heads: seq<Head>)
    requires Sane(heads)
    ensures Sizes(heads) >= 0
  {
    if heads != [] { SaneSizes(heads[1..]); }
  }

  lemma NoConversion(ty: byte, s: seq<byte>)
    requires TypeSize(ty) == 0
    ensures Convert(ty, s) == s && Count(ty, |s|) == 0
  {
  }

  lemma NextHead(es: seq<DataEntry>, j: nat)
    requires j < |es|
    ensures HeadsOf(es)[j..][0] == Head(es[j].ty, es[j].size) && HeadsOf(es)[j..][1..] == HeadsOf(es)[j + 1..]
    ensures forall e: DataEntry | e.ty == es[j].ty && e.size == es[j].size :: HeadsOf(es[j := e]) == HeadsOf(es)
  {
  }

  lemma NothingRead<T>(r: Option<Taken<T>>)
    ensures Behind([], r) == r
  {
    match r case None => case Some(p) => assert [] + p.items == p.items;
  }

  lemma AllRead<T>(got: seq<T>, rest: seq<byte>)
    ensures Behind(got, Some(Taken([], rest))) == Some(Taken(got, rest))
  {
    assert got + [] == got;
  }

  predicate InstrFits(file: seq<byte>, i: nat, size: nat) {
    i < |file| && file[i] < MAXOPCODES && i + InstrSize(file[i]) <= |file| && i + InstrSize(file[i]) <= size
  }

  lemma BehindTwice(a: seq<byte>, b: seq<byte>, r: Option<Taken<byte>>)
    ensures Behind(a, Behind(b, r)) == Behind(a + b, r)
  {
    if r.Some? { assert a + (b + r.value.items) == (a + b) + r.value.items; }
  }

  // One round of the code loop in terms of what is read from the whole file.
  lemma CodeStep(file: seq<byte>, i: nat, size: nat, got: seq<byte>)
    requires i <= |file|
    ensures if !InstrFits(file, i, size) then Behind(got, TakeCode(file[i..], i, size)) == None
            else
              var n := InstrSize(file[i]); var e := file[i..i + n];
              && |e| == n > 0 && e[0] == file[i]
              && Behind(got, TakeCode(file[i..], i, size))
                 == Behind(got + SwapInstr(e),
                           if i + n > size - 1 then Some(Taken([], file[i + n..])) else TakeCode(file[i + n..], i + n, size))
  {
    if InstrFits(file, i, size) {
      CodeRound(file, i, size, got);
    }
  }

  lemma CodeRound(file: seq<byte>, i: nat, size: nat, got: seq<byte>)
    requires InstrFits(file, i, size)
    ensures var n := InstrSize(file[i]); var e := file[i..i + n];
            && |e| == n > 0 && e[0] == file[i]
            && Behind(got, TakeCode(file[i..], i, size))
               == Behind(got + SwapInstr(e),
                         if i + n > size - 1 then Some(Taken([], file[i + n..])) else TakeCode(file[i + n..], i + n, size))
  {
    hide *;
    InstrHere(file, i, size);
    var n := InstrSize(file[i]);
    var e, t := file[i..i + n], file[i + n..];
    ReadOne(e, t, i, size);
    AllRead(SwapInstr(e), t);
    BehindTwice(got, SwapInstr(e), if i + n == size then Some(Taken([], t)) else TakeCode(t, i + n, size));
  }

  lemma InstrHere(file: seq<byte>, i: nat, size: nat)
    requires InstrFits(file, i, size)
    ensures i < |file| && file[i] < MAXOPCODES && i + InstrSize(file[i]) <= |file| && i + InstrSize(file[i]) <= size
    ensures var n := InstrSize(file[i]); var e := file[i..i + n];
            |e| == n > 0 && e[0] == file[i] && file[i..] == e + file[i + n..]
  {
  }

  lemma AfterWrite(was: seq<byte>, h: nat, i: nat, w: seq<byte>, now: seq<byte>)
    requires Written(was, i, w, now)
    ensures |now| == |was| && (h <= i ==> now[h..i + |w|] == was[h..i] + w)
  {
  }

  lemma FirstByte(file: seq<byte>, i: nat, n: nat, w: seq<byte>)
    requires i < |file| && n == InstrSize(file[i]) && i + n <= |file| && w == file[i + 1..i + n]
    ensures |file[i..i + n]| == n > 0 && file[i..i + n][0] == file[i] && n == 1 + Widths(ArgTypes(file[i]))
    ensures SwapInstr(file[i..i + n]) == [file[i]] + SwapArgs(ArgTypes(file[i]), w)
  {
    assert file[i..i + n][0] == file[i] && file[i..i + n][1..] == w;
  }

  lemma StartArgs(tys: seq<ArgType>, w: seq<byte>, was: seq<byte>, at: nat)
    requires at <= |was|
    ensures Widths(tys[..0]) == 0 && SwapArgs(tys[..0], w[..0]) == [] && Written(was, at, [], was)
  {
  }

  lemma SubSlice(file: seq<byte>, at: nat, n: nat, k: nat, w: seq<byte>)
    requires at + |w| <= |file| && w == file[at..at + |w|] && n + k <= |w|
    ensures file[at + n..at + n + k] == w[n..n + k]
  {
    var a, b := file[at + n..at + n + k], w[n..n + k];
    assert forall x | 0 <= x < k :: a[x] == b[x];
  }

  lemma WriteOne(was: seq<byte>, i: nat, op: byte)
    requires i < |was|
    ensures Written(was, i, [op], was[i := op])
  {
  }

  lemma {:induction false} ArgStep(tys: seq<ArgType>, w: seq<byte>, j: nat)
    requires j < |tys| && |w| == Widths(tys)
    ensures var n := Widths(tys[..j]); var k := Width(tys[j]);
            && n + k == Widths(tys[..j + 1]) <= |w|
            && SwapArgs(tys[..j + 1], w[..n + k]) == SwapArgs(tys[..j], w[..n]) + Reverse(w[n..n + k])
  {
    CS.WidthsGrow(tys, j);
    assert tys[..j + 1][..j] == tys[..j];
    var n, k := Widths(tys[..j]), Width(tys[j]);
    assert w[..n + k][..n] == w[..n] && w[..n + k][n..] == w[n..n + k];
  }

  // dump_object: the header and the two sizes go in front of code and data, then everything is written.
  method DumpObject(c: CS.Section, d: D.Section) returns (file: seq<byte>)
    requires AllOk(c.lines, c.data) && c.codeInd == HEADER + CodeSize(c.lines) <= c.code.Length
    requires c.code[HEADER..c.codeInd] == Encode(c.lines, c.data, Addresses(c.lines))
    requires d.Valid() && c.code != d.data
    modifies c.code, d.data
    ensures file == Object(c.lines, c.data, d.vars)
  {
    DumpStart(d);
    hide *;
    ghost var stored := d.data[..];
    WriteHeader(c);
    WriteBytes(d.data, 0, Word(d.dataInd, 8));
    DataHead(stored, Word(d.dataInd, 8), d.dataInd, d.data[..]);
    var info := InfoSection(d.info, d.vars);
    file := c.code[..c.codeInd] + INFO + info + DATA + d.data[..d.dataInd];
    ObjectIs(c.lines, c.data, d.vars, file);
  }

  method WriteHeader(c: CS.Section)
    requires HEADER <= c.codeInd <= c.code.Length
    modifies c.code
    ensures c.code[..c.codeInd] == Word(MAGIC, 8) + Word(c.codeInd, 8) + old(c.code[HEADER..c.codeInd])
  {
    assert c.codeInd >= 16;
    hide *;
    ghost var was := c.code[..];
    WriteBytes(c.code, 0, Word(MAGIC, 8));
    WriteBytes(c.code, 8, Word(c.codeInd, 8));
    FrontHead(was, Word(MAGIC, 8), Word(c.codeInd, 8), c.codeInd, c.code[..]);
    assert was[HEADER..c.codeInd] == old(c.code[HEADER..c.codeInd]);
  }

  method InfoSection(t: seq<D.Info>, ghost vars: seq<D.Variable>) returns (info: seq<byte>)
    requires t == D.Table(vars)
    ensures info == InfoBytes(vars)
  {
    hide *;
    InfoNone(vars);
    info := [];
    for k := 0 to |t|
      invariant info == InfoBytes(vars[..k])
    {
      InfoSnoc(vars, k);
      info := info + [D.Code(t[k].ty)] + Word(t[k].size, 8);
    }
    assert vars[..|t|] == vars;
  }

  lemma DumpStart(d: D.Section)
    requires d.Valid()
    ensures D.VarsOk(d.vars) && d.dataInd == 8 + D.Offset(d.vars) <= d.data.Length && d.info == D.Table(d.vars)
    ensures d.data[..][8..d.dataInd] == D.Image(d.vars)
  {
  }

  lemma FrontHead(was: seq<byte>, a: seq<byte>, b: seq<byte>, n: nat, now: seq<byte>)
    requires |a| == 8 && |b| == 8 && HEADER <= n <= |was|
    requires exists mid :: Written(was, 0, a, mid) && Written(mid, 8, b, now)
    ensures |now| == |was| && now[..n] == a + b + was[HEADER..n]
  {
  }

  lemma DataHead(was: seq<byte>, a: seq<byte>, n: nat, now: seq<byte>)
    requires |a| == 8 && 8 <= n <= |was| && Written(was, 0, a, now)
    ensures |now| == |was| && now[..n] == a + was[8..n]
  {
  }

  lemma InfoNone(vars: seq<D.Variable>)
    ensures InfoBytes(vars[..0]) == []
  {
  }

  lemma {:induction false} InfoSnoc(vars: seq<D.Variable>, k: nat)
    requires k < |vars|
    ensures var e := D.Table(vars)[k];
            InfoBytes(vars[..k + 1]) == InfoBytes(vars[..k]) + [D.Code(e.ty)] + Word(e.size, 8)
  {
    D.TableAt(vars, k);
    InfoLast(vars[..k + 1]);
    assert vars[..k + 1][..k] == vars[..k];
  }

  lemma {:induction false} InfoLast(vars: seq<D.Variable>)
    requires vars != []
    ensures var last := |vars| - 1;
            InfoBytes(vars) == InfoBytes(vars[..last]) + [D.Code(vars[last].ty)] + Word(D.Total(vars[last]), 8)
  {
    hide Word;
    hide D.Total;
    hide D.Code;
    var last := |vars| - 1;
    if last > 0 {
      InfoLast(vars[1..]);
      assert vars[1..][..last - 1] == vars[..last][1..];
    }
  }

  lemma ObjectIs(ls: seq<Line>, syms: SymbolTable, vars: seq<D.Variable>, file: seq<byte>)
    requires AllOk(ls, syms) && D.VarsOk(vars)
    requires file == Word(MAGIC, 8) + Word(HEADER + CodeSize(ls), 8) + Encode(ls, syms, Addresses(ls))
                     + INFO + InfoBytes(vars) + DATA + (Word(8 + D.Offset(vars), 8) + D.Image(vars))
    ensures file == Object(ls, syms, vars)
  {
    hide Word;
    hide Encode;
    hide InfoBytes;
    hide D.Image;
  }
}
