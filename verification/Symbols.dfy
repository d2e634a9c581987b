// replace_symbols: two-character operators become one letter and a blank, in place.
module Symbols {
  import opened Infix
  import opened Shunt
  import opened Convert
  import opened ConvertCorrect

  const SYMBOLS: seq<string> := ["==", "!=", "<=", ">=", "&&", "||", "<|", ">|"]
  const CODES: seq<char> := ['E', 'N', 'L', 'G', 'A', 'O', '$', '@']

  predicate SymbolAt(s: string, k: int, i: nat)
    requires i < 8
  {
    0 <= k < |s| - 1 && s[k] == SYMBOLS[i][0] && s[k + 1] == SYMBOLS[i][1]
  }

  ghost predicate Free(s: string, i: nat)
    requires i < 8
  {
    forall k :: !SymbolAt(s, k, i)
  }

  ghost predicate AllFree(s: string) {
    forall i | 0 <= i < 8 :: Free(s, i)
  }

  predicate Mark(c: char) {
    c == '=' || c == '!' || c == '<' || c == '>' || c == '&' || c == '|'
  }

  function Marks(s: string): nat {
    if s == "" then 0 else (if Mark(s[0]) then 1 else 0) + Marks(s[1..])
  }

  // searchstr: the first occurrence from position k on, or -1.
  function Search(s: string, i: nat, k: nat): (pos: int)
    requires i < 8
    ensures pos == -1 ==> forall j | k <= j :: !SymbolAt(s, j, i)
    ensures pos != -1 ==> k <= pos && SymbolAt(s, pos, i)
    decreases |s| - k
  {
    if k + 1 >= |s| then -1 else if SymbolAt(s, k, i) then k else Search(s, i, k + 1)
  }

  // One replacement of a symbol at p.
  function Recode(s: string, i: nat, p: nat): string
    requires i < 8 && SymbolAt(s, p, i)
  {
    s[p := CODES[i]][p + 1 := ' ']
  }

  lemma RecodeMarks(s: string, i: nat, p: nat)
    requires i < 8 && SymbolAt(s, p, i)
    ensures Marks(Recode(s, i, p)) < Marks(s)
  {
    assert Mark(s[p]) && !Mark(CODES[i]);
    MarksDrop(s, Recode(s, i, p), p);
  }

  // The inner loop, then all eight symbols in turn.
  function RecodeSymbol(s: string, i: nat): string
    requires i < 8
    decreases Marks(s)
  {
    var p := Search(s, i, 0);
    if p == -1 then s
    else
      RecodeMarks(s, i, p);
      RecodeSymbol(Recode(s, i, p), i)
  }

  function RecodeFrom(s: string, i: nat): string
    requires i <= 8
    decreases 8 - i
  {
    if i == 8 then s else RecodeFrom(RecodeSymbol(s, i), i + 1)
  }

  function RecodeAll(s: string): string {
    RecodeFrom(s, 0)
  }

  lemma {:induction false} MarksDrop(s: string, t: string, k: nat)
    requires |s| == |t| && k < |s| && Mark(s[k]) && !Mark(t[k])
    requires forall j | 0 <= j < |s| && j != k :: Mark(t[j]) ==> Mark(s[j])
    ensures Marks(t) < Marks(s)
  {
    if k > 0 { MarksDrop(s[1..], t[1..], k - 1); } else { MarksMono(s[1..], t[1..]); }
  }

  lemma {:induction false} MarksMono(s: string, t: string)
    requires |s| == |t| && forall j | 0 <= j < |s| :: Mark(t[j]) ==> Mark(s[j])
    ensures Marks(t) <= Marks(s)
  {
    if s != "" { MarksMono(s[1..], t[1..]); }
  }

  // Every position of the new text is the old character, the letter of a symbol that began there,
  // or the blank of a symbol that began one position earlier.
  ghost predicate Recoded(s: string, t: string) {
    && |t| == |s|
    && forall k | 0 <= k < |s| ::
      || t[k] == s[k]
      || Encodes(s, k, t[k])
      || (t[k] == ' ' && Begins(s, k - 1))
  }

  ghost predicate Encodes(s: string, k: int, c: char) {
    exists i | 0 <= i < 8 :: SymbolAt(s, k, i) && c == CODES[i]
  }

  ghost predicate Begins(s: string, k: int) {
    exists i | 0 <= i < 8 :: SymbolAt(s, k, i)
  }

  lemma RecodedStep(s: string, t: string, u: string, p: nat, i: nat)
    requires Recoded(s, t) && i < 8 && SymbolAt(t, p, i)
    requires u == t[p := CODES[i]][p + 1 := ' ']
    ensures Recoded(s, u) && forall j | 0 <= j < 8 && Free(t, j) :: Free(u, j)
  {
    assert Mark(t[p]) && Mark(t[p + 1]);
    assert forall c: int | 0 <= c < 8 :: !Mark(CODES[c]);
    assert t[p] == s[p] && t[p + 1] == s[p + 1];
    assert SymbolAt(s, p, i);
    assert Encodes(s, p, u[p]) && Begins(s, p + 1 - 1);
    forall k | 0 <= k < |s| && k != p && k != p + 1
      ensures u[k] == t[k]
    {}
    forall j, k | 0 <= j < 8 && Free(t, j)
      ensures !SymbolAt(u, k, j)
    {
      if SymbolAt(u, k, j) {
        assert Mark(u[k]) && Mark(u[k + 1]);
        assert SymbolAt(t, k, j);
      }
    }
  }

  lemma {:induction false} RecodeSymbolProps(s: string, t: string, i: nat)
    requires i < 8 && Recoded(s, t)
    ensures Recoded(s, RecodeSymbol(t, i)) && Free(RecodeSymbol(t, i), i)
    ensures forall j | 0 <= j < 8 && Free(t, j) :: Free(RecodeSymbol(t, i), j)
    ensures Free(t, i) ==> RecodeSymbol(t, i) == t
    decreases Marks(t)
  {
    var p := Search(t, i, 0);
    if p != -1 {
      assert !Free(t, i);
      RecodeMarks(t, i, p);
      RecodedStep(s, t, Recode(t, i, p), p, i);
      RecodeSymbolProps(s, Recode(t, i, p), i);
    }
  }

  lemma {:induction false} RecodeFromProps(s: string, t: string, i: nat)
    requires i <= 8 && Recoded(s, t) && forall j | 0 <= j < i :: Free(t, j)
    ensures Recoded(s, RecodeFrom(t, i)) && AllFree(RecodeFrom(t, i))
    ensures AllFree(t) ==> RecodeFrom(t, i) == t
    decreases 8 - i
  {
    if i < 8 {
      RecodeSymbolProps(s, t, i);
      RecodeFromProps(s, RecodeSymbol(t, i), i + 1);
    }
  }

  // The pass removes every two-character symbol, changes no other character, and leaves a line
  // without such symbols as it is.
  lemma RecodeAllProps(s: string)
    ensures Recoded(s, RecodeAll(s)) && AllFree(RecodeAll(s))
    ensures AllFree(s) ==> RecodeAll(s) == s
  {
    RecodeFromProps(s, s, 0);
  }

  // ---- where each character goes ----

  lemma RecodePlain(s: string, k: nat)
    requires k < |s| && !Begins(s, k) && !Begins(s, k - 1)
    ensures |RecodeAll(s)| == |s| && RecodeAll(s)[k] == s[k]
  {
    RecodeAllProps(s);
  }

  // A symbol that overlaps no other is as it was or has been replaced as a whole.
  ghost predicate Paired(s: string, t: string, k: nat, i: nat)
    requires i < 8
  {
    && k + 1 < |s| == |t|
    && ((t[k] == s[k] && t[k + 1] == s[k + 1]) || (t[k] == CODES[i] && t[k + 1] == ' '))
  }

  ghost predicate Apart(s: string, k: nat, i: nat)
    requires i < 8
  {
    SymbolAt(s, k, i) && !Begins(s, k - 1) && !Begins(s, k + 1)
  }

  lemma PairedStep(s: string, t: string, p: nat, j: nat, k: nat, i: nat)
    requires i < 8 && j < 8 && Recoded(s, t) && SymbolAt(t, p, j) && Apart(s, k, i) && Paired(s, t, k, i)
    ensures Paired(s, Recode(t, j, p), k, i)
  {
    assert Mark(t[p]) && Mark(t[p + 1]);
    assert forall c: int | 0 <= c < 8 :: !Mark(CODES[c]);
    assert t[p] == s[p] && t[p + 1] == s[p + 1];
    assert SymbolAt(s, p, j) && Begins(s, p);
    if p == k { assert SYMBOLS[i] == SYMBOLS[j] by { SameSymbol(i, j); } }
  }

  lemma SameSymbol(i: nat, j: nat)
    requires i < 8 && j < 8 && SYMBOLS[i][0] == SYMBOLS[j][0] && SYMBOLS[i][1] == SYMBOLS[j][1]
    ensures i == j
  {
  }

  lemma {:induction false} PairedSymbol(s: string, t: string, j: nat, k: nat, i: nat)
    requires i < 8 && j < 8 && Recoded(s, t) && Apart(s, k, i) && Paired(s, t, k, i)
    ensures Recoded(s, RecodeSymbol(t, j)) && Paired(s, RecodeSymbol(t, j), k, i)
    decreases Marks(t)
  {
    var p := Search(t, j, 0);
    if p != -1 {
      RecodeMarks(t, j, p);
      RecodedStep(s, t, Recode(t, j, p), p, j);
      PairedStep(s, t, p, j, k, i);
      PairedSymbol(s, Recode(t, j, p), j, k, i);
    }
  }

  lemma {:induction false} PairedFrom(s: string, t: string, j: nat, k: nat, i: nat)
    requires i < 8 && j <= 8 && Recoded(s, t) && Apart(s, k, i) && Paired(s, t, k, i)
    ensures Paired(s, RecodeFrom(t, j), k, i)
    decreases 8 - j
  {
    if j < 8 {
      PairedSymbol(s, t, j, k, i);
      PairedFrom(s, RecodeSymbol(t, j), j + 1, k, i);
    }
  }

  // It ends as its letter and a blank.
  lemma RecodePair(s: string, k: nat, i: nat)
    requires i < 8 && Apart(s, k, i)
    ensures |RecodeAll(s)| == |s| && k + 1 < |s| && RecodeAll(s)[k] == CODES[i] && RecodeAll(s)[k + 1] == ' '
  {
    RecodeAllProps(s);
    PairedFrom(s, s, 0, k, i);
    assert Free(RecodeAll(s), i) && !SymbolAt(RecodeAll(s), k, i);
  }

  method SearchStr(line: array<char>, i: nat) returns (pos: int)
    requires i < 8
    ensures pos == Search(line[..], i, 0)
  {
    pos := 0;
    while pos + 1 < line.Length
      invariant 0 <= pos
      invariant Search(line[..], i, pos) == Search(line[..], i, 0)
      decreases line.Length - pos
    {
      if line[pos] == SYMBOLS[i][0] && line[pos + 1] == SYMBOLS[i][1] { return; }
      pos := pos + 1;
    }
    pos := -1;
  }

  method ReplaceSymbols(line: array<char>)
    modifies line
    ensures line[..] == RecodeAll(old(line[..]))
  {
    var i := 0;
    while i < 8
      invariant 0 <= i <= 8
      invariant RecodeFrom(line[..], i) == RecodeAll(old(line[..]))
    {
      ghost var start := line[..];
      var more := true;
      while more
        invariant RecodeSymbol(line[..], i) == RecodeSymbol(start, i)
        invariant !more ==> line[..] == RecodeSymbol(start, i)
        decreases more, Marks(line[..])
      {
        var pos := SearchStr(line, i);
        if pos >= 0 {
          ghost var t := line[..];
          line[pos] := CODES[i];
          line[pos + 1] := ' ';
          assert line[..] == Recode(t, i, pos);
          RecodeMarks(t, i, pos);
        } else {
          more := false;
        }
      }
      i := i + 1;
    }
  }

  // ---- the second pass, on converted text ----

  // Operators waiting between two brackets bind more and more tightly.
  ghost predicate Rising(ops: seq<char>) {
    forall k | 0 < k < |ops| :: IsBinary(ops[k]) && IsBinary(ops[k - 1]) ==> Precedence(ops[k - 1]) < Precedence(ops[k])
  }

  // The text may be continued by the operator c without spelling a symbol.
  ghost predicate Room(out: string, p: int) {
    out == "" || out[|out| - 1] == ' ' || (IsBinary(out[|out| - 1]) && p < Precedence(out[|out| - 1]))
  }

  // No character that delimits the expression part of a line.
  ghost predicate Plain(s: string) {
    forall k | 0 <= k < |s| :: s[k] != '=' && s[k] != '}'
  }

  lemma NotASymbol(a: char, c: char)
    requires c != '=' && (IsBinary(c) ==> a == ' ' || (IsBinary(a) && Precedence(c) < Precedence(a)))
    ensures forall i | 0 <= i < 8 :: SYMBOLS[i][0] != a || SYMBOLS[i][1] != c
  {
    forall i | 0 <= i < 8
      ensures SYMBOLS[i][0] != a || SYMBOLS[i][1] != c
    {
      if i < 4 {
        assert SYMBOLS[i][1] == '=';
      } else if i == 4 {
        assert SYMBOLS[i] == "&&";
      } else {
        assert SYMBOLS[i][1] == '|';
        assert SYMBOLS[i][0] == '|' || SYMBOLS[i][0] == '<' || SYMBOLS[i][0] == '>';
      }
    }
  }

  lemma FreeAppend(out: string, c: char)
    requires AllFree(out) && Plain(out) && c != '=' && c != '}'
    requires IsBinary(c) ==> Room(out, Precedence(c))
    ensures AllFree(out + [c]) && Plain(out + [c])
  {
    forall i, k | 0 <= i < 8
      ensures !SymbolAt(out + [c], k, i)
    {
      if SymbolAt(out + [c], k, i) {
        if k < |out| - 1 {
          assert Free(out, i) && SymbolAt(out, k, i);
        } else {
          NotASymbol(out[k], c);
        }
      }
    }
  }

  // Popping one operator without blanks around it.
  lemma PopTight(base: seq<string>, y: Yard, v: Scan) returns (v': Scan)
    requires Rep(base, y, v) && y.ops != [] && v.stk != [] && IsBinary(y.ops[|y.ops| - 1]) && Rising(y.ops)
    requires AllFree(v.out) && Plain(v.out) && Room(v.out, TopPrec(y.ops))
    ensures v' == Scan(Drop(v.stk), v.out + v.stk[|v.stk| - 1])
    ensures AllFree(v'.out) && Plain(v'.out) && v'.stk == base + ["#"] + Entries(y.ops[..|y.ops| - 1])
    ensures var ops := y.ops[..|y.ops| - 1];
            Rising(ops) && AllOperators(ops) && (ops != [] && IsBinary(ops[|ops| - 1]) ==> Room(v'.out, TopPrec(ops)))
  {
    TopOfRep(base, y, v);
    var c := y.ops[|y.ops| - 1];
    FreeAppend(v.out, c);
    v' := Scan(Drop(v.stk), v.out + [c]);
  }

  lemma {:induction false} PopTighterFree(base: seq<string>, p: int, y: Yard, v: Scan)
    requires Rep(base, y, v) && 1 < p && Rising(y.ops)
    requires AllFree(v.out) && Plain(v.out)
    requires y.ops != [] && IsBinary(y.ops[|y.ops| - 1]) ==> Room(v.out, TopPrec(y.ops))
    ensures PopTighter(p, v).Some? && AllFree(PopTighter(p, v).value.out) && Plain(PopTighter(p, v).value.out)
    ensures Rising(Unwind(p, y).ops) && TopPrec(Unwind(p, y).ops) < p
    decreases |y.ops|
  {
    TopOfRep(base, y, v);
    if y.ops != [] && p <= TopPrec(y.ops) {
      var last := |y.ops| - 1;
      assert IsBinary(y.ops[last]);
      var v1 := PopTight(base, y, v);
      PopTighterFree(base, p, Yard(y.ops[..last], Read(v1.out).Flush()), v1);
      UnwindOps(p, Yard(y.ops[..last], Read(v1.out).Flush()), Yard(y.ops[..last], y.out + [Op(y.ops[last])]));
    }
  }

  lemma {:induction false} UnwindOps(p: int, y: Yard, z: Yard)
    requires y.ops == z.ops
    ensures Unwind(p, y).ops == Unwind(p, z).ops
    decreases |y.ops|
  {
    var last := |y.ops| - 1;
    if last >= 0 && p <= TopPrec(y.ops) {
      UnwindOps(p, Yard(y.ops[..last], y.out + [Op(y.ops[last])]), Yard(z.ops[..last], z.out + [Op(z.ops[last])]));
    }
  }

  lemma {:induction false} PopToParenFree(base: seq<string>, y: Yard, v: Scan)
    requires Rep(base, y, v) && UnwindToParen(y).Some? && Rising(y.ops)
    requires AllFree(v.out) && Plain(v.out)
    ensures PopToParen(v).Some? && AllFree(PopToParen(v).value.out) && Plain(PopToParen(v).value.out)
    ensures Rising(UnwindToParen(y).value.ops)
    decreases |y.ops|
  {
    TopOfRep(base, y, v);
    var last := |y.ops| - 1;
    if y.ops[last] != '(' {
      var y1, v1 := PopSpaced(base, y, v);
      assert UnwindToParen(y) == UnwindToParen(y1) && PopToParen(v) == PopToParen(v1);
      PopToParenFree(base, y1, v1);
    } else {
      assert UnwindToParen(y) == Some(y.(ops := y.ops[..last]));
      assert PopToParen(v) == Some(v.(stk := Drop(v.stk)));
    }
  }

  lemma PopSpaced(base: seq<string>, y: Yard, v: Scan) returns (y': Yard, v': Scan)
    requires Rep(base, y, v) && y.ops != [] && v.stk != [] && y.ops[|y.ops| - 1] != '('
    requires AllFree(v.out) && Plain(v.out)
    ensures y' == Yard(y.ops[..|y.ops| - 1], y.out + [Op(y.ops[|y.ops| - 1])])
    ensures v' == Scan(Drop(v.stk), v.out + " " + v.stk[|v.stk| - 1] + " ")
    ensures Rep(base, y', v') && AllFree(v'.out) && Plain(v'.out)
  {
    TopOfRep(base, y, v);
    var c := y.ops[|y.ops| - 1];
    assert IsBinary(c);
    y' := Yard(y.ops[..|y.ops| - 1], y.out + [Op(c)]);
    v' := Scan(Drop(v.stk), v.out + " " + [c] + " ");
    FreeAppend(v.out, ' ');
    FreeAppend(v.out + " ", c);
    FreeAppend(v.out + " " + [c], ' ');
    ReadBlank(v.out);
    ReadSymbol(v.out + " ", c);
    ReadBlank(v.out + " " + [c]);
  }

  lemma {:induction false} PopToMarkerFree(base: seq<string>, y: Yard, v: Scan)
    requires Rep(base, y, v)
    requires AllFree(v.out) && Plain(v.out)
    ensures PopToMarker(v).Some? && AllFree(PopToMarker(v).value.out) && Plain(PopToMarker(v).value.out)
    decreases |y.ops|
  {
    TopOfRep(base, y, v);
    if y.ops != [] {
      var last := |y.ops| - 1;
      var c := y.ops[last];
      assert IsBinary(c) || c == '(';
      FreeAppend(v.out, ' ');
      FreeAppend(v.out + " ", c);
      ReadBlank(v.out);
      ReadSymbol(v.out + " ", c);
      PopToMarkerFree(base, Yard(y.ops[..last], y.out + [Op(c)]), Scan(Drop(v.stk), v.out + " " + [c]));
    }
  }

  ghost predicate Calm(s: string, k: nat, y: Yard, v: Scan)
    requires k <= |s|
  {
    && AllFree(v.out) && Plain(v.out) && Rising(y.ops)
    && (0 < k && s[k - 1] == ' ' ==> v.out != "" && v.out[|v.out| - 1] == ' ')
  }

  lemma RisingPush(ops: seq<char>, c: char)
    requires Rising(ops) && (IsBinary(c) ==> TopPrec(ops) < Precedence(c))
    ensures Rising(ops + [c])
  {
  }

  lemma OperatorCalm(base: seq<string>, y: Yard, v: Scan, c: char)
    requires Rep(base, y, v) && AllFree(v.out) && Plain(v.out) && Rising(y.ops) && IsBinary(c)
    requires v.out != "" && v.out[|v.out| - 1] == ' '
    ensures ScanChar(c, v).Some? && AllFree(ScanChar(c, v).value.out) && Plain(ScanChar(c, v).value.out)
    ensures Rising(Unwind(Precedence(c), y).ops + [c])
  {
    assert 1 < Precedence(c);
    PopTighterFree(base, Precedence(c), y, v);
    RisingPush(Unwind(Precedence(c), y).ops, c);
  }

  // A character keeps the text free of symbols and the waiting operators rising.
  lemma CharCalm(base: seq<string>, y: Yard, v: Scan, c: char)
    requires Rep(base, y, v) && AllFree(v.out) && Plain(v.out) && Rising(y.ops) && c != '=' && c != '}' && c != '{'
    requires IsBinary(c) ==> v.out != "" && v.out[|v.out| - 1] == ' '
    requires c == ')' ==> UnwindToParen(y).Some?
    ensures ScanChar(c, v).Some? && AllFree(ScanChar(c, v).value.out) && Plain(ScanChar(c, v).value.out)
    ensures c == '(' ==> Rising(y.ops + ['('])
    ensures c == ')' ==> Rising(UnwindToParen(y).value.ops)
    ensures IsBinary(c) ==> Rising(Unwind(Precedence(c), y).ops + [c])
  {
    if IsBinary(c) {
      OperatorCalm(base, y, v, c);
    } else if c == ')' {
      PopToParenFree(base, y, v);
    } else if c == '(' {
      RisingPush(y.ops, c);
    } else {
      FreeAppend(v.out, c);
    }
  }

  lemma StepOf(c: char, x: Lexer, y: Yard)
    requires Steps(x.toks, Yard([], [])) == Some(y) && c != '{' && c != '}'
    ensures var z := y.(out := y.out + Pending(x.cur));
            Steps(FeedInfix(c, x).toks, Yard([], []))
              == if c == ' ' then Some(z)
                 else if c == '(' then Step(LP, z)
                 else if c == ')' then Step(RP, z)
                 else if IsBinary(c) then Step(Op(c), z)
                 else Some(y)
  {
    StepsPending(x.toks, x.cur, y);
    var z := y.(out := y.out + Pending(x.cur));
    if c == '(' {
      StepsMore(x.Flush(), LP, z);
    } else if c == ')' {
      StepsMore(x.Flush(), RP, z);
    } else if IsBinary(c) {
      StepsMore(x.Flush(), Op(c), z);
    }
  }

  lemma ScanStepCalm(base: seq<string>, s: string, k: nat, x: Lexer, y: Yard, v: Scan) returns (y': Yard, v': Scan)
    requires Spaced(s) && Plain(s) && k < |s| && At(base, s, k, x, y, v) && Calm(s, k, y, v)
    requires Steps(FeedInfix(s[k], x).toks, Yard([], [])).Some?
    ensures ScanChar(s[k], v) == Some(v') && At(base, s, k + 1, FeedInfix(s[k], x), y', v') && Calm(s, k + 1, y', v')
  {
    y', v' := ScanStep(base, s, k, x, y, v);
    StepOf(s[k], x, y);
    CharCalm(base, y.(out := y.out + Pending(x.cur)), v, s[k]);
  }

  lemma {:induction false} ScanFromCalm(base: seq<string>, s: string, k: nat, x: Lexer, y: Yard, v: Scan)
    returns (x': Lexer, y': Yard, v': Scan)
    requires Spaced(s) && Plain(s) && k <= |s| && At(base, s, k, x, y, v) && Calm(s, k, y, v)
    requires Steps(ReadInfix(s[k..], x).toks, Yard([], [])).Some?
    ensures ScanChars(s[k..], v) == Some(v') && At(base, s, |s|, x', y', v') && Calm(s, |s|, y', v')
    decreases |s| - k
  {
    hide At;
    hide ScanChar;
    hide FeedInfix;
    hide Spaced;
    hide Calm;
    if k == |s| {
      x', y', v' := x, y, v;
    } else {
      assert s[k..][0] == s[k] && s[k..][1..] == s[k + 1..];
      var x1 := FeedInfix(s[k], x);
      assert ReadInfix(s[k..], x) == ReadInfix(s[k + 1..], x1);
      ReadInfixGrows(s[k + 1..], x1);
      StepsPrefix(x1.toks, ReadInfix(s[k..], x).toks);
      var y1, v1 := ScanStepCalm(base, s, k, x, y, v);
      assert ScanChars(s[k..], v) == ScanChars(s[k + 1..], v1);
      x', y', v' := ScanFromCalm(base, s, k + 1, x1, y1, v1);
    }
  }

  // Converted text never spells a two-character symbol, so the pass over it changes nothing:
  // neighbouring operators were popped in strictly decreasing precedence.
  lemma ConvertedIsFree(stk: seq<string>, s: string)
    requires Spaced(s) && Plain(s) && ToPostfix(InfixToks(s)).Some?
    ensures ConvertExpr(stk, s).Some? && AllFree(ConvertExpr(stk, s).value.out) && Plain(ConvertExpr(stk, s).value.out)
  {
    var x, y, v := Lexer([], ""), Yard([], []), Scan(stk + ["#"], "");
    assert stk + ["#"] + Entries([]) == stk + ["#"];
    assert s[0..] == s;
    var end := ReadInfix(s, x);
    StepsPrefix(end.toks, end.Flush());
    var x1, y1, v1 := ScanFromCalm(stk, s, 0, x, y, v);
    PopToMarkerFree(stk, y1.(out := y1.out + Pending(x1.cur)), v1);
  }
}
