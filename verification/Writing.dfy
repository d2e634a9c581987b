// Assignment lines as they are written, with the operators spelled out, and how the compiler reads them.
module Writing {
  import opened Infix
  import opened Int64
  import opened Language
  import opened Shunt
  import opened Convert
  import opened ConvertCorrect
  import opened Symbols
  import opened Statement
  import opened Machine
  import opened Codegen
  import opened Lowering
  import opened Simulation
  import opened Program

  // ---- written text ----

  // A token as it is written.
  function Sign(t: Tok<string>): string {
    match t
    case Atom(a) => a
    case Op(c) => Spelled(c)
    case LP => "("
    case RP => ")"
  }

  function Blanks(n: nat): string {
    seq(n, _ => ' ')
  }

  // A token with the blanks in front of it.
  datatype Piece = Piece(gap: nat, tok: Tok<string>)

  function Text(ps: seq<Piece>): string {
    if ps == [] then "" else Blanks(ps[0].gap) + Sign(ps[0].tok) + Text(ps[1..])
  }

  function Tokens(ps: seq<Piece>): seq<Tok<string>> {
    seq(|ps|, k requires 0 <= k < |ps| => ps[k].tok)
  }

  // A name: no character of an operator, no blank.  The letters of the operators are such characters.
  predicate NameOk(n: string) {
    n != "" && forall k | 0 <= k < |n| :: !IsOperator(n[k]) && n[k] != ' ' && n[k] != '=' && n[k] != '!'
  }

  predicate TokOk(t: Tok<string>) {
    match t
    case Atom(a) => NameOk(a)
    case Op(c) => IsBinary(c)
    case _ => true
  }

  // Operators stand between blanks.
  ghost predicate Legible(ps: seq<Piece>) {
    && (forall k | 0 <= k < |ps| :: TokOk(ps[k].tok))
    && (forall k | 0 <= k < |ps| && ps[k].tok.Op? :: ps[k].gap > 0 && (k + 1 == |ps| || ps[k + 1].gap > 0))
  }

  // How tightly an operator binds, by its spelling.
  function Rank(): Prec {
    c => Level(Spelled(c))
  }

  // Around the target stand blanks and the opening brace.
  predicate Filler(s: string) {
    forall k | 0 <= k < |s| :: s[k] == ' ' || s[k] == '{'
  }

  predicate TargetOk(t: string) {
    && (forall k | 0 <= k < |t| :: t[k] !in {' ', '{', '}', '='} && !Mark(t[k]))
    && (t == "" || t[0] != 'B')
  }

  // `{target = expression}`: e is the tree of the expression by the levels of its operators, equal ones from
  // the left.
  ghost predicate WrittenLine(line: string, target: string, e: Expr<string>) {
    exists pre: string, post: string, args: seq<Operand<string>>, ops: seq<char>, ps: seq<Piece>, tail: nat, rest: string ::
      && Filler(pre) && TargetOk(target) && Filler(post)
      && Valid(args, ops) && ops != [] && Tokens(ps) == Toks(args, ops) && Legible(ps) && ps[0].gap > 0
      && line == pre + target + post + "=" + Text(ps) + Blanks(tail) + "}" + rest
      && e == Tree(Rank(), args, ops)
  }

  // The same with the expression in reverse Polish notation, with blanks between the tokens.
  ghost predicate WrittenPolish(line: string, target: string, e: Expr<string>) {
    exists pre: string, post: string, ps: seq<Piece>, tail: nat, rest: string ::
      && Filler(pre) && TargetOk(target) && Filler(post)
      && Tokens(ps) == Postfix(e) && Legible(ps) && (forall k | 0 <= k < |ps| :: ps[k].gap > 0)
      && line == pre + target + post + "=" + Text(ps) + Blanks(tail) + "}" + rest
  }

  // The value of an expression; a name that begins with '_' stands for the target.
  function Worth(e: Expr<string>, target: string, vars: map<string, int>): Option<int> {
    match e
    case Var(a) =>
      var v := if a != "" && a[0] == '_' then target else a;
      if v in vars then Some(vars[v]) else None
    case Paren(b) => Worth(b, target, vars)
    case Bin(c, l, r) =>
      match Worth(l, target, vars)
      case None => None
      case Some(x) =>
        match Worth(r, target, vars)
        case None => None
        case Some(y) => Meaning(Spelled(c), x, y)
  }

  // ---- the text after replace_symbols ----

  function Letter(t: Tok<string>): string {
    if t.Op? then (if |Spelled(t.c)| == 2 then [t.c, ' '] else [t.c]) else Sign(t)
  }

  function Coded(ps: seq<Piece>): string {
    if ps == [] then "" else Blanks(ps[0].gap) + Letter(ps[0].tok) + Coded(ps[1..])
  }

  lemma SpelledCode(c: char)
    requires IsBinary(c)
    ensures Spelled(c) == [c] || exists i :: 0 <= i < 8 && Spelled(c) == SYMBOLS[i] && c == CODES[i]
    ensures |Spelled(c)| <= 2 && (|Spelled(c)| == 1 ==> Spelled(c) == [c]) && !(Spelled(c) == [c] && |Spelled(c)| == 2)
  {
    if c == 'E' { assert Spelled(c) == SYMBOLS[0] && c == CODES[0]; }
    else if c == 'N' { assert Spelled(c) == SYMBOLS[1] && c == CODES[1]; }
    else if c == 'L' { assert Spelled(c) == SYMBOLS[2] && c == CODES[2]; }
    else if c == 'G' { assert Spelled(c) == SYMBOLS[3] && c == CODES[3]; }
    else if c == 'A' { assert Spelled(c) == SYMBOLS[4] && c == CODES[4]; }
    else if c == 'O' { assert Spelled(c) == SYMBOLS[5] && c == CODES[5]; }
    else if c == '$' { assert Spelled(c) == SYMBOLS[6] && c == CODES[6]; }
    else if c == '@' { assert Spelled(c) == SYMBOLS[7] && c == CODES[7]; }
  }

  // ---- replace_symbols on written text ----

  // w stands in s at p.
  ghost predicate Stands(s: string, p: nat, w: string) {
    p + |w| <= |s| && s[p..p + |w|] == w
  }

  lemma Parts(s: string, p: nat, a: string, b: string)
    requires Stands(s, p, a + b)
    ensures Stands(s, p, a) && Stands(s, p + |a|, b)
  {
    assert s[p..p + |a| + |b|][..|a|] == s[p..p + |a|];
    assert s[p..p + |a| + |b|][|a|..] == s[p + |a|..p + |a| + |b|];
  }

  lemma Join(s: string, p: nat, a: string, b: string)
    requires Stands(s, p, a) && Stands(s, p + |a|, b)
    ensures Stands(s, p, a + b)
  {
  }

  lemma ThreeParts(s: string, p: nat, a: string, b: string, c: string)
    requires Stands(s, p, a + b + c)
    ensures Stands(s, p, a) && Stands(s, p + |a|, b) && Stands(s, p + |a| + |b|, c)
    ensures |a + b + c| == |a| + |b| + |c|
  {
    Parts(s, p, a + b, c);
    Parts(s, p, a, b);
  }

  lemma JoinThree(s: string, p: nat, a: string, b: string, c: string)
    requires Stands(s, p, a) && Stands(s, p + |a|, b) && Stands(s, p + |a| + |b|, c)
    ensures Stands(s, p, a + b + c)
  {
    Join(s, p, a, b);
    Join(s, p, a + b, c);
  }

  predicate Quiet(c: char) {
    !Mark(c)
  }

  // Characters that are not part of symbols stay.
  lemma KeepsQuiet(s: string, p: nat, w: string)
    requires Stands(s, p, w) && forall k | 0 <= k < |w| :: Quiet(w[k])
    ensures |RecodeAll(s)| == |s| && Stands(RecodeAll(s), p, w)
  {
    RecodeAllProps(s);
    forall k | p <= k < p + |w|
      ensures RecodeAll(s)[k] == s[k]
    {
      assert s[k] == w[k - p];
      NotBegins(s, k);
      RecodePlain(s, k);
    }
    hide RecodeAll;
  }

  lemma NotBegins(s: string, k: nat)
    requires k < |s| && Quiet(s[k])
    ensures !Begins(s, k) && !Begins(s, k - 1)
  {
    SymbolsMark();
  }

  lemma SymbolsMark()
    ensures forall i | 0 <= i < 8 :: |SYMBOLS[i]| == 2 && Mark(SYMBOLS[i][0]) && Mark(SYMBOLS[i][1])
  {
  }

  // An operator between quiet characters becomes its letter.
  lemma RecodesOperator(s: string, p: nat, c: char)
    requires IsBinary(c) && Stands(s, p, Spelled(c)) && 0 < p && Quiet(s[p - 1])
    requires p + |Spelled(c)| == |s| || Quiet(s[p + |Spelled(c)|])
    ensures Stands(RecodeAll(s), p, Letter(Op(c)))
  {
    SpelledCode(c);
    hide *;
    LetterIs(c);
    NotBegins(s, p - 1);
    StandsAt(s, p, Spelled(c));
    if |Spelled(c)| == 1 {
      if p + 1 < |s| { NotBegins(s, p + 1); } else { NoneAtEnd(s, p); }
      RecodePlain(s, p);
      AtStands(RecodeAll(s), p, [c]);
    } else {
      var i :| 0 <= i < 8 && Spelled(c) == SYMBOLS[i] && c == CODES[i];
      if p + 2 < |s| { NotBegins(s, p + 2); } else { NoneAtEnd(s, p + 1); }
      ApartIs(s, p, i);
      RecodePair(s, p, i);
      AtStands(RecodeAll(s), p, [c, ' ']);
    }
  }

  lemma LetterIs(c: char)
    ensures Letter(Op(c)) == if |Spelled(c)| == 2 then [c, ' '] else [c]
  {
  }

  lemma StandsAt(s: string, p: nat, w: string)
    requires Stands(s, p, w)
    ensures p + |w| <= |s| && forall k | 0 <= k < |w| :: s[p + k] == w[k]
  {
    forall k | 0 <= k < |w|
      ensures s[p + k] == w[k]
    {
      assert s[p..p + |w|][k] == s[p + k];
    }
  }

  lemma AtStands(s: string, p: nat, w: string)
    requires p + |w| <= |s| && forall k | 0 <= k < |w| :: s[p + k] == w[k]
    ensures Stands(s, p, w)
  {
  }

  lemma NoneAtEnd(s: string, k: nat)
    requires k + 1 >= |s|
    ensures !Begins(s, k)
  {
  }

  lemma ApartIs(s: string, p: nat, i: nat)
    requires i < 8 && p + 1 < |s| && |SYMBOLS[i]| == 2 && s[p] == SYMBOLS[i][0] && s[p + 1] == SYMBOLS[i][1]
    requires !Begins(s, p - 1) && !Begins(s, p + 1)
    ensures Apart(s, p, i)
  {
  }

  lemma QuietName(n: string)
    requires NameOk(n)
    ensures forall k | 0 <= k < |n| :: Quiet(n[k])
  {
  }

  predicate Ends(s: string, k: nat) {
    k >= |s| || Quiet(s[k])
  }

  // Written text is recoded operator by operator.
  lemma {:induction false} RecodesText(s: string, p: nat, ps: seq<Piece>)
    requires Legible(ps) && Stands(s, p, Text(ps)) && Ends(s, p + |Text(ps)|)
    ensures |Coded(ps)| == |Text(ps)| && Stands(RecodeAll(s), p, Coded(ps))
    decreases |ps|
  {
    hide *;
    if ps == [] {
      NoText(s, p);
    } else {
      TextStands(s, p, ps);
      LegibleRest(ps);
      RecodesText(s, p + ps[0].gap + |Sign(ps[0].tok)|, ps[1..]);
      RecodesStep(s, p, ps);
    }
  }

  lemma NoText(s: string, p: nat)
    ensures Text([]) == Coded([]) == "" && |RecodeAll(s)| == |s| && (p <= |s| ==> Stands(RecodeAll(s), p, ""))
    ensures Stands(s, p, "") ==> p <= |s|
  {
    RecodeAllProps(s);
  }

  lemma TextStands(s: string, p: nat, ps: seq<Piece>)
    requires ps != [] && Stands(s, p, Text(ps))
    ensures var w, rest := Sign(ps[0].tok), Text(ps[1..]); var q := p + ps[0].gap;
            && Stands(s, p, Blanks(ps[0].gap)) && Stands(s, q, w) && Stands(s, q + |w|, rest)
            && |Text(ps)| == ps[0].gap + |w| + |rest|
  {
    hide *;
    TextIs(ps);
    ThreeParts(s, p, Blanks(ps[0].gap), Sign(ps[0].tok), Text(ps[1..]));
  }

  lemma TextIs(ps: seq<Piece>)
    requires ps != []
    ensures Text(ps) == Blanks(ps[0].gap) + Sign(ps[0].tok) + Text(ps[1..])
    ensures Coded(ps) == Blanks(ps[0].gap) + Letter(ps[0].tok) + Coded(ps[1..])
    ensures |Blanks(ps[0].gap)| == ps[0].gap
  {
  }

  lemma CodedStands(s: string, p: nat, ps: seq<Piece>)
    requires ps != []
    requires var w := Letter(ps[0].tok); var q := p + ps[0].gap;
             Stands(s, p, Blanks(ps[0].gap)) && Stands(s, q, w) && Stands(s, q + |w|, Coded(ps[1..]))
    ensures Stands(s, p, Coded(ps)) && |Coded(ps)| == ps[0].gap + |Letter(ps[0].tok)| + |Coded(ps[1..])|
  {
    hide *;
    TextIs(ps);
    JoinThree(s, p, Blanks(ps[0].gap), Letter(ps[0].tok), Coded(ps[1..]));
  }

  lemma RecodesStep(s: string, p: nat, ps: seq<Piece>)
    requires Legible(ps) && ps != []
    requires var w, rest := Sign(ps[0].tok), Text(ps[1..]); var q := p + ps[0].gap;
             && Stands(s, p, Blanks(ps[0].gap)) && Stands(s, q, w) && Stands(s, q + |w|, rest)
             && |Text(ps)| == ps[0].gap + |w| + |rest| && Ends(s, p + |Text(ps)|)
             && |Coded(ps[1..])| == |rest| && Stands(RecodeAll(s), q + |w|, Coded(ps[1..]))
    ensures |Coded(ps)| == |Text(ps)| && Stands(RecodeAll(s), p, Coded(ps))
  {
    hide *;
    Neighbours(s, p, ps);
    LegibleRest(ps);
    RecodesTok(s, p + ps[0].gap, ps[0].tok);
    KeepsBlanks(s, p, ps[0].gap);
    SignLength(ps[0].tok);
    CodedStands(RecodeAll(s), p, ps);
  }

  lemma Neighbours(s: string, p: nat, ps: seq<Piece>)
    requires Legible(ps) && ps != []
    requires var w, rest := Sign(ps[0].tok), Text(ps[1..]); var q := p + ps[0].gap;
             Stands(s, p, Blanks(ps[0].gap)) && Stands(s, q + |w|, rest) && Ends(s, q + |w| + |rest|)
    ensures var q := p + ps[0].gap; ps[0].tok.Op? ==> q > 0 && Ends(s, q - 1) && Ends(s, q + |Sign(ps[0].tok)|)
  {
    var w, rest := Sign(ps[0].tok), Text(ps[1..]);
    var q := p + ps[0].gap;
    if ps[0].tok.Op? {
      StandsAt(s, p, Blanks(ps[0].gap));
      assert s[p + (ps[0].gap - 1)] == ' ';
      StandsAt(s, q + |w|, rest);
      if |ps| > 1 {
        TextStarts(ps[1..]);
        assert s[q + |w| + 0] == rest[0];
      }
    }
    hide Text;
    hide Sign;
  }

  lemma RecodesTok(s: string, q: nat, t: Tok<string>)
    requires TokOk(t) && Stands(s, q, Sign(t))
    requires t.Op? ==> q > 0 && Ends(s, q - 1) && Ends(s, q + |Sign(t)|)
    ensures Stands(RecodeAll(s), q, Letter(t))
  {
    hide RecodeAll;
    StandsAt(s, q, Sign(t));
    match t
    case Op(c) => RecodesOperator(s, q, c);
    case Atom(a) =>
      QuietName(a);
      KeepsQuiet(s, q, a);
    case LP => KeepsQuiet(s, q, "(");
    case RP => KeepsQuiet(s, q, ")");
  }

  // Behind an operator comes a blank, or nothing.
  lemma TextStarts(ps: seq<Piece>)
    requires ps != [] && ps[0].gap > 0
    ensures Text(ps) != "" && Text(ps)[0] == ' '
  {
  }

  lemma KeepsBlanks(s: string, p: nat, n: nat)
    requires Stands(s, p, Blanks(n))
    ensures Stands(RecodeAll(s), p, Blanks(n))
  {
    KeepsQuiet(s, p, Blanks(n));
  }

  lemma LegibleRest(ps: seq<Piece>)
    requires Legible(ps) && ps != []
    ensures Legible(ps[1..]) && TokOk(ps[0].tok)
  {
  }

  lemma SignLength(t: Tok<string>)
    requires TokOk(t)
    ensures |Letter(t)| == |Sign(t)|
  {
    if t.Op? { SpelledCode(t.c); }
  }

  // ---- the recoded text as the compiler reads it ----

  // Neighbouring tokens of an infix expression: two names never meet, and brackets open behind operators and
  // close before them.
  ghost predicate Meet(t: Tok<string>, u: Tok<string>) {
    && !(t.Atom? && u.Atom?)
    && (u.LP? ==> t.LP? || t.Op?)
    && (t.RP? ==> u.RP? || u.Op?)
  }

  ghost predicate Neat(ts: seq<Tok<string>>) {
    && ts != [] && (ts[0].Atom? || ts[0].LP?) && (ts[|ts| - 1].Atom? || ts[|ts| - 1].RP?)
    && forall k | 0 < k < |ts| :: Meet(ts[k - 1], ts[k])
  }

  lemma NeatJoin(a: seq<Tok<string>>, c: char, b: seq<Tok<string>>)
    requires Neat(a) && Neat(b)
    ensures Neat(a + [Op(c)] + b)
  {
    var s := a + [Op(c)] + b;
    forall k | 0 < k < |s|
      ensures Meet(s[k - 1], s[k])
    {
      if k < |a| {
        assert Meet(a[k - 1], a[k]);
      } else if k > |a| + 1 {
        assert Meet(b[k - |a| - 2], b[k - |a| - 1]);
      }
    }
  }

  lemma NeatGroup(a: seq<Tok<string>>)
    requires Neat(a)
    ensures Neat([LP] + a + [RP])
  {
    var s := [LP] + a + [RP];
    forall k | 0 < k < |s|
      ensures Meet(s[k - 1], s[k])
    {
      if 1 < k <= |a| { assert Meet(a[k - 2], a[k - 1]); }
    }
  }

  lemma {:induction false} ToksNeat(args: seq<Operand<string>>, ops: seq<char>)
    requires Valid(args, ops)
    ensures Neat(Toks(args, ops))
    decreases args
  {
    if args[0].Group? {
      ToksNeat(args[0].args, args[0].ops);
      NeatGroup(Toks(args[0].args, args[0].ops));
    }
    if |ops| > 0 {
      ToksNeat(args[1..], ops[1..]);
      NeatJoin(OperandToks(args[0]), ops[0], Toks(args[1..], ops[1..]));
    }
  }

  lemma {:induction false} ReadBlanks(n: nat, x: Lexer)
    ensures ReadInfix(Blanks(n), x) == if n == 0 then x else Lexer(x.Flush(), "")
  {
    if n > 0 {
      assert Blanks(n)[1..] == Blanks(n - 1);
      ReadBlanks(n - 1, Lexer(x.Flush(), ""));
    }
  }

  lemma {:induction false} ReadsName(a: string, x: Lexer)
    requires forall k | 0 <= k < |a| :: !IsOperator(a[k]) && a[k] != ' '
    ensures ReadInfix(a, x) == x.(cur := x.cur + a)
    decreases |a|
  {
    if a == "" {
      assert x.cur + a == x.cur;
    } else {
      ReadsName(a[1..], x.(cur := x.cur + [a[0]]));
      assert x.cur + [a[0]] + a[1..] == x.cur + a;
    }
  }

  // One token, behind what has been read.
  lemma ReadsLetter(t: Tok<string>, x: Lexer)
    requires TokOk(t) && (t.Atom? ==> x.cur == "")
    ensures ReadInfix(Letter(t), x).Flush() == x.Flush() + [t]
    ensures !t.Atom? ==> ReadInfix(Letter(t), x).cur == ""
  {
    match t
    case Atom(a) =>
      ReadsName(a, x);
      assert "" + a == a;
    case LP => assert ReadInfix("(", x) == ReadInfix("", FeedInfix('(', x));
    case RP => assert ReadInfix(")", x) == ReadInfix("", FeedInfix(')', x));
    case Op(c) =>
      assert c != ' ' && IsOperator(c);
      var y := FeedInfix(c, x);
      assert ReadInfix([c], x) == ReadInfix("", y) by { assert [c][1..] == ""; }
      if |Spelled(c)| == 2 {
        assert [c, ' '][1..] == " ";
        assert ReadInfix(" ", y) == ReadInfix("", FeedInfix(' ', y));
      }
  }

  // The lexer of the compiler finds the tokens that were written.
  lemma {:induction false} ReadsCoded(ps: seq<Piece>, x: Lexer)
    requires Legible(ps) && (forall k | 0 < k < |ps| :: Meet(ps[k - 1].tok, ps[k].tok))
    requires ps != [] && ps[0].tok.Atom? && ps[0].gap == 0 ==> x.cur == ""
    ensures ReadInfix(Coded(ps), x).Flush() == x.Flush() + Tokens(ps)
    decreases |ps|
  {
    hide *;
    if ps == [] {
      ReadsNothing(x);
    } else {
      TextIs(ps);
      LegibleRest(ps);
      MeetRest(ps);
      var g, w, rest := Blanks(ps[0].gap), Letter(ps[0].tok), Coded(ps[1..]);
      ReadBlanks(ps[0].gap, x);
      var y := ReadInfix(g, x);
      FlushTwice(x);
      ReadsLetter(ps[0].tok, y);
      var z := ReadInfix(w, y);
      ReadsCoded(ps[1..], z);
      ReadInfixAppend(g, w, x);
      ReadInfixAppend(g + w, rest, x);
      assert x.Flush() + [ps[0].tok] + Tokens(ps[1..]) == x.Flush() + ([ps[0].tok] + Tokens(ps[1..]));
      TokensFirst(ps);
    }
  }

  lemma ReadsNothing(x: Lexer)
    ensures ReadInfix(Coded([]), x).Flush() == x.Flush() + Tokens([])
  {
  }

  lemma FlushTwice(x: Lexer)
    ensures Lexer(x.Flush(), "").Flush() == x.Flush()
  {
  }

  lemma MeetRest(ps: seq<Piece>)
    requires ps != [] && forall k | 0 < k < |ps| :: Meet(ps[k - 1].tok, ps[k].tok)
    ensures forall k | 0 < k < |ps[1..]| :: Meet(ps[1..][k - 1].tok, ps[1..][k].tok)
    ensures |ps| > 1 && ps[1].tok.Atom? ==> !ps[0].tok.Atom?
  {
    forall k | 0 < k < |ps[1..]|
      ensures Meet(ps[1..][k - 1].tok, ps[1..][k].tok)
    {
      assert Meet(ps[k].tok, ps[k + 1].tok);
    }
    if |ps| > 1 { assert Meet(ps[0].tok, ps[1].tok); }
  }

  lemma TokensFirst(ps: seq<Piece>)
    requires ps != []
    ensures Tokens(ps) == [ps[0].tok] + Tokens(ps[1..])
  {
  }

  // ---- spacing ----

  ghost predicate SpacedAt(s: string, k: nat)
    requires k < |s|
  {
    && (IsBinary(s[k]) ==> 0 < k && s[k - 1] == ' ' && k + 1 < |s| && s[k + 1] == ' ')
    && (s[k] == ')' ==> k + 1 == |s| || s[k + 1] in {' ', ')'})
    && (s[k] == '(' ==> k == 0 || s[k - 1] in {' ', '('})
    && s[k] !in {'{', '}'}
  }

  lemma SpacedIs(s: string)
    requires forall k | 0 <= k < |s| :: SpacedAt(s, k)
    ensures Spaced(s)
  {
    forall k {:trigger s[k]} | 0 <= k < |s|
      ensures (IsBinary(s[k]) ==> 0 < k && s[k - 1] == ' ' && k + 1 < |s| && s[k + 1] == ' ')
              && (s[k] == ')' ==> k + 1 == |s| || s[k + 1] in {' ', ')'})
              && (s[k] == '(' ==> k == 0 || s[k - 1] in {' ', '('})
              && s[k] !in {'{', '}'}
    {
      assert SpacedAt(s, k);
    }
    hide IsBinary;
  }

  lemma CodedStarts(ps: seq<Piece>)
    requires ps != [] && TokOk(ps[0].tok)
    ensures Coded(ps) != "" && Letter(ps[0].tok) != "" && Coded(ps)[0] == if ps[0].gap > 0 then ' ' else Letter(ps[0].tok)[0]
  {
  }

  // What stands behind the first token, when blanks or nothing stand behind the text.
  ghost predicate Follows(s: string, q: nat, ps: seq<Piece>) {
    if q >= |s| then true
    else if |ps| <= 1 then s[q] == ' '
    else Letter(ps[1].tok) != "" && s[q] == if ps[1].gap > 0 then ' ' else Letter(ps[1].tok)[0]
  }

  lemma FollowsIs(s: string, q: nat, ps: seq<Piece>)
    requires ps != [] && (|ps| > 1 ==> TokOk(ps[1].tok)) && Stands(s, q, Coded(ps[1..]))
    requires forall k | q + |Coded(ps[1..])| <= k < |s| :: s[k] == ' '
    ensures (|ps| > 1 ==> q < |s|) && Follows(s, q, ps)
  {
    StandsAt(s, q, Coded(ps[1..]));
    if |ps| > 1 {
      CodedStarts(ps[1..]);
      assert s[q + 0] == Coded(ps[1..])[0];
    } else {
      assert Coded(ps[1..]) == "";
    }
    hide Letter;
  }

  // A token is spaced as the compiler wants it.
  lemma SpacedTok(s: string, q: nat, ps: seq<Piece>)
    requires ps != [] && Legible(ps) && (|ps| > 1 ==> Meet(ps[0].tok, ps[1].tok)) && (|ps| == 1 ==> !ps[0].tok.Op?)
    requires Stands(s, q, Letter(ps[0].tok)) && (ps[0].gap > 0 ==> 0 < q && s[q - 1] == ' ')
    requires ps[0].tok.LP? && ps[0].gap == 0 ==> q == 0 || s[q - 1] in {' ', '('}
    requires var r := q + |Letter(ps[0].tok)|; (|ps| > 1 ==> r < |s|) && Follows(s, r, ps)
    ensures forall k | q <= k < q + |Letter(ps[0].tok)| :: SpacedAt(s, k)
  {
    var w := Letter(ps[0].tok);
    StandsAt(s, q, w);
    match ps[0].tok
    case Atom(a) =>
      forall k | q <= k < q + |w|
        ensures SpacedAt(s, k)
      {
        assert s[q + (k - q)] == a[k - q];
      }
    case LP => assert s[q + 0] == '(';
    case RP =>
      assert s[q + 0] == ')';
      if |ps| > 1 { assert ps[1].tok.RP? || ps[1].gap > 0; }
    case Op(c) =>
      assert s[q + 0] == c;
      assert ps[0].gap > 0 && ps[1].gap > 0;
      if |w| == 2 { assert w[1] == ' ' && s[q + 1] == w[1]; }
  }

  lemma {:induction false} SpacedCoded(s: string, p: nat, ps: seq<Piece>)
    requires Legible(ps) && (forall k | 0 < k < |ps| :: Meet(ps[k - 1].tok, ps[k].tok))
    requires ps != [] ==> !ps[|ps| - 1].tok.Op?
    requires Stands(s, p, Coded(ps)) && forall k | p + |Coded(ps)| <= k < |s| :: s[k] == ' '
    requires ps != [] && ps[0].tok.LP? && ps[0].gap == 0 ==> p == 0 || s[p - 1] in {' ', '('}
    ensures forall k | p <= k < |s| :: SpacedAt(s, k)
    decreases |ps|
  {
    hide *;
    if ps == [] {
      SpacedEnd(s, p);
    } else {
      SpacedStep(s, p, ps);
      SpacedCoded(s, p + ps[0].gap + |Letter(ps[0].tok)|, ps[1..]);
    }
  }

  lemma SpacedEnd(s: string, p: nat)
    requires forall k | p + |Coded([])| <= k < |s| :: s[k] == ' '
    ensures forall k | p <= k < |s| :: SpacedAt(s, k)
  {
  }

  lemma SpacedStep(s: string, p: nat, ps: seq<Piece>)
    requires ps != [] && Legible(ps) && (forall k | 0 < k < |ps| :: Meet(ps[k - 1].tok, ps[k].tok)) && !ps[|ps| - 1].tok.Op?
    requires Stands(s, p, Coded(ps)) && forall k | p + |Coded(ps)| <= k < |s| :: s[k] == ' '
    requires ps[0].tok.LP? && ps[0].gap == 0 ==> p == 0 || s[p - 1] in {' ', '('}
    ensures var r := p + ps[0].gap + |Letter(ps[0].tok)|;
            && r <= |s| && (forall k | p <= k < r :: SpacedAt(s, k))
            && Stands(s, r, Coded(ps[1..])) && (forall k | r + |Coded(ps[1..])| <= k < |s| :: s[k] == ' ')
            && (|ps| > 1 && ps[1].tok.LP? && ps[1].gap == 0 ==> r == 0 || s[r - 1] in {' ', '('})
    ensures Legible(ps[1..]) && (forall k | 0 < k < |ps[1..]| :: Meet(ps[1..][k - 1].tok, ps[1..][k].tok))
    ensures |ps| > 1 ==> !ps[1..][|ps| - 2].tok.Op?
  {
    hide *;
    var q := p + ps[0].gap;
    CodedParts(s, p, ps);
    LegibleRest(ps);
    MeetRest(ps);
    if |ps| > 1 {
      assert Meet(ps[0].tok, ps[1].tok);
      LegibleRest(ps[1..]);
    }
    SpacedGap(s, p, ps[0].gap);
    FollowsIs(s, q + |Letter(ps[0].tok)|, ps);
    SpacedTok(s, q, ps);
    LastCharacter(s, q, ps);
  }

  lemma SpacedGap(s: string, p: nat, n: nat)
    requires Stands(s, p, Blanks(n))
    ensures p + n <= |s| && forall k | p <= k < p + n :: s[k] == ' ' && SpacedAt(s, k)
  {
    StandsAt(s, p, Blanks(n));
    forall k | p <= k < p + n
      ensures s[k] == ' '
    {
      assert s[p + (k - p)] == Blanks(n)[k - p];
    }
  }

  // Behind a bracket or an operator another bracket may open.
  lemma LastCharacter(s: string, q: nat, ps: seq<Piece>)
    requires ps != [] && Legible(ps) && Stands(s, q, Letter(ps[0].tok)) && (|ps| > 1 ==> Meet(ps[0].tok, ps[1].tok))
    ensures var r := q + |Letter(ps[0].tok)|;
            r <= |s| && (|ps| > 1 && ps[1].tok.LP? && ps[1].gap == 0 ==> r > 0 && s[r - 1] in {' ', '('})
  {
    StandsAt(s, q, Letter(ps[0].tok));
    if ps[0].tok.LP? { assert s[q + 0] == '('; }
  }

  lemma CodedParts(s: string, p: nat, ps: seq<Piece>)
    requires ps != [] && Stands(s, p, Coded(ps))
    ensures var w, rest := Letter(ps[0].tok), Coded(ps[1..]); var q := p + ps[0].gap;
            && Stands(s, p, Blanks(ps[0].gap)) && Stands(s, q, w) && Stands(s, q + |w|, rest)
            && |Coded(ps)| == ps[0].gap + |w| + |rest|
  {
    hide *;
    TextIs(ps);
    ThreeParts(s, p, Blanks(ps[0].gap), Letter(ps[0].tok), Coded(ps[1..]));
  }

  lemma {:induction false} PlainCoded(ps: seq<Piece>)
    requires Legible(ps)
    ensures Plain(Coded(ps))
    decreases |ps|
  {
    if ps != [] {
      LegibleRest(ps);
      PlainCoded(ps[1..]);
      PlainLetter(ps[0].tok);
      TextIs(ps);
      hide Coded;
      hide Letter;
    }
  }

  lemma PlainLetter(t: Tok<string>)
    requires TokOk(t)
    ensures Plain(Letter(t))
  {
  }

  // ---- the tree ----

  lemma Ranks(c: char)
    requires IsBinary(c)
    ensures Rank()(c) == Precedence(c)
  {
  }

  ghost predicate AllBinary(ts: seq<Tok<string>>) {
    forall t | t in ts && t.Op? :: IsBinary(t.c)
  }

  lemma {:induction false} RootSame(p: Prec, q: Prec, ops: seq<char>)
    requires ops != [] && forall c | c in ops :: p(c) == q(c)
    ensures Root(p, ops) == Root(q, ops)
  {
    if |ops| > 1 { RootSame(p, q, ops[..|ops| - 1]); }
  }

  lemma {:induction false} OpsOfToks(args: seq<Operand<string>>, ops: seq<char>)
    requires Valid(args, ops)
    ensures forall c | c in ops :: Op(c) in Toks(args, ops)
    decreases args
  {
    if |ops| > 0 {
      OpsOfToks(args[1..], ops[1..]);
      assert (OperandToks(args[0]) + [Op(ops[0])])[|OperandToks(args[0])|] == Op(ops[0]);
    }
  }

  // The tree by levels is the tree that the compiler's table gives.
  lemma {:induction false} SameTree(args: seq<Operand<string>>, ops: seq<char>)
    requires Valid(args, ops) && AllBinary(Toks(args, ops))
    ensures Tree(Rank(), args, ops) == Tree(Precedence, args, ops) && OpsIn(Tree(Rank(), args, ops), IsBinary)
    decreases args
  {
    hide *;
    TreeIs(Rank(), args, ops);
    TreeIs(Precedence, args, ops);
    if |ops| == 0 {
      if args[0].Group? {
        GroupBinary(args, ops);
        SameTree(args[0].args, args[0].ops);
      }
    } else {
      SameRoot(args, ops);
      var k := Root(Precedence, ops);
      SameTree(args[..k + 1], ops[..k]);
      SameTree(args[k + 1..], ops[k + 1..]);
    }
    TreeOps(Tree(Rank(), args, ops));
  }

  lemma TreeIs(prec: Prec, args: seq<Operand<string>>, ops: seq<char>)
    requires Valid(args, ops)
    ensures |args| == |ops| + 1
    ensures |ops| == 0 ==>
              Tree(prec, args, ops) == match args[0] { case Leaf(a) => Var(a) case Group(bs, os) => Paren(Tree(prec, bs, os)) }
    ensures |ops| > 0 ==>
              var k := Root(prec, ops);
              && Valid(args[..k + 1], ops[..k]) && Valid(args[k + 1..], ops[k + 1..])
              && Tree(prec, args, ops) == Bin(ops[k], Tree(prec, args[..k + 1], ops[..k]), Tree(prec, args[k + 1..], ops[k + 1..]))
  {
    hide Root;
  }

  lemma TreeOps(e: Expr<string>)
    ensures OpsIn(e, IsBinary)
       <==> match e case Var(_) => true case Paren(b) => OpsIn(b, IsBinary)
            case Bin(op, l, r) => IsBinary(op) && OpsIn(l, IsBinary) && OpsIn(r, IsBinary)
  {
  }

  lemma GroupBinary(args: seq<Operand<string>>, ops: seq<char>)
    requires Valid(args, ops) && |ops| == 0 && args[0].Group? && AllBinary(Toks(args, ops))
    ensures Valid(args[0].args, args[0].ops) && AllBinary(Toks(args[0].args, args[0].ops))
  {
    var inner := Toks(args[0].args, args[0].ops);
    assert Toks(args, ops) == [LP] + inner + [RP];
    assert forall t | t in inner :: t in Toks(args, ops);
  }

  lemma SameRoot(args: seq<Operand<string>>, ops: seq<char>)
    requires Valid(args, ops) && ops != [] && AllBinary(Toks(args, ops))
    ensures var k := Root(Precedence, ops);
            && Root(Rank(), ops) == k && IsBinary(ops[k])
            && Valid(args[..k + 1], ops[..k]) && Valid(args[k + 1..], ops[k + 1..])
            && AllBinary(Toks(args[..k + 1], ops[..k])) && AllBinary(Toks(args[k + 1..], ops[k + 1..]))
  {
    OpsOfToks(args, ops);
    forall c | c in ops
      ensures IsBinary(c) && Rank()(c) == Precedence(c)
    {
      assert Op(c) in Toks(args, ops);
      Ranks(c);
    }
    RootSame(Rank(), Precedence, ops);
    var k := Root(Precedence, ops);
    ValidSplit(args, ops, k);
    ToksSplit(args, ops, k);
    PartsBinary(Toks(args[..k + 1], ops[..k]), Op(ops[k]), Toks(args[k + 1..], ops[k + 1..]));
    assert ops[k] in ops;
    hide Toks;
    hide Root;
    hide Rank;
    hide Precedence;
  }

  lemma PartsBinary(a: seq<Tok<string>>, t: Tok<string>, b: seq<Tok<string>>)
    requires AllBinary(a + [t] + b)
    ensures AllBinary(a) && AllBinary(b)
  {
    assert forall u | u in a || u in b :: u in a + [t] + b;
  }

  // ---- whole lines ----

  lemma {:induction false} NameAppend(a: string, b: string)
    ensures Name(a + b) == Name(a) + Name(b)
    decreases |a|
  {
    if a == "" {
      assert a + b == b;
    } else {
      assert (a + b)[1..] == a[1..] + b;
      NameAppend(a[1..], b);
    }
  }

  lemma {:induction false} NameFiller(s: string)
    requires Filler(s)
    ensures Name(s) == ""
    decreases |s|
  {
    if s != "" { NameFiller(s[1..]); }
  }

  lemma {:induction false} NameWhole(s: string)
    requires forall k | 0 <= k < |s| :: s[k] != ' ' && s[k] != '{'
    ensures Name(s) == s
    decreases |s|
  {
    if s != "" { NameWhole(s[1..]); }
  }

  lemma HeadName(pre: string, target: string, post: string)
    requires Filler(pre) && TargetOk(target) && Filler(post)
    ensures Name(pre + target + post) == target
  {
    NameAppend(pre + target, post);
    NameAppend(pre, target);
    NameFiller(pre);
    NameFiller(post);
    NameWhole(target);
    hide *;
    assert "" + target + "" == target;
  }

  lemma HeadQuiet(pre: string, target: string, post: string)
    requires Filler(pre) && TargetOk(target) && Filler(post)
    ensures var head := pre + target + post;
            forall k | 0 <= k < |head| :: head[k] != '=' && head[k] != '}' && Quiet(head[k])
  {
    assert forall k | 0 <= k < |target| :: Quiet(target[k]);
  }

  // A line by its parts.
  function Joined(head: string, t: string, b: string, rest: string): string {
    head + "=" + t + b + "}" + rest
  }

  // What replace_symbols makes of a written line.
  lemma RecodesLine(line: string, head: string, ps: seq<Piece>, tail: nat, rest: string) returns (last: string)
    requires line == Joined(head, Text(ps), Blanks(tail), rest)
    requires (forall k | 0 <= k < |head| :: Quiet(head[k])) && Legible(ps) && ps != [] && ps[0].gap > 0
    ensures RecodeAll(line) == Joined(head, Coded(ps), Blanks(tail), last)
    ensures |Coded(ps)| == |Text(ps)|
  {
    hide *;
    var n := |head|;
    var t, b := Text(ps), Blanks(tail);
    LineParts(line, head, t, b, rest);
    EndsAt(line, n + 1 + |t|, tail);
    RecodesText(line, n + 1, ps);
    KeepsQuiet(line, 0, head);
    KeepsBlanks(line, n + 1 + |t|, tail);
    KeepsBrace(line, n + 1 + |t| + |b|);
    FirstBlank(line, n + 1, ps);
    KeepsEquals(line, n);
    last := LineJoin(RecodeAll(line), head, Coded(ps), b);
  }

  lemma JoinedIs(head: string, t: string, b: string, rest: string)
    ensures Joined(head, t, b, rest) == head + "=" + t + b + "}" + rest
  {
  }

  lemma LineParts(line: string, head: string, t: string, b: string, rest: string)
    requires line == Joined(head, t, b, rest)
    ensures var n := |head|;
            && Stands(line, 0, head) && Stands(line, n, "=") && Stands(line, n + 1, t)
            && Stands(line, n + 1 + |t|, b) && Stands(line, n + 1 + |t| + |b|, "}")
            && (n > 0 ==> line[n - 1] == head[n - 1])
  {
    assert head + "=" + t + b + "}" + rest == (head + "=" + t + b + "}") + rest;
    assert line[0..|line|] == line;
    Parts(line, 0, head + "=" + t + b + "}", rest);
    Parts(line, 0, head + "=" + t + b, "}");
    Parts(line, 0, head + "=" + t, b);
    Parts(line, 0, head + "=", t);
    Parts(line, 0, head, "=");
    if |head| > 0 { StandsAt(line, 0, head); }
  }

  lemma EndsAt(line: string, k: nat, tail: nat)
    requires Stands(line, k, Blanks(tail)) && Stands(line, k + |Blanks(tail)|, "}")
    ensures |Blanks(tail)| == tail && Ends(line, k)
  {
    StandsAt(line, k, Blanks(tail));
    StandsAt(line, k + tail, "}");
    if tail > 0 { assert line[k + 0] == Blanks(tail)[0]; } else { assert line[k + 0] == '}'; }
  }

  lemma KeepsBrace(line: string, k: nat)
    requires Stands(line, k, "}")
    ensures Stands(RecodeAll(line), k, "}")
  {
    KeepsQuiet(line, k, "}");
  }

  lemma FirstBlank(line: string, k: nat, ps: seq<Piece>)
    requires Stands(line, k, Text(ps)) && ps != [] && ps[0].gap > 0
    ensures k < |line| && line[k] == ' '
  {
    TextStarts(ps);
    StandsAt(line, k, Text(ps));
    assert line[k + 0] == Text(ps)[0];
    hide Text;
  }

  lemma KeepsEquals(line: string, n: nat)
    requires Stands(line, n, "=") && n + 1 < |line| && line[n + 1] == ' ' && (n > 0 ==> Quiet(line[n - 1]))
    ensures Stands(RecodeAll(line), n, "=")
  {
    StandsAt(line, n, "=");
    assert line[n + 0] == '=';
    NotBegins(line, n + 1);
    if n > 0 { NotBegins(line, n - 1); }
    RecodePlain(line, n);
    AtStands(RecodeAll(line), n, "=");
    hide RecodeAll;
  }

  lemma LineJoin(s: string, head: string, c: string, b: string) returns (last: string)
    requires Stands(s, 0, head) && Stands(s, |head|, "=") && Stands(s, |head| + 1, c)
    requires Stands(s, |head| + 1 + |c|, b) && Stands(s, |head| + 1 + |c| + |b|, "}")
    ensures s == Joined(head, c, b, last)
  {
    Join(s, 0, head, "=");
    Join(s, 0, head + "=", c);
    Join(s, 0, head + "=" + c, b);
    Join(s, 0, head + "=" + c + b, "}");
    var w := head + "=" + c + b + "}";
    last := s[|w|..];
    assert s == s[0..|w|] + s[|w|..];
  }

  // ---- what a written line denotes ----

  // The text behind "= " without its first blank.
  function Closer(ps: seq<Piece>): seq<Piece>
    requires ps != [] && ps[0].gap > 0
  {
    ps[0 := Piece(ps[0].gap - 1, ps[0].tok)]
  }

  lemma CloserText(ps: seq<Piece>)
    requires ps != [] && ps[0].gap > 0
    ensures Coded(ps) == " " + Coded(Closer(ps))
  {
    hide *;
    TextIs(ps);
    CloserIs(ps);
    TextIs(Closer(ps));
    OneBlank(ps[0].gap);
    Shift(Blanks(ps[0].gap - 1), Letter(ps[0].tok), Coded(ps[1..]));
  }

  lemma CloserIs(ps: seq<Piece>)
    requires ps != [] && ps[0].gap > 0
    ensures var qs := Closer(ps);
            qs != [] && qs[1..] == ps[1..] && qs[0] == Piece(ps[0].gap - 1, ps[0].tok) && Tokens(qs) == Tokens(ps)
  {
  }

  lemma OneBlank(n: nat)
    requires n > 0
    ensures Blanks(n) == " " + Blanks(n - 1)
  {
  }

  lemma Shift(a: string, b: string, c: string)
    ensures " " + a + b + c == " " + (a + b + c)
  {
  }

  lemma CloserLegible(ps: seq<Piece>)
    requires ps != [] && ps[0].gap > 0 && Legible(ps) && !ps[0].tok.Op?
    ensures Legible(Closer(ps))
  {
  }

  // Recoded, the text of an infix expression spells its tree for the compiler.
  lemma CodedSpells(ps: seq<Piece>, tail: nat, args: seq<Operand<string>>, ops: seq<char>)
    requires Valid(args, ops) && ops != [] && Tokens(ps) == Toks(args, ops) && Legible(ps)
    ensures var text := Coded(ps) + Blanks(tail);
            Spaced(text) && Plain(text) && Spells(text, Tree(Rank(), args, ops))
  {
    hide *;
    var text := Coded(ps) + Blanks(tail);
    ToksNeat(args, ops);
    NeatPieces(ps, Toks(args, ops));
    BlanksTail(Coded(ps), tail);
    SpacedCoded(text, 0, ps);
    SpacedIs(text);
    PlainCoded(ps);
    PlainTail(Coded(ps), tail);
    ReadsCoded(ps, Lexer([], ""));
    ReadInfixAppend(Coded(ps), Blanks(tail), Lexer([], ""));
    ReadBlanks(tail, ReadInfix(Coded(ps), Lexer([], "")));
    InfixToksIs(text, Coded(ps), tail);
    LegibleBinary(ps);
    SameTree(args, ops);
    SpellsIs(text, args, ops);
  }

  lemma NeatPieces(ps: seq<Piece>, ts: seq<Tok<string>>)
    requires Tokens(ps) == ts && Neat(ts)
    ensures ps != [] && !ps[|ps| - 1].tok.Op? && !ps[0].tok.Op?
    ensures forall k | 0 < k < |ps| :: Meet(ps[k - 1].tok, ps[k].tok)
  {
    assert forall k | 0 <= k < |ps| :: ts[k] == ps[k].tok;
    forall k | 0 < k < |ps|
      ensures Meet(ps[k - 1].tok, ps[k].tok)
    {
      assert Meet(ts[k - 1], ts[k]);
    }
    hide Meet;
  }

  lemma BlanksTail(c: string, tail: nat)
    ensures Stands(c + Blanks(tail), 0, c) && forall k | |c| <= k < |c + Blanks(tail)| :: (c + Blanks(tail))[k] == ' '
  {
  }

  lemma PlainTail(c: string, tail: nat)
    requires Plain(c)
    ensures Plain(c + Blanks(tail))
  {
  }

  lemma InfixToksIs(text: string, c: string, tail: nat)
    requires text == c + Blanks(tail)
    requires ReadInfix(text, Lexer([], "")) == ReadInfix(Blanks(tail), ReadInfix(c, Lexer([], "")))
    requires var x := ReadInfix(c, Lexer([], "")); ReadInfix(Blanks(tail), x) == if tail == 0 then x else Lexer(x.Flush(), "")
    ensures InfixToks(text) == ReadInfix(c, Lexer([], "")).Flush()
    ensures forall ts: seq<Tok<string>> :: Lexer([], "").Flush() + ts == ts
  {
    hide ReadInfix;
  }

  lemma LegibleBinary(ps: seq<Piece>)
    requires Legible(ps)
    ensures AllBinary(Tokens(ps))
  {
    forall t | t in Tokens(ps) && t.Op?
      ensures IsBinary(t.c)
    {
      var k :| 0 <= k < |ps| && Tokens(ps)[k] == t;
      assert TokOk(ps[k].tok);
    }
  }

  lemma SpellsIs(text: string, args: seq<Operand<string>>, ops: seq<char>)
    requires Valid(args, ops) && ops != [] && InfixToks(text) == Toks(args, ops)
    requires OpsIn(Tree(Precedence, args, ops), IsBinary)
    ensures Spells(text, Tree(Precedence, args, ops))
  {
  }

  // A written line is an infix line for the compiler, with the same target and tree.
  lemma WrittenIsInfix(line: string, target: string, e: Expr<string>)
    requires WrittenLine(line, target, e)
    ensures InfixLine(line, target, e)
  {
    var pre: string, post: string, args: seq<Operand<string>>, ops: seq<char>, ps: seq<Piece>, tail: nat, rest: string :|
      && Filler(pre) && TargetOk(target) && Filler(post)
      && Valid(args, ops) && ops != [] && Tokens(ps) == Toks(args, ops) && Legible(ps) && ps[0].gap > 0
      && line == pre + target + post + "=" + Text(ps) + Blanks(tail) + "}" + rest
      && e == Tree(Rank(), args, ops);
    assert target == "" || target[0] != 'B';
    JoinedIs(pre + target + post, Text(ps), Blanks(tail), rest);
    hide *;
    var head := pre + target + post;
    HeadName(pre, target, post);
    HeadQuiet(pre, target, post);
    var last := RecodesLine(line, head, ps, tail, rest);
    ToksNeat(args, ops);
    NeatPieces(ps, Toks(args, ops));
    CloserText(ps);
    CloserIs(ps);
    CloserLegible(ps);
    CodedSpells(Closer(ps), tail, args, ops);
    Regroup(head, Coded(Closer(ps)), Blanks(tail), last);
    InfixLineIs(line, head, target, Coded(Closer(ps)) + Blanks(tail), last, e);
  }

  lemma Regroup(head: string, c: string, b: string, last: string)
    ensures Joined(head, " " + c, b, last) == head + "= " + (c + b) + "}" + last
  {
    assert head + "=" + (" " + c) == head + "= " + c;
    assert head + "= " + c + b == head + "= " + (c + b);
  }

  lemma InfixLineIs(line: string, head: string, target: string, text: string, rest: string, e: Expr<string>)
    requires Name(head) == target && (target == "" || target[0] != 'B')
    requires forall k | 0 <= k < |head| :: head[k] != '=' && head[k] != '}'
    requires Spaced(text) && Plain(text) && Spells(text, e) && RecodeAll(line) == head + "= " + text + "}" + rest
    ensures InfixLine(line, target, e)
  {
    assert Plain(head);
    hide RecodeAll;
    hide Spaced;
    hide Spells;
    hide Plain;
  }

  // ---- reverse Polish lines ----

  lemma {:induction false} LexBlanks(s: string, k: nat, n: nat)
    requires Stands(s, k, Blanks(n))
    ensures k + n <= |s| && Lex(s, k) == Lex(s, k + n)
    decreases n
  {
    if n > 0 {
      StandsAt(s, k, Blanks(n));
      assert s[k + 0] == ' ';
      OneBlank(n);
      Parts(s, k, " ", Blanks(n - 1));
      LexBlanks(s, k + 1, n - 1);
    }
  }

  // One token, with a blank or the closing brace behind it.
  lemma LexTok(s: string, q: nat, t: Tok<string>)
    requires TokOk(t) && (t.Atom? || t.Op?) && Stands(s, q, Letter(t))
    requires var r := q + |Letter(t)|; r < |s| && (s[r] == ' ' || s[r] == '}')
    ensures var r := q + |Letter(t)|; Lex(s, q) == Prepend(t, Lex(s, r))
  {
    StandsAt(s, q, Letter(t));
    match t
    case Op(c) =>
      assert s[q + 0] == c;
      if |Letter(t)| == 2 { assert s[q + 1] == ' ' by { assert Letter(t)[1] == ' '; } }
    case Atom(a) =>
      assert s[q + 0] == a[0];
      NameEnds(s, q, a);
      assert s[q..q + |a|] == a && [t] + [] == [t];
  }

  lemma NameEnds(s: string, q: nat, a: string)
    requires NameOk(a) && Stands(s, q, a) && q + |a| < |s| && (s[q + |a|] == ' ' || s[q + |a|] == '}')
    ensures NameEnd(s, q) == q + |a|
  {
    StandsAt(s, q, a);
    forall j | q <= j < q + |a|
      ensures s[j] != ' ' && s[j] != '}'
    {
      assert s[q + (j - q)] == a[j - q];
    }
  }

  // Names and operators with blanks between them.
  ghost predicate Loose(ps: seq<Piece>) {
    forall k | 0 <= k < |ps| :: ps[k].gap > 0 && (ps[k].tok.Atom? || ps[k].tok.Op?)
  }

  lemma LooseRest(ps: seq<Piece>)
    requires Loose(ps) && ps != []
    ensures Loose(ps[1..]) && ps[0].gap > 0 && (ps[0].tok.Atom? || ps[0].tok.Op?) && (|ps| > 1 ==> ps[1].gap > 0)
  {
  }

  lemma {:induction false} LexCoded(s: string, p: nat, ps: seq<Piece>, tail: nat)
    requires Legible(ps) && Loose(ps)
    requires Stands(s, p, Coded(ps)) && Stands(s, p + |Coded(ps)|, Blanks(tail)) && Stands(s, p + |Coded(ps)| + |Blanks(tail)|, "}")
    ensures p <= |s| && Lex(s, p) == Some(Tokens(ps))
    decreases |ps|
  {
    hide *;
    if ps == [] {
      LexEnd(s, p, tail);
    } else {
      CodedParts(s, p, ps);
      LegibleRest(ps);
      LooseRest(ps);
      if |ps| > 1 { LegibleRest(ps[1..]); }
      var q := p + ps[0].gap;
      var r := q + |Letter(ps[0].tok)|;
      LexCoded(s, r, ps[1..], tail);
      LexBlanks(s, p, ps[0].gap);
      BehindTok(s, r, ps, tail);
      LexTok(s, q, ps[0].tok);
      TokensFirst(ps);
      PrependSome(ps[0].tok, Tokens(ps[1..]));
    }
  }

  lemma PrependSome(t: Tok<string>, ts: seq<Tok<string>>)
    ensures Prepend(t, Some(ts)) == Some([t] + ts)
  {
  }

  lemma LexEnd(s: string, p: nat, tail: nat)
    requires Stands(s, p, Coded([])) && Stands(s, p + |Coded([])|, Blanks(tail)) && Stands(s, p + |Coded([])| + |Blanks(tail)|, "}")
    ensures p <= |s| && Lex(s, p) == Some(Tokens([]))
  {
    LexBlanks(s, p, tail);
    StandsAt(s, p + tail, "}");
    assert s[p + tail + 0] == "}"[0];
    assert Lex(s, p + tail) == Some([]) && Coded([]) == "" && Tokens([]) == [];
  }

  lemma BehindTok(s: string, r: nat, ps: seq<Piece>, tail: nat)
    requires ps != [] && (|ps| > 1 ==> ps[1].gap > 0 && TokOk(ps[1].tok))
    requires Stands(s, r, Coded(ps[1..]))
    requires Stands(s, r + |Coded(ps[1..])|, Blanks(tail)) && Stands(s, r + |Coded(ps[1..])| + |Blanks(tail)|, "}")
    ensures r < |s| && (s[r] == ' ' || s[r] == '}')
  {
    if |ps| > 1 {
      CodedStarts(ps[1..]);
      StandsAt(s, r, Coded(ps[1..]));
      assert s[r + 0] == Coded(ps[1..])[0];
    } else {
      assert Coded(ps[1..]) == "";
      EndsAt(s, r, tail);
      StandsAt(s, r, Blanks(tail));
      StandsAt(s, r + tail, "}");
      if tail > 0 { assert s[r + 0] == Blanks(tail)[0]; } else { assert s[r + 0] == '}'; }
    }
    hide Letter;
  }

  lemma {:induction false} PostfixToks(e: Expr<string>)
    ensures Postfix(e) != [] && forall t | t in Postfix(e) :: t.Atom? || t.Op?
  {
    match e
    case Var(_) =>
    case Paren(b) => PostfixToks(b);
    case Bin(_, l, r) =>
      PostfixToks(l);
      PostfixToks(r);
  }

  // The compiler reads such a line as its target and the tokens of its expression.
  lemma PolishParses(line: string, target: string, e: Expr<string>)
    requires WrittenPolish(line, target, e)
    ensures Parse(line) == Some((target, Postfix(e)))
  {
    var pre: string, post: string, ps: seq<Piece>, tail: nat, rest: string :|
      && Filler(pre) && TargetOk(target) && Filler(post)
      && Tokens(ps) == Postfix(e) && Legible(ps) && (forall k | 0 <= k < |ps| :: ps[k].gap > 0)
      && line == pre + target + post + "=" + Text(ps) + Blanks(tail) + "}" + rest;
    assert target == "" || target[0] != 'B';
    JoinedIs(pre + target + post, Text(ps), Blanks(tail), rest);
    hide *;
    HeadName(pre, target, post);
    HeadQuiet(pre, target, post);
    PostfixToks(e);
    PolishPieces(ps, Postfix(e));
    PiecesParse(line, pre + target + post, target, ps, tail, rest);
  }

  lemma PiecesParse(line: string, head: string, target: string, ps: seq<Piece>, tail: nat, rest: string)
    requires Name(head) == target && (target == "" || target[0] != 'B')
    requires forall k | 0 <= k < |head| :: head[k] != '=' && head[k] != '}' && Quiet(head[k])
    requires ps != [] && ps[0].gap > 0 && Legible(ps) && Loose(ps)
    requires line == Joined(head, Text(ps), Blanks(tail), rest)
    ensures Parse(line) == Some((target, Tokens(ps)))
  {
    hide *;
    var last := RecodesLine(line, head, ps, tail, rest);
    PiecesLex(RecodeAll(line), head, ps, tail, last);
    PiecesHead(line, head, Text(ps), Blanks(tail), rest);
    ParseIs(line, head, target, Tokens(ps));
  }

  lemma PiecesLex(s: string, head: string, ps: seq<Piece>, tail: nat, last: string)
    requires Legible(ps) && Loose(ps)
    requires s == Joined(head, Coded(ps), Blanks(tail), last)
    ensures |s| >= |head| + 1 && Lex(s, |head| + 1) == Some(Tokens(ps))
  {
    hide *;
    PiecesTail(s, head, Coded(ps), Blanks(tail), last);
    LexCoded(s, |head| + 1, ps, tail);
  }

  lemma PiecesTail(s: string, head: string, c: string, b: string, last: string)
    requires s == Joined(head, c, b, last)
    ensures var p := |head| + 1; |s| >= p && Stands(s, p, c) && Stands(s, p + |c|, b) && Stands(s, p + |c| + |b|, "}")
  {
    LineParts(s, head, c, b, last);
    PiecesHead(s, head, c, b, last);
    hide *;
  }

  lemma PiecesHead(line: string, head: string, t: string, b: string, rest: string)
    requires line == Joined(head, t, b, rest)
    ensures Stands(line, 0, head) && Stands(line, |head|, "=") && |head| + 1 < |line|
  {
    LineParts(line, head, t, b, rest);
    hide Joined;
  }

  lemma PolishPieces(ps: seq<Piece>, ts: seq<Tok<string>>)
    requires Tokens(ps) == ts && ts != [] && forall t | t in ts :: t.Atom? || t.Op?
    requires forall k | 0 <= k < |ps| :: ps[k].gap > 0
    ensures ps != [] && ps[0].gap > 0 && Loose(ps)
  {
    forall k | 0 <= k < |ps|
      ensures ps[k].tok.Atom? || ps[k].tok.Op?
    {
      assert ts[k] in ts;
    }
  }

  lemma ParseIs(line: string, head: string, target: string, ts: seq<Tok<string>>)
    requires Stands(line, 0, head) && Stands(line, |head|, "=") && |head| + 1 < |line|
    requires Name(head) == target && (target == "" || target[0] != 'B') && forall k | 0 <= k < |head| :: head[k] != '='
    requires |RecodeAll(line)| >= |head| + 1 && Lex(RecodeAll(line), |head| + 1) == Some(ts)
    ensures Parse(line) == Some((target, ts))
  {
    HeadPos(line, head);
    hide RecodeAll;
    hide Lex;
    hide Name;
    hide Stands;
    hide Pos;
  }

  lemma HeadPos(line: string, head: string)
    requires Stands(line, 0, head) && Stands(line, |head|, "=") && forall k | 0 <= k < |head| :: head[k] != '='
    ensures Pos(line, '=', 0) == |head| <= |line| && line[..|head|] == head
  {
    StandsAt(line, 0, head);
    StandsAt(line, |head|, "=");
    assert line[|head| + 0] == "="[0];
    assert line[..|head|] == line[0..0 + |head|];
    forall j | 0 <= j < |head|
      ensures line[j] != '='
    {
      assert line[0 + j] == head[j];
    }
  }

  // ---- written programs ----

  // Every assignment is written as a line of one of the two notations.
  ghost predicate Written(p: Stmt) {
    match p
    case Skip => true
    case Seq(a, b) => Written(a) && Written(b)
    case Assign(line, target, e) =>
      (match line case LInfix(text) => WrittenLine(text, target, e) case LRpn(text) => WrittenPolish(text, target, e) case _ => false)
    case If(_, body) => Written(body)
    case IfElse(_, a, b) => Written(a) && Written(b)
    case Switch(body) => Written(body)
    case Case(_, _, body) => Written(body)
    case DoWhile(body, _) => Written(body)
    case For(pre, _, body) => Written(pre) && Written(body)
  }

  // The compiler reads a written program as it is meant.
  lemma {:induction false} WrittenWellFormed(p: Stmt)
    requires Written(p)
    ensures WellFormed(p)
    decreases p
  {
    hide WrittenLine;
    hide WrittenPolish;
    hide InfixLine;
    hide Parse;
    match p
    case Skip =>
    case Seq(a, b) =>
      WrittenWellFormed(a);
      WrittenWellFormed(b);
    case Assign(line, target, e) =>
      if line.LInfix? { WrittenIsInfix(line.text, target, e); } else { PolishParses(line.text, target, e); }
    case If(_, body) => WrittenWellFormed(body);
    case IfElse(_, a, b) =>
      WrittenWellFormed(a);
      WrittenWellFormed(b);
    case Switch(body) => WrittenWellFormed(body);
    case Case(_, _, body) => WrittenWellFormed(body);
    case DoWhile(body, _) => WrittenWellFormed(body);
    case For(pre, _, body) =>
      WrittenWellFormed(pre);
      WrittenWellFormed(body);
  }

  lemma {:induction false} WorthIs(e: Expr<string>, target: string, vars: map<string, int>)
    requires OpsIn(e, IsBinary)
    ensures Worth(e, target, vars) == Eval(e, target, Meant, vars)
    decreases e
  {
    hide Meaning;
    match e
    case Var(_) =>
    case Paren(b) => WorthIs(b, target, vars);
    case Bin(_, l, r) =>
      WorthIs(l, target, vars);
      WorthIs(r, target, vars);
  }

  lemma WrittenOps(line: string, target: string, e: Expr<string>)
    requires WrittenLine(line, target, e)
    ensures OpsIn(e, IsBinary)
  {
    WrittenIsInfix(line, target, e);
    hide RecodeAll;
    hide Spaced;
    hide Tree;
    hide InfixToks;
  }

  // The code of a written line gives the target the value that the written operators mean, changes no other
  // variable, and stops exactly when that value does not exist.
  lemma WrittenAssignment(line: string, target: string, e: Expr<string>, env: Env, c: Comp, s: State)
    requires WrittenLine(line, target, e) && env.alu == Meant && Layout(env.layout) && Coherent(c.g.table, env, s)
    requires DoLine(Standard(env), LInfix(line), c).Some?
    ensures var d := DoLine(Standard(env), LInfix(line), c).value;
            match Worth(e, target, Vars(env, s.mem))
            case None => Run(Emitted(c.g, d.g), env, s) == None
            case Some(x) =>
              var out := Run(Emitted(c.g, d.g), env, s);
              && out.Some? && Coherent(d.g.table, env, out.value)
              && Vars(env, out.value.mem) == Vars(env, s.mem)[target := x]
  {
    hide *;
    WrittenIsInfix(line, target, e);
    WrittenOps(line, target, e);
    WorthIs(e, target, Vars(env, s.mem));
    InfixAssignment(line, target, e, env, c, s);
  }

  // `{t = a == b}` and what it means.
  lemma EqualsLine(a: string, b: string, vars: map<string, int>)
    requires NameOk(a) && NameOk(b) && a in vars && b in vars && a[0] != '_' && b[0] != '_'
    ensures var line := "{t = " + a + " == " + b + "}"; var e := Bin('E', Var(a), Var(b));
            && WrittenLine(line, "t", e)
            && Worth(e, "t", vars) == Some(if vars[a] == vars[b] then 1 else 0)
  {
    var line, e := "{t = " + a + " == " + b + "}", Bin('E', Var(a), Var(b));
    var args, ops := [Leaf(a), Leaf(b)], ['E'];
    var ps := [Piece(1, Atom(a)), Piece(1, Op('E')), Piece(1, Atom(b))];
    EqualsTree(a, b);
    EqualsText(a, b);
    assert Legible(ps);
    assert line == "{" + "t" + " " + "=" + Text(ps) + Blanks(0) + "}" + "" by { EqualsJoin(a, b, Text(ps)); }
    assert Filler("{") && TargetOk("t") && Filler(" ");
    hide *;
    assert WrittenLine(line, "t", e) by { WrittenIs(line, "{", "t", " ", args, ops, ps, 0, "", e); }
    EqualsWorth(a, b, vars);
  }

  lemma WrittenIs(line: string, pre: string, target: string, post: string, args: seq<Operand<string>>, ops: seq<char>,
                  ps: seq<Piece>, tail: nat, rest: string, e: Expr<string>)
    requires Filler(pre) && TargetOk(target) && Filler(post)
    requires Valid(args, ops) && ops != [] && Tokens(ps) == Toks(args, ops) && Legible(ps) && ps != [] && ps[0].gap > 0
    requires line == pre + target + post + "=" + Text(ps) + Blanks(tail) + "}" + rest
    requires e == Tree(Rank(), args, ops)
    ensures WrittenLine(line, target, e)
  {
  }

  lemma EqualsWorth(a: string, b: string, vars: map<string, int>)
    requires a in vars && b in vars && a != "" && b != "" && a[0] != '_' && b[0] != '_'
    ensures Worth(Bin('E', Var(a), Var(b)), "t", vars) == Some(if vars[a] == vars[b] then 1 else 0)
  {
  }

  lemma EqualsTree(a: string, b: string)
    ensures var args, ops := [Leaf(a), Leaf(b)], ['E'];
            && Valid(args, ops) && Toks(args, ops) == [Atom(a), Op('E'), Atom(b)]
            && Tree(Rank(), args, ops) == Bin('E', Var(a), Var(b))
  {
    var args, ops := [Leaf(a), Leaf(b)], ['E'];
    assert args[1..] == [Leaf(b)] && ops[1..] == [] && args[..1] == [Leaf(a)] && ops[..0] == [];
    assert Toks([Leaf(b)], []) == [Atom(b)];
    TreeIs(Rank(), args, ops);
    TreeIs(Rank(), [Leaf(a)], []);
    TreeIs(Rank(), [Leaf(b)], []);
    hide Tree;
  }

  lemma EqualsText(a: string, b: string)
    ensures var ps := [Piece(1, Atom(a)), Piece(1, Op('E')), Piece(1, Atom(b))];
            Text(ps) == " " + a + " ==" + " " + b && Tokens(ps) == [Atom(a), Op('E'), Atom(b)]
  {
    var ps := [Piece(1, Atom(a)), Piece(1, Op('E')), Piece(1, Atom(b))];
    var qs, rs := [Piece(1, Op('E')), Piece(1, Atom(b))], [Piece(1, Atom(b))];
    assert ps[1..] == qs && qs[1..] == rs && rs[1..] == [] && Blanks(1) == " ";
    assert Text(rs) == " " + b;
    assert Text(qs) == " " + "==" + (" " + b);
    assert Text(ps) == " " + a + (" ==" + (" " + b));
  }

  lemma EqualsJoin(a: string, b: string, t: string)
    requires t == " " + a + " ==" + " " + b
    ensures "{t = " + a + " == " + b + "}" == "{" + "t" + " " + "=" + t + Blanks(0) + "}" + ""
  {
    assert Blanks(0) == "";
    assert "{t = " + a + " == " + b == "{t =" + (" " + a + " ==" + " " + b);
  }
}
