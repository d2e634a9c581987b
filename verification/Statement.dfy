// One assignment line, from its text to the target variable and the postfix tokens of its expression.
module Statement {
  import opened Infix
  import opened Shunt
  import opened Convert
  import opened ConvertCorrect
  import opened Symbols

  // Position of the first c at or after k, or |s|.
  function Pos(s: string, c: char, k: nat): (r: nat)
    requires k <= |s|
    ensures k <= r <= |s| && (r < |s| ==> s[r] == c) && forall j | k <= j < r :: s[j] != c
    decreases |s| - k
  {
    if k == |s| || s[k] == c then k else Pos(s, c, k + 1)
  }

  // One past the last '=' before k; 0 when there is none.
  function PastEquals(s: string, k: nat): (r: nat)
    requires k <= |s|
    ensures r <= k && (r > 0 ==> s[r - 1] == '=') && forall j | r <= j < k :: s[j] != '='
  {
    if k == 0 then 0 else if s[k - 1] == '=' then k else PastEquals(s, k - 1)
  }

  // convert: recode the line, keep everything up to the '=', and turn the rest, up to '}', into postfix.
  function ConvertLine(stk: seq<string>, line: string): Option<Scan> {
    var s := RecodeAll(line);
    var end := Pos(s, '}', 0);
    var start := PastEquals(s, end);
    if start == 0 then None
    else
      var from := if start < end && s[start] == ' ' then start + 1 else start;
      match ConvertExpr(stk, s[from..end])
      case None => None
      case Some(v) => Some(v.(out := s[..start] + v.out))
  }

  // get_target_var: the characters before '=', without blanks and the opening brace.
  function Name(s: string): string {
    if s == "" then ""
    else (if s[0] == ' ' || s[0] == '{' then "" else [s[0]]) + Name(s[1..])
  }

  function NameEnd(s: string, k: nat): (r: nat)
    requires k <= |s|
    ensures k <= r <= |s| && (r < |s| ==> s[r] == ' ' || s[r] == '}')
    ensures forall j | k <= j < r :: s[j] != ' ' && s[j] != '}'
    decreases |s| - k
  {
    if k == |s| || s[k] == ' ' || s[k] == '}' then k else NameEnd(s, k + 1)
  }

  // The token loop of parse_rpolish.  None: a name runs past the end of the text.
  function Lex(s: string, k: nat): Option<seq<Tok<string>>>
    requires k <= |s|
    decreases |s| - k
  {
    if k == |s| || s[k] == '}' then Some([])
    else if s[k] == ' ' then Lex(s, k + 1)
    else if IsOperator(s[k]) then Prepend(Op(s[k]), Lex(s, k + 1))
    else
      var e := NameEnd(s, k);
      if e == |s| then None
      else if s[e] == '}' then Some([Atom(s[k..e])])
      else Prepend(Atom(s[k..e]), Lex(s, e))
  }

  function Prepend<T>(t: T, r: Option<seq<T>>): Option<seq<T>> {
    match r case None => None case Some(ts) => Some([t] + ts)
  }

  // parse_rpolish up to code generation: the target (a leading 'B' marks a boolean and is refused)
  // and the tokens.
  function Parse(postfix: string): Option<(string, seq<Tok<string>>)> {
    var eq := Pos(postfix, '=', 0);
    if eq + 1 >= |postfix| then None
    else
      var target := Name(postfix[..eq]);
      var s := RecodeAll(postfix);
      if (target != "" && target[0] == 'B') || eq + 1 > |s| then None
      else
        match Lex(s, eq + 1)
        case None => None
        case Some(ts) => Some((target, ts))
  }

  // Reading from the front and reading as a fold agree on text without a closing brace.
  lemma {:induction false} LexReads(s: string, k: nat, x: Lexer)
    requires k <= |s| && x.cur == "" && (forall j | k <= j < |s| :: s[j] != '}')
    ensures ReadPostfix(s[k..], x).cur == "" ==>
              Lex(s, k).Some? && ReadPostfix(s[k..], x).toks == x.toks + Lex(s, k).value
    decreases |s| - k, 1
  {
    hide IsBinary;
    if k == |s| {
      assert x.toks + [] == x.toks;
    } else {
      assert s[k..][0] == s[k] && s[k..][1..] == s[k + 1..];
      if s[k] == ' ' {
        LexReads(s, k + 1, x);
      } else if IsOperator(s[k]) {
        LexReads(s, k + 1, x.(toks := x.toks + [Op(s[k])]));
        if Lex(s, k + 1).Some? {
          assert x.toks + [Op(s[k])] + Lex(s, k + 1).value == x.toks + ([Op(s[k])] + Lex(s, k + 1).value);
        }
      } else {
        LexReadsName(s, k, x);
      }
    }
  }

  lemma {:induction false} LexReadsName(s: string, k: nat, x: Lexer)
    requires k < |s| && x.cur == "" && (forall j | k <= j < |s| :: s[j] != '}')
    requires s[k] != ' ' && !IsOperator(s[k])
    ensures ReadPostfix(s[k..], x).cur == "" ==>
              Lex(s, k).Some? && ReadPostfix(s[k..], x).toks == x.toks + Lex(s, k).value
    decreases |s| - k, 0
  {
    hide IsOperator;
    var e := NameEnd(s, k);
    var y := x.(cur := s[k..e]);
    assert ReadPostfix(s[k..], x) == ReadPostfix(s[e..], y) by {
      assert s[k..][0] == s[k] && s[k..][1..] == s[k + 1..];
      ReadName(s, k + 1, e, x.(cur := [s[k]]));
      assert [s[k]] + s[k + 1..e] == s[k..e];
      assert "" + [s[k]] == [s[k]];
    }
    if e < |s| {
      assert s[e..][0] == ' ' && s[e..][1..] == s[e + 1..];
      var z := Lexer(y.Flush(), "");
      LexReads(s, e + 1, z);
      assert Lex(s, e) == Lex(s, e + 1);
      if Lex(s, e).Some? {
        assert z.toks + Lex(s, e).value == x.toks + ([Atom(s[k..e])] + Lex(s, e).value);
      }
    } else {
      assert s[e..] == "";
    }
  }

  lemma {:induction false} ReadName(s: string, k: nat, e: nat, x: Lexer)
    requires k <= e <= |s| && x.cur != "" && forall j | k <= j < e :: s[j] != ' '
    ensures ReadPostfix(s[k..], x) == ReadPostfix(s[e..], x.(cur := x.cur + s[k..e]))
    decreases e - k
  {
    if k == e {
      assert x.cur + s[k..e] == x.cur;
    } else {
      assert s[k..][0] == s[k] && s[k..][1..] == s[k + 1..];
      ReadName(s, k + 1, e, x.(cur := x.cur + [s[k]]));
      assert x.cur + [s[k]] + s[k + 1..e] == x.cur + s[k..e];
    }
  }

  // A line of the form "head = text }" whose text is spaced and spells an infix expression with at least
  // one operator; e is the tree that the precedence table gives it, equal operators from the left.
  ghost predicate InfixLine(line: string, target: string, e: Expr<string>) {
    exists head: string, text: string, rest: string ::
      && RecodeAll(line) == head + "= " + text + "}" + rest
      && Plain(head) && Name(head) == target && (target == "" || target[0] != 'B')
      && Spaced(text) && Plain(text) && Spells(text, e)
  }

  ghost predicate Spells(text: string, e: Expr<string>) {
    exists args: seq<Operand<string>>, ops: seq<char> ::
      && Valid(args, ops) && ops != []
      && InfixToks(text) == Toks(args, ops)
      && e == Tree(Precedence, args, ops) && OpsIn(e, IsBinary)
  }

  // Shunting such a text gives the postfix form of its tree.
  lemma SpelledShunts(text: string, e: Expr<string>)
    requires Spells(text, e)
    ensures text != "" && e.Bin? && ToPostfix(InfixToks(text)) == Some(Postfix(e))
  {
    var args: seq<Operand<string>>, ops: seq<char> :|
      && Valid(args, ops) && ops != [] && InfixToks(text) == Toks(args, ops)
      && e == Tree(Precedence, args, ops) && OpsIn(e, IsBinary);
    ShuntCorrect(args, ops);
    TreeShaped(Precedence, args, ops);
    TreeFlattens(Precedence, args, ops);
    NoToks();
  }

  lemma NoToks()
    ensures InfixToks("") == []
    ensures forall e: Expr<string> | e.Bin? :: |Flatten(e)| > 0
  {
  }

  lemma {:induction false} PostfixEndsInOp(e: Expr<string>)
    ensures Postfix(e) != []
    ensures e.Bin? ==> Postfix(e)[|Postfix(e)| - 1] == Op(e.op)
  {
    match e
    case Var(_) =>
    case Paren(b) => PostfixEndsInOp(b);
    case Bin(_, l, r) =>
  }

  lemma SplitLine(line: string, head: string, text: string, rest: string)
    requires RecodeAll(line) == head + "= " + text + "}" + rest && Plain(head) && Plain(text)
    ensures var s := RecodeAll(line); var end := Pos(s, '}', 0);
            && end == |head| + 2 + |text| && PastEquals(s, end) == |head| + 1
            && s[|head| + 1] == ' ' && s[|head| + 2..end] == text && s[..|head| + 1] == head + "="
  {
    var s := RecodeAll(line);
    var n := |head| + 2 + |text|;
    assert s[n] == '}';
    assert forall j | 0 <= j < n :: s[j] != '}' by {
      forall j | 0 <= j < n ensures s[j] != '}' {
        if j < |head| { assert s[j] == head[j]; }
        else if j >= |head| + 2 { assert s[j] == text[j - |head| - 2]; }
      }
    }
    assert s[|head|] == '=';
    assert forall j | |head| < j < n :: s[j] != '=' by {
      forall j | |head| < j < n ensures s[j] != '=' {
        if j >= |head| + 2 { assert s[j] == text[j - |head| - 2]; }
      }
    }
  }

  // From source text to postfix tokens: converting an infix line and parsing the result gives the
  // target and the postfix form of the tree of its expression, whatever is on the shared stack.
  lemma InfixLineParses(stk: seq<string>, line: string, target: string, e: Expr<string>)
    requires InfixLine(line, target, e)
    ensures ConvertLine(stk, line).Some? && ConvertLine(stk, line).value.stk == stk + ["#"]
    ensures Parse(ConvertLine(stk, line).value.out) == Some((target, Postfix(e)))
  {
    var head: string, text: string, rest: string :|
      && RecodeAll(line) == head + "= " + text + "}" + rest
      && Plain(head) && Name(head) == target && (target == "" || target[0] != 'B')
      && Spaced(text) && Plain(text) && Spells(text, e);
    SpelledShunts(text, e);
    SplitLine(line, head, text, rest);
    ConvertText(stk, text);
    ConvertedIsFree(stk, text);
    var out := ConvertExpr(stk, text).value.out;
    assert ConvertLine(stk, line).value.out == head + "=" + out;
    EndsComplete(out, e);
    JoinFree(line, head, text, rest, out);
    ParseJoined(head, out, Postfix(e));
  }

  // Text that reads as an expression with an operator ends in that operator, not inside a name.
  lemma EndsComplete(out: string, e: Expr<string>)
    requires Read(out).Flush() == Postfix(e) && e.Bin?
    ensures Read(out) == Lexer(Postfix(e), "")
  {
    PostfixEndsInOp(e);
    if Read(out).cur != "" { FlushEndsInName(Read(out)); }
  }

  lemma FlushEndsInName(x: Lexer)
    requires x.cur != ""
    ensures x.Flush() != [] && x.Flush()[|x.Flush()| - 1].Atom?
  {
  }

  lemma ParseJoined(head: string, out: string, ts: seq<Tok<string>>)
    requires Plain(head) && Plain(out) && AllFree(head + "=" + out) && Read(out) == Lexer(ts, "") && ts != []
    requires Name(head) == "" || Name(head)[0] != 'B'
    ensures Parse(head + "=" + out) == Some((Name(head), ts))
  {
    var p := head + "=" + out;
    assert out != "";
    assert Pos(p, '=', 0) == |head| by {
      assert p[|head|] == '=';
      assert forall j | 0 <= j < |head| :: p[j] == head[j];
    }
    assert p[..|head|] == head;
    RecodeAllProps(p);
    LexSuffix(p, |head| + 1, out, ts);
  }

  lemma LexSuffix(p: string, k: nat, out: string, ts: seq<Tok<string>>)
    requires k <= |p| && p[k..] == out && Plain(out) && Read(out) == Lexer(ts, "")
    ensures Lex(p, k) == Some(ts)
  {
    assert forall j | k <= j < |p| :: p[j] == out[j - k];
    LexReads(p, k, Lexer([], ""));
    assert [] + Lex(p, k).value == Lex(p, k).value;
  }

  lemma JoinFree(line: string, head: string, text: string, rest: string, out: string)
    requires RecodeAll(line) == head + "= " + text + "}" + rest
    requires AllFree(out) && Plain(out)
    ensures AllFree(head + "=" + out)
  {
    RecodeAllProps(line);
    var s, p := RecodeAll(line), head + "=" + out;
    forall i, k | 0 <= i < 8
      ensures SymbolAt(p, k, i) ==> SymbolAt(s, k, i) || SymbolAt(out, k - |head| - 1, i)
    {
      if 0 <= k < |head| {
        assert p[k] == s[k] && p[k + 1] == s[k + 1];
      } else if |head| < k < |p| - 1 {
        assert p[k] == out[k - |head| - 1] && p[k + 1] == out[k - |head|];
      }
    }
    forall i | 0 <= i < 8
      ensures Free(p, i)
    {
      assert Free(s, i) && Free(out, i);
    }
  }
}
