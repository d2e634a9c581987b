// The character-level conversion computes the token-level shunting yard, above whatever earlier
// statements have left on the shared stack.
module ConvertCorrect {
  import opened Infix
  import opened Shunt
  import opened Convert

  ghost function Entries(ops: seq<char>): (r: seq<string>)
    ensures |r| == |ops|
  {
    seq(|ops|, i requires 0 <= i < |ops| => [ops[i]])
  }

  ghost function Read(out: string): Lexer {
    ReadPostfix(out, Lexer([], ""))
  }

  ghost predicate AllOperators(ops: seq<char>) {
    forall c | c in ops :: IsBinary(c) || c == '('
  }

  // The stack holds `base`, the marker and the yard's operators; the text reads as the yard's output.
  ghost predicate Rep(base: seq<string>, y: Yard, v: Scan) {
    && v.stk == base + ["#"] + Entries(y.ops)
    && AllOperators(y.ops)
    && Read(v.out).Flush() == y.out
  }

  lemma TopOfRep(base: seq<string>, y: Yard, v: Scan)
    requires Rep(base, y, v)
    ensures v.stk != []
    ensures y.ops == [] ==> Top(v.stk) == '#' && v.stk == base + ["#"]
    ensures y.ops != [] ==>
      var c := y.ops[|y.ops| - 1];
      && IsOperator(c) && Top(v.stk) == c && v.stk[|v.stk| - 1] == [c] && AllOperators(y.ops[..|y.ops| - 1])
      && Drop(v.stk) == base + ["#"] + Entries(y.ops[..|y.ops| - 1])
    ensures Precedence(Top(v.stk)) == TopPrec(y.ops)
  {
    if y.ops != [] {
      var last := |y.ops| - 1;
      assert Entries(y.ops) == Entries(y.ops[..last]) + [[y.ops[last]]];
    }
  }

  lemma ReadBlank(out: string)
    ensures Read(out + " ") == Lexer(Read(out).Flush(), "")
  {
    ReadPostfixAppend(out, " ", Lexer([], ""));
    assert ReadPostfix(" ", Read(out)) == ReadPostfix("", Lexer(Read(out).Flush(), ""));
  }

  lemma ReadSymbol(out: string, c: char)
    requires IsOperator(c) && Read(out).cur == ""
    ensures Read(out + [c]) == Lexer(Read(out).toks + [Op(c)], "")
  {
    ReadPostfixAppend(out, [c], Lexer([], ""));
    assert c != ' ';
    assert ReadPostfix([c], Read(out)) == ReadPostfix("", FeedPostfix(c, Read(out)));
  }

  lemma {:induction false} PopToParenRep(base: seq<string>, y: Yard, v: Scan)
    requires Rep(base, y, v) && UnwindToParen(y).Some?
    ensures PopToParen(v).Some? && Rep(base, UnwindToParen(y).value, PopToParen(v).value)
    decreases |y.ops|
  {
    TopOfRep(base, y, v);
    var last := |y.ops| - 1;
    var c := y.ops[last];
    if c != '(' {
      var y1 := Yard(y.ops[..last], y.out + [Op(c)]);
      var v1 := Scan(Drop(v.stk), v.out + " " + [c] + " ");
      ReadBlank(v.out);
      ReadSymbol(v.out + " ", c);
      ReadBlank(v.out + " " + [c]);
      PopToParenRep(base, y1, v1);
    }
  }

  lemma {:induction false} PopTighterRep(base: seq<string>, p: int, y: Yard, v: Scan)
    requires Rep(base, y, v) && Read(v.out).cur == "" && 1 < p
    ensures PopTighter(p, v).Some? && Rep(base, Unwind(p, y), PopTighter(p, v).value)
    ensures Read(PopTighter(p, v).value.out).cur == ""
    decreases |y.ops|
  {
    TopOfRep(base, y, v);
    if y.ops != [] && p <= TopPrec(y.ops) {
      var last := |y.ops| - 1;
      ReadSymbol(v.out, y.ops[last]);
      PopTighterRep(base, p, Yard(y.ops[..last], y.out + [Op(y.ops[last])]), Scan(Drop(v.stk), v.out + [y.ops[last]]));
    }
  }

  lemma {:induction false} PopToMarkerRep(base: seq<string>, y: Yard, v: Scan)
    requires Rep(base, y, v)
    ensures PopToMarker(v).Some? && Rep(base, UnwindAll(y), PopToMarker(v).value)
    ensures y.ops != [] ==> Read(PopToMarker(v).value.out).cur == ""
    ensures y.ops == [] ==> PopToMarker(v).value.out == v.out
    decreases |y.ops|
  {
    TopOfRep(base, y, v);
    if y.ops != [] {
      var last := |y.ops| - 1;
      ReadBlank(v.out);
      ReadSymbol(v.out + " ", y.ops[last]);
      PopToMarkerRep(base, Yard(y.ops[..last], y.out + [Op(y.ops[last])]), Scan(Drop(v.stk), v.out + " " + [y.ops[last]]));
    }
  }

  ghost function Pending(cur: string): seq<Tok<string>> {
    if cur == "" then [] else [Atom(cur)]
  }

  // What is known after the characters of s before position k.
  ghost predicate At(base: seq<string>, s: string, k: nat, x: Lexer, y: Yard, v: Scan)
    requires k <= |s|
  {
    && Steps(x.toks, Yard([], [])) == Some(y)
    && Rep(base, y.(out := y.out + Pending(x.cur)), v)
    && (k == 0 || s[k - 1] in {' ', '('} || IsBinary(s[k - 1]) ==> Read(v.out).cur == "" && x.cur == "")
    && (k > 0 && !IsOperator(s[k - 1]) && s[k - 1] != ' ' ==> Read(v.out).cur == x.cur != "")
    && (k > 0 && s[k - 1] == ')' ==> x.cur == "")
  }

  lemma StepsPending(toks: seq<Tok<string>>, cur: string, y: Yard)
    requires Steps(toks, Yard([], [])) == Some(y)
    ensures Steps(Lexer(toks, cur).Flush(), Yard([], [])) == Some(y.(out := y.out + Pending(cur)))
  {
    if cur == "" {
      assert y.out + [] == y.out;
    } else {
      StepsAppend(toks, [Atom(cur)], Yard([], []));
      StepsSingle(Atom(cur), y);
    }
  }

  lemma StepsMore(toks: seq<Tok<string>>, t: Tok<string>, y: Yard)
    requires Steps(toks, Yard([], [])) == Some(y)
    ensures Steps(toks + [t], Yard([], [])) == Step(t, y)
  {
    StepsAppend(toks, [t], Yard([], []));
    StepsSingle(t, y);
  }

  // One character keeps the two passes in step.
  lemma ScanStep(base: seq<string>, s: string, k: nat, x: Lexer, y: Yard, v: Scan) returns (y': Yard, v': Scan)
    requires Spaced(s) && k < |s| && At(base, s, k, x, y, v)
    requires Steps(FeedInfix(s[k], x).toks, Yard([], [])).Some?
    ensures ScanChar(s[k], v) == Some(v') && At(base, s, k + 1, FeedInfix(s[k], x), y', v')
  {
    var c := s[k];
    if c == ' ' {
      y', v' := ScanBlank(base, s, k, x, y, v);
    } else if c == '(' || c == ')' {
      y', v' := ScanBracket(base, s, k, x, y, v);
    } else if IsOperator(c) {
      y', v' := ScanOperator(base, s, k, x, y, v);
    } else {
      y', v' := ScanName(base, s, k, x, y, v);
    }
  }

  lemma ScanBlank(base: seq<string>, s: string, k: nat, x: Lexer, y: Yard, v: Scan) returns (y': Yard, v': Scan)
    requires k < |s| && At(base, s, k, x, y, v) && s[k] == ' '
    ensures ScanChar(s[k], v) == Some(v') && At(base, s, k + 1, FeedInfix(s[k], x), y', v')
  {
    StepsPending(x.toks, x.cur, y);
    y', v' := y.(out := y.out + Pending(x.cur)), Scan(v.stk, v.out + " ");
    ReadBlank(v.out);
    assert y'.out + [] == y'.out;
  }

  lemma ScanBracket(base: seq<string>, s: string, k: nat, x: Lexer, y: Yard, v: Scan) returns (y': Yard, v': Scan)
    requires Spaced(s) && k < |s| && At(base, s, k, x, y, v) && s[k] in {'(', ')'}
    requires Steps(FeedInfix(s[k], x).toks, Yard([], [])).Some?
    ensures ScanChar(s[k], v) == Some(v') && At(base, s, k + 1, FeedInfix(s[k], x), y', v')
  {
    var z := y.(out := y.out + Pending(x.cur));
    StepsPending(x.toks, x.cur, y);
    if s[k] == '(' {
      y', v' := z.(ops := z.ops + ['(']), Scan(v.stk + ["("], v.out);
      StepsMore(x.Flush(), LP, z);
      assert k == 0 || s[k - 1] in {' ', '('};
      assert Entries(y'.ops) == Entries(z.ops) + ["("];
    } else {
      StepsMore(x.Flush(), RP, z);
      PopToParenRep(base, z, v);
      y', v' := UnwindToParen(z).value, PopToParen(v).value;
    }
    assert y'.out + [] == y'.out;
  }

  lemma ScanName(base: seq<string>, s: string, k: nat, x: Lexer, y: Yard, v: Scan) returns (y': Yard, v': Scan)
    requires Spaced(s) && k < |s| && At(base, s, k, x, y, v) && s[k] != ' ' && !IsOperator(s[k])
    ensures ScanChar(s[k], v) == Some(v') && At(base, s, k + 1, FeedInfix(s[k], x), y', v')
  {
    y', v' := y, Scan(v.stk, v.out + [s[k]]);
    assert k == 0 || s[k - 1] != ')';
    assert Read(v.out).cur == x.cur;
    LastDropped(Read(v.out).toks, y.out, x.cur);
    ReadPostfixAppend(v.out, [s[k]], Lexer([], ""));
    assert ReadPostfix([s[k]], Read(v.out)) == ReadPostfix("", FeedPostfix(s[k], Read(v.out)));
  }

  lemma LastDropped(a: seq<Tok<string>>, b: seq<Tok<string>>, cur: string)
    requires Lexer(a, cur).Flush() == b + Pending(cur)
    ensures a == b
  {
    assert cur != "" ==> (a + [Atom(cur)])[..|a|] == a && (b + [Atom(cur)])[..|b|] == b;
    assert b + [] == b;
  }

  lemma ScanOperator(base: seq<string>, s: string, k: nat, x: Lexer, y: Yard, v: Scan) returns (y': Yard, v': Scan)
    requires Spaced(s) && k < |s| && At(base, s, k, x, y, v) && IsBinary(s[k])
    ensures ScanChar(s[k], v) == Some(v') && At(base, s, k + 1, FeedInfix(s[k], x), y', v')
  {
    var c := s[k];
    assert s[k - 1] == ' ';
    assert y.out + [] == y.out;
    assert 1 < Precedence(c);
    PopTighterRep(base, Precedence(c), y, v);
    var z, w := Unwind(Precedence(c), y), PopTighter(Precedence(c), v).value;
    y', v' := z.(ops := z.ops + [c]), w.(stk := w.stk + [[c]]);
    assert Entries(y'.ops) == Entries(z.ops) + [[c]];
    StepsMore(x.toks, Op(c), y);
    assert y'.out + [] == y'.out;
  }

  lemma {:induction false} ReadInfixGrows(s: string, x: Lexer)
    ensures x.toks <= ReadInfix(s, x).toks
    decreases |s|
  {
    if s != "" { ReadInfixGrows(s[1..], FeedInfix(s[0], x)); }
  }

  lemma StepsPrefix(a: seq<Tok<string>>, b: seq<Tok<string>>)
    requires a <= b && Steps(b, Yard([], [])).Some?
    ensures Steps(a, Yard([], [])).Some?
  {
    assert b == a + b[|a|..];
    StepsAppend(a, b[|a|..], Yard([], []));
  }

  lemma {:induction false} ScanFrom(base: seq<string>, s: string, k: nat, x: Lexer, y: Yard, v: Scan)
    returns (x': Lexer, y': Yard, v': Scan)
    requires Spaced(s) && k <= |s| && At(base, s, k, x, y, v)
    requires Steps(ReadInfix(s[k..], x).toks, Yard([], [])).Some?
    ensures x' == ReadInfix(s[k..], x) && ScanChars(s[k..], v) == Some(v') && At(base, s, |s|, x', y', v')
    decreases |s| - k
  {
    hide At;
    hide ScanChar;
    hide FeedInfix;
    hide Spaced;
    if k == |s| {
      x', y', v' := x, y, v;
    } else {
      assert s[k..][0] == s[k] && s[k..][1..] == s[k + 1..];
      var x1 := FeedInfix(s[k], x);
      assert ReadInfix(s[k..], x) == ReadInfix(s[k + 1..], x1);
      ReadInfixGrows(s[k + 1..], x1);
      StepsPrefix(x1.toks, ReadInfix(s[k..], x).toks);
      var y1, v1 := ScanStep(base, s, k, x, y, v);
      assert ScanChars(s[k..], v) == ScanChars(s[k + 1..], v1);
      x', y', v' := ScanFrom(base, s, k + 1, x1, y1, v1);
    }
  }

  // convert on any spaced text with matching brackets: the text it writes reads back as the postfix
  // form of the tokens of the source, and the shared stack keeps everything that was on it and
  // gains exactly the marker.
  lemma ConvertText(stk: seq<string>, s: string)
    requires Spaced(s) && ToPostfix(InfixToks(s)).Some?
    ensures ConvertExpr(stk, s).Some?
    ensures ConvertExpr(stk, s).value.stk == stk + ["#"]
    ensures Read(ConvertExpr(stk, s).value.out).Flush() == ToPostfix(InfixToks(s)).value
  {
    var x, y, v := Lexer([], ""), Yard([], []), Scan(stk + ["#"], "");
    assert stk + ["#"] + Entries([]) == stk + ["#"];
    assert s[0..] == s;
    var end := ReadInfix(s, x);
    StepsPrefix(end.toks, end.Flush());
    var x1, y1, v1 := ScanFrom(stk, s, 0, x, y, v);
    StepsPending(x1.toks, x1.cur, y1);
    var z := y1.(out := y1.out + Pending(x1.cur));
    PopToMarkerRep(stk, z, v1);
    assert stk + ["#"] + Entries([]) == stk + ["#"];
  }
}
