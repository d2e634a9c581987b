// convert: the shunting-yard pass as it runs on characters, with one stack of strings that is shared
// by all statements of a compilation.
module Convert {
  import opened Infix
  import opened Shunt

  // The shared stack (top last) and the postfix text written so far.
  datatype Scan = Scan(stk: seq<string>, out: string)

  function Top(stk: seq<string>): char {
    if stk == [] || stk[|stk| - 1] == "" then '\0' else stk[|stk| - 1][0]
  }

  function Drop(stk: seq<string>): seq<string>
    requires stk != []
  {
    stk[..|stk| - 1]
  }

  // The three unwinding loops.  None stands for running off the bottom of the stack.
  function PopToParen(v: Scan): Option<Scan>
    decreases |v.stk|
  {
    if v.stk == [] then None
    else if Top(v.stk) == '(' then Some(v.(stk := Drop(v.stk)))
    else PopToParen(Scan(Drop(v.stk), v.out + " " + v.stk[|v.stk| - 1] + " "))
  }

  function PopTighter(p: int, v: Scan): Option<Scan>
    decreases |v.stk|
  {
    if v.stk == [] then None
    else if Precedence(Top(v.stk)) < p then Some(v)
    else PopTighter(p, Scan(Drop(v.stk), v.out + v.stk[|v.stk| - 1]))
  }

  function PopToMarker(v: Scan): Option<Scan>
    decreases |v.stk|
  {
    if v.stk == [] then None
    else if Top(v.stk) == '#' then Some(v)
    else PopToMarker(Scan(Drop(v.stk), v.out + " " + v.stk[|v.stk| - 1]))
  }

  function ScanChar(c: char, v: Scan): Option<Scan> {
    if !IsOperator(c) then Some(v.(out := v.out + [c]))
    else if c == '(' then Some(v.(stk := v.stk + [[c]]))
    else if c == ')' then PopToParen(v)
    else
      match PopTighter(Precedence(c), v)
      case None => None
      case Some(w) => Some(w.(stk := w.stk + [[c]]))
  }

  function ScanChars(s: string, v: Scan): Option<Scan> {
    if s == "" then Some(v)
    else
      match ScanChar(s[0], v)
      case None => None
      case Some(w) => ScanChars(s[1..], w)
  }

  // One conversion: push a marker, scan, unwind to the marker.
  function ConvertExpr(stk: seq<string>, s: string): Option<Scan> {
    match ScanChars(s, Scan(stk + ["#"], ""))
    case None => None
    case Some(v) => PopToMarker(v)
  }

  // ---- reading text back as tokens ----

  // Tokens completed so far and the name being read.
  datatype Lexer = Lexer(toks: seq<Tok<string>>, cur: string) {
    ghost function Flush(): seq<Tok<string>> {
      if cur == "" then toks else toks + [Atom(cur)]
    }
  }

  // Postfix text: a name runs to the next blank; an operator character is a token of its own.
  ghost function FeedPostfix(c: char, x: Lexer): Lexer {
    if c == ' ' then Lexer(x.Flush(), "")
    else if x.cur != "" || !IsOperator(c) then x.(cur := x.cur + [c])
    else x.(toks := x.toks + [Op(c)])
  }

  ghost function ReadPostfix(s: string, x: Lexer): Lexer {
    if s == "" then x else ReadPostfix(s[1..], FeedPostfix(s[0], x))
  }

  // Infix text: brackets and operators end a name as well.
  ghost function FeedInfix(c: char, x: Lexer): Lexer {
    if c == ' ' then Lexer(x.Flush(), "")
    else if c == '(' then Lexer(x.Flush() + [LP], "")
    else if c == ')' then Lexer(x.Flush() + [RP], "")
    else if IsOperator(c) then Lexer(x.Flush() + [Op(c)], "")
    else x.(cur := x.cur + [c])
  }

  ghost function ReadInfix(s: string, x: Lexer): Lexer {
    if s == "" then x else ReadInfix(s[1..], FeedInfix(s[0], x))
  }

  ghost function InfixToks(s: string): seq<Tok<string>> {
    ReadInfix(s, Lexer([], "")).Flush()
  }

  // Operators stand between blanks; brackets may touch the operand they enclose.
  ghost predicate Spaced(s: string) {
    forall k {:trigger s[k]} | 0 <= k < |s| ::
      && (IsBinary(s[k]) ==> 0 < k && s[k - 1] == ' ' && k + 1 < |s| && s[k + 1] == ' ')
      && (s[k] == ')' ==> k + 1 == |s| || s[k + 1] in {' ', ')'})
      && (s[k] == '(' ==> k == 0 || s[k - 1] in {' ', '('})
      && s[k] !in {'{', '}'}
  }

  lemma {:induction false} ReadPostfixAppend(a: string, b: string, x: Lexer)
    ensures ReadPostfix(a + b, x) == ReadPostfix(b, ReadPostfix(a, x))
    decreases |a|
  {
    if a == "" {
      assert a + b == b;
    } else {
      assert (a + b)[1..] == a[1..] + b;
      ReadPostfixAppend(a[1..], b, FeedPostfix(a[0], x));
    }
  }

  lemma {:induction false} ReadInfixAppend(a: string, b: string, x: Lexer)
    ensures ReadInfix(a + b, x) == ReadInfix(b, ReadInfix(a, x))
    decreases |a|
  {
    if a == "" {
      assert a + b == b;
    } else {
      assert (a + b)[1..] == a[1..] + b;
      ReadInfixAppend(a[1..], b, FeedInfix(a[0], x));
    }
  }

  lemma {:induction false} ScanCharsAppend(a: string, b: string, v: Scan)
    ensures ScanChars(a + b, v) == match ScanChars(a, v) { case None => None case Some(w) => ScanChars(b, w) }
    decreases |a|
  {
    if a == "" {
      assert a + b == b;
    } else {
      assert (a + b)[1..] == a[1..] + b;
      match ScanChar(a[0], v) {
        case None =>
        case Some(w) => ScanCharsAppend(a[1..], b, w);
      }
    }
  }
}
