// The linter's global variable table and the procedures that search, evaluate and update it.
module Linter {
  import opened Infix
  import opened Brackets
  import opened Int64
  import opened Intervals
  import opened RangeEval
  import opened RangeSound
  import opened LinterFlow

  // find_close_paren on the tokens start..end.
  method FindCloseParen(ts: seq<Tok<Item>>, open: nat) returns (r: int)
    requires open <= |ts|
    ensures r == Close(ts, open)
  {
    var depth := 0;
    for i := open to |ts|
      invariant CloseFrom(ts, i, depth) == Close(ts, open)
    {
      if ts[i] == LP {
        depth := depth + 1;
      } else if ts[i] == RP {
        depth := depth - 1;
        if depth == 0 { return i; }
      }
    }
    return -1;
  }

  method FindOpenParen(ts: seq<Tok<Item>>, close: nat) returns (r: int)
    requires close < |ts|
    ensures r == Open(ts, close)
  {
    var depth := 0;
    for i := close + 1 downto 0
      invariant OpenFrom(ts, i, depth) == Open(ts, close)
    {
      if ts[i] == RP {
        depth := depth + 1;
      } else if ts[i] == LP {
        depth := depth - 1;
        if depth == 0 { return i; }
      }
    }
    return -1;
  }

  // The scan of range_eval for its operator.
  method FindRoot(ts: seq<Tok<Item>>) returns (ok: bool, pos: int)
    ensures ok <==> Scan(ts, 0, 1000, -1).Some?
    ensures ok ==> pos == Scan(ts, 0, 1000, -1).value
  {
    var i, best := 0, 1000;
    pos := -1;
    while i < |ts|
      invariant 0 <= i <= |ts| && Scan(ts, i, best, pos) == Scan(ts, 0, 1000, -1)
    {
      if ts[i] == LP {
        var close := FindCloseParen(ts, i);
        if close < 0 { return false, -1; }
        i := close;
      } else {
        var prec := TokPrec(ts[i]);
        if prec > 0 && prec <= best {
          best := prec;
          pos := i;
        }
      }
      i := i + 1;
    }
    return true, pos;
  }

  // The scan of eval_expr.
  method CountOps(ts: seq<Tok<Item>>) returns (ok: bool, count: nat, first: int, last: int)
    ensures ok <==> ScanOps(ts, 0, Ops(0, -1, -1)).Some?
    ensures ok ==> Ops(count, first, last) == ScanOps(ts, 0, Ops(0, -1, -1)).value
  {
    var i := 0;
    count, first, last := 0, -1, -1;
    while i < |ts|
      invariant 0 <= i <= |ts| && ScanOps(ts, i, Ops(count, first, last)) == ScanOps(ts, 0, Ops(0, -1, -1))
    {
      if ts[i] == LP {
        var close := FindCloseParen(ts, i);
        if close < 0 { return false, 0, -1, -1; }
        i := close;
      } else if ts[i].Op? {
        if count == 0 { first := i; }
        last := i;
        count := count + 1;
      }
      i := i + 1;
    }
    return true, count, first, last;
  }

  lemma AllowsUpdated(facts: seq<Fact>, k: nat, f: Fact, s: Store)
    requires k < |facts| && StateAllows(facts, s) && Allows(f, s.vals[k], s.written[k])
    ensures StateAllows(facts[k := f], s)
  {
  }

  class Linter {
    var names: seq<string>
    var consts: seq<bool>
    const vars: array<Fact>

    ghost predicate Valid()
      reads this, vars
    {
      |names| == |consts| == vars.Length && forall k | 0 <= k < vars.Length :: SaneFact(vars[k])
    }

    ghost function State(): (sc: Scope)
      requires Valid()
      reads this, vars
      ensures Sane(sc)
    {
      Scope(names, vars[..])
    }

    constructor (names: seq<string>, consts: seq<bool>)
      requires |names| == |consts|
      ensures Valid() && this.names == names && this.consts == consts && fresh(vars)
    {
      this.names := names;
      this.consts := consts;
      vars := new Fact[|names|](_ => Fact(false, false, 0, 0, false, 0, true));
    }

    method FindVarIndex(name: string) returns (r: int)
      ensures r == IndexOf(names, name, 0)
    {
      for i := 0 to |names|
        invariant IndexOf(names, name, i) == IndexOf(names, name, 0)
      {
        if names[i] == name { return i; }
      }
      return -1;
    }

    method RangeOf(name: string) returns (r: Range)
      requires Valid()
      ensures r == RangeOfVar(State(), name)
    {
      var i := FindVarIndex(name);
      if i < 0 { return Unknown; }
      return FactRange(vars[i]);
    }

    // range_eval on the span ts.
    method RangeEval(ts: seq<Tok<Item>>) returns (x: Ranged)
      requires Valid()
      ensures x == Eval(ts, State())
      decreases |ts|
    {
      hide RangeApply;
      hide Scan;
      hide CloseFrom;
      x := Ranged(Unknown, false);
      if ts == [] { return; }
      if ts[0] == LP {
        var close := FindCloseParen(ts, 0);
        if close == |ts| - 1 {
          if |ts| > 1 { x := RangeEval(ts[1..|ts| - 1]); }
          return;
        }
      }
      if |ts| == 1 {
        match ts[0] {
          case Atom(Num(v, _)) => x := if InS8(v) then Ranged(Exact(v), false) else Ranged(Unknown, true);
          case Atom(Id(name)) =>
            var r := RangeOf(name);
            x := Ranged(r, false);
          case _ =>
        }
        return;
      }
      var ok, pos := FindRoot(ts);
      if !ok || !(0 < pos < |ts| - 1) { return; }
      var a := RangeEval(ts[..pos]);
      if a.r.Unknown? { return; }
      var b := RangeEval(ts[pos + 1..]);
      if b.r.Unknown? { return; }
      var y := RangeApply(OpOf(ts[pos]), a.r, b.r);
      x := Ranged(y.r, a.overflow || b.overflow || y.overflow);
    }

    // eval_expr on the span ts.
    method EvalConst(ts: seq<Tok<Item>>) returns (c: Const)
      requires Valid()
      ensures c == EvalExpr(ts, State())
      decreases |ts|
    {
      hide ScanOps;
      hide CloseFrom;
      hide OpenFrom;
      hide EvalApply;
      hide Combine;
      hide OpOf;
      hide Sane;
      hide Checked;
      hide InS8;
      hide IndexOf;
      hide Open;
      hide Close;
      c := NoConst(false);
      if ts == [] { return; }
      if |ts| == 1 {
        match ts[0] {
          case Atom(Num(v, _)) => c := Checked(v);
          case Atom(Id(name)) =>
            var i := FindVarIndex(name);
            if i >= 0 && vars[i].valueKnown { c := Const(vars[i].value); }
          case _ =>
        }
        return;
      }
      if ts[0] == LP {
        var close := FindCloseParen(ts, 0);
        if close == |ts| - 1 {
          c := EvalConst(ts[1..|ts| - 1]);
          return;
        }
      }
      var ok, count, first, last := CountOps(ts);
      if !ok { return; }
      if count >= 1 && last == |ts| - 1 {
        var m := |ts| - 2;
        if ts[m] == RP { m := FindOpenParen(ts, m); }
        if m <= 0 { return; }
        var a := EvalConst(ts[..m]);
        var b := EvalConst(ts[m..|ts| - 1]);
        c := Combine(OpOf(ts[|ts| - 1]), a, b);
      } else if count == 1 && 0 < first < |ts| - 1 {
        var a := EvalConst(ts[..first]);
        var b := EvalConst(ts[first + 1..]);
        c := Combine(OpOf(ts[first]), a, b);
      }
    }

    // range_refine_compare: narrow a variable on the branch where `name op other` has this truth, for an
    // `other` between olo and ohi.  Every state of the variables described before, whose comparison has
    // that truth, is described after, and then the branch is not called impossible (2).
    method RefineCompare(name: string, op: char, olo: int, ohi: int, truth: bool, widen: bool) returns (code: int)
      requires Valid() && MIN <= olo <= ohi <= MAX && IsCompare(op)
      modifies vars
      ensures Valid()
      ensures var k := IndexOf(names, name, 0);
              && (k == -1 ==> code == 0 && vars[..] == old(vars[..]))
              && (k != -1 ==>
                    && (forall i | 0 <= i < vars.Length && i != k :: vars[i] == old(vars[i]))
                    && (code == 2 ==> vars[k] == old(vars[k]))
                    && Refined(code, vars[k]) == Refine(old(vars[k]), consts[k], op, olo, ohi, truth, widen)
                    && (forall s, c | StateAllows(old(vars[..]), s) && olo <= c <= ohi && (Compare(op, s.vals[k], c) != 0) == truth ::
                          code != 2 && StateAllows(vars[..], s)))
    {
      var k := FindVarIndex(name);
      if k < 0 { return 0; }
      var f := vars[k];
      ghost var was := vars[..];
      RefineSane(f, consts[k], op, olo, ohi, truth, widen);
      forall s, c | StateAllows(was, s) && olo <= c <= ohi && (Compare(op, s.vals[k], c) != 0) == truth
        ensures var r := Refine(f, consts[k], op, olo, ohi, truth, widen);
                r.code != 2 && StateAllows(was[k := r.f], s)
      {
        RefineSound(f, consts[k], op, olo, ohi, truth, widen, s.vals[k], s.written[k], c);
        AllowsUpdated(was, k, Refine(f, consts[k], op, olo, ohi, truth, widen).f, s);
      }
      code := Narrowing(k, op, olo, ohi, truth, widen);
      assert vars[..] == was[k := vars[k]];
    }

    // The branches for one variable of the table.
    method Narrowing(k: nat, op: char, olo: int, ohi: int, truth: bool, widen: bool) returns (code: int)
      requires k < |consts| == vars.Length && IsCompare(op)
      modifies vars
      ensures forall i | 0 <= i < vars.Length && i != k :: vars[i] == old(vars[i])
      ensures Refined(code, vars[k]) == Refine(old(vars[k]), consts[k], op, olo, ohi, truth, widen)
    {
      hide Narrow;
      hide CutFor;
      var lo, hi := MIN, MAX;
      if vars[k].rangeKnown {
        lo, hi := vars[k].lo, vars[k].hi;
      } else if vars[k].valueKnown {
        lo, hi := vars[k].value, vars[k].value;
      }
      var cut := NewBounds(op, truth, lo, hi, olo, ohi);
      if cut.NoCut? { return 0; }
      if cut.Hole? {
        if cut.c == 0 { vars[k] := vars[k].(mayZero := false); }
        return 0;
      }
      if widen && truth && (op == '<' || op == 'L') {
        hi := cut.hi;
      } else if widen && truth && (op == '>' || op == 'G') {
        lo := cut.lo;
      } else {
        if cut.lo > lo { lo := cut.lo; }
        if cut.hi < hi { hi := cut.hi; }
      }
      code := SetBounds(k, lo, hi);
    }

    method NewBounds(op: char, truth: bool, lo: int, hi: int, olo: int, ohi: int) returns (cut: Cut)
      requires IsCompare(op)
      ensures cut == CutFor(op, truth, lo, hi, olo, ohi)
    {
      if (op == 'E' && !truth) || (op == 'N' && truth) {
        // not equal: leave out a bound that is the only other value
        if olo != ohi { return NoCut; }
        if olo == lo && olo == hi { return Cut(lo, Dec(lo)); }
        if olo == lo { return Cut(Inc(olo), hi); }
        if olo == hi { return Cut(lo, Dec(olo)); }
        return Hole(olo);
      }
      if op == 'E' || op == 'N' { return Cut(olo, ohi); }
      var nlo, nhi := lo, hi;
      if truth {
        if op == '<' { nhi := Dec(ohi); }
        else if op == 'L' { nhi := ohi; }
        else if op == '>' { nlo := Inc(olo); }
        else if op == 'G' { nlo := olo; }
        else { return NoCut; }
      } else {
        if op == '<' { nlo := olo; }
        else if op == 'L' { nlo := Inc(olo); }
        else if op == '>' { nhi := ohi; }
        else if op == 'G' { nhi := Dec(ohi); }
        else { return NoCut; }
      }
      return Cut(nlo, nhi);
    }

    method SetBounds(k: nat, lo: int, hi: int) returns (code: int)
      requires k < |consts| == vars.Length
      modifies vars
      ensures forall i | 0 <= i < vars.Length && i != k :: vars[i] == old(vars[i])
      ensures Refined(code, vars[k]) == Narrow(old(vars[k]), consts[k], lo, hi)
    {
      if lo > hi { return 2; }
      vars[k] := vars[k].(rangeKnown := true, lo := lo, hi := hi, mayZero := lo <= 0 && hi >= 0);
      if !consts[k] {
        if lo == hi {
          vars[k] := vars[k].(valueKnown := true, value := lo);
        } else {
          vars[k] := vars[k].(valueKnown := false);
        }
      }
      return 1;
    }

    method Capture() returns (s: seq<Fact>)
      ensures s == vars[..]
    {
      s := vars[..];
    }

    method Restore(s: seq<Fact>)
      modifies vars
      ensures forall i | 0 <= i < vars.Length :: vars[i] == if i < |s| then s[i] else old(vars[i])
    {
      var i := 0;
      while i < vars.Length && i < |s|
        invariant 0 <= i <= vars.Length && i <= |s|
        invariant forall k | 0 <= k < vars.Length :: vars[k] == if k < i then s[k] else old(vars[k])
      {
        vars[i] := s[i];
        i := i + 1;
      }
    }

    method Merge(a: seq<Fact>, b: seq<Fact>)
      modifies vars
      ensures vars[..] == MergeStates(old(vars[..]), a, b)
    {
      for i := 0 to vars.Length
        invariant forall k | 0 <= k < vars.Length :: vars[k] == if k < i then MergeAt(old(vars[k]), a, b, k) else old(vars[k])
      {
        if i < |a| && i < |b| {
          vars[i] := Merged(vars[i], a[i], b[i]);
        } else if i < |b| {
          vars[i] := TakeOver(vars[i], b[i]);
        } else if i < |a| {
          vars[i] := TakeOver(vars[i], a[i]);
        }
      }
    }
  }
}
