// The two evaluators agree: a constant found by eval_expr lies in the interval found by range_eval,
// on any token list whatever, well formed or not.
module ConstRange {
  import opened Infix
  import opened Brackets
  import opened Int64
  import opened Intervals
  import opened RangeEval
  import opened RangeSound

  // Position k is reached by a scan from i that jumps over bracketed groups.
  ghost predicate Reaches(ts: seq<Tok<Item>>, i: nat, k: nat)
    requires i <= |ts|
    decreases |ts| - i
  {
    if i == k || i == |ts| then i == k
    else if ts[i] == LP then Close(ts, i) != -1 && Reaches(ts, Close(ts, i) + 1, k)
    else Reaches(ts, i + 1, k)
  }

  lemma {:induction false} ReachesUp(ts: seq<Tok<Item>>, i: nat, k: nat)
    requires i <= |ts| && Reaches(ts, i, k)
    ensures i <= k <= |ts|
    decreases |ts| - i
  {
    if i != k && i != |ts| {
      ReachesUp(ts, if ts[i] == LP then Close(ts, i) + 1 else i + 1, k);
    }
  }

  // Of two reached positions the later one is reached from behind the earlier one.
  lemma {:induction false} ReachesOn(ts: seq<Tok<Item>>, i: nat, f: nat, k: nat)
    requires i <= |ts| && Reaches(ts, i, f) && Reaches(ts, i, k) && f < k && f < |ts| && ts[f] != LP
    ensures Reaches(ts, f + 1, k)
    decreases |ts| - i
  {
    ReachesUp(ts, i, f);
    if i != f {
      ReachesOn(ts, if ts[i] == LP then Close(ts, i) + 1 else i + 1, f, k);
    }
  }

  // What the interval scan settles on has been reached.
  lemma {:induction false} ScanReaches(ts: seq<Tok<Item>>, i: nat, best: int, pos: int)
    requires i <= |ts| && Scan(ts, i, best, pos).Some? && Scan(ts, i, best, pos).value != pos
    ensures var k := Scan(ts, i, best, pos).value;
            i <= k < |ts| && Reaches(ts, i, k) && TokPrec(ts[k]) > 0
    decreases |ts| - i
  {
    if i < |ts| {
      if ts[i] == LP {
        ScanReaches(ts, Close(ts, i) + 1, best, pos);
      } else {
        var p := TokPrec(ts[i]);
        var b, q := if 0 < p <= best then p else best, if 0 < p <= best then i else pos;
        if Scan(ts, i + 1, b, q).value != q { ScanReaches(ts, i + 1, b, q); }
      }
    }
  }

  // The operator count counts the reached operators.
  lemma {:induction false} OpsCounted(ts: seq<Tok<Item>>, i: nat, x: Ops, k: nat)
    requires i <= |ts| && ScanOps(ts, i, x).Some? && k < |ts| && Reaches(ts, i, k) && ts[k].Op?
    ensures var y := ScanOps(ts, i, x).value;
            y.count > x.count && (x.count == 0 && y.count == 1 ==> y.first == k)
    decreases |ts| - i
  {
    ReachesUp(ts, i, k);
    if i == k {
      OpsGrow(ts, i + 1, Ops(x.count + 1, if x.count == 0 then i else x.first, i));
    } else if ts[i] == LP {
      OpsCounted(ts, Close(ts, i) + 1, x, k);
    } else if ts[i].Op? {
      OpsCounted(ts, i + 1, Ops(x.count + 1, if x.count == 0 then i else x.first, i), k);
    } else {
      OpsCounted(ts, i + 1, x, k);
    }
  }

  lemma {:induction false} OpsGrow(ts: seq<Tok<Item>>, i: nat, x: Ops)
    requires i <= |ts| && ScanOps(ts, i, x).Some?
    ensures var y := ScanOps(ts, i, x).value;
            && y.count >= x.count
            && (y.count == x.count ==> y == x)
            && (x.count > 0 ==> y.first == x.first)
            && (y.count > x.count ==> i <= y.last < |ts| && ts[y.last].Op?)
            && (x.count == 0 < y.count ==> i <= y.first < |ts| && ts[y.first].Op? && Reaches(ts, i, y.first))
    decreases |ts| - i
  {
    if i < |ts| {
      if ts[i] == LP {
        OpsGrow(ts, Close(ts, i) + 1, x);
      } else if ts[i].Op? {
        OpsGrow(ts, i + 1, Ops(x.count + 1, if x.count == 0 then i else x.first, i));
      } else {
        OpsGrow(ts, i + 1, x);
      }
    }
  }

  // ---- scans of a part of the list ----

  lemma {:induction false} CloseFront(ts: seq<Tok<Item>>, f: nat, k: nat, depth: int)
    requires k <= f <= |ts|
    ensures var c := CloseFrom(ts, k, depth);
            CloseFrom(ts[..f], k, depth) == if c < f then c else -1
    decreases f - k
  {
    if k < f {
      assert ts[..f][k] == ts[k];
      CloseFront(ts, f, k + 1, if ts[k] == LP then depth + 1 else if ts[k] == RP then depth - 1 else depth);
    } else {
      CloseLater(ts, k, depth);
    }
  }

  lemma CloseLater(ts: seq<Tok<Item>>, k: nat, depth: int)
    requires k <= |ts|
    ensures CloseFrom(ts, k, depth) == -1 || k <= CloseFrom(ts, k, depth)
    decreases |ts| - k
  {
    if k < |ts| {
      CloseLater(ts, k + 1, if ts[k] == LP then depth + 1 else if ts[k] == RP then depth - 1 else depth);
    }
  }

  lemma {:induction false} CloseBack(ts: seq<Tok<Item>>, m: nat, k: nat, depth: int)
    requires m <= k <= |ts|
    ensures var c := CloseFrom(ts, k, depth);
            CloseFrom(ts[m..], k - m, depth) == if c == -1 then -1 else c - m
    decreases |ts| - k
  {
    if k < |ts| {
      assert ts[m..][k - m] == ts[k];
      CloseBack(ts, m, k + 1, if ts[k] == LP then depth + 1 else if ts[k] == RP then depth - 1 else depth);
    }
  }

  lemma {:induction false} ReachesFront(ts: seq<Tok<Item>>, f: nat, i: nat, k: nat)
    requires i <= f <= |ts| && k <= f && Reaches(ts[..f], i, k)
    ensures Reaches(ts, i, k)
    decreases f - i
  {
    if i != k && i != f {
      assert ts[..f][i] == ts[i];
      CloseFront(ts, f, i, 0);
      ReachesFront(ts, f, if ts[i] == LP then Close(ts, i) + 1 else i + 1, k);
    }
  }

  lemma {:induction false} ReachesBack(ts: seq<Tok<Item>>, m: nat, i: nat, k: nat)
    requires i <= |ts| - m && m <= |ts| && Reaches(ts[m..], i, k)
    ensures Reaches(ts, m + i, m + k)
    decreases |ts| - i
  {
    if i != k && i != |ts| - m {
      assert ts[m..][i] == ts[m + i];
      CloseBack(ts, m, m + i, 0);
      ReachesBack(ts, m, if ts[m + i] == LP then Close(ts, m + i) + 1 - m else i + 1, k);
    }
  }

  lemma {:induction false} FrontReaches(ts: seq<Tok<Item>>, f: nat, i: nat, k: nat)
    requires i <= k < f <= |ts| && Reaches(ts, i, k) && Reaches(ts, i, f)
    ensures Reaches(ts[..f], i, k)
    decreases f - i
  {
    if i != k {
      assert ts[..f][i] == ts[i];
      var next := if ts[i] == LP then Close(ts, i) + 1 else i + 1;
      CloseFront(ts, f, i, 0);
      ReachesUp(ts, next, k);
      FrontReaches(ts, f, next, k);
    }
  }

  lemma {:induction false} BackReaches(ts: seq<Tok<Item>>, m: nat, i: nat, k: nat)
    requires m <= i <= k <= |ts| && Reaches(ts, i, k)
    ensures Reaches(ts[m..], i - m, k - m)
    decreases |ts| - i
  {
    if i != k {
      assert ts[m..][i - m] == ts[i];
      var next := if ts[i] == LP then Close(ts, i) + 1 else i + 1;
      CloseBack(ts, m, i, 0);
      ReachesUp(ts, next, k);
      BackReaches(ts, m, next, k);
    }
  }

  lemma {:induction false} ReachesAfter(ts: seq<Tok<Item>>, i: nat, f: nat, k: nat)
    requires i <= |ts| && f < |ts| && Reaches(ts, i, f) && ts[f] != LP && Reaches(ts, f + 1, k)
    ensures Reaches(ts, i, k)
    decreases |ts| - i
  {
    ReachesUp(ts, i, f);
    ReachesUp(ts, f + 1, k);
    if i != f { ReachesAfter(ts, if ts[i] == LP then Close(ts, i) + 1 else i + 1, f, k); }
  }

  lemma OutsideOnly(ts: seq<Tok<Item>>, k: nat)
    requires |ts| > 1 && ts[0] == LP && Close(ts, 0) == |ts| - 1 && Reaches(ts, 0, k)
    ensures k == 0 || k == |ts|
  {
  }

  // A span of several tokens with a reached token other than a bracket has a constant only if it has a
  // reached operator.
  lemma NeedsOperator(ts: seq<Tok<Item>>, sc: Scope, k: nat) returns (p: nat)
    requires |sc.names| == |sc.facts| && |ts| > 1 && k < |ts| && Reaches(ts, 0, k) && !ts[k].LP? && !ts[k].RP?
    requires EvalExpr(ts, sc).Const?
    ensures p < |ts| && Reaches(ts, 0, p) && ts[p].Op?
  {
    if ts[0] == LP && Close(ts, 0) == |ts| - 1 { OutsideOnly(ts, k); }
    OpsGrow(ts, 0, Ops(0, -1, -1));
    p := ScanOps(ts, 0, Ops(0, -1, -1)).value.first;
  }

  // ---- one operator ----

  lemma QuotientSize(p: nat, q: nat)
    requires q > 0
    ensures 0 <= p / q <= p && (q > 1 ==> 2 * (p / q) <= p) && 0 <= p - (p / q) * q <= p
  {
    QuotientBounds(p, q);
    if q > 1 { ProductMonotone(p / q, 2, q); } else { assert p / 1 == p; }
  }

  lemma DivisionFits(x: int, y: int)
    requires InS8(x) && InS8(y) && y != 0 && !(x == MIN && y == -1)
    ensures InS8(TDiv(x, y)) && InS8(TMod(x, y))
  {
    var p, q := if x >= 0 then x else -x, if y > 0 then y else -y;
    QuotientSize(p, q);
    SignedParts(x, y, p, q);
  }

  lemma SignedParts(x: int, y: int, p: nat, q: nat)
    requires y != 0 && p == (if x >= 0 then x else -x) && q == (if y > 0 then y else -y)
    ensures TDiv(x, y) == if (x >= 0) == (y > 0) then p / q else -(p / q)
    ensures TMod(x, y) == if x >= 0 then p - (p / q) * q else -(p - (p / q) * q)
  {
    SignProduct(p / q, q);
  }

  lemma SignProduct(a: int, b: int)
    ensures (-a) * (-b) == a * b && (-a) * b == -(a * b) && a * (-b) == -(a * b)
  {
  }

  // eval_apply either gives the operator's int64 result or none at all.
  lemma ConstExact(op: char, x: int, y: int)
    requires InS8(x) && InS8(y) && (Supported(op) || op == '%')
    ensures var c := EvalApply(op, x, y); var v := Apply(op, x, y);
            && (c.Const? <==> v.Value? && InS8(v.v) && !((op == '/' || op == '%') && x == MIN && y == -1))
            && (c.Const? ==> v == Value(c.v))
  {
    if (op == '/' || op == '%') && y != 0 && !(x == MIN && y == -1) { DivisionFits(x, y); }
    hide TDiv;
    hide TMod;
  }

  // A known value lies in the known range.
  predicate ConsistentFact(f: Fact) {
    SaneFact(f) && (f.rangeKnown && f.valueKnown ==> f.lo <= f.value <= f.hi)
  }

  ghost predicate Consistent(sc: Scope) {
    Sane(sc) && forall k | 0 <= k < |sc.facts| :: ConsistentFact(sc.facts[k])
  }

  // Every state that the variables can be in is of this kind.
  lemma DescribedConsistent(sc: Scope, vals: seq<int>)
    requires Sane(sc) && StateDescribes(sc.facts, vals)
    ensures Consistent(sc)
  {
  }

  ghost predicate AllSupported(ts: seq<Tok<Item>>) {
    forall k | 0 <= k < |ts| && ts[k].Op? :: Supported(ts[k].c)
  }

  lemma {:induction false} ConstInRange(ts: seq<Tok<Item>>, sc: Scope)
    requires Consistent(sc) && AllSupported(ts)
    requires EvalExpr(ts, sc).Const? && Eval(ts, sc).r.Known?
    ensures InS8(EvalExpr(ts, sc).v) && Eval(ts, sc).r.Has(EvalExpr(ts, sc).v)
    decreases |ts|
  {
    hide *;
    if |ts| <= 1 {
      ConstAtom(ts, sc);
    } else if ts[0] == LP && Close(ts, 0) == |ts| - 1 {
      Unbracketed(ts, sc);
      ConstInRange(ts[1..|ts| - 1], sc);
    } else {
      var f := ConstRoot(ts, sc);
      RootIsOperator(ts, sc, f);
      KnownRoot(ts, sc);
      ConstInRange(ts[..f], sc);
      ConstInRange(ts[f + 1..], sc);
      ConstStep(ts, sc, f);
    }
  }

  lemma ConstAtom(ts: seq<Tok<Item>>, sc: Scope)
    requires Consistent(sc) && |ts| <= 1 && EvalExpr(ts, sc).Const? && Eval(ts, sc).r.Known?
    ensures InS8(EvalExpr(ts, sc).v) && Eval(ts, sc).r.Has(EvalExpr(ts, sc).v)
  {
    assert Eval(ts, sc) == AtomRange(ts[0], sc);
  }

  lemma Unbracketed(ts: seq<Tok<Item>>, sc: Scope)
    requires Consistent(sc) && AllSupported(ts) && |ts| > 1 && ts[0] == LP && Close(ts, 0) == |ts| - 1
    ensures Eval(ts, sc) == Eval(ts[1..|ts| - 1], sc) && EvalExpr(ts, sc) == EvalExpr(ts[1..|ts| - 1], sc)
    ensures AllSupported(ts[1..|ts| - 1]) && |ts[1..|ts| - 1]| < |ts|
  {
  }

  // The operator at which eval_expr takes a span apart when range_eval finds an interval for it.
  lemma {:induction false} ConstRoot(ts: seq<Tok<Item>>, sc: Scope) returns (f: nat)
    requires Consistent(sc) && AllSupported(ts) && |ts| > 1 && !(ts[0] == LP && Close(ts, 0) == |ts| - 1)
    requires EvalExpr(ts, sc).Const? && Eval(ts, sc).r.Known?
    ensures var s := ScanOps(ts, 0, Ops(0, -1, -1)); s.Some? && s.value.count == 1 && s.value.first == f
    ensures 0 < f < |ts| - 1 && EvalExpr(ts[..f], sc).Const? && EvalExpr(ts[f + 1..], sc).Const?
    ensures EvalExpr(ts, sc) == EvalApply(OpOf(ts[f]), EvalExpr(ts[..f], sc).v, EvalExpr(ts[f + 1..], sc).v)
    ensures AllSupported(ts[..f]) && AllSupported(ts[f + 1..]) && Sane(sc)
  {
    hide Eval;
    hide Reaches;
    hide CloseFrom;
    var x := ScanOps(ts, 0, Ops(0, -1, -1)).value;
    NotPostfix(ts, sc);
    hide EvalApply;
    hide ScanOps;
    f := x.first;
  }

  // A span with an interval does not end in a top-level operator.
  lemma {:induction false} NotPostfix(ts: seq<Tok<Item>>, sc: Scope)
    requires Sane(sc) && ts != [] && Eval(ts, sc).r.Known? && ScanOps(ts, 0, Ops(0, -1, -1)).Some?
    ensures var x := ScanOps(ts, 0, Ops(0, -1, -1)).value;
            x.count > 0 ==> x.last != |ts| - 1 && x.first >= 0
  {
    OpsGrow(ts, 0, Ops(0, -1, -1));
    if ts[|ts| - 1].Op? { EndsInOp(ts, sc); }
  }

  lemma {:induction false} KnownRoot(ts: seq<Tok<Item>>, sc: Scope)
    requires Sane(sc) && |ts| > 1 && !(ts[0] == LP && Close(ts, 0) == |ts| - 1) && Eval(ts, sc).r.Known?
    ensures var s := Scan(ts, 0, 1000, -1);
            && s.Some? && 0 < s.value < |ts| - 1
            && Eval(ts[..s.value], sc).r.Known? && Eval(ts[s.value + 1..], sc).r.Known?
            && Eval(ts, sc).r == RangeApply(OpOf(ts[s.value]), Eval(ts[..s.value], sc).r, Eval(ts[s.value + 1..], sc).r).r
  {
    hide RangeApply;
    hide Scan;
    hide CloseFrom;
    hide AtomRange;
    hide OpOf;
    hide Sane;
    var s := Scan(ts, 0, 1000, -1);
    assert s.Some? && 0 < s.value < |ts| - 1;
  }

  lemma ConstStep(ts: seq<Tok<Item>>, sc: Scope, f: nat)
    requires Sane(sc) && AllSupported(ts) && f < |ts| - 1 && ts[f].Op?
    requires var a, b := EvalExpr(ts[..f], sc), EvalExpr(ts[f + 1..], sc);
             var x, y := Eval(ts[..f], sc), Eval(ts[f + 1..], sc);
             && a.Const? && b.Const? && x.r.Has(a.v) && y.r.Has(b.v) && InS8(a.v) && InS8(b.v)
             && EvalExpr(ts, sc).Const? && EvalExpr(ts, sc) == EvalApply(OpOf(ts[f]), a.v, b.v)
             && Eval(ts, sc).r.Known? && Eval(ts, sc).r == RangeApply(OpOf(ts[f]), x.r, y.r).r
    ensures InS8(EvalExpr(ts, sc).v) && Eval(ts, sc).r.Has(EvalExpr(ts, sc).v)
  {
    var a, b := EvalExpr(ts[..f], sc).v, EvalExpr(ts[f + 1..], sc).v;
    ConstExact(ts[f].c, a, b);
    RangeApplySound(ts[f].c, Eval(ts[..f], sc).r, Eval(ts[f + 1..], sc).r, a, b);
    hide Eval;
    hide EvalExpr;
    hide RangeApply;
    hide EvalApply;
    hide Apply;
  }

  // With one top-level operator between two operands that have constants, range_eval splits there too:
  // a number with a sign that its scan might prefer would stand inside an operand of several tokens,
  // and such an operand has no constant without an operator of its own.
  lemma RootIsOperator(ts: seq<Tok<Item>>, sc: Scope, f: nat)
    requires Sane(sc) && |ts| > 1 && !(ts[0] == LP && Close(ts, 0) == |ts| - 1)
    requires var s := ScanOps(ts, 0, Ops(0, -1, -1)); s.Some? && s.value.count == 1 && s.value.first == f
    requires 0 < f < |ts| - 1 && EvalExpr(ts[..f], sc).Const? && EvalExpr(ts[f + 1..], sc).Const?
    requires Eval(ts, sc).r.Known?
    ensures Scan(ts, 0, 1000, -1) == Some(f) && ts[f].Op?
  {
    assert |sc.names| == |sc.facts|;
    hide *;
    OpsGrow(ts, 0, Ops(0, -1, -1));
    KnownRoot(ts, sc);
    var root: nat := Scan(ts, 0, 1000, -1).value;
    ScanReaches(ts, 0, 1000, -1);
    NotBracket(ts[root]);
    NotBefore(ts, sc, f, root);
    NotBehind(ts, sc, f, root);
  }

  // The operator f is the only one reached, so neither operand holds a reached token k.
  lemma NotBefore(ts: seq<Tok<Item>>, sc: Scope, f: nat, k: nat)
    requires |sc.names| == |sc.facts| && 0 < k < |ts| && f < |ts| && EvalExpr(ts[..f], sc).Const?
    requires var s := ScanOps(ts, 0, Ops(0, -1, -1)); s.Some? && s.value.count == 1 && s.value.first == f
    requires Reaches(ts, 0, f) && Reaches(ts, 0, k) && !ts[k].LP? && !ts[k].RP?
    ensures f <= k
  {
    if k < f {
      FrontReaches(ts, f, 0, k);
      var p := NeedsOperator(ts[..f], sc, k);
      ReachesFront(ts, f, 0, p);
      OpsCounted(ts, 0, Ops(0, -1, -1), p);
    }
  }

  lemma {:induction false} NotBehind(ts: seq<Tok<Item>>, sc: Scope, f: nat, k: nat)
    requires |sc.names| == |sc.facts| && 0 < k < |ts| - 1 && f < |ts| && ts[f].Op? && EvalExpr(ts[f + 1..], sc).Const?
    requires var s := ScanOps(ts, 0, Ops(0, -1, -1)); s.Some? && s.value.count == 1 && s.value.first == f
    requires Reaches(ts, 0, f) && Reaches(ts, 0, k) && !ts[k].LP? && !ts[k].RP?
    ensures k <= f
  {
    if f < k {
      ReachesOn(ts, 0, f, k);
      BackReaches(ts, f + 1, f + 1, k);
      var p := NeedsOperator(ts[f + 1..], sc, k - f - 1);
      ReachesBack(ts, f + 1, 0, p);
      ReachesAfter(ts, 0, f, f + 1 + p);
      OpsCounted(ts, 0, Ops(0, -1, -1), f + 1 + p);
    }
  }

  lemma NotBracket(t: Tok<Item>)
    ensures TokPrec(t) > 0 ==> !t.LP? && !t.RP?
  {
  }
}
