// Interval arithmetic of the linter: operations on unbounded integers, clamped to int64 at the end,
// with a flag that says whether a bound left int64.
module Intervals {
  import opened Int64

  datatype Range = Unknown | Known(lo: int, hi: int) {
    predicate Has(v: int) {
      Known? && lo <= v <= hi
    }

    // What every range in the linter satisfies.
    predicate Proper() {
      Known? ==> MIN <= lo <= hi <= MAX
    }
  }

  // Result of an evaluation: a range, and whether something left int64.
  datatype Ranged = Ranged(r: Range, overflow: bool)

  function Exact(v: int): Range {
    Known(v, v)
  }

  // ---- comparisons ----

  predicate IsCompare(op: char) {
    op in {'E', 'N', '<', '>', 'L', 'G', 'A', 'O'}
  }

  function Compare(op: char, x: int, y: int): int
    requires IsCompare(op)
  {
    match op
    case 'E' => Bool(x == y)
    case 'N' => Bool(x != y)
    case '<' => Bool(x < y)
    case '>' => Bool(x > y)
    case 'L' => Bool(x <= y)
    case 'G' => Bool(x >= y)
    case 'A' => Bool(x != 0 && y != 0)
    case _ => Bool(x != 0 || y != 0)
  }

  // ---- the hull of the four corners ----

  function Min(a: int, b: int): int { if b < a then b else a }
  function Max(a: int, b: int): int { if b > a then b else a }

  function Clamp(v: int): int {
    if v < MIN then MIN else if v > MAX then MAX else v
  }

  // range_apply for the arithmetic operators: the exact bounds before clamping.
  function Bounds(op: char, a: Range, b: Range): Range
    requires a.Known? && b.Known? && a.lo <= a.hi && b.lo <= b.hi
  {
    match op
    case '+' => Known(a.lo + b.lo, a.hi + b.hi)
    case '-' => Known(a.lo - b.hi, a.hi - b.lo)
    case '*' => Hull(a.lo * b.lo, a.lo * b.hi, a.hi * b.lo, a.hi * b.hi)
    case '/' =>
      if b.lo <= 0 <= b.hi then Unknown
      else Hull(TDiv(a.lo, b.lo), TDiv(a.lo, b.hi), TDiv(a.hi, b.lo), TDiv(a.hi, b.hi))
    case '%' =>
      if b.lo <= 0 <= b.hi then Unknown
      else Hull(TMod(a.lo, b.lo), TMod(a.lo, b.hi), TMod(a.hi, b.lo), TMod(a.hi, b.hi))
    case _ => Unknown
  }

  function Hull(v1: int, v2: int, v3: int, v4: int): Range {
    Known(Min(Min(Min(v1, v2), v3), v4), Max(Max(Max(v1, v2), v3), v4))
  }

  function RangeApply(op: char, a: Range, b: Range): (x: Ranged)
    requires (a.Known? ==> a.lo <= a.hi) && (b.Known? ==> b.lo <= b.hi)
    ensures x.r.Proper()
  {
    if a.Unknown? || b.Unknown? then Ranged(Unknown, false)
    else if IsCompare(op) then
      Ranged(if a.lo == a.hi && b.lo == b.hi then Exact(Compare(op, a.lo, b.lo)) else Known(0, 1), false)
    else
      match Bounds(op, a, b)
      case Unknown => Ranged(Unknown, false)
      case Known(lo, hi) => Ranged(Known(Clamp(lo), Clamp(hi)), lo < MIN || hi > MAX)
  }

  // What an operator computes; None for a division by zero.
  datatype Value = NoValue | Value(v: int)

  function Apply(op: char, x: int, y: int): Value {
    if IsCompare(op) then Value(Compare(op, x, y))
    else
      match op
      case '+' => Value(x + y)
      case '-' => Value(x - y)
      case '*' => Value(x * y)
      case '/' => if y == 0 then NoValue else Value(TDiv(x, y))
      case '%' => if y == 0 then NoValue else Value(TMod(x, y))
      case _ => NoValue
  }

  // eval_apply: a constant, or none, with a flag for overflow.
  datatype Const = Const(v: int) | NoConst(overflow: bool)

  function EvalApply(op: char, x: int, y: int): Const {
    if IsCompare(op) then Const(Compare(op, x, y))
    else
      match op
      case '+' => Checked(x + y)
      case '-' => Checked(x - y)
      case '*' => Checked(x * y)
      case '/' => if y == 0 then NoConst(false) else if x == MIN && y == -1 then NoConst(true) else Const(TDiv(x, y))
      case '%' => if y == 0 then NoConst(false) else if x == MIN && y == -1 then NoConst(true) else Const(TMod(x, y))
      case _ => NoConst(false)
  }

  function Checked(v: int): Const {
    if InS8(v) then Const(v) else NoConst(true)
  }

  // ---- products and quotients lie in the hull of their corners ----

  lemma ProductMonotone(x: int, y: int, z: int)
    requires y <= z
    ensures if x >= 0 then x * y <= x * z else x * z <= x * y
  {
  }

  lemma ProductInHull(xl: int, xh: int, yl: int, yh: int, x: int, y: int)
    requires xl <= x <= xh && yl <= y <= yh
    ensures Hull(xl * yl, xl * yh, xh * yl, xh * yh).Has(x * y)
  {
    ProductMonotone(x, yl, y);
    ProductMonotone(x, y, yh);
    ProductMonotone(yl, xl, x);
    ProductMonotone(yl, x, xh);
    ProductMonotone(yh, xl, x);
    ProductMonotone(yh, x, xh);
  }

  lemma QuotientBounds(x: int, y: int)
    requires x >= 0 && y > 0
    ensures x / y >= 0 && (x / y) * y <= x < (x / y) * y + y
  {
  }

  lemma QuotientUp(x: int, z: int, y: int)
    requires 0 <= x <= z && y > 0
    ensures x / y <= z / y
  {
    QuotientBounds(x, y);
    QuotientBounds(z, y);
    if x / y > z / y {
      ProductMonotone(y, z / y + 1, x / y);
      assert false;
    }
  }

  lemma QuotientDown(x: int, y: int, w: int)
    requires 0 <= x && 0 < y <= w
    ensures x / w <= x / y
  {
    QuotientBounds(x, y);
    QuotientBounds(x, w);
    if x / w > x / y {
      ProductMonotone(x / w, y, w);
      ProductMonotone(y, x / y + 1, x / w);
      assert false;
    }
  }

  // Truncating division grows with the dividend and shrinks towards zero as the divisor grows.
  lemma TDivUp(x: int, z: int, y: int)
    requires x <= z && y > 0
    ensures TDiv(x, y) <= TDiv(z, y)
  {
    if x >= 0 { QuotientUp(x, z, y); }
    else if z < 0 { QuotientUp(-z, -x, y); }
    else { QuotientBounds(z, y); QuotientBounds(-x, y); }
  }

  lemma TDivDown(x: int, y: int, w: int)
    requires 0 < y <= w
    ensures if x >= 0 then TDiv(x, w) <= TDiv(x, y) else TDiv(x, y) <= TDiv(x, w)
  {
    QuotientDown(if x >= 0 then x else -x, y, w);
  }

  lemma TDivNeg(x: int, y: int)
    requires y != 0
    ensures TDiv(x, -y) == -TDiv(x, y)
  {
  }

  lemma QuotientInHullPos(xl: int, xh: int, yl: int, yh: int, x: int, y: int)
    requires xl <= x <= xh && 0 < yl <= y <= yh
    ensures Hull(TDiv(xl, yl), TDiv(xl, yh), TDiv(xh, yl), TDiv(xh, yh)).Has(TDiv(x, y))
  {
    hide TDiv;
    TDivUp(xl, x, y);
    TDivUp(x, xh, y);
    TDivDown(xl, yl, y);
    TDivDown(xl, y, yh);
    TDivDown(xh, yl, y);
    TDivDown(xh, y, yh);
  }

  lemma QuotientInHull(xl: int, xh: int, yl: int, yh: int, x: int, y: int)
    requires xl <= x <= xh && yl <= y <= yh && !(yl <= 0 <= yh)
    ensures Hull(TDiv(xl, yl), TDiv(xl, yh), TDiv(xh, yl), TDiv(xh, yh)).Has(TDiv(x, y))
  {
    if yl > 0 {
      QuotientInHullPos(xl, xh, yl, yh, x, y);
    } else {
      QuotientInHullPos(xl, xh, -yh, -yl, x, -y);
      TDivNeg(x, y);
      TDivNeg(xl, yl);
      TDivNeg(xl, yh);
      TDivNeg(xh, yl);
      TDivNeg(xh, yh);
    }
  }

  predicate Arithmetic(op: char) {
    op == '+' || op == '-' || op == '*' || op == '/'
  }

  // Every concrete result lies within the bounds, and a known quotient never divides by zero.
  lemma BoundsHold(op: char, a: Range, b: Range, x: int, y: int)
    requires Arithmetic(op) && a.Has(x) && b.Has(y) && Bounds(op, a, b).Known?
    ensures Apply(op, x, y).Value? && Bounds(op, a, b).Has(Apply(op, x, y).v)
  {
    if op == '*' { ProductInHull(a.lo, a.hi, b.lo, b.hi, x, y); }
    if op == '/' { QuotientInHull(a.lo, a.hi, b.lo, b.hi, x, y); }
  }

  // Both bounds are reached.
  lemma BoundsReached(op: char, a: Range, b: Range) returns (x: int, y: int, z: int, w: int)
    requires Arithmetic(op) && a.Known? && b.Known? && a.lo <= a.hi && b.lo <= b.hi && Bounds(op, a, b).Known?
    ensures a.Has(x) && b.Has(y) && Apply(op, x, y) == Value(Bounds(op, a, b).lo)
    ensures a.Has(z) && b.Has(w) && Apply(op, z, w) == Value(Bounds(op, a, b).hi)
  {
    hide TDiv;
    x, y := Corner(op, a, b, Bounds(op, a, b).lo);
    z, w := Corner(op, a, b, Bounds(op, a, b).hi);
  }

  lemma Corner(op: char, a: Range, b: Range, v: int) returns (x: int, y: int)
    requires Arithmetic(op) && a.Known? && b.Known? && a.lo <= a.hi && b.lo <= b.hi && Bounds(op, a, b).Known?
    requires v == Bounds(op, a, b).lo || v == Bounds(op, a, b).hi
    ensures x in {a.lo, a.hi} && y in {b.lo, b.hi} && Apply(op, x, y) == Value(v)
  {
    hide TDiv;
    if Apply(op, a.lo, b.lo) == Value(v) { x, y := a.lo, b.lo; }
    else if Apply(op, a.lo, b.hi) == Value(v) { x, y := a.lo, b.hi; }
    else if Apply(op, a.hi, b.lo) == Value(v) { x, y := a.hi, b.lo; }
    else { x, y := a.hi, b.hi; }
  }

  // Soundness of one step.  Without an overflow flag the result fits int64; with one, the range still
  // holds every result that fits.
  lemma RangeApplySound(op: char, a: Range, b: Range, x: int, y: int)
    requires (Arithmetic(op) || IsCompare(op)) && a.Proper() && b.Proper() && a.Has(x) && b.Has(y)
    ensures RangeApply(op, a, b).r.Proper()
    ensures RangeApply(op, a, b).r.Known? ==>
              && Apply(op, x, y).Value?
              && (InS8(Apply(op, x, y).v) ==> RangeApply(op, a, b).r.Has(Apply(op, x, y).v))
              && (!RangeApply(op, a, b).overflow ==> InS8(Apply(op, x, y).v))
  {
    if !IsCompare(op) && Bounds(op, a, b).Known? {
      BoundsHold(op, a, b, x, y);
    }
  }

  // v is a result of the operator on operands of these ranges.
  ghost predicate Result(op: char, a: Range, b: Range, v: int) {
    exists x, y :: a.Has(x) && b.Has(y) && Apply(op, x, y) == Value(v)
  }

  // One step of arithmetic says neither too little nor too much.  Only a divisor range with 0 gives no
  // range.  Otherwise the range runs from the least result to the greatest, clamped, and the flag is set
  // exactly when some result lies outside int64.
  lemma RangeApplyExact(op: char, a: Range, b: Range) returns (lo: int, hi: int)
    requires Arithmetic(op) && a.Known? && b.Known? && a.Proper() && b.Proper()
    ensures RangeApply(op, a, b).r.Known? <==> !(op == '/' && b.Has(0))
    ensures RangeApply(op, a, b).r.Known? ==>
              && Result(op, a, b, lo) && Result(op, a, b, hi) && (forall v | Result(op, a, b, v) :: lo <= v <= hi)
              && RangeApply(op, a, b).r == Known(Clamp(lo), Clamp(hi))
    ensures RangeApply(op, a, b).overflow
       <==> RangeApply(op, a, b).r.Known? && exists v :: Result(op, a, b, v) && !InS8(v)
  {
    lo, hi := 0, 0;
    if !(op == '/' && b.Has(0)) {
      lo, hi := Bounds(op, a, b).lo, Bounds(op, a, b).hi;
      var x, y, z, w := BoundsReached(op, a, b);
      forall v | Result(op, a, b, v)
        ensures lo <= v <= hi
      {
        var p, q :| a.Has(p) && b.Has(q) && Apply(op, p, q) == Value(v);
        BoundsHold(op, a, b, p, q);
      }
      assert Result(op, a, b, lo) && Result(op, a, b, hi);
      hide Result;
      hide Apply;
      hide TDiv;
    }
  }

  // A comparison is decided exactly when both sides are single values; it never overflows.
  lemma CompareExact(op: char, a: Range, b: Range)
    requires IsCompare(op) && a.Known? && b.Known? && a.Proper() && b.Proper()
    ensures var x := RangeApply(op, a, b);
            && !x.overflow
            && x.r == (if a.lo == a.hi && b.lo == b.hi then Exact(Compare(op, a.lo, b.lo)) else Known(0, 1))
            && forall v | Result(op, a, b, v) :: x.r.Has(v) && InS8(v)
  {
  }

  // The remainder has no such bounds: the corners of [3, 6] % [5, 5] are 3 and 1, and 4 % 5 is 4.
  lemma RemainderEscapes()
    ensures RangeApply('%', Known(3, 6), Known(5, 5)) == Ranged(Known(1, 3), false)
    ensures Known(3, 6).Has(4) && Apply('%', 4, 5) == Value(4)
  {
  }

  // The corners lo % m and hi % m bound all remainders between them, for m > 0.
  predicate RemaindersBounded(lo: int, hi: int, m: int)
    requires lo <= hi && m > 0
    decreases lo < 0 && hi <= 0
  {
    if lo >= 0 then
      lo / m == hi / m || (Min(lo % m, hi % m) == 0 && Max(lo % m, hi % m) == m - 1)
    else if hi <= 0 then RemaindersBounded(-hi, -lo, m)
    else (-lo < m || TMod(lo, m) == -(m - 1)) && (hi < m || TMod(hi, m) == m - 1)
  }

  ghost predicate RemaindersHeld(a: Range, m: int)
    requires a.Known? && a.lo <= a.hi && m != 0
  {
    forall x | a.Has(x) :: Bounds('%', a, Exact(m)).Has(TMod(x, m))
  }

  // For any constant divisor other than 0 and any range of dividends: the bounds hold exactly when, on
  // either side of zero, all dividends have one quotient or the corners happen to be the extreme
  // remainders.
  lemma RemainderExact(a: Range, m: int)
    requires a.Known? && a.lo <= a.hi && m != 0
    ensures RemaindersHeld(a, m) <==> RemaindersBounded(a.lo, a.hi, if m > 0 then m else -m)
  {
    if m > 0 {
      RemainderPositive(a, m);
    } else {
      forall x
        ensures TMod(x, m) == TMod(x, -m)
      {
        RemainderSigns(x, -m);
      }
      assert Bounds('%', a, Exact(m)) == Bounds('%', a, Exact(-m));
      hide TMod;
      assert RemaindersHeld(a, m) <==> RemaindersHeld(a, -m);
      RemainderPositive(a, -m);
    }
  }

  lemma RemainderSigns(x: int, m: int)
    requires m > 0
    ensures TMod(x, -m) == TMod(x, m) && TMod(-x, m) == -TMod(x, m)
    ensures x >= 0 ==> TMod(x, m) == x % m && 0 <= x % m < m && x % m <= x
    ensures x < m && -m < x ==> TMod(x, m) == x
  {
    SignsOf(x, m);
    if x >= 0 { RemainderSize(x, m); } else { RemainderSize(-x, m); }
    hide TMod;
  }

  lemma SignsOf(x: int, m: int)
    requires m > 0
    ensures TMod(x, -m) == TMod(x, m) && TMod(-x, m) == -TMod(x, m)
  {
    TDivNeg(x, m);
    SignFlips(TDiv(x, m), m);
    assert TDiv(-x, m) == -TDiv(x, m);
    hide TDiv;
  }

  lemma RemainderSize(x: int, m: int)
    requires x >= 0 && m > 0
    ensures TMod(x, m) == x % m && 0 <= x % m < m && x % m <= x && (x < m ==> x % m == x)
  {
    RemainderIs(x, m);
    QuotientBounds(x, m);
    hide TMod;
    if x < m { assert x / m == 0; }
  }

  lemma SignFlips(a: int, b: int)
    ensures (-a) * (-b) == a * b && (-a) * b == -(a * b)
  {
  }

  lemma RemainderPositive(a: Range, m: int)
    requires a.Known? && a.lo <= a.hi && m > 0
    ensures RemaindersHeld(a, m) <==> RemaindersBounded(a.lo, a.hi, m)
  {
    if a.lo >= 0 {
      RemainderNonNegative(a, m);
    } else if a.hi <= 0 {
      var b := Known(-a.hi, -a.lo);
      RemainderNonNegative(b, m);
      RemainderMirrored(a, b, m);
    } else {
      RemainderAcross(a, m);
    }
  }

  // Negating all dividends negates all remainders.
  lemma RemainderMirrored(a: Range, b: Range, m: int)
    requires a.Known? && a.lo <= a.hi && m > 0 && b == Known(-a.hi, -a.lo)
    ensures RemaindersHeld(a, m) <==> RemaindersHeld(b, m)
  {
    RemainderSigns(a.lo, m);
    RemainderSigns(a.hi, m);
    forall x
      ensures Bounds('%', a, Exact(m)).Has(TMod(x, m)) <==> Bounds('%', b, Exact(m)).Has(TMod(-x, m))
      ensures a.Has(x) <==> b.Has(-x)
    {
      RemainderSigns(x, m);
    }
    hide TMod;
    hide Bounds;
    if RemaindersHeld(a, m) {
      forall x | b.Has(x)
        ensures Bounds('%', b, Exact(m)).Has(TMod(x, m))
      {
        assert a.Has(-x) && -(-x) == x;
      }
    }
    if RemaindersHeld(b, m) {
      forall x | a.Has(x)
        ensures Bounds('%', a, Exact(m)).Has(TMod(x, m))
      {
        assert b.Has(-x);
      }
    }
  }

  lemma RemainderAcross(a: Range, m: int)
    requires a.Known? && a.lo < 0 < a.hi && m > 0
    ensures RemaindersHeld(a, m) <==> RemaindersBounded(a.lo, a.hi, m)
  {
    RemainderSigns(-a.lo, m);
    RemainderSigns(a.lo, m);
    RemainderSigns(a.hi, m);
    RemainderSigns(m - 1, m);
    forall x | a.Has(x)
      ensures x >= 0 ==> 0 <= TMod(x, m) <= Min(x, m - 1)
      ensures x <= 0 ==> Max(x, -(m - 1)) <= TMod(x, m) <= 0
    {
      RemainderSigns(x, m);
      RemainderSigns(-x, m);
    }
    assert a.hi >= m ==> a.Has(m - 1);
    assert -a.lo >= m ==> a.Has(-(m - 1));
    hide TMod;
  }

  lemma RemainderNonNegative(a: Range, m: int)
    requires a.Known? && 0 <= a.lo <= a.hi && m > 0
    ensures RemaindersHeld(a, m)
        <==> a.lo / m == a.hi / m || (Min(a.lo % m, a.hi % m) == 0 && Max(a.lo % m, a.hi % m) == m - 1)
  {
    forall x | x >= 0
      ensures TMod(x, m) == x % m == x - (x / m) * m
    {
      RemainderIs(x, m);
    }
    if a.lo / m == a.hi / m {
      forall x | a.Has(x)
        ensures x / m == a.lo / m
      {
        QuotientUp(a.lo, x, m);
        QuotientUp(x, a.hi, m);
      }
    } else {
      var x := CrossesMultiple(a.lo, a.hi, m);
      assert a.Has(x) && a.Has(x - 1);
    }
  }

  // The greatest and the least remainder of the dividends from lo to hi, for a divisor of size m.
  function Greatest(lo: int, hi: int, m: int): int
    requires lo <= hi && m > 0
  {
    if hi < 0 then (if -hi / m == -lo / m then -(-hi % m) else 0)
    else if Max(lo, 0) / m == hi / m then hi % m
    else m - 1
  }

  function Least(lo: int, hi: int, m: int): int
    requires lo <= hi && m > 0
  {
    -Greatest(-hi, -lo, m)
  }

  lemma GreatestIs(a: Range, m: int) returns (x: int)
    requires a.Known? && a.lo <= a.hi && m > 0
    ensures a.Has(x) && TMod(x, m) == Greatest(a.lo, a.hi, m)
    ensures forall z | a.Has(z) :: TMod(z, m) <= Greatest(a.lo, a.hi, m)
  {
    forall z
      ensures if z >= 0 then TMod(z, m) == z % m == z - (z / m) * m && 0 <= z % m < m
              else TMod(z, m) == -(-z % m) && -z % m == -z - (-z / m) * m && 0 <= -z % m < m
    {
      RemainderSigns(z, m);
      RemainderSigns(-z, m);
      if z >= 0 { RemainderIs(z, m); } else { RemainderIs(-z, m); }
    }
    hide TMod;
    if a.hi < 0 {
      x := LeastOfUp(-a.hi, -a.lo, m);
      x := -x;
    } else {
      x := GreatestOfUp(Max(a.lo, 0), a.hi, m);
    }
  }

  lemma LeastOfUp(p: int, q: int, m: int) returns (x: int)
    requires 0 <= p <= q && m > 0
    ensures p <= x <= q && x % m == if p / m == q / m then p % m else 0
    ensures forall z | p <= z <= q :: x % m <= z % m
  {
    if p / m == q / m {
      x := p;
      OneQuotient(p, q, m);
    } else {
      x := CrossesMultiple(p, q, m);
      forall z | p <= z <= q
        ensures 0 <= z % m
      {
        RemainderIs(z, m);
      }
    }
  }

  lemma GreatestOfUp(p: int, q: int, m: int) returns (x: int)
    requires 0 <= p <= q && m > 0
    ensures p <= x <= q && x % m == if p / m == q / m then q % m else m - 1
    ensures forall z | p <= z <= q :: z % m <= x % m
  {
    if p / m == q / m {
      x := q;
      OneQuotient(p, q, m);
    } else {
      x := CrossesMultiple(p, q, m);
      x := x - 1;
      forall z | p <= z <= q
        ensures z % m < m
      {
        RemainderIs(z, m);
      }
    }
  }

  // With one quotient remainders grow with the dividend.
  lemma OneQuotient(p: int, q: int, m: int)
    requires 0 <= p <= q && m > 0 && p / m == q / m
    ensures forall z | p <= z <= q :: p % m <= z % m <= q % m
  {
    forall z | p <= z <= q
      ensures p % m <= z % m <= q % m
    {
      QuotientUp(p, z, m);
      QuotientUp(z, q, m);
      RemainderIs(p, m);
      RemainderIs(z, m);
      RemainderIs(q, m);
    }
  }

  lemma LeastIs(a: Range, m: int) returns (x: int)
    requires a.Known? && a.lo <= a.hi && m > 0
    ensures a.Has(x) && TMod(x, m) == Least(a.lo, a.hi, m)
    ensures forall z | a.Has(z) :: Least(a.lo, a.hi, m) <= TMod(z, m)
  {
    var b := Known(-a.hi, -a.lo);
    x := GreatestIs(b, m);
    hide Greatest;
    forall z
      ensures TMod(-z, m) == -TMod(z, m)
    {
      RemainderSigns(z, m);
    }
    hide TMod;
    forall z | a.Has(z)
      ensures Least(a.lo, a.hi, m) <= TMod(z, m)
    {
      assert b.Has(-z);
    }
    x := -x;
  }

  // The bounds hold for ranges of dividends and divisors exactly when they hold for the extreme
  // remainders of every divisor.
  lemma RemainderRange(a: Range, b: Range)
    requires a.Known? && a.lo <= a.hi && b.Known? && b.lo <= b.hi && !(b.lo <= 0 <= b.hi)
    ensures (forall x, y | a.Has(x) && b.Has(y) :: Bounds('%', a, b).Has(TMod(x, y)))
       <==> forall y | b.Has(y) ::
              var m := if y > 0 then y else -y;
              Bounds('%', a, b).Has(Least(a.lo, a.hi, m)) && Bounds('%', a, b).Has(Greatest(a.lo, a.hi, m))
  {
    forall y | b.Has(y)
      ensures var m := if y > 0 then y else -y;
              (forall x | a.Has(x) :: Bounds('%', a, b).Has(TMod(x, y)))
              <==> Bounds('%', a, b).Has(Least(a.lo, a.hi, m)) && Bounds('%', a, b).Has(Greatest(a.lo, a.hi, m))
    {
      var m := if y > 0 then y else -y;
      var u := LeastIs(a, m);
      var v := GreatestIs(a, m);
      forall x
        ensures TMod(x, y) == TMod(x, m)
      {
        RemainderSigns(x, m);
      }
      hide Least;
      hide Greatest;
      hide TMod;
      assert Bounds('%', a, b).Known?;
      hide Bounds;
    }
    hide *;
  }

  // So they do when every dividend is smaller than every divisor.
  lemma RemainderSmall(a: Range, b: Range, x: int, y: int)
    requires a.Has(x) && b.Has(y) && !(b.lo <= 0 <= b.hi)
    requires var n := if b.lo > 0 then b.lo else -b.hi; -n < a.lo && a.hi < n
    ensures Bounds('%', a, b) == a && Bounds('%', a, b).Has(TMod(x, y))
  {
    Unreduced(x, y);
    Unreduced(a.lo, b.lo);
    Unreduced(a.lo, b.hi);
    Unreduced(a.hi, b.lo);
    Unreduced(a.hi, b.hi);
  }

  lemma Unreduced(x: int, y: int)
    requires y != 0 && (if y > 0 then -y < x < y else y < x < -y)
    ensures TMod(x, y) == x
  {
    RemainderSigns(x, if y > 0 then y else -y);
  }

  lemma RemainderIs(x: int, m: int)
    requires x >= 0 && m > 0
    ensures TMod(x, m) == x % m == x - (x / m) * m && 0 <= x % m < m
  {
  }

  lemma CrossesMultiple(lo: int, hi: int, m: int) returns (x: int)
    requires 0 <= lo <= hi && m > 0 && lo / m != hi / m
    ensures lo < x <= hi && x % m == 0 && (x - 1) % m == m - 1
  {
    x := (hi / m) * m;
    QuotientUp(lo, hi, m);
    QuotientBounds(lo, m);
    QuotientBounds(hi, m);
    ProductMonotone(m, lo / m + 1, hi / m);
    MultipleRemainders(hi / m, m);
  }

  lemma MultipleRemainders(q: int, m: int)
    requires q > 0 && m > 0
    ensures (q * m) % m == 0 && (q * m - 1) % m == m - 1
  {
    RemainderUnique(q * m, q, 0, m);
    RemainderUnique(q * m - 1, q - 1, m - 1, m);
  }

  lemma RemainderUnique(x: int, q: int, r: int, m: int)
    requires x == q * m + r && 0 <= r < m && q >= 0
    ensures x % m == r
  {
    QuotientBounds(x, m);
    if x / m > q { ProductMonotone(m, q + 1, x / m); }
    if x / m < q { ProductMonotone(m, x / m + 1, q); }
  }
}
