// Branches in the linter: a comparison narrows what is known of a variable, and two branches meet in
// what both allow.
module LinterFlow {
  import opened Infix
  import opened Int64
  import opened Intervals
  import opened RangeEval
  import opened RangeSound
  import CR = ConstRange

  // ---- what a state of the program is ----

  // The values of the variables, and which of them the run has written.
  datatype Store = Store(vals: seq<int>, written: seq<bool>)

  // A fact allows a value, written or not: what is marked initialized has been written.
  predicate Allows(f: Fact, v: int, w: bool) {
    Describes(f, v) && (f.initialized ==> w)
  }

  ghost predicate StateAllows(facts: seq<Fact>, s: Store) {
    && |facts| == |s.vals| == |s.written|
    && forall k | 0 <= k < |facts| :: Allows(facts[k], s.vals[k], s.written[k])
  }

  // int64 arithmetic at its ends.
  function Inc(v: int): int {
    if v == MAX then MIN else v + 1
  }

  function Dec(v: int): int {
    if v == MIN then MAX else v - 1
  }

  // ---- range_refine_compare ----

  // New bounds, a value to leave out of the middle, or nothing.
  datatype Cut = Cut(lo: int, hi: int) | Hole(c: int) | NoCut

  function Start(f: Fact): Cut {
    if f.rangeKnown then Cut(f.lo, f.hi)
    else if f.valueKnown then Cut(f.value, f.value)
    else Cut(MIN, MAX)
  }

  function Exclude(lo: int, hi: int, olo: int, ohi: int): Cut {
    if olo != ohi then NoCut
    else if olo == lo && olo == hi then Cut(lo, Dec(lo))
    else if olo == lo then Cut(Inc(olo), hi)
    else if olo == hi then Cut(lo, Dec(olo))
    else Hole(olo)
  }

  function CutFor(op: char, truth: bool, lo: int, hi: int, olo: int, ohi: int): Cut {
    match op
    case '<' => if truth then Cut(lo, Dec(ohi)) else Cut(olo, hi)
    case 'L' => if truth then Cut(lo, ohi) else Cut(Inc(olo), hi)
    case '>' => if truth then Cut(Inc(olo), hi) else Cut(lo, ohi)
    case 'G' => if truth then Cut(olo, hi) else Cut(lo, Dec(ohi))
    case 'E' => if truth then Cut(olo, ohi) else Exclude(lo, hi, olo, ohi)
    case 'N' => if truth then Exclude(lo, hi, olo, ohi) else Cut(olo, ohi)
    case _ => NoCut
  }

  predicate Below(op: char) {
    op == '<' || op == 'L'
  }

  predicate Beyond(op: char) {
    op == '>' || op == 'G'
  }

  // 0: left as it is, 1: narrowed, 2: the branch is impossible.
  datatype Refined = Refined(code: int, f: Fact)

  function Narrow(f: Fact, isConst: bool, lo: int, hi: int): Refined {
    if lo > hi then Refined(2, f)
    else
      var g := f.(rangeKnown := true, lo := lo, hi := hi, mayZero := lo <= 0 <= hi);
      Refined(1, if isConst then g else if lo == hi then g.(valueKnown := true, value := lo) else g.(valueKnown := false))
  }

  // `widen`: inside a loop an upper or lower bound replaces the old one.
  function Refine(f: Fact, isConst: bool, op: char, olo: int, ohi: int, truth: bool, widen: bool): Refined {
    var s := Start(f);
    match CutFor(op, truth, s.lo, s.hi, olo, ohi)
    case NoCut => Refined(0, f)
    case Hole(c) => Refined(0, if c == 0 then f.(mayZero := false) else f)
    case Cut(nlo, nhi) =>
      if widen && truth && Below(op) then Narrow(f, isConst, s.lo, nhi)
      else if widen && truth && Beyond(op) then Narrow(f, isConst, nlo, s.hi)
      else Narrow(f, isConst, Max(s.lo, nlo), Min(s.hi, nhi))
  }

  lemma CutSound(op: char, truth: bool, lo: int, hi: int, olo: int, ohi: int, v: int, c: int)
    requires MIN <= lo <= v <= hi <= MAX && MIN <= olo <= c <= ohi <= MAX
    requires IsCompare(op) && (Compare(op, v, c) != 0) == truth
    ensures match CutFor(op, truth, lo, hi, olo, ohi)
            case Cut(nlo, nhi) => MIN <= nlo <= v <= nhi <= MAX
            case Hole(h) => v != h
            case NoCut => true
  {
  }

  lemma NarrowSound(f: Fact, isConst: bool, lo: int, hi: int, v: int)
    requires SaneFact(f) && Describes(f, v) && MIN <= lo <= v <= hi <= MAX
    ensures var r := Narrow(f, isConst, lo, hi); r.code == 1 && Describes(r.f, v)
  {
  }

  // A value v that the fact allows, compared with a value c of the other side's range, is allowed by
  // the refined fact on the branch it takes; so a branch called impossible is never taken.
  lemma RefineSound(f: Fact, isConst: bool, op: char, olo: int, ohi: int, truth: bool, widen: bool, v: int, w: bool, c: int)
    requires SaneFact(f) && Allows(f, v, w) && MIN <= olo <= c <= ohi <= MAX
    requires IsCompare(op) && (Compare(op, v, c) != 0) == truth
    ensures var r := Refine(f, isConst, op, olo, ohi, truth, widen);
            r.code != 2 && Allows(r.f, v, w)
  {
    RefineDescribes(f, isConst, op, olo, ohi, truth, widen, v, c);
    RefineMarks(f, isConst, op, olo, ohi, truth, widen);
    hide Refine;
    hide Describes;
  }

  lemma RefineMarks(f: Fact, isConst: bool, op: char, olo: int, ohi: int, truth: bool, widen: bool)
    requires IsCompare(op)
    ensures Refine(f, isConst, op, olo, ohi, truth, widen).f.initialized == f.initialized
  {
    hide CutFor;
  }

  lemma RefineDescribes(f: Fact, isConst: bool, op: char, olo: int, ohi: int, truth: bool, widen: bool, v: int, c: int)
    requires SaneFact(f) && Describes(f, v) && MIN <= olo <= c <= ohi <= MAX
    requires IsCompare(op) && (Compare(op, v, c) != 0) == truth
    ensures var r := Refine(f, isConst, op, olo, ohi, truth, widen);
            r.code != 2 && Describes(r.f, v)
  {
    var s := Start(f);
    CutSound(op, truth, s.lo, s.hi, olo, ohi, v, c);
    hide CutFor;
    match CutFor(op, truth, s.lo, s.hi, olo, ohi) {
      case NoCut =>
      case Hole(h) =>
      case Cut(nlo, nhi) =>
        NarrowSound(f, isConst, s.lo, nhi, v);
        NarrowSound(f, isConst, nlo, s.hi, v);
        NarrowSound(f, isConst, Max(s.lo, nlo), Min(s.hi, nhi), v);
        hide Narrow;
        hide Describes;
    }
  }

  lemma RefineSane(f: Fact, isConst: bool, op: char, olo: int, ohi: int, truth: bool, widen: bool)
    requires SaneFact(f) && MIN <= olo <= ohi <= MAX
    ensures SaneFact(Refine(f, isConst, op, olo, ohi, truth, widen).f)
  {
    var s := Start(f);
    CutSane(op, truth, s.lo, s.hi, olo, ohi);
    hide CutFor;
    match CutFor(op, truth, s.lo, s.hi, olo, ohi) {
      case NoCut =>
      case Hole(h) =>
      case Cut(nlo, nhi) =>
        NarrowSane(f, isConst, s.lo, nhi);
        NarrowSane(f, isConst, nlo, s.hi);
        NarrowSane(f, isConst, Max(s.lo, nlo), Min(s.hi, nhi));
        hide Narrow;
        hide SaneFact;
    }
  }

  lemma NarrowSane(f: Fact, isConst: bool, lo: int, hi: int)
    requires SaneFact(f) && MIN <= lo <= MAX && MIN <= hi <= MAX
    ensures SaneFact(Narrow(f, isConst, lo, hi).f)
  {
  }

  lemma CutSane(op: char, truth: bool, lo: int, hi: int, olo: int, ohi: int)
    requires MIN <= lo <= hi <= MAX && MIN <= olo <= ohi <= MAX
    ensures var k := CutFor(op, truth, lo, hi, olo, ohi); k.Cut? ==> MIN <= k.lo <= MAX && MIN <= k.hi <= MAX
  {
  }

  // ---- nothing is lost ----

  predicate Ordering(op: char) {
    op in {'E', 'N', '<', '>', 'L', 'G'}
  }

  // Some value of the other side gives the comparison this truth.
  ghost predicate Possible(op: char, truth: bool, olo: int, ohi: int, v: int)
    requires IsCompare(op)
  {
    exists c :: olo <= c <= ohi && (Compare(op, v, c) != 0) == truth
  }

  // The new bound would lie beyond int64 and wraps round.
  predicate Wraps(op: char, truth: bool, lo: int, hi: int, olo: int, ohi: int) {
    match op
    case '<' => truth && ohi == MIN
    case 'L' => !truth && olo == MAX
    case '>' => truth && olo == MAX
    case 'G' => !truth && ohi == MIN
    case 'E' => !truth && lo == hi == olo == ohi == MIN
    case 'N' => truth && lo == hi == olo == ohi == MIN
    case _ => false
  }

  lemma CutExact(op: char, truth: bool, lo: int, hi: int, olo: int, ohi: int, v: int)
    requires MIN <= lo <= v <= hi <= MAX && MIN <= olo <= ohi <= MAX && Ordering(op) && !Wraps(op, truth, lo, hi, olo, ohi)
    ensures match CutFor(op, truth, lo, hi, olo, ohi)
            case Cut(nlo, nhi) => Max(lo, nlo) <= v <= Min(hi, nhi) <==> Possible(op, truth, olo, ohi, v)
            case Hole(h) => h != lo && h != hi && (v != h <==> Possible(op, truth, olo, ohi, v))
            case NoCut => Possible(op, truth, olo, ohi, v)
  {
    var at := if olo <= v <= ohi then v else olo;
    var truths := (Compare(op, v, olo) != 0) == truth || (Compare(op, v, ohi) != 0) == truth || (Compare(op, v, at) != 0) == truth;
    assert truths ==> Possible(op, truth, olo, ohi, v);
    assert Possible(op, truth, olo, ohi, v) ==> truths;
  }

  // The narrowed range holds exactly the values of the old one that can take the branch, and the branch is
  // called impossible exactly when none can.
  lemma RefineExact(f: Fact, isConst: bool, op: char, olo: int, ohi: int, truth: bool)
    requires SaneFact(f) && MIN <= olo <= ohi <= MAX && Ordering(op)
    requires !Wraps(op, truth, Start(f).lo, Start(f).hi, olo, ohi)
    ensures var s, r := Start(f), Refine(f, isConst, op, olo, ohi, truth, false);
            && (r.code == 2 <==> forall v | s.lo <= v <= s.hi :: !Possible(op, truth, olo, ohi, v))
            && (r.code == 1 ==> forall v :: r.f.lo <= v <= r.f.hi <==> s.lo <= v <= s.hi && Possible(op, truth, olo, ohi, v))
  {
    var s := Start(f);
    forall v | s.lo <= v <= s.hi
      ensures match CutFor(op, truth, s.lo, s.hi, olo, ohi)
              case Cut(nlo, nhi) => Max(s.lo, nlo) <= v <= Min(s.hi, nhi) <==> Possible(op, truth, olo, ohi, v)
              case Hole(h) => h != s.lo && h != s.hi && (v != h <==> Possible(op, truth, olo, ohi, v))
              case NoCut => Possible(op, truth, olo, ohi, v)
    {
      CutExact(op, truth, s.lo, s.hi, olo, ohi, v);
    }
    var k := CutFor(op, truth, s.lo, s.hi, olo, ohi);
    var first := if k.Cut? then Max(s.lo, k.lo) else s.lo;
    if s.lo <= first <= s.hi { CutExact(op, truth, s.lo, s.hi, olo, ohi, first); }
    hide CutFor;
    hide Possible;
  }

  // Without room below int64 the branch x < MIN is not called impossible.
  lemma RefineWraps()
    ensures var f := Fact(true, true, 0, 9, false, 0, true);
            Refine(f, false, '<', MIN, MIN, true, false).code == 1 && forall v :: !(MIN <= v && Possible('<', true, MIN, MIN, v))
  {
  }

  // ---- joins ----

  // merge_flow_states_to_current for a variable that both states have.
  function MergeFact(a: Fact, b: Fact): Fact {
    var value := a.valueKnown && b.valueKnown && a.value == b.value;
    var range := a.rangeKnown && b.rangeKnown;
    Fact(a.initialized && b.initialized, range,
         if value then a.value else Min(a.lo, b.lo), if value then a.value else Max(a.hi, b.hi),
         value, a.value, a.mayZero || b.mayZero)
  }

  // For a variable that only one state has, the rest of what is stored stays.
  function TakeOver(now: Fact, b: Fact): Fact {
    now.(initialized := b.initialized, rangeKnown := b.rangeKnown, lo := b.lo, hi := b.hi, mayZero := b.mayZero)
  }

  function MergeAt(now: Fact, a: seq<Fact>, b: seq<Fact>, i: nat): Fact {
    if i < |a| && i < |b| then Merged(now, a[i], b[i])
    else if i < |b| then TakeOver(now, b[i])
    else if i < |a| then TakeOver(now, a[i])
    else now
  }

  // The stored value and bounds are only written when they are known.
  function Merged(now: Fact, a: Fact, b: Fact): Fact {
    var m := MergeFact(a, b);
    m.(lo := if m.rangeKnown then m.lo else now.lo, hi := if m.rangeKnown then m.hi else now.hi,
       value := if m.valueKnown then m.value else now.value)
  }

  function MergeStates(now: seq<Fact>, a: seq<Fact>, b: seq<Fact>): (m: seq<Fact>)
    ensures |m| == |now|
  {
    seq(|now|, i requires 0 <= i < |now| => MergeAt(now[i], a, b, i))
  }

  // What either branch allows the join allows.
  lemma MergeSound(now: Fact, a: Fact, b: Fact, v: int, w: bool)
    requires SaneFact(a) && SaneFact(b) && (Allows(a, v, w) || Allows(b, v, w))
    ensures Allows(Merged(now, a, b), v, w)
  {
  }

  // A variable is marked initialized exactly when no state that either branch allows has it unwritten, and
  // the join may be zero only if a branch may.
  lemma MergeMarks(now: Fact, a: Fact, b: Fact)
    requires (exists v :: Describes(a, v)) && (exists v :: Describes(b, v))
    ensures Merged(now, a, b).initialized <==> forall v, w | Allows(a, v, w) || Allows(b, v, w) :: w
    ensures Merged(now, a, b).mayZero ==> a.mayZero || b.mayZero
  {
    var v :| Describes(a, v);
    var u :| Describes(b, u);
    assert !a.initialized ==> Allows(a, v, false);
    assert !b.initialized ==> Allows(b, u, false);
    hide Describes;
  }

  // And its range is the least interval around both, or the one value they agree on.
  lemma MergeLeast(now: Fact, a: Fact, b: Fact, lo: int, hi: int)
    requires SaneFact(a) && SaneFact(b) && a.rangeKnown && b.rangeKnown
    requires forall v :: Known(a.lo, a.hi).Has(v) || Known(b.lo, b.hi).Has(v) ==> lo <= v <= hi
    ensures var m := Merged(now, a, b);
            && m.rangeKnown
            && (if m.valueKnown then m.lo == m.hi == a.value == b.value else lo <= m.lo <= m.hi <= hi)
  {
    assert Known(a.lo, a.hi).Has(a.lo) && Known(a.lo, a.hi).Has(a.hi);
    assert Known(b.lo, b.hi).Has(b.lo) && Known(b.lo, b.hi).Has(b.hi);
  }

  // ---- a variable that only one of the two states has ----

  // The fact allows no value but c.
  predicate Only(f: Fact, c: int) {
    if f.valueKnown then f.value == c || !Describes(f, f.value)
    else
      var lo := if !f.rangeKnown then MIN else if f.lo == 0 && !f.mayZero then 1 else f.lo;
      var hi := if !f.rangeKnown then MAX else if f.hi == 0 && !f.mayZero then -1 else f.hi;
      hi < lo || lo == hi == c
  }

  lemma OnlyMeans(f: Fact, c: int)
    requires SaneFact(f)
    ensures Only(f, c) <==> forall v | Describes(f, v) :: v == c
  {
    if !f.valueKnown {
      var lo := if !f.rangeKnown then MIN else if f.lo == 0 && !f.mayZero then 1 else f.lo;
      var hi := if !f.rangeKnown then MAX else if f.hi == 0 && !f.mayZero then -1 else f.hi;
      assert lo <= hi ==> Describes(f, lo) && Describes(f, hi);
    }
  }

  // Such a variable takes the range of the state that has it and keeps the exact value that is stored.
  // That is sound exactly when no exact value is stored or the state allows no other.
  lemma TakeOverExact(now: Fact, b: Fact)
    requires SaneFact(b)
    ensures (forall v, w | Allows(b, v, w) :: Allows(TakeOver(now, b), v, w)) <==> !now.valueKnown || Only(b, now.value)
  {
    OnlyMeans(b, now.value);
    assert forall v | Describes(b, v) :: Allows(b, v, true);
    hide Only;
  }

  // And it is marked initialized exactly when that state never has it unwritten.
  lemma TakeOverMarks(now: Fact, b: Fact)
    requires exists v :: Describes(b, v)
    ensures TakeOver(now, b).initialized <==> forall v, w | Allows(b, v, w) :: w
  {
    var v :| Describes(b, v);
    assert !b.initialized ==> Allows(b, v, false);
    hide Describes;
  }

  // At endif, next, while and a switchend without cases the state is the one just captured, and the
  // join leaves it as it is.
  lemma TakeOverSame(b: Fact)
    ensures TakeOver(b, b) == b
  {
  }

  // merge_into_captured_state, for the cases of a switch: ranges and flags join, the value stays.
  function Captured(t: Fact, b: Fact): Fact {
    var range := t.rangeKnown && b.rangeKnown;
    t.(initialized := t.initialized && b.initialized, rangeKnown := range,
       lo := if range then Min(t.lo, b.lo) else t.lo, hi := if range then Max(t.hi, b.hi) else t.hi,
       mayZero := t.mayZero || b.mayZero)
  }

  // The states at the breaks and fall-throughs of a switch, gathered one after the other.
  function Gathered(t: Fact, us: seq<Fact>): Fact {
    var last := |us| - 1;
    if last < 0 then t else Captured(Gathered(t, us[..last]), us[last])
  }

  // Ranges and flags then allow what any of the states allows; the value is that of the first one.
  lemma {:induction false} GatheredAllows(t: Fact, us: seq<Fact>)
    requires SaneFact(t) && forall f | f in us :: SaneFact(f)
    ensures var g := Gathered(t, us);
            && SaneFact(g) && g.valueKnown == t.valueKnown && g.value == t.value
            && forall f, v, w | f in [t] + us && Allows(f, v, w) :: Allows(g.(valueKnown := false), v, w)
  {
    var last := |us| - 1;
    if last >= 0 {
      GatheredAllows(t, us[..last]);
      CapturedAllows(Gathered(t, us[..last]), us[last]);
      forall f | f in [t] + us
        ensures f in [t] + us[..last] || f == us[last]
      {
      }
      hide Allows;
      hide SaneFact;
      hide Captured;
    }
  }

  lemma CapturedAllows(t: Fact, b: Fact)
    requires SaneFact(t) && SaneFact(b)
    ensures var g := Captured(t, b);
            && SaneFact(g) && g.valueKnown == t.valueKnown && g.value == t.value
            && forall v, w | Allows(t.(valueKnown := false), v, w) || Allows(b, v, w) :: Allows(g.(valueKnown := false), v, w)
  {
  }

  // They are the least of that kind: marked initialized when all are, known to be in a range when all are,
  // with ends that some state has, and possibly zero only if one of the states is.
  lemma {:induction false} GatheredLeast(t: Fact, us: seq<Fact>)
    ensures var g := Gathered(t, us);
            && (g.initialized <==> forall f | f in [t] + us :: f.initialized)
            && (g.rangeKnown <==> forall f | f in [t] + us :: f.rangeKnown)
            && (g.mayZero <==> exists f :: f in [t] + us && f.mayZero)
            && (g.rangeKnown ==> (exists f :: f in [t] + us && f.lo == g.lo) && (exists f :: f in [t] + us && f.hi == g.hi))
  {
    var last := |us| - 1;
    if last >= 0 {
      GatheredLeast(t, us[..last]);
      var all, front := [t] + us, [t] + us[..last];
      assert all == front + [us[last]];
      assert forall f :: f in all <==> f in front || f == us[last];
    } else {
      assert t in [t] + us;
    }
  }

  // What any of these facts allows, x allows.
  ghost predicate Covers(x: Fact, fs: seq<Fact>) {
    forall f, v, w | f in fs && Allows(f, v, w) :: Allows(x, v, w)
  }

  // A fact that is right but for its value is right exactly when the others allow no other value.
  lemma CoversOnly(x: Fact, fs: seq<Fact>)
    requires forall f | f in fs :: SaneFact(f)
    requires forall f, v, w | f in fs && Allows(f, v, w) :: Allows(x, v, w) <==> (x.valueKnown ==> v == x.value)
    ensures Covers(x, fs) <==> !x.valueKnown || forall f | f in fs :: Only(f, x.value)
  {
    forall f | f in fs
      ensures Only(f, x.value) <==> forall v, w | Allows(f, v, w) :: v == x.value
    {
      OnlyMeans(f, x.value);
      assert forall v | Describes(f, v) :: Allows(f, v, true);
    }
    hide Only;
    hide Allows;
  }

  lemma CoversTakeOver(now: Fact, g: Fact, ts: seq<Fact>)
    requires SaneFact(now) && forall f | f in ts :: SaneFact(f)
    requires forall f, v, w | f in ts + [now] && Allows(f, v, w) :: Allows(g.(valueKnown := false), v, w)
    ensures Covers(TakeOver(now, g), ts + [now]) <==> !now.valueKnown || forall f | f in ts :: Only(f, now.value)
  {
    var x := TakeOver(now, g);
    forall f, v, w | f in ts + [now] && Allows(f, v, w)
      ensures Allows(x, v, w) <==> (x.valueKnown ==> v == x.value)
    {
      assert Allows(g.(valueKnown := false), v, w);
    }
    CoversOnly(x, ts + [now]);
    assert now.valueKnown ==> Only(now, now.value);
    hide Allows;
    hide Only;
  }

  // switchend for a variable that the table gained inside the switch, with facts `ts` at the breaks and
  // fall-throughs and `now` at the end: right exactly when no exact value is known at the end or none of
  // the others allows another.
  lemma {:induction false} SwitchEndNew(ts: seq<Fact>, now: Fact)
    requires ts != [] && SaneFact(now) && forall f | f in ts :: SaneFact(f)
    ensures Covers(TakeOver(now, Gathered(ts[0], ts[1..] + [now])), ts + [now])
       <==> !now.valueKnown || forall f | f in ts :: Only(f, now.value)
  {
    hide *;
    GatheredAllows(ts[0], ts[1..] + [now]);
    assert [ts[0]] + (ts[1..] + [now]) == ts + [now];
    CoversTakeOver(now, Gathered(ts[0], ts[1..] + [now]), ts);
  }

  // The same when the first state was captured before the variable was declared: its entry is blank.
  lemma {:induction false} SwitchEndLate(ts: seq<Fact>, now: Fact)
    requires SaneFact(now) && forall f | f in ts :: SaneFact(f)
    ensures Covers(TakeOver(now, Gathered(Blank(), ts + [now])), ts + [now])
       <==> !now.valueKnown || forall f | f in ts :: Only(f, now.value)
  {
    assert SaneFact(Blank());
    hide *;
    GatheredAllows(Blank(), ts + [now]);
    CoversTakeOver(now, Gathered(Blank(), ts + [now]), ts);
  }

  function Blank(): Fact {
    Fact(false, false, 0, 0, false, 0, false)
  }

  // And for a variable from before the switch, whose fact was `pre` then: right exactly when the values
  // known before and in the first captured state are not the same one, or the rest allow no other value.
  lemma {:induction false} SwitchEndOld(pre: Fact, ts: seq<Fact>, now: Fact)
    requires ts != [] && SaneFact(pre) && SaneFact(now) && forall f | f in ts :: SaneFact(f)
    ensures Covers(Merged(now, pre, Gathered(ts[0], ts[1..] + [now])), [pre] + ts + [now])
       <==> !(pre.valueKnown && ts[0].valueKnown && pre.value == ts[0].value)
            || forall f | f in ts[1..] + [now] :: Only(f, pre.value)
  {
    hide *;
    var g := Gathered(ts[0], ts[1..] + [now]);
    var fs := [pre] + ts + [now];
    GatheredAllows(ts[0], ts[1..] + [now]);
    assert [ts[0]] + (ts[1..] + [now]) == ts + [now];
    forall f | f in fs
      ensures SaneFact(f) && (f == pre || f in ts + [now])
    {
    }
    forall f, v, w | f in fs && Allows(f, v, w)
      ensures var m := Merged(now, pre, g); Allows(m, v, w) <==> (m.valueKnown ==> v == m.value)
    {
      JoinedAllows(now, pre, g, v, w);
    }
    CoversOnly(Merged(now, pre, g), fs);
    JoinedValue(now, pre, g);
    OnlyOwn(pre);
    OnlyOwn(ts[0]);
    assert forall f | f in fs :: f == pre || f == ts[0] || f in ts[1..] + [now];
    assert forall f | f in ts[1..] + [now] :: f in fs;
  }

  lemma JoinedAllows(now: Fact, pre: Fact, g: Fact, v: int, w: bool)
    requires SaneFact(pre) && SaneFact(g) && (Allows(pre, v, w) || Allows(g.(valueKnown := false), v, w))
    ensures var m := Merged(now, pre, g); Allows(m, v, w) <==> (m.valueKnown ==> v == m.value)
  {
  }

  lemma JoinedValue(now: Fact, pre: Fact, g: Fact)
    ensures var m := Merged(now, pre, g);
            && (m.valueKnown <==> pre.valueKnown && g.valueKnown && pre.value == g.value)
            && (m.valueKnown ==> m.value == pre.value)
  {
  }

  lemma OnlyOwn(f: Fact)
    ensures f.valueKnown ==> Only(f, f.value)
  {
  }

  // A variable declared with 2 behind the switch line, and a last case that gives it 1: behind the
  // switch its range is [1, 2], but its value is said to be 1.
  lemma SwitchEndStale()
    ensures var two, one := Fact(true, true, 2, 2, true, 2, false), Fact(true, true, 1, 1, true, 1, false);
            var x := TakeOver(one, Gathered(two, [one]));
            x.rangeKnown && x.lo == 1 && x.hi == 2 && Describes(two, 2) && !Describes(x, 2)
  {
    assert [Fact(true, true, 1, 1, true, 1, false)][..0] == [];
  }

  // The first case line captures the state before the switch.  So with x = 1 there, one case that sets
  // x to 2 and a break are enough: behind the switch x is said to be 1 and nothing else.
  lemma SwitchEndForgets()
    ensures var one, two := Fact(true, true, 1, 1, true, 1, false), Fact(true, true, 2, 2, false, 1, false);
            var x := Merged(two, one, Gathered(one, [two, two]));
            x.valueKnown && x.value == 1 && x.rangeKnown && x.lo == x.hi == 1 && Describes(two, 2) && !Describes(x, 2)
  {
    var one, two := Fact(true, true, 1, 1, true, 1, false), Fact(true, true, 2, 2, false, 1, false);
    assert [two, two][..1] == [two] && [two][..0] == [];
    assert Gathered(one, [two]) == Captured(Gathered(one, []), two);
  }

  // ---- exact values inside their ranges ----

  // Narrowing keeps the known value of a variable inside its range.  A constant keeps its value, and so
  // it does exactly when the value is in the new range; it is on every branch that the value can take.
  lemma RefineConsistent(f: Fact, isConst: bool, op: char, olo: int, ohi: int, truth: bool, widen: bool)
    requires CR.ConsistentFact(f) && MIN <= olo <= ohi <= MAX
    ensures var r := Refine(f, isConst, op, olo, ohi, truth, widen);
            CR.ConsistentFact(r.f) <==> (isConst && f.valueKnown && r.code == 1 ==> r.f.lo <= f.value <= r.f.hi)
    ensures IsCompare(op) && (exists c | olo <= c <= ohi :: (Compare(op, f.value, c) != 0) == truth)
            && (f.value == 0 ==> f.mayZero)
            ==> CR.ConsistentFact(Refine(f, isConst, op, olo, ohi, truth, widen).f)
  {
    RefineInside(f, isConst, op, olo, ohi, truth, widen);
    if f.valueKnown && IsCompare(op) && (f.value == 0 ==> f.mayZero) {
      forall c | olo <= c <= ohi && (Compare(op, f.value, c) != 0) == truth
        ensures CR.ConsistentFact(Refine(f, isConst, op, olo, ohi, truth, widen).f)
      {
        RefineTaken(f, isConst, op, olo, ohi, truth, widen, c);
      }
    }
    hide Compare;
    hide Refine;
    hide CR.ConsistentFact;
  }

  lemma RefineInside(f: Fact, isConst: bool, op: char, olo: int, ohi: int, truth: bool, widen: bool)
    requires CR.ConsistentFact(f) && MIN <= olo <= ohi <= MAX
    ensures var r := Refine(f, isConst, op, olo, ohi, truth, widen);
            CR.ConsistentFact(r.f) <==> (isConst && f.valueKnown && r.code == 1 ==> r.f.lo <= f.value <= r.f.hi)
  {
    RefineSane(f, isConst, op, olo, ohi, truth, widen);
    hide CutFor;
  }

  lemma RefineTaken(f: Fact, isConst: bool, op: char, olo: int, ohi: int, truth: bool, widen: bool, c: int)
    requires CR.ConsistentFact(f) && f.valueKnown && IsCompare(op) && (f.value == 0 ==> f.mayZero)
    requires MIN <= olo <= c <= ohi <= MAX && (Compare(op, f.value, c) != 0) == truth
    ensures CR.ConsistentFact(Refine(f, isConst, op, olo, ohi, truth, widen).f)
  {
    RefineSane(f, isConst, op, olo, ohi, truth, widen);
    RefineDescribes(f, isConst, op, olo, ohi, truth, widen, f.value, c);
    hide Refine;
  }

  // Joins keep it without more.
  lemma MergeConsistent(now: Fact, a: Fact, b: Fact)
    requires CR.ConsistentFact(a) && CR.ConsistentFact(b)
    ensures CR.ConsistentFact(Merged(now, a, b)) && CR.ConsistentFact(Captured(a, b))
  {
  }

  // The value that a taken-over range stands beside is in it exactly when the state does not exclude it.
  lemma TakeOverConsistent(now: Fact, b: Fact)
    requires SaneFact(now) && SaneFact(b)
    ensures CR.ConsistentFact(TakeOver(now, b)) <==> !now.valueKnown || CR.ConsistentFact(b.(valueKnown := true, value := now.value))
  {
  }

  // The line `(x c ?)` of a switch gives x the range of its constant and leaves the known value alone.
  function CaseLine(f: Fact, c: int): Fact {
    f.(rangeKnown := true, lo := c, hi := c)
  }

  // That is right for the values that take the case; but a known value stays inside the range exactly
  // when it is not another one.
  lemma CaseLineConsistent(f: Fact, c: int)
    requires CR.ConsistentFact(f) && InS8(c)
    ensures forall v | Describes(f, v) && v == c :: Describes(CaseLine(f, c), v)
    ensures CR.ConsistentFact(CaseLine(f, c)) <==> !f.valueKnown || f.value == c
  {
  }

  // x known to be 5, in the case for 3: the constant of x is 5, its interval is [3, 3].
  lemma CaseLineSplits()
    ensures var f := CaseLine(Fact(true, true, 5, 5, true, 5, false), 3);
            var sc, ts := Scope(["x"], [f]), [Atom(Id("x"))];
            EvalExpr(ts, sc) == Const(5) && Eval(ts, sc) == Ranged(Known(3, 3), false)
  {
  }

  // ---- whole states ----

  // What either state describes the join describes.
  lemma MergeStatesSound(now: seq<Fact>, a: seq<Fact>, b: seq<Fact>, s: Store)
    requires |now| == |a| == |b| && (StateAllows(a, s) || StateAllows(b, s))
    requires forall i | 0 <= i < |now| :: SaneFact(a[i]) && SaneFact(b[i])
    ensures StateAllows(MergeStates(now, a, b), s)
  {
    hide Allows;
    hide Merged;
    forall i | 0 <= i < |now|
      ensures Allows(MergeStates(now, a, b)[i], s.vals[i], s.written[i])
    {
      MergeSound(now[i], a[i], b[i], s.vals[i], s.written[i]);
    }
  }

  // Of states that can occur, the join marks exactly the variables that all of them have written.
  lemma MergeStatesMark(now: seq<Fact>, a: seq<Fact>, b: seq<Fact>, i: nat, s: Store, t: Store)
    requires i < |now| == |a| == |b| && StateAllows(a, s) && StateAllows(b, t)
    ensures MergeStates(now, a, b)[i].initialized
       <==> forall u: Store | StateAllows(a, u) || StateAllows(b, u) :: u.written[i]
  {
    assert Allows(a[i], s.vals[i], s.written[i]) && Allows(b[i], t.vals[i], t.written[i]);
    if !a[i].initialized { Unwritten(a, i, s); }
    if !b[i].initialized { Unwritten(b, i, t); }
    forall u: Store | StateAllows(a, u) || StateAllows(b, u)
      ensures a[i].initialized && b[i].initialized ==> u.written[i]
    {
    }
    hide Allows;
  }

  lemma Unwritten(a: seq<Fact>, i: nat, s: Store)
    requires i < |a| && StateAllows(a, s) && !a[i].initialized
    ensures StateAllows(a, s.(written := s.written[i := false]))
  {
  }

  // A point of the program: whether it can be reached, and what is known there.
  datatype Point = Point(reachable: bool, facts: seq<Fact>)

  ghost predicate SanePoint(p: Point) {
    forall i | 0 <= i < |p.facts| :: SaneFact(p.facts[i])
  }

  ghost predicate Reaches(p: Point, s: Store) {
    p.reachable && StateAllows(p.facts, s)
  }

  // endif: the branches that end are joined.
  function EndIf(now: seq<Fact>, a: Point, b: Point): Point {
    if a.reachable && b.reachable then Point(true, MergeStates(now, a.facts, b.facts))
    else if a.reachable then a
    else if b.reachable then b
    else Point(false, now)
  }

  // The analysis of a branch body follows what the body may do to the variables.
  ghost predicate Follows(analysis: Point -> Point, body: (Store, Store) -> bool) {
    && (forall p | SanePoint(p) :: SanePoint(analysis(p)) && |analysis(p).facts| == |p.facts|)
    && (forall p, v, w | SanePoint(p) && Reaches(p, v) && body(v, w) :: Reaches(analysis(p), w))
  }

  // An if from end to end.  From any state described before `if (x op c)`, through whichever branch
  // it takes, with any bodies whose analysis follows them, comes a state described behind the endif.
  lemma IfSound(facts: seq<Fact>, k: nat, isConst: bool, op: char, olo: int, ohi: int, s: Store, c: int,
                yes: Point -> Point, no: Point -> Point,
                yesBody: (Store, Store) -> bool, noBody: (Store, Store) -> bool, now: seq<Fact>, after: Store)
    requires k < |facts| == |now| && SanePoint(Point(true, facts)) && StateAllows(facts, s)
    requires MIN <= olo <= c <= ohi <= MAX && IsCompare(op)
    requires Follows(yes, yesBody) && Follows(no, noBody)
    requires if Compare(op, s.vals[k], c) != 0 then yesBody(s, after) else noBody(s, after)
    ensures var t, e := Refine(facts[k], isConst, op, olo, ohi, true, false), Refine(facts[k], isConst, op, olo, ohi, false, false);
            Reaches(EndIf(now, yes(Point(t.code != 2, facts[k := t.f])), no(Point(e.code != 2, facts[k := e.f]))), after)
  {
    assert |s.vals| == |facts|;
    hide *;
    var truth := Compare(op, s.vals[k], c) != 0;
    var p := Taken(facts, k, isConst, op, olo, ohi, true, s, c);
    var q := Taken(facts, k, isConst, op, olo, ohi, false, s, c);
    FollowsSane(yes, yesBody, p);
    FollowsSane(no, noBody, q);
    if truth { FollowsOn(yes, yesBody, p, s, after); } else { FollowsOn(no, noBody, q, s, after); }
    EndIfReaches(now, yes(p), no(q), after);
  }

  // The start of a branch, reached when the comparison goes its way.
  lemma Taken(facts: seq<Fact>, k: nat, isConst: bool, op: char, olo: int, ohi: int, truth: bool, s: Store, c: int)
    returns (p: Point)
    requires k < |facts| && SanePoint(Point(true, facts)) && StateAllows(facts, s)
    requires MIN <= olo <= c <= ohi <= MAX && IsCompare(op)
    ensures var r := Refine(facts[k], isConst, op, olo, ohi, truth, false); p == Point(r.code != 2, facts[k := r.f])
    ensures SanePoint(p) && |p.facts| == |facts| && ((Compare(op, s.vals[k], c) != 0) == truth ==> Reaches(p, s))
  {
    RefineSane(facts[k], isConst, op, olo, ohi, truth, false);
    if (Compare(op, s.vals[k], c) != 0) == truth {
      RefineSound(facts[k], isConst, op, olo, ohi, truth, false, s.vals[k], s.written[k], c);
    }
    hide Refine;
    hide Describes;
    hide SaneFact;
    var r := Refine(facts[k], isConst, op, olo, ohi, truth, false);
    p := Point(r.code != 2, facts[k := r.f]);
  }

  lemma FollowsSane(analysis: Point -> Point, body: (Store, Store) -> bool, p: Point)
    requires Follows(analysis, body) && SanePoint(p)
    ensures SanePoint(analysis(p)) && |analysis(p).facts| == |p.facts|
  {
  }

  lemma FollowsOn(analysis: Point -> Point, body: (Store, Store) -> bool, p: Point, v: Store, w: Store)
    requires Follows(analysis, body) && SanePoint(p) && Reaches(p, v) && body(v, w)
    ensures Reaches(analysis(p), w)
  {
  }

  lemma EndIfReaches(now: seq<Fact>, a: Point, b: Point, s: Store)
    requires |now| == |a.facts| == |b.facts| && SanePoint(a) && SanePoint(b) && (Reaches(a, s) || Reaches(b, s))
    ensures Reaches(EndIf(now, a, b), s)
  {
    if a.reachable && b.reachable { MergeStatesSound(now, a.facts, b.facts, s); }
  }
}
