// The data section: where the compiler places a variable, where the assembler puts its bytes, and the
// address that an instruction's data operand gets.
module DataSection {
  import opened Bytes

  datatype Type = TByte | TWord | TDouble32 | TQuad | TFloat

  // One definition: `count` elements, of which the first ones are given.
  datatype Variable = Variable(ty: Type, count: nat, name: string, vals: seq<int>)

  const MAXDATAINFO: nat := 8192

  datatype Info = Info(ty: Type, size: nat, offset: nat, end: nat, name: string)

  function Size(t: Type): nat {
    match t
    case TByte => 1 case TWord => 2 case TDouble32 => 4 case TQuad => 8 case TFloat => 8
  }

  // BYTE .. DOUBLEFLOAT
  function Code(t: Type): byte {
    match t
    case TByte => 8 case TWord => 9 case TDouble32 => 10 case TQuad => 11 case TFloat => 12
  }

  function Total(v: Variable): nat {
    v.count * Size(v.ty)
  }

  // The compiler's offset: each variable starts where the one before it ends.
  function Offset(vars: seq<Variable>): nat {
    var last := |vars| - 1;
    if last < 0 then 0 else Offset(vars[..last]) + Total(vars[last])
  }

  ghost predicate VarsOk(vars: seq<Variable>) {
    forall k | 0 <= k < |vars| :: |vars[k].vals| <= vars[k].count
  }

  function Words(vals: seq<int>, n: nat): seq<byte> {
    var last := |vals| - 1;
    if last < 0 then [] else Words(vals[..last], n) + Word(vals[last], n)
  }

  function Zeros(n: nat): seq<byte> {
    seq(n, _ => 0)
  }

  // The bytes of a variable in the object file: its values in big-endian order, then zeros.
  ghost function VarBytes(v: Variable): (w: seq<byte>)
    requires |v.vals| <= v.count
    ensures |w| == Total(v)
  {
    WordsFit(v);
    Words(v.vals, Size(v.ty)) + Zeros(Total(v) - |Words(v.vals, Size(v.ty))|)
  }

  lemma {:induction false} WordsLength(vals: seq<int>, n: nat)
    ensures |Words(vals, n)| == |vals| * n
  {
    if |vals| > 0 { WordsLength(vals[..|vals| - 1], n); }
  }

  lemma WordsFit(v: Variable)
    requires |v.vals| <= v.count
    ensures |Words(v.vals, Size(v.ty))| <= Total(v)
  {
    WordsLength(v.vals, Size(v.ty));
    Fewer(|v.vals|, v.count, Size(v.ty));
  }

  lemma Fewer(a: nat, b: nat, n: nat)
    requires a <= b
    ensures a * n <= b * n
  {
  }

  lemma Step(k: nat, count: nat, n: nat)
    requires k < count
    ensures 0 <= k * n && k * n + n == (k + 1) * n <= count * n
  {
    Fewer(k + 1, count, n);
  }

  ghost function Image(vars: seq<Variable>): (w: seq<byte>)
    requires VarsOk(vars)
    ensures |w| == Offset(vars)
  {
    var last := |vars| - 1;
    if last < 0 then [] else Image(vars[..last]) + VarBytes(vars[last])
  }

  // The variables' bytes after the eight of the size word, and nothing after them.
  ghost predicate Filled(vars: seq<Variable>, d: seq<byte>) {
    && VarsOk(vars) && 8 + Offset(vars) <= |d| && d[8..8 + Offset(vars)] == Image(vars)
    && forall k | 8 + Offset(vars) <= k < |d| :: d[k] == 0
  }

  // The assembler's table after these definitions; its offsets count the eight bytes of the size word.
  ghost function Table(vars: seq<Variable>): (t: seq<Info>)
    ensures |t| == |vars|
  {
    var last := |vars| - 1;
    if last < 0 then []
    else
      var at := 8 + Offset(vars[..last]);
      Table(vars[..last]) + [Info(vars[last].ty, Total(vars[last]), at, at + Total(vars[last]), vars[last].name)]
  }

  // The data operand of an instruction: the first entry of that name, less the size word.
  function Operand(t: seq<Info>, name: string): int {
    if t == [] then -1
    else if t[0].name == name then t[0].offset - 8
    else Operand(t[1..], name)
  }

  lemma {:induction false} TableAt(vars: seq<Variable>, k: nat)
    requires k < |vars|
    ensures var e := Table(vars)[k];
            && e.name == vars[k].name && e.ty == vars[k].ty && e.size == Total(vars[k])
            && e.offset == 8 + Offset(vars[..k]) && e.end == e.offset + e.size
    ensures Offset(vars[..k]) + Total(vars[k]) <= Offset(vars)
  {
    var last := |vars| - 1;
    if k < last {
      TableAt(vars[..last], k);
      assert vars[..last][..k] == vars[..k];
    }
  }

  lemma {:induction false} OperandFound(t: seq<Info>, k: nat)
    requires k < |t| && forall j | 0 <= j < k :: t[j].name != t[k].name
    ensures Operand(t, t[k].name) == t[k].offset - 8
  {
    if k > 0 { OperandFound(t[1..], k - 1); }
  }

  // The compiler and the assembler agree on where a variable is, and variables do not overlap.
  lemma LayoutAgrees(vars: seq<Variable>, k: nat)
    requires k < |vars| && forall j | 0 <= j < k :: vars[j].name != vars[k].name
    ensures Operand(Table(vars), vars[k].name) == Offset(vars[..k])
    ensures forall j | k < j < |vars| :: Offset(vars[..k]) + Total(vars[k]) <= Offset(vars[..j])
  {
    TableAt(vars, k);
    forall j | 0 <= j < k
      ensures Table(vars)[j].name != vars[k].name
    {
      TableAt(vars, j);
    }
    OperandFound(Table(vars), k);
    forall j | k < j < |vars|
      ensures Offset(vars[..k]) + Total(vars[k]) <= Offset(vars[..j])
    {
      TableAt(vars[..j], k);
      assert vars[..j][..k] == vars[..k];
    }
  }

  // ---- the guard on writing ----

  // How much of the buffer a write asks for behind its place.  For a single value the guard multiplies
  // the size of an element by the size of the whole variable; the values of a list count one by one.
  function Asked(vals: seq<int>, n: nat, size: nat): nat {
    if |vals| == 1 then n * size else n
  }

  // One write: without room nothing is written, and that is no error.
  ghost function Put(d: seq<byte>, at: nat, w: seq<byte>, asked: nat): (r: seq<byte>)
    requires |w| <= asked
    ensures |r| == |d|
  {
    if at + asked < |d| then d[..at] + w + d[at + |w|..] else d
  }

  // Where value k of a list goes.
  function Spot(at: nat, k: nat, n: nat): nat {
    at + k * n
  }

  ghost function PutAll(d: seq<byte>, at: nat, vals: seq<int>, n: nat, asked: nat): (r: seq<byte>)
    requires n <= asked
    ensures |r| == |d|
  {
    var last := |vals| - 1;
    if last < 0 then d else Put(PutAll(d, at, vals[..last], n, asked), Spot(at, last, n), Word(vals[last], n), asked)
  }

  // Value k of a variable at this place is written.
  predicate Lands(v: Variable, at: nat, k: nat, max: nat) {
    Spot(at, k, Size(v.ty)) + Asked(v.vals, Size(v.ty), Total(v)) < max
  }

  function LandedValue(v: Variable, at: nat, k: nat, max: nat): int
    requires k < |v.vals|
  {
    if Lands(v, at, k, max) then v.vals[k] else 0
  }

  // What of the variable reaches a buffer of zeros.
  function Landed(v: Variable, at: nat, max: nat): Variable {
    v.(vals := seq(|v.vals|, k requires 0 <= k < |v.vals| => LandedValue(v, at, k, max)))
  }

  function LandedAll(vars: seq<Variable>, max: nat): (ws: seq<Variable>)
    ensures |ws| == |vars|
  {
    var last := |vars| - 1;
    if last < 0 then [] else LandedAll(vars[..last], max) + [Landed(vars[last], 8 + Offset(vars[..last]), max)]
  }

  // Every declared value other than zero is written.
  ghost predicate AllLand(vars: seq<Variable>, max: nat) {
    forall k | 0 <= k < |vars| :: LandsWhole(vars[k], 8 + Offset(vars[..k]), max)
  }

  ghost predicate LandsWhole(v: Variable, at: nat, max: nat) {
    forall j | 0 <= j < |v.vals| && v.vals[j] != 0 :: Lands(v, at, j, max)
  }

  lemma {:induction false} LandedAt(vars: seq<Variable>, max: nat, k: nat)
    requires k < |vars|
    ensures LandedAll(vars, max)[k] == Landed(vars[k], 8 + Offset(vars[..k]), max)
  {
    var last := |vars| - 1;
    if k < last {
      LandedAt(vars[..last], max, k);
      assert vars[..last][..k] == vars[..k];
    }
  }

  // Names, places and sizes do not depend on what lands.
  lemma {:induction false} LandedShape(vars: seq<Variable>, max: nat)
    ensures Offset(LandedAll(vars, max)) == Offset(vars) && Table(LandedAll(vars, max)) == Table(vars)
    ensures VarsOk(vars) ==> VarsOk(LandedAll(vars, max))
  {
    hide Lands;
    hide Total;
    hide Offset;
    hide Table;
    hide VarsOk;
    var last := |vars| - 1;
    if last >= 0 {
      LandedShape(vars[..last], max);
      var w := Landed(vars[last], 8 + Offset(vars[..last]), max);
      SameShape(vars[..last], LandedAll(vars[..last], max), vars[last], w);
      SameFront(vars[..last], LandedAll(vars[..last], max), vars[last], w);
      assert vars == vars[..last] + [vars[last]];
    }
  }

  lemma {:induction false} SameShape(us: seq<Variable>, ws: seq<Variable>, v: Variable, w: Variable)
    requires Offset(us) == Offset(ws) && Table(us) == Table(ws)
    requires w.ty == v.ty && w.count == v.count && w.name == v.name
    ensures Offset(us + [v]) == Offset(ws + [w]) && Table(us + [v]) == Table(ws + [w])
  {
    assert Total(v) == Total(w);
    OffsetGrows(us, v);
    OffsetGrows(ws, w);
    TableGrows(us, v);
    TableGrows(ws, w);
    hide *;
  }

  lemma OffsetGrows(vars: seq<Variable>, v: Variable)
    ensures Offset(vars + [v]) == Offset(vars) + Total(v)
  {
    hide Total;
    assert (vars + [v])[..|vars|] == vars;
  }

  lemma {:induction false} SameFront(us: seq<Variable>, ws: seq<Variable>, v: Variable, w: Variable)
    requires VarsOk(us) ==> VarsOk(ws)
    requires w.count == v.count && |w.vals| == |v.vals|
    ensures VarsOk(us + [v]) ==> VarsOk(ws + [w])
  {
    if VarsOk(us + [v]) {
      assert forall k | 0 <= k < |us| :: (us + [v])[k] == us[k];
      assert (us + [v])[|us|] == v;
    }
  }

  lemma {:induction false} LandedExact(vars: seq<Variable>, max: nat)
    ensures LandedAll(vars, max) == vars <==> AllLand(vars, max)
  {
    forall k | 0 <= k < |vars|
      ensures LandedAll(vars, max)[k] == vars[k] <==> LandsWhole(vars[k], 8 + Offset(vars[..k]), max)
    {
      LandedAt(vars, max, k);
      LandedOne(vars[k], 8 + Offset(vars[..k]), max);
    }
    hide Lands;
    hide Offset;
    hide LandedAll;
  }

  lemma LandedOne(v: Variable, at: nat, max: nat)
    ensures Landed(v, at, max) == v <==> LandsWhole(v, at, max)
  {
    hide Lands;
    var w := Landed(v, at, max);
    if LandsWhole(v, at, max) {
      assert w.vals == v.vals;
    } else {
      var j :| 0 <= j < |v.vals| && v.vals[j] != 0 && !Lands(v, at, j, max);
      assert w.vals[j] == 0;
    }
  }

  // A single int64 value is written when eight times the bytes of its variable are there.
  lemma {:induction false} SingleLands(v: Variable, at: nat, max: nat)
    requires v.ty == TQuad && |v.vals| == 1 && v.vals[0] != 0
    ensures LandsWhole(v, at, max) <==> at + 64 * v.count < max
    ensures Landed(v, at, max) == if at + 64 * v.count < max then v else v.(vals := [0])
  {
    FirstLands(v, at, max);
    hide Lands;
    var w := Landed(v, at, max);
    assert w.vals[0] == if at + 64 * v.count < max then v.vals[0] else 0;
    assert w.vals == if at + 64 * v.count < max then v.vals else [0];
  }

  lemma FirstLands(v: Variable, at: nat, max: nat)
    requires v.ty == TQuad && |v.vals| == 1
    ensures Lands(v, at, 0, max) <==> at + 64 * v.count < max
  {
  }

  // So `Q, 1, x` and `@, 0, 5` in a data memory of 16 to 72 bytes are accepted, and x holds 0.
  lemma {:induction false} SingleValueLost(v: Variable, max: nat)
    requires v == Variable(TQuad, 1, "x", [5])
    ensures 8 + Offset([v]) <= max <==> 16 <= max
    ensures AllLand([v], max) <==> 72 < max
    ensures max <= 72 ==> LandedAll([v], max) == [v.(vals := [0])]
  {
    SingleLands(v, 8, max);
    OffsetGrows([], v);
    assert [] + [v] == [v] && [v][..0] == [] && Offset([]) == 0 && Total(v) == 8;
    LandedAt([v], max, 0);
    SoleLands(v, max);
    hide *;
    assert max <= 72 ==> LandedAll([v], max) == [LandedAll([v], max)[0]];
  }

  lemma SoleLands(v: Variable, max: nat)
    ensures AllLand([v], max) <==> LandsWhole(v, 8, max)
  {
    assert [v][..0] == [] && Offset([]) == 0 && [v][0] == v;
    hide LandsWhole;
  }

  lemma {:induction false} ZeroWord(n: nat)
    ensures Word(0, n) == Zeros(n)
  {
    if n > 0 {
      ZeroWord(n - 1);
      assert Zeros(n) == Zeros(n - 1) + [0];
    }
  }

  // In a buffer of zeros the writes leave the words of the values that land and zeros for the others.
  lemma {:induction false} PutOnZeros(d: seq<byte>, at: nat, vals: seq<int>, kept: seq<int>, n: nat, asked: nat)
    requires n <= asked && |kept| == |vals| && Spot(at, |vals|, n) <= |d|
    requires forall k | at <= k < |d| :: d[k] == 0
    requires forall k | 0 <= k < |vals| :: kept[k] == if Spot(at, k, n) + asked < |d| then vals[k] else 0
    ensures Written(d, at, Words(kept, n), PutAll(d, at, vals, n, asked))
  {
    var last := |vals| - 1;
    SpotUp(at, |vals|, n);
    if last < 0 {
      NothingWritten(kept, n, d, at);
    } else {
      SpotUp(at, last, n);
      hide Spot;
      PutOnZeros(d, at, vals[..last], kept[..last], n, asked);
      WordsEnd(kept[..last], at, n);
      ZeroWord(n);
      hide Words;
      hide Word;
      PutOne(d, at, Words(kept[..last], n), PutAll(d, at, vals[..last], n, asked), Word(vals[last], n), asked,
             Word(kept[last], n), Spot(at, last, n));
      WordsSnoc(kept[..last], kept[last], n);
      assert kept[..last] + [kept[last]] == kept;
    }
  }

  lemma WordsSnoc(vals: seq<int>, x: int, n: nat)
    ensures Words(vals + [x], n) == Words(vals, n) + Word(x, n)
  {
    assert (vals + [x])[..|vals|] == vals;
  }

  lemma SpotUp(at: nat, k: nat, n: nat)
    ensures Spot(at, 0, n) == at <= Spot(at, k, n) && Spot(at, k + 1, n) == Spot(at, k, n) + n
  {
    Step(k, k + 1, n);
  }

  lemma WordsEnd(vals: seq<int>, at: nat, n: nat)
    ensures at + |Words(vals, n)| == Spot(at, |vals|, n)
  {
    WordsLength(vals, n);
  }

  lemma {:induction false} PutOne(d: seq<byte>, at: nat, w: seq<byte>, was: seq<byte>, x: seq<byte>, asked: nat, y: seq<byte>, p: nat)
    requires |x| == |y| <= asked && at + |w| == p && Written(d, at, w, was) && p + |x| <= |d|
    requires forall k | at <= k < |d| :: d[k] == 0
    requires y == if p + asked < |d| then x else Zeros(|x|)
    ensures Written(d, at, w + y, Put(was, p, x, asked))
  {
    var now := Put(was, p, x, asked);
    assert Written(was, p, y, now);
    WrittenOn(d, at, w, was, y, now);
  }

  lemma NothingWritten(vals: seq<int>, n: nat, was: seq<byte>, at: nat)
    requires at <= |was|
    ensures Words(vals[..0], n) == [] && Written(was, at, [], was)
  {
  }

  // Placing a variable's values after the others extends the image; what follows stays zero.
  lemma {:induction false} Placed(vars: seq<Variable>, v: Variable, was: seq<byte>, now: seq<byte>)
    requires |v.vals| <= v.count && 8 + Offset(vars) + Total(v) <= |was|
    requires Filled(vars, was)
    requires Written(was, 8 + Offset(vars), Words(v.vals, Size(v.ty)), now)
    ensures var ws := vars + [v]; var end := 8 + Offset(ws);
            && end == 8 + Offset(vars) + Total(v) && Filled(ws, now)
  {
    hide *;
    FilledParts(vars, was);
    var image, w, n := Image(vars), Words(v.vals, Size(v.ty)), Total(v);
    ImageSnoc(vars, v);
    WrittenParts(was, 8 + Offset(vars), w, now);
    Extend(was, image, w, n);
    FilledWith(vars + [v], now, image + (w + Zeros(n - |w|)));
  }

  lemma FilledParts(vars: seq<Variable>, d: seq<byte>)
    requires Filled(vars, d)
    ensures VarsOk(vars) && |Image(vars)| == Offset(vars) && 8 + Offset(vars) <= |d| && d[8..8 + Offset(vars)] == Image(vars)
    ensures forall k | 8 + Offset(vars) <= k < |d| :: d[k] == 0
  {
  }

  lemma WrittenParts(was: seq<byte>, at: nat, w: seq<byte>, now: seq<byte>)
    requires Written(was, at, w, now)
    ensures at + |w| <= |was| && now == was[..at] + w + was[at + |w|..]
  {
  }

  lemma ImageSnoc(vars: seq<Variable>, v: Variable)
    requires VarsOk(vars) && |v.vals| <= v.count
    ensures var ws := vars + [v]; var w := Words(v.vals, Size(v.ty));
            && VarsOk(ws) && |w| <= Total(v) && Offset(ws) == Offset(vars) + Total(v)
            && Image(ws) == Image(vars) + (w + Zeros(Total(v) - |w|)) && |Image(vars)| == Offset(vars)
  {
    WordsFit(v);
    assert (vars + [v])[..|vars|] == vars;
  }

  lemma FilledWith(ws: seq<Variable>, d: seq<byte>, image: seq<byte>)
    requires VarsOk(ws) && Image(ws) == image && 8 + |image| <= |d| && d[8..8 + |image|] == image
    requires forall k | 8 + |image| <= k < |d| :: d[k] == 0
    ensures Filled(ws, d)
  {
  }

  lemma {:induction false} TableGrows(vars: seq<Variable>, v: Variable)
    ensures Table(vars + [v])
         == Table(vars) + [Info(v.ty, Total(v), 8 + Offset(vars), 8 + Offset(vars) + Total(v), v.name)]
  {
    hide Total;
    hide Offset;
    assert (vars + [v])[..|vars|] == vars;
  }

  lemma {:induction false} Extend(was: seq<byte>, image: seq<byte>, w: seq<byte>, n: nat)
    requires |w| <= n && 8 + |image| + n <= |was| && was[8..8 + |image|] == image
    requires forall k | 8 + |image| <= k < |was| :: was[k] == 0
    ensures var at := 8 + |image|; var now := was[..at] + w + was[at + |w|..];
            && |now| == |was| && now[8..at + n] == image + (w + Zeros(n - |w|)) && |Zeros(n - |w|)| == n - |w|
            && forall k | at + n <= k < |now| :: now[k] == 0
  {
    var at := 8 + |image|;
    var now := was[..at] + w + was[at + |w|..];
    assert now[at..at + n] == w + Zeros(n - |w|);
    assert now[8..at] == image;
    assert now[8..at + n] == now[8..at] + now[at..at + n];
  }

  class Section {
    const data: array<byte>
    var dataInd: nat
    var info: seq<Info>
    ghost var vars: seq<Variable>

    ghost predicate Valid()
      reads this, data
    {
      VarsOk(vars) && info == Table(vars) && dataInd == 8 + Offset(vars) && Filled(vars, data[..])
    }

    constructor (dataMax: nat)
      requires 8 <= dataMax
      ensures Valid() && fresh(data) && data.Length == dataMax && vars == []
    {
      data := new byte[dataMax](_ => 0);
      dataInd := 8;
      info := [];
      vars := [];
    }

    // "Q, count, name"; the guard on the table lets one definition more through than the array has room
    // for.
    method Declare(v: Variable) returns (ok: bool)
      modifies this`info
      ensures ok <==> |old(info)| <= MAXDATAINFO && dataInd + Total(v) <= data.Length
      ensures ok ==> info == old(info) + [Info(v.ty, Total(v), dataInd, dataInd + Total(v), v.name)]
      ensures !ok ==> info == old(info)
    {
      if |info| > MAXDATAINFO { return false; }
      var size := v.count * Size(v.ty);
      if dataInd + size > data.Length { return false; }
      info := info + [Info(v.ty, size, dataInd, dataInd + size, v.name)];
      return true;
    }

    // "@, offset, value, ..." for the variable declared last; a value without room is left out.
    method Place(offset: nat, vals: seq<int>)
      requires |info| > 0 && (|vals| == 1 ==> info[|info| - 1].size > 0)
      modifies this, data
      ensures vars == old(vars)
      ensures var last := old(info[|info| - 1]); var n := Size(last.ty);
              && info == old(info)[|old(info)| - 1 := last.(offset := offset + 8)]
              && dataInd == last.end
              && n <= Asked(vals, n, last.size)
              && data[..] == PutAll(old(data[..]), offset + 8, vals, n, Asked(vals, n, last.size))
    {
      var last := info[|info| - 1];
      var n := Size(last.ty);
      var asked := Asked(vals, n, last.size);
      AskedEnough(vals, n, last.size);
      var at := offset + 8;
      ghost var was := data[..];
      hide *;
      PutNone(was, at, vals, n, asked);
      for j := 0 to |vals|
        invariant info == old(info) && vars == old(vars) && at == Spot(offset + 8, j, n)
        invariant data[..] == PutAll(was, offset + 8, vals[..j], n, asked)
      {
        ghost var before := data[..];
        if at + asked < data.Length { WriteBytes(data, at, Word(vals[j], n)); }
        PutNext(was, offset + 8, vals, n, asked, j, before, data[..]);
        at := at + n;
      }
      assert vals[..|vals|] == vals;
      info := info[|info| - 1 := last.(offset := offset + 8)];
      dataInd := last.end;
    }

    // The two lines that the compiler writes for a variable, with the compiler's offset.
    method Define(v: Variable, offset: nat) returns (ok: bool)
      requires Valid() && |v.vals| <= v.count && offset == Offset(vars)
      modifies this, data
      ensures ok <==> |old(vars)| <= MAXDATAINFO && 8 + Offset(old(vars)) + Total(v) <= data.Length
      ensures ok ==> Valid() && vars == old(vars) + [Landed(v, 8 + offset, data.Length)]
    {
      hide *;
      Parts();
      ghost var was, table := data[..], info;
      ghost var w := Landed(v, 8 + offset, data.Length);
      ok := Declare(v);
      if ok {
        SizeSome(v);
        Place(offset, v.vals);
        Extended(vars, v, was, data[..]);
        assert info == table + [Info(v.ty, Total(v), 8 + offset, 8 + offset + Total(v), v.name)];
        vars := vars + [w];
        Whole();
      }
    }

    lemma Parts()
      requires Valid()
      ensures VarsOk(vars) && info == Table(vars) && dataInd == 8 + Offset(vars) && Filled(vars, data[..]) && |info| == |vars|
    {
    }

    lemma Whole()
      requires VarsOk(vars) && info == Table(vars) && dataInd == 8 + Offset(vars) && Filled(vars, data[..])
      ensures Valid()
    {
    }

    // The data block: all variables one after the other, each where the one before it ends.
    method DefineAll(vs: seq<Variable>) returns (ok: bool)
      requires Valid() && vars == [] && VarsOk(vs)
      modifies this, data
      ensures ok <==> |vs| <= MAXDATAINFO + 1 && 8 + Offset(vs) <= data.Length
      ensures ok ==> Valid() && vars == LandedAll(vs, data.Length)
    {
      hide *;
      var offset: nat := 0;
      NoneDefined(this);
      for k := 0 to |vs|
        invariant Valid() && vars == LandedAll(vs[..k], data.Length) && offset == Offset(vs[..k])
        invariant k <= MAXDATAINFO + 1 && 8 + offset <= data.Length
      {
        NextDefined(vs, k, data.Length);
        ok := Define(vs[k], offset);
        if !ok { return; }
        offset := offset + Total(vs[k]);
      }
      assert vs[..|vs|] == vs;
      return true;
    }
  }

  lemma PutNone(was: seq<byte>, at: nat, vals: seq<int>, n: nat, asked: nat)
    requires n <= asked
    ensures Spot(at, 0, n) == at && PutAll(was, at, vals[..0], n, asked) == was
  {
  }

  lemma {:induction false} PutNext(was: seq<byte>, at: nat, vals: seq<int>, n: nat, asked: nat, j: nat, before: seq<byte>, now: seq<byte>)
    requires n <= asked && j < |vals| && before == PutAll(was, at, vals[..j], n, asked)
    requires var p := Spot(at, j, n);
             if p + asked < |before| then Written(before, p, Word(vals[j], n), now) else now == before
    ensures Spot(at, j + 1, n) == Spot(at, j, n) + n
    ensures now == PutAll(was, at, vals[..j + 1], n, asked)
  {
    assert vals[..j + 1][..j] == vals[..j];
    SpotUp(at, j, n);
    hide Spot;
  }

  lemma AskedEnough(vals: seq<int>, n: nat, size: nat)
    requires |vals| == 1 ==> size > 0
    ensures n <= Asked(vals, n, size)
  {
    if |vals| == 1 { Fewer(1, size, n); }
  }

  lemma SizeSome(v: Variable)
    requires |v.vals| <= v.count
    ensures |v.vals| == 1 ==> Total(v) > 0
  {
    if |v.vals| == 1 { Fewer(1, v.count, Size(v.ty)); }
  }

  // In the zeros behind the variables so far, the writes leave what lands.
  lemma {:induction false} LandedPut(v: Variable, at: nat, was: seq<byte>)
    requires |v.vals| <= v.count && at + Total(v) <= |was| && forall k | at <= k < |was| :: was[k] == 0
    ensures var n := Size(v.ty); var asked := Asked(v.vals, n, Total(v)); var w := Landed(v, at, |was|);
            && |w.vals| <= w.count && Total(w) == Total(v) && w.name == v.name && w.ty == v.ty
            && n <= asked && Written(was, at, Words(w.vals, n), PutAll(was, at, v.vals, n, asked))
  {
    SizeSome(v);
    AskedEnough(v.vals, Size(v.ty), Total(v));
    Fewer(|v.vals|, v.count, Size(v.ty));
    hide Asked;
    PutOnZeros(was, at, v.vals, Landed(v, at, |was|).vals, Size(v.ty), Asked(v.vals, Size(v.ty), Total(v)));
  }

  lemma FilledBehind(vars: seq<Variable>, d: seq<byte>)
    requires Filled(vars, d)
    ensures VarsOk(vars) && forall k | 8 + Offset(vars) <= k < |d| :: d[k] == 0
  {
  }

  // One definition more: table, buffer and end of the data.
  lemma {:induction false} Extended(vars: seq<Variable>, v: Variable, was: seq<byte>, now: seq<byte>)
    requires |v.vals| <= v.count && Filled(vars, was) && 8 + Offset(vars) + Total(v) <= |was|
    requires var n := Size(v.ty); var asked := Asked(v.vals, n, Total(v));
             n <= asked && now == PutAll(was, 8 + Offset(vars), v.vals, n, asked)
    ensures var ws := vars + [Landed(v, 8 + Offset(vars), |was|)];
            && VarsOk(ws) && Filled(ws, now) && 8 + Offset(ws) == 8 + Offset(vars) + Total(v)
            && Table(ws) == Table(vars) + [Info(v.ty, Total(v), 8 + Offset(vars), 8 + Offset(vars) + Total(v), v.name)]
  {
    hide *;
    var w := Landed(v, 8 + Offset(vars), |was|);
    FilledBehind(vars, was);
    LandedPut(v, 8 + Offset(vars), was);
    Placed(vars, w, was, now);
    TableGrows(vars, w);
    FilledBehind(vars + [w], now);
  }

  lemma NoneDefined(s: Section)
    requires s.Valid() && s.vars == []
    ensures 8 <= s.data.Length && forall vs: seq<Variable>, max :: LandedAll(vs[..0], max) == [] && Offset(vs[..0]) == 0
  {
  }

  lemma {:induction false} NextDefined(vs: seq<Variable>, k: nat, max: nat)
    requires k < |vs| && VarsOk(vs)
    ensures var ws := LandedAll(vs[..k], max);
            && |ws| == k && Offset(ws) == Offset(vs[..k])
            && LandedAll(vs[..k + 1], max) == ws + [Landed(vs[k], 8 + Offset(vs[..k]), max)]
    ensures |vs[k].vals| <= vs[k].count && Offset(vs[..k + 1]) == Offset(vs[..k]) + Total(vs[k]) <= Offset(vs)
  {
    LandedShape(vs[..k], max);
    NextOffset(vs, k);
    assert vs[..k + 1][..k] == vs[..k];
    hide Landed;
    hide Total;
    hide Offset;
    hide Table;
  }

  lemma {:induction false} NextOffset(vs: seq<Variable>, k: nat)
    requires k < |vs|
    ensures Offset(vs[..k + 1]) == Offset(vs[..k]) + Total(vs[k]) <= Offset(vs)
  {
    hide *;
    OffsetGrows(vs[..k], vs[k]);
    assert vs[..k + 1] == vs[..k] + [vs[k]];
    TableAt(vs, k);
  }
}
