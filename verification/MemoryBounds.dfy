// The run-time bounds check over the loader's table of variables.
module MemoryBounds {
  import opened Bytes
  import D = DataSection
  import opened ObjectFile

  const BYTE: byte := 8
  const WORD: byte := 9
  const DOUBLEWORD: byte := 10
  const QUADWORD: byte := 11
  const DOUBLEFLOAT: byte := 12
  const STRING_CONST: byte := 14

  function ElementSize(ty: byte): nat {
    if ty == STRING_CONST then 1 else TypeSize(ty)
  }

  // A table as the loader builds it: whole elements, one variable after the other.
  ghost predicate Laid(es: seq<DataEntry>) {
    && (forall k | 0 <= k < |es| ::
          && ElementSize(es[k].ty) > 0 && 0 <= es[k].offset && es[k].size >= 0
          && es[k].end == es[k].offset + es[k].size - 1 && es[k].size % ElementSize(es[k].ty) == 0)
    && (forall j, k | 0 <= j < k < |es| :: es[j].end < es[k].offset)
  }

  // ---- specification ----

  // The first variable at or after k that spans the addresses from `lo` to `hi`; -1 when there is none.
  function Spanning(es: seq<DataEntry>, lo: int, hi: int, k: nat): (r: int)
    requires k <= |es|
    ensures r == -1 ==> forall j | k <= j < |es| :: !(es[j].offset <= lo && hi <= es[j].end)
    ensures r != -1 ==> k <= r < |es| && es[r].offset <= lo && hi <= es[r].end
    decreases |es| - k
  {
    if k == |es| then -1
    else if es[k].offset <= lo && hi <= es[k].end then k
    else Spanning(es, lo, hi, k + 1)
  }

  // memory_bounds: 0 when the access is allowed.
  function Bounds(es: seq<DataEntry>, start: int, access: int): int {
    if start + access < 0 || access < 0 then 1
    else BoundsFrom(es, start, access, 0)
  }

  function BoundsFrom(es: seq<DataEntry>, start: int, access: int, k: nat): int
    requires k <= |es|
    decreases |es| - k
  {
    if k == |es| then 1
    else if es[k].offset <= start && start + access <= es[k].end then
      if access == 0 then 0
      else if es[k].ty == BYTE then 0
      else if es[k].ty == WORD then (if access % 2 != 0 then 1 else 0)
      else if es[k].ty == DOUBLEWORD then (if access % 4 != 0 then 1 else 0)
      else if es[k].ty == QUADWORD || es[k].ty == DOUBLEFLOAT then (if access % 8 != 0 then 1 else 0)
      else if es[k].ty == STRING_CONST then 1
      else BoundsFrom(es, start, access, k + 1)
    else BoundsFrom(es, start, access, k + 1)
  }

  // A result of 16 bits.
  function ToS2(v: int): int {
    var m := v % 0x1_0000;
    if m < 0x8000 then m else m - 0x1_0000
  }

  function Size(es: seq<DataEntry>, start: int): int {
    var k := Spanning(es, start, start, 0);
    if start < 0 || k == -1 then 0 else ToS2(es[k].end - es[k].offset + 1)
  }

  function PointerType(es: seq<DataEntry>, start: int): int {
    var k := Spanning(es, start, start, 0);
    if k == -1 then 0 else es[k].ty
  }

  function PointerCheck(es: seq<DataEntry>, start: int, ty: int): int {
    var k := Spanning(es, start, start, 0);
    if k == -1 || es[k].ty != ty then 1 else 0
  }

  // ---- what an answer means ----

  // The variable that an address belongs to is the only one.
  lemma OneOwner(es: seq<DataEntry>, i: nat, lo: int, hi: int)
    requires Laid(es) && i < |es| && es[i].offset <= lo <= hi <= es[i].end
    ensures Spanning(es, lo, hi, 0) == i
    ensures forall j | 0 <= j < |es| && j != i :: !(es[j].offset <= lo <= es[j].end)
  {
    var r := Spanning(es, lo, hi, 0);
    assert r != -1;
    forall j | 0 <= j < |es| && j != i
      ensures !(es[j].offset <= lo <= es[j].end)
    {
      if j < i { assert es[j].end < es[i].offset; } else { assert es[i].end < es[j].offset; }
    }
  }

  // Exactly which accesses are allowed.
  lemma {:induction false} BoundsFromExact(es: seq<DataEntry>, start: int, access: int, k: nat)
    requires Laid(es) && access >= 0 && k <= |es|
    ensures BoundsFrom(es, start, access, k) == 0 <==>
              exists i :: k <= i < |es| && es[i].offset <= start && start + access <= es[i].end
                          && (access == 0 || (es[i].ty != STRING_CONST && access % ElementSize(es[i].ty) == 0))
    decreases |es| - k
  {
    if k < |es| {
      BoundsFromExact(es, start, access, k + 1);
      if es[k].offset <= start && start + access <= es[k].end {
        forall i | k < i < |es|
          ensures !(es[i].offset <= start)
        {
          assert es[k].end < es[i].offset;
        }
      }
    }
  }

  // An access at `access` from an address inside variable i, d bytes behind its start, that is allowed
  // touches only bytes of that variable exactly when d is a multiple of the element size or the element
  // touched is not the last one.  In particular it always does from the variable's own address.
  lemma AllowedStaysInside(es: seq<DataEntry>, i: nat, start: int, access: int)
    requires Laid(es) && i < |es| && es[i].offset <= start <= es[i].end && Bounds(es, start, access) == 0
    ensures var w := ElementSize(es[i].ty); var d := start - es[i].offset;
            && es[i].offset <= start + access <= es[i].end
            && (start + access + w - 1 <= es[i].end <==> d % w == 0 || (d + access) / w + 1 < es[i].size / w)
  {
    BoundsFromExact(es, start, access, 0);
    var j :| 0 <= j < |es| && es[j].offset <= start && start + access <= es[j].end
             && (access == 0 || (es[j].ty != STRING_CONST && access % ElementSize(es[j].ty) == 0));
    OneOwner(es, i, start, start);
    assert j == i;
    hide BoundsFrom;
    hide Spanning;
    var w := ElementSize(es[i].ty);
    assert w in {1, 2, 4, 8} && access % w == 0;
    hide ElementSize;
    LastElement(start - es[i].offset, access, es[i].size, w);
  }

  lemma LastElement(d: nat, access: nat, size: nat, w: nat)
    requires w in {1, 2, 4, 8} && size % w == 0 && access % w == 0 && d + access < size
    ensures d + access + w <= size <==> d % w == 0 || (d + access) / w + 1 < size / w
  {
    if w == 2 { LastOf2(d, access, size); }
    else if w == 4 { LastOf4(d, access, size); }
    else if w == 8 { LastOf8(d, access, size); }
  }

  lemma LastOf2(d: nat, access: nat, size: nat)
    requires size % 2 == 0 && access % 2 == 0 && d + access < size
    ensures d + access + 2 <= size <==> d % 2 == 0 || (d + access) / 2 + 1 < size / 2
  {
    var s, a, q, r := size / 2, access / 2, (d + access) / 2, (d + access) % 2;
    assert size == 2 * s && access == 2 * a && d + access == 2 * q + r && d == 2 * (q - a) + r;
    assert d % 2 == r;
  }

  lemma LastOf4(d: nat, access: nat, size: nat)
    requires size % 4 == 0 && access % 4 == 0 && d + access < size
    ensures d + access + 4 <= size <==> d % 4 == 0 || (d + access) / 4 + 1 < size / 4
  {
    var s, a, q, r := size / 4, access / 4, (d + access) / 4, (d + access) % 4;
    assert size == 4 * s && access == 4 * a && d + access == 4 * q + r && d == 4 * (q - a) + r;
    assert d % 4 == r;
  }

  lemma LastOf8(d: nat, access: nat, size: nat)
    requires size % 8 == 0 && access % 8 == 0 && d + access < size
    ensures d + access + 8 <= size <==> d % 8 == 0 || (d + access) / 8 + 1 < size / 8
  {
    var s, a, q, r := size / 8, access / 8, (d + access) / 8, (d + access) % 8;
    assert size == 8 * s && access == 8 * a && d + access == 8 * q + r && d == 8 * (q - a) + r;
    assert d % 8 == r;
  }

  lemma FromBase(es: seq<DataEntry>, i: nat, access: int)
    requires Laid(es) && i < |es| && Bounds(es, es[i].offset, access) == 0 && es[i].size > 0
    ensures es[i].offset <= es[i].offset + access
    ensures es[i].offset + access + ElementSize(es[i].ty) - 1 <= es[i].end
  {
    AllowedStaysInside(es, i, es[i].offset, access);
  }

  // The other queries answer for the same variable.  memory_size cuts its answer to 16 bits, so it is
  // right exactly for variables of less than 32 KiB.
  lemma SameVariable(es: seq<DataEntry>, i: nat, start: int)
    requires Laid(es) && i < |es| && es[i].offset <= start <= es[i].end
    ensures PointerType(es, start) == es[i].ty
    ensures forall ty :: PointerCheck(es, start, ty) == 0 <==> ty == es[i].ty
    ensures Size(es, start) == es[i].size <==> es[i].size < 0x8000
  {
    OneOwner(es, i, start, start);
  }

  // ---- the loader's table is laid out like that ----

  lemma {:induction false} LoadedLaid(vars: seq<D.Variable>)
    ensures Laid(Entries(vars, 0))
  {
    var es := Entries(vars, 0);
    if vars != [] { EntryAt(vars, 0, 0); } else { assert es == []; }
    forall k | 0 <= k < |es|
      ensures ElementSize(es[k].ty) > 0 && 0 <= es[k].offset && es[k].size >= 0
      ensures es[k].end == es[k].offset + es[k].size - 1 && es[k].size % ElementSize(es[k].ty) == 0
    {
      EntryAt(vars, 0, k);
      WholeElements(vars[k]);
    }
    forall j, k | 0 <= j < k < |es|
      ensures es[j].end < es[k].offset
    {
      EntryAt(vars, 0, j);
      EntryAt(vars, 0, k);
      D.TableAt(vars[..k], j);
      assert vars[..k][..j] == vars[..j];
    }
  }

  lemma WholeElements(v: D.Variable)
    ensures ElementSize(D.Code(v.ty)) > 0 && D.Total(v) % ElementSize(D.Code(v.ty)) == 0
  {
    match v.ty case TByte => case TWord => case TDouble32 => case TQuad => case TFloat =>
  }

  // ---- strings made immutable ----

  function Immutable(es: seq<DataEntry>, p: int): (r: (int, seq<DataEntry>)) {
    var k := Spanning(es, p, p, 0);
    if p < 0 || k == -1 then (1, es)
    else if es[k].ty == BYTE then (0, es[k := es[k].(ty := STRING_CONST)])
    else if es[k].ty == STRING_CONST then (0, es)
    else (1, es)
  }

  // The string can be read at its own address but nothing behind an address in it can be accessed by
  // offset any more; accesses to other variables are as before, and doing it again changes nothing.
  lemma ImmutableKeeps(es: seq<DataEntry>, i: nat, p: int, start: int, access: int)
    requires Laid(es) && i < |es| && es[i].offset <= p <= es[i].end && es[i].ty == BYTE
    ensures var r := Immutable(es, p);
            && r.0 == 0 && Laid(r.1) && Immutable(r.1, p) == r
            && (es[i].offset <= start <= es[i].end ==>
                  (Bounds(r.1, start, access) == 0 <==> access == 0))
            && (!(es[i].offset <= start <= es[i].end) ==> Bounds(r.1, start, access) == Bounds(es, start, access))
  {
    OneOwner(es, i, p, p);
    var fs := es[i := es[i].(ty := STRING_CONST)];
    assert Laid(fs);
    OneOwner(fs, i, p, p);
    if access >= 0 {
      BoundsFromExact(es, start, access, 0);
      BoundsFromExact(fs, start, access, 0);
      if es[i].offset <= start <= es[i].end {
        OneOwner(fs, i, start, start);
        if access == 0 { assert fs[i].offset <= start && start + access <= fs[i].end; }
      } else {
        SameElsewhere(es, fs, i, start, access, 0);
      }
    }
  }

  lemma {:induction false} SameElsewhere(es: seq<DataEntry>, fs: seq<DataEntry>, i: nat, start: int, access: int, k: nat)
    requires i < |es| == |fs| && fs == es[i := fs[i]] && k <= |es| && access >= 0
    requires fs[i].offset == es[i].offset && fs[i].end == es[i].end && !(es[i].offset <= start <= es[i].end)
    ensures BoundsFrom(fs, start, access, k) == BoundsFrom(es, start, access, k)
    decreases |es| - k
  {
    if k < |es| { SameElsewhere(es, fs, i, start, access, k + 1); }
  }

  // ---- the procedures ----

  class Checker {
    var info: seq<DataEntry>

    constructor (es: seq<DataEntry>)
      ensures info == es
    {
      info := es;
    }

    method CheckBounds(start: int, access: int) returns (r: int)
      ensures r == Bounds(info, start, access)
    {
      if start + access < 0 || access < 0 { return 1; }
      for i := 0 to |info|
        invariant BoundsFrom(info, start, access, i) == Bounds(info, start, access)
      {
        if start >= info[i].offset && start + access <= info[i].end {
          if access == 0 { return 0; }
          var ty := info[i].ty;
          if ty == BYTE { return 0; }
          if ty == WORD { return if access % 2 != 0 then 1 else 0; }
          if ty == DOUBLEWORD { return if access % 4 != 0 then 1 else 0; }
          if ty == QUADWORD || ty == DOUBLEFLOAT { return if access % 8 != 0 then 1 else 0; }
          if ty == STRING_CONST { return 1; }
        }
      }
      return 1;
    }

    method FindVariable(start: int) returns (r: int)
      ensures r == Spanning(info, start, start, 0)
    {
      for i := 0 to |info|
        invariant Spanning(info, start, start, i) == Spanning(info, start, start, 0)
      {
        if start >= info[i].offset && start <= info[i].end { return i; }
      }
      return -1;
    }

    method MemorySize(start: int) returns (size: int)
      ensures size == Size(info, start)
    {
      if start < 0 { return 0; }
      var i := FindVariable(start);
      if i == -1 { return 0; }
      return ToS2(info[i].end - info[i].offset + 1);
    }

    method TypeOfPointer(start: int) returns (ty: int)
      ensures ty == PointerType(info, start)
    {
      var i := FindVariable(start);
      return if i == -1 then 0 else info[i].ty;
    }

    method CheckPointer(start: int, ty: int) returns (r: int)
      ensures r == PointerCheck(info, start, ty)
    {
      var i := FindVariable(start);
      return if i == -1 || info[i].ty != ty then 1 else 0;
    }

    method SetImmutableString(p: int) returns (r: int)
      requires Laid(info)
      modifies this
      ensures r == Immutable(old(info), p).0 && info == Immutable(old(info), p).1
    {
      if p < 0 { return 1; }
      for i := 0 to |info|
        invariant info == old(info) && Spanning(info, p, p, i) == Spanning(info, p, p, 0)
      {
        if p >= info[i].offset && p <= info[i].end {
          if info[i].ty == BYTE {
            info := info[i := info[i].(ty := STRING_CONST)];
            return 0;
          } else if info[i].ty == STRING_CONST {
            return 0;
          } else {
            OneOwner(info, i, p, p);
            return 1;
          }
        }
      }
      return 1;
    }
  }
}
