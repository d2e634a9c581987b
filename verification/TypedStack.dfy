// The run-time stack: bytes in memory, growing downwards, each element under a tag.  It refines a
// stack of typed values.
module TypedStack {
  import opened Infix
  import opened Bytes

  // An element of the abstract stack; the eight bytes of a number are in host (little-endian) order.
  datatype Frame = FByte(b: byte) | FInt(w: seq<byte>) | FDouble(w: seq<byte>)

  const STACK_BYTE: byte := 0
  const STACK_QUADWORD: byte := 1
  const STACK_DOUBLEFLOAT: byte := 2

  predicate Proper(f: Frame) {
    f.FByte? || |f.w| == 8
  }

  // The bytes of an element from its lowest address, where the stack pointer is after pushing it.
  function FrameBytes(f: Frame): seq<byte> {
    match f
    case FByte(b) => [STACK_BYTE, b]
    case FInt(w) => [STACK_QUADWORD] + Reverse(w)
    case FDouble(w) => [STACK_DOUBLEFLOAT] + Reverse(w)
  }

  function Size(tag: byte): nat {
    if tag == STACK_BYTE then 2 else if tag == STACK_QUADWORD || tag == STACK_DOUBLEFLOAT then 9 else 0
  }

  function FrameOf(s: seq<byte>): Frame
    requires |s| > 0 && Size(s[0]) > 0 && |s| == Size(s[0])
  {
    if s[0] == STACK_BYTE then FByte(s[1])
    else if s[0] == STACK_QUADWORD then FInt(Reverse(s[1..]))
    else FDouble(Reverse(s[1..]))
  }

  // The elements that some bytes hold, the top of the stack first; None when they are not a stack.
  function Frames(s: seq<byte>): Option<seq<Frame>>
    decreases |s|
  {
    if s == [] then Some([])
    else if Size(s[0]) == 0 || Size(s[0]) > |s| then None
    else
      match Frames(s[Size(s[0])..])
      case None => None
      case Some(fs) => Some([FrameOf(s[..Size(s[0])])] + fs)
  }

  lemma FrameBack(f: Frame)
    requires Proper(f)
    ensures var s := FrameBytes(f); |s| == Size(s[0]) > 0 && FrameOf(s) == f
  {
    if !f.FByte? {
      ReverseTwice(f.w);
      assert FrameBytes(f)[1..] == Reverse(f.w);
    }
  }

  // One more element on top.
  lemma FramesPush(f: Frame, s: seq<byte>)
    requires Proper(f) && Frames(s).Some?
    ensures Frames(FrameBytes(f) + s) == Some([f] + Frames(s).value)
  {
    FrameBack(f);
    var a := FrameBytes(f);
    assert (a + s)[..|a|] == a && (a + s)[|a|..] == s;
  }

  // What the top byte says about the top element.
  lemma FramesTop(s: seq<byte>)
    requires Frames(s).Some? && s != []
    ensures var n := Size(s[0]); var fs := Frames(s).value;
            && 0 < n <= |s| && fs != [] && Frames(s[n..]) == Some(fs[1..]) && fs[0] == FrameOf(s[..n])
            && (fs[0].FByte? <==> s[0] == STACK_BYTE) && (fs[0].FInt? <==> s[0] == STACK_QUADWORD)
            && (fs[0].FDouble? <==> s[0] == STACK_DOUBLEFLOAT)
  {
  }

  // The bytes determine the stack and the stack determines the bytes.
  lemma {:induction false} FramesUnique(s: seq<byte>, t: seq<byte>)
    requires Frames(s).Some? && Frames(s) == Frames(t)
    ensures s == t
    decreases |s|
  {
    if s == [] || t == [] {
      if s != [] { FramesTop(s); }
      if t != [] { FramesTop(t); }
    } else {
      FramesTop(s);
      FramesTop(t);
      FramesUnique(s[Size(s[0])..], t[Size(t[0])..]);
      FrameOfInjective(s[..Size(s[0])], t[..Size(t[0])]);
      assert s == s[..Size(s[0])] + s[Size(s[0])..] && t == t[..Size(t[0])] + t[Size(t[0])..];
    }
  }

  lemma FrameOfInjective(s: seq<byte>, t: seq<byte>)
    requires |s| > 0 && |s| == Size(s[0]) && |t| > 0 && |t| == Size(t[0]) && FrameOf(s) == FrameOf(t)
    ensures s == t
  {
    hide Reverse;
    assert s[0] == t[0];
    assert s == [s[0]] + s[1..] && t == [t[0]] + t[1..];
    ReverseTwice(s[1..]);
    ReverseTwice(t[1..]);
  }

  // A stack between `bottom` and `top` in the data memory of the machine.
  class Stack {
    const mem: array<byte>
    const bottom: nat
    const top: nat

    // Two bytes of other data below the stack are enough for the model of a push that runs over.
    ghost predicate Valid() {
      2 <= bottom <= top <= mem.Length
    }

    ghost predicate Holds(sp: nat, fs: seq<Frame>)
      reads mem
    {
      sp <= top <= mem.Length && Frames(mem[sp..top]) == Some(fs)
    }

    constructor (size: nat, bottom: nat, top: nat)
      requires 2 <= bottom <= top <= size
      ensures Valid() && fresh(mem) && mem.Length == size && this.bottom == bottom && this.top == top && Holds(top, [])
    {
      mem := new byte[size](_ => 0);
      this.bottom := bottom;
      this.top := top;
    }

    // Put an element's bytes below sp, from the highest address down.
    method Store(sp: nat, w: seq<byte>, tag: byte)
      requires |w| + 1 <= sp <= mem.Length
      modifies mem
      ensures mem[..] == old(mem[..sp - |w| - 1]) + [tag] + Reverse(w) + old(mem[sp..])
    {
      for k := 0 to |w|
        invariant forall x | 0 <= x < mem.Length :: mem[x] == if sp - k <= x < sp then w[sp - 1 - x] else old(mem[x])
      {
        mem[sp - 1 - k] := w[k];
      }
      mem[sp - 1 - |w|] := tag;
    }

    // The guard lets a push through whenever sp is not below the bottom; the new element is inside the
    // stack exactly when two bytes were free.
    method StPushB(data: byte, sp: nat, ghost fs: seq<Frame>) returns (ok: bool, r: nat)
      requires Valid() && bottom <= sp && Holds(sp, fs)
      modifies mem
      ensures ok && r == sp - 2 && Holds(r, [FByte(data)] + fs)
      ensures bottom <= r <==> bottom + 2 <= sp
      ensures mem[..r] == old(mem[..r]) && mem[sp..] == old(mem[sp..])
    {
      if sp + 1 < bottom { return false, sp; }
      ghost var s := mem[sp..top];
      Store(sp, [data], STACK_BYTE);
      Placed(mem[..], old(mem[..]), sp - 2, sp, top, FByte(data), fs);
      return true, sp - 2;
    }

    method StPushI(w: seq<byte>, sp: nat, ghost fs: seq<Frame>) returns (ok: bool, r: nat)
      requires Valid() && bottom <= sp && Holds(sp, fs) && |w| == 8
      modifies mem
      ensures ok <==> bottom + 9 <= sp
      ensures ok ==> bottom <= r == sp - 9 && Holds(r, [FInt(w)] + fs)
      ensures ok ==> mem[..r] == old(mem[..r]) && mem[sp..] == old(mem[sp..])
      ensures !ok ==> mem[..] == old(mem[..])
    {
      if sp < bottom + 9 { return false, sp; }
      Store(sp, w, STACK_QUADWORD);
      Placed(mem[..], old(mem[..]), sp - 9, sp, top, FInt(w), fs);
      return true, sp - 9;
    }

    method StPushD(w: seq<byte>, sp: nat, ghost fs: seq<Frame>) returns (ok: bool, r: nat)
      requires Valid() && bottom <= sp && Holds(sp, fs) && |w| == 8
      modifies mem
      ensures ok <==> bottom + 9 <= sp
      ensures ok ==> bottom <= r == sp - 9 && Holds(r, [FDouble(w)] + fs)
      ensures ok ==> mem[..r] == old(mem[..r]) && mem[sp..] == old(mem[sp..])
      ensures !ok ==> mem[..] == old(mem[..])
    {
      if sp < bottom + 9 { return false, sp; }
      Store(sp, w, STACK_DOUBLEFLOAT);
      Placed(mem[..], old(mem[..]), sp - 9, sp, top, FDouble(w), fs);
      return true, sp - 9;
    }

    // A pop succeeds exactly when the element on top has its type, and removes that element only.
    method StPopB(sp: nat, ghost fs: seq<Frame>) returns (ok: bool, data: byte, r: nat)
      requires Valid() && Holds(sp, fs)
      ensures ok <==> fs != [] && fs[0].FByte?
      ensures ok ==> fs[0] == FByte(data) && r == sp + 2 && Holds(r, fs[1..])
    {
      if sp + 1 > top { return false, 0, sp; }
      Top(mem[..], sp, top, fs);
      if mem[sp] != STACK_BYTE { return false, 0, sp; }
      return true, mem[sp + 1], sp + 2;
    }

    method StPopI(sp: nat, ghost fs: seq<Frame>) returns (ok: bool, w: seq<byte>, r: nat)
      requires Valid() && Holds(sp, fs)
      ensures ok <==> fs != [] && fs[0].FInt?
      ensures ok ==> fs[0] == FInt(w) && |w| == 8 && r == sp + 9 && Holds(r, fs[1..])
    {
      hide Reverse;
      hide FrameOf;
      hide FrameBytes;
      if sp < top { Top(mem[..], sp, top, fs); }
      if sp >= top - 8 { return false, [], sp; }
      if mem[sp] != STACK_QUADWORD { return false, [], sp; }
      return true, Reverse(mem[sp + 1..sp + 9]), sp + 9;
    }

    method StPopD(sp: nat, ghost fs: seq<Frame>) returns (ok: bool, w: seq<byte>, r: nat)
      requires Valid() && Holds(sp, fs)
      ensures ok <==> fs != [] && fs[0].FDouble?
      ensures ok ==> fs[0] == FDouble(w) && |w| == 8 && r == sp + 9 && Holds(r, fs[1..])
    {
      hide Reverse;
      hide FrameOf;
      hide FrameBytes;
      if sp < top { Top(mem[..], sp, top, fs); }
      if sp >= top - 8 { return false, [], sp; }
      if mem[sp] != STACK_DOUBLEFLOAT { return false, [], sp; }
      return true, Reverse(mem[sp + 1..sp + 9]), sp + 9;
    }

    method StackType(sp: nat, ghost fs: seq<Frame>) returns (ok: bool, tag: byte)
      requires Valid() && Holds(sp, fs)
      ensures ok <==> fs != []
      ensures ok ==> tag == match fs[0] case FByte(_) => STACK_BYTE case FInt(_) => STACK_QUADWORD case FDouble(_) => STACK_DOUBLEFLOAT
      ensures ok ==> STACK_BYTE != STACK_QUADWORD && STACK_BYTE != STACK_DOUBLEFLOAT && STACK_QUADWORD != STACK_DOUBLEFLOAT
    {
      if sp + 1 > top { return false, STACK_UNSET; }
      Top(mem[..], sp, top, fs);
      return true, mem[sp];
    }

    lemma Height(sp: nat, fs: seq<Frame>)
      requires Holds(sp, fs)
      ensures sp <= top && (sp == top <==> fs == [])
    {
      if sp < top { Top(mem[..], sp, top, fs); }
    }

    // The debugger's walk: it visits every element, the last pushed first, and stops at the top.
    method Walk(sp: nat, ghost fs: seq<Frame>) returns (seen: seq<Frame>, dsp: nat)
      requires Valid() && Holds(sp, fs)
      ensures seen == fs && dsp == top
    {
      hide *;
      seen, dsp := [], sp;
      Height(dsp, fs);
      assert fs[0..] == fs;
      while dsp != top
        invariant |seen| <= |fs| && seen == fs[..|seen|] && Holds(dsp, fs[|seen|..])
        invariant dsp <= top && (dsp == top <==> |seen| == |fs|)
        decreases top - dsp
      {
        ghost var rest := fs[|seen|..];
        assert fs[..|seen| + 1] == seen + [rest[0]] && fs[|seen| + 1..] == rest[1..];
        var ok, tag := StackType(dsp, rest);
        if tag == STACK_BYTE {
          var b;
          ok, b, dsp := StPopB(dsp, rest);
          seen := seen + [FByte(b)];
        } else if tag == STACK_QUADWORD {
          var w;
          ok, w, dsp := StPopI(dsp, rest);
          seen := seen + [FInt(w)];
        } else {
          var w;
          ok, w, dsp := StPopD(dsp, rest);
          seen := seen + [FDouble(w)];
        }
        Height(dsp, rest[1..]);
      }
    }
  }

  const STACK_UNSET: byte := 3

  lemma Placed(now: seq<byte>, was: seq<byte>, r: nat, sp: nat, top: nat, f: Frame, fs: seq<Frame>)
    requires Proper(f) && r <= sp <= top <= |was| && now == was[..r] + FrameBytes(f) + was[sp..]
    requires sp - r == |FrameBytes(f)| && Frames(was[sp..top]) == Some(fs)
    ensures |now| == |was| && now[..r] == was[..r] && now[sp..] == was[sp..]
    ensures Frames(now[r..top]) == Some([f] + fs)
  {
    FramesPush(f, was[sp..top]);
    hide Frames;
    hide FrameBytes;
    MiddleOf(was[..r], FrameBytes(f), was, sp, top);
  }

  lemma MiddleOf(a: seq<byte>, w: seq<byte>, was: seq<byte>, sp: nat, top: nat)
    requires |a| + |w| == sp <= top <= |was|
    ensures (a + w + was[sp..])[|a|..top] == w + was[sp..top]
    ensures (a + w + was[sp..])[sp..] == was[sp..]
  {
    var now := a + w + was[sp..];
    assert |now| == |was|;
    forall k | |a| <= k < top
      ensures now[k] == if k < sp then w[k - |a|] else was[k]
    {
    }
  }

  lemma Top(m: seq<byte>, sp: nat, top: nat, fs: seq<Frame>)
    requires sp < top <= |m| && Frames(m[sp..top]) == Some(fs)
    ensures var n := Size(m[sp]);
            && fs != [] && 0 < n && sp + n <= top && Frames(m[sp + n..top]) == Some(fs[1..])
            && fs[0] == FrameOf(m[sp..sp + n]) && FrameBytes(fs[0])[0] == m[sp]
            && (fs[0].FByte? <==> m[sp] == STACK_BYTE) && (fs[0].FInt? <==> m[sp] == STACK_QUADWORD)
            && (fs[0].FDouble? <==> m[sp] == STACK_DOUBLEFLOAT)
            && (!fs[0].FByte? ==> n == 9 && fs[0].w == Reverse(m[sp + 1..sp + 9]))
  {
    var s := m[sp..top];
    FramesTop(s);
    var n := Size(s[0]);
    assert s[n..] == m[sp + n..top] && s[..n] == m[sp..sp + n];
    if n == 9 { assert m[sp..sp + n][1..] == m[sp + 1..sp + 9]; }
  }
}
