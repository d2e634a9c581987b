// Registers around a call: every register that caches a variable is pushed before the call and popped
// after it.
module CallSave {
  import opened Infix
  import opened Bytes
  import opened TypedStack
  import R = Registers
  import M = Machine
  import G = Codegen

  datatype Instr = PushI(r: nat) | PushD(r: nat) | PopI(r: nat) | PopD(r: nat)

  // Registers as eight-byte words, the typed stack with its top first, and the bytes free below it.
  datatype Machine = Machine(regi: seq<seq<byte>>, regd: seq<seq<byte>>, stack: seq<Frame>, room: nat)

  function Do(i: Instr, m: Machine): Option<Machine> {
    match i
    case PushI(r) =>
      if r < |m.regi| && m.room >= 9 then Some(m.(stack := [FInt(m.regi[r])] + m.stack, room := m.room - 9)) else None
    case PushD(r) =>
      if r < |m.regd| && m.room >= 9 then Some(m.(stack := [FDouble(m.regd[r])] + m.stack, room := m.room - 9)) else None
    case PopI(r) =>
      if r < |m.regi| && m.stack != [] && m.stack[0].FInt?
      then Some(m.(regi := m.regi[r := m.stack[0].w], stack := m.stack[1..], room := m.room + 9)) else None
    case PopD(r) =>
      if r < |m.regd| && m.stack != [] && m.stack[0].FDouble?
      then Some(m.(regd := m.regd[r := m.stack[0].w], stack := m.stack[1..], room := m.room + 9)) else None
  }

  function Run(code: seq<Instr>, m: Machine): Option<Machine> {
    if code == [] then Some(m)
    else
      match Do(code[0], m)
      case None => None
      case Some(n) => Run(code[1..], n)
  }

  // Code for the registers below k that are marked; the saving loops run upwards ...
  function Pushes(ints: bool, marks: seq<bool>, k: nat): seq<Instr>
    requires k <= |marks|
  {
    if k == 0 then []
    else Pushes(ints, marks, k - 1) + (if marks[k - 1] then [if ints then PushI(k - 1) else PushD(k - 1)] else [])
  }

  // ... and the loading loops downwards.
  function Pops(ints: bool, marks: seq<bool>, k: nat): seq<Instr>
    requires k <= |marks|
  {
    if k == 0 then []
    else (if marks[k - 1] then [if ints then PopI(k - 1) else PopD(k - 1)] else []) + Pops(ints, marks, k - 1)
  }

  function Marks(t: seq<string>): (m: seq<bool>)
    ensures |m| == |t|
  {
    seq(|t|, k requires 0 <= k < |t| => t[k] != "")
  }

  function SaveCode(regi: seq<string>, regd: seq<string>): seq<Instr> {
    Pushes(true, Marks(regi), |regi|) + Pushes(false, Marks(regd), |regd|)
  }

  function LoadCode(saveI: seq<bool>, saveD: seq<bool>): seq<Instr> {
    Pops(false, saveD, |saveD|) + Pops(true, saveI, |saveI|)
  }

  // The elements that the pushes leave, the last one first.
  function Saved(ints: bool, marks: seq<bool>, regs: seq<seq<byte>>, k: nat): seq<Frame>
    requires k <= |marks| && k <= |regs|
  {
    if k == 0 then []
    else (if marks[k - 1] then [if ints then FInt(regs[k - 1]) else FDouble(regs[k - 1])] else []) + Saved(ints, marks, regs, k - 1)
  }

  lemma {:induction false} RunAppend(a: seq<Instr>, b: seq<Instr>, m: Machine)
    ensures Run(a + b, m) == match Run(a, m) { case None => None case Some(n) => Run(b, n) }
    decreases |a|
  {
    if a == [] {
      assert a + b == b;
    } else {
      assert (a + b)[0] == a[0] && (a + b)[1..] == a[1..] + b;
      match Do(a[0], m) {
        case None =>
        case Some(n) => RunAppend(a[1..], b, n);
      }
    }
  }

  lemma RunOne(i: Instr, m: Machine)
    ensures Run([i], m) == Do(i, m)
  {
    match Do(i, m)
    case None =>
    case Some(n) => assert Run([], n) == Some(n);
  }

  function Regs(ints: bool, m: Machine): seq<seq<byte>> {
    if ints then m.regi else m.regd
  }

  function Marked(marks: seq<bool>, k: nat): nat
    requires k <= |marks|
  {
    if k == 0 then 0 else Marked(marks, k - 1) + if marks[k - 1] then 1 else 0
  }

  // The pushes need nine bytes each.
  lemma {:induction false} PushesRun(ints: bool, marks: seq<bool>, k: nat, m: Machine)
    requires k <= |marks| && k <= |Regs(ints, m)|
    ensures Run(Pushes(ints, marks, k), m)
         == if 9 * Marked(marks, k) > m.room then None
            else Some(m.(stack := Saved(ints, marks, Regs(ints, m), k) + m.stack, room := m.room - 9 * Marked(marks, k)))
  {
    var s := Saved(ints, marks, Regs(ints, m), k);
    if k == 0 {
      assert s + m.stack == m.stack;
    } else {
      PushesRun(ints, marks, k - 1, m);
      var i := if ints then PushI(k - 1) else PushD(k - 1);
      var t := Saved(ints, marks, Regs(ints, m), k - 1);
      if !marks[k - 1] {
        assert s == [] + t == t;
        assert Pushes(ints, marks, k - 1) + [] == Pushes(ints, marks, k - 1);
      } else {
        RunAppend(Pushes(ints, marks, k - 1), [i], m);
        if 9 * Marked(marks, k - 1) <= m.room {
          var n := m.(stack := t + m.stack, room := m.room - 9 * Marked(marks, k - 1));
          RunOne(i, n);
          var f := if ints then FInt(m.regi[k - 1]) else FDouble(m.regd[k - 1]);
          assert s == [f] + t && [f] + (t + m.stack) == s + m.stack;
        }
      }
    }
  }

  // Marked registers below k come from `saved`, the others stay.
  function Restored(marks: seq<bool>, now: seq<seq<byte>>, saved: seq<seq<byte>>, k: nat): (r: seq<seq<byte>>)
    requires |now| == |saved| == |marks| && k <= |marks|
    ensures |r| == |now|
  {
    seq(|now|, j requires 0 <= j < |now| => if j < k && marks[j] then saved[j] else now[j])
  }

  ghost function WithRegs(ints: bool, m: Machine, regs: seq<seq<byte>>, stack: seq<Frame>, room: nat): Machine {
    if ints then Machine(regs, m.regd, stack, room) else Machine(m.regi, regs, stack, room)
  }

  lemma {:induction false} PopsRun(ints: bool, marks: seq<bool>, saved: seq<seq<byte>>, k: nat, m: Machine, rest: seq<Frame>)
    requires |Regs(ints, m)| == |saved| == |marks| && k <= |marks|
    requires m.stack == Saved(ints, marks, saved, k) + rest
    ensures Run(Pops(ints, marks, k), m)
         == Some(WithRegs(ints, m, Restored(marks, Regs(ints, m), saved, k), rest, m.room + 9 * Marked(marks, k)))
  {
    hide *;
    if k == 0 {
      PopNone(ints, marks, saved, m, rest);
    } else {
      var regs := if marks[k - 1] then Regs(ints, m)[k - 1 := saved[k - 1]] else Regs(ints, m);
      var n := WithRegs(ints, m, regs, Saved(ints, marks, saved, k - 1) + rest, m.room + if marks[k - 1] then 9 else 0);
      PopStep(ints, marks, saved, k, m, n, rest);
      PopsRun(ints, marks, saved, k - 1, n, rest);
    }
  }

  lemma PopNone(ints: bool, marks: seq<bool>, saved: seq<seq<byte>>, m: Machine, rest: seq<Frame>)
    requires |Regs(ints, m)| == |saved| == |marks| && m.stack == Saved(ints, marks, saved, 0) + rest
    ensures Run(Pops(ints, marks, 0), m)
         == Some(WithRegs(ints, m, Restored(marks, Regs(ints, m), saved, 0), rest, m.room + 9 * Marked(marks, 0)))
  {
    assert Restored(marks, Regs(ints, m), saved, 0) == Regs(ints, m);
    assert m.stack == rest;
  }

  // Register k - 1, popped or passed over.
  lemma PopStep(ints: bool, marks: seq<bool>, saved: seq<seq<byte>>, k: nat, m: Machine, n: Machine, rest: seq<Frame>)
    requires |Regs(ints, m)| == |saved| == |marks| && 0 < k <= |marks|
    requires m.stack == Saved(ints, marks, saved, k) + rest
    requires var regs := if marks[k - 1] then Regs(ints, m)[k - 1 := saved[k - 1]] else Regs(ints, m);
             n == WithRegs(ints, m, regs, Saved(ints, marks, saved, k - 1) + rest, m.room + if marks[k - 1] then 9 else 0)
    ensures |Regs(ints, n)| == |marks| && n.stack == Saved(ints, marks, saved, k - 1) + rest
    ensures Run(Pops(ints, marks, k), m) == Run(Pops(ints, marks, k - 1), n)
    ensures WithRegs(ints, m, Restored(marks, Regs(ints, m), saved, k), rest, m.room + 9 * Marked(marks, k))
         == WithRegs(ints, n, Restored(marks, Regs(ints, n), saved, k - 1), rest, n.room + 9 * Marked(marks, k - 1))
  {
    if marks[k - 1] {
      PopOne(ints, marks, saved, k, m, rest);
    } else {
      assert m.stack == Saved(ints, marks, saved, k - 1) + rest;
      assert [] + Pops(ints, marks, k - 1) == Pops(ints, marks, k - 1);
    }
    hide Run;
    hide Pops;
    assert Restored(marks, Regs(ints, n), saved, k - 1) == Restored(marks, Regs(ints, m), saved, k);
  }

  lemma PopOne(ints: bool, marks: seq<bool>, saved: seq<seq<byte>>, k: nat, m: Machine, rest: seq<Frame>)
    requires |Regs(ints, m)| == |saved| == |marks| && 0 < k <= |marks| && marks[k - 1]
    requires m.stack == Saved(ints, marks, saved, k) + rest
    ensures var n := WithRegs(ints, m, Regs(ints, m)[k - 1 := saved[k - 1]], Saved(ints, marks, saved, k - 1) + rest, m.room + 9);
            Run(Pops(ints, marks, k), m) == Run(Pops(ints, marks, k - 1), n)
  {
    var i := if ints then PopI(k - 1) else PopD(k - 1);
    var f := if ints then FInt(saved[k - 1]) else FDouble(saved[k - 1]);
    var under := Saved(ints, marks, saved, k - 1) + rest;
    assert m.stack == [f] + under;
    assert m.stack[1..] == under;
    var code := Pops(ints, marks, k);
    assert code == [i] + Pops(ints, marks, k - 1);
    assert code[0] == i && code[1..] == Pops(ints, marks, k - 1);
  }

  // The bytes that saving takes.
  function Cost(regi: seq<string>, regd: seq<string>): nat {
    9 * (Marked(Marks(regi), |regi|) + Marked(Marks(regd), |regd|))
  }

  // Saving succeeds exactly when the stack has nine bytes for every cached register.  A call between the
  // save code and the load code then gives back every cached register and the stack, whatever the callee
  // did to the registers, if it takes its arguments from the stack and leaves it as the save code did.
  lemma CallRestores(regi: seq<string>, regd: seq<string>, m: Machine, after: Machine)
    requires |regi| == |m.regi| && |regd| == |m.regd|
    requires |after.regi| == |m.regi| && |after.regd| == |m.regd|
    ensures Run(SaveCode(regi, regd), m).Some? <==> Cost(regi, regd) <= m.room
    ensures Cost(regi, regd) <= m.room ==>
              var saved := Run(SaveCode(regi, regd), m).value;
              && saved.regi == m.regi && saved.regd == m.regd && saved.room == m.room - Cost(regi, regd)
              && (after.stack == saved.stack && after.room == saved.room ==>
                    Run(LoadCode(Marks(regi), Marks(regd)), after)
                    == Some(Machine(Restored(Marks(regi), after.regi, m.regi, |regi|),
                                    Restored(Marks(regd), after.regd, m.regd, |regd|), m.stack, m.room)))
  {
    hide *;
    MarksOf(regi);
    MarksOf(regd);
    CodeIs(regi, regd);
    RegsOf(m);
    var ci, cd := 9 * Marked(Marks(regi), |regi|), 9 * Marked(Marks(regd), |regd|);
    PushesRun(true, Marks(regi), |regi|, m);
    RunAppend(Pushes(true, Marks(regi), |regi|), Pushes(false, Marks(regd), |regd|), m);
    if ci <= m.room {
      var si := Saved(true, Marks(regi), m.regi, |regi|);
      var mid := m.(stack := si + m.stack, room := m.room - ci);
      RegsOf(mid);
      PushesRun(false, Marks(regd), |regd|, mid);
      var sd := Saved(false, Marks(regd), m.regd, |regd|);
      if cd <= mid.room && after.stack == sd + (si + m.stack) && after.room == mid.room - cd {
        RegsOf(after);
        PopsRun(false, Marks(regd), m.regd, |regd|, after, si + m.stack);
        var rd := Restored(Marks(regd), after.regd, m.regd, |regd|);
        WithRegsIs(false, after, rd, si + m.stack, after.room + cd);
        var n := Machine(after.regi, rd, si + m.stack, after.room + cd);
        RegsOf(n);
        PopsRun(true, Marks(regi), m.regi, |regi|, n, m.stack);
        WithRegsIs(true, n, Restored(Marks(regi), n.regi, m.regi, |regi|), m.stack, n.room + ci);
        RunAppend(Pops(false, Marks(regd), |regd|), Pops(true, Marks(regi), |regi|), after);
      }
    }
  }

  lemma MarksOf(t: seq<string>)
    ensures |Marks(t)| == |t|
  {
  }

  lemma RegsOf(m: Machine)
    ensures Regs(true, m) == m.regi && Regs(false, m) == m.regd
  {
  }

  lemma CodeIs(regi: seq<string>, regd: seq<string>)
    ensures SaveCode(regi, regd) == Pushes(true, Marks(regi), |regi|) + Pushes(false, Marks(regd), |regd|)
    ensures LoadCode(Marks(regi), Marks(regd)) == Pops(false, Marks(regd), |regd|) + Pops(true, Marks(regi), |regi|)
    ensures Cost(regi, regd) == 9 * Marked(Marks(regi), |regi|) + 9 * Marked(Marks(regd), |regd|)
  {
  }

  lemma WithRegsIs(ints: bool, m: Machine, regs: seq<seq<byte>>, stack: seq<Frame>, room: nat)
    ensures WithRegs(ints, m, regs, stack, room)
         == if ints then Machine(regs, m.regd, stack, room) else Machine(m.regi, regs, stack, room)
  {
  }

  // ---- the tables after a call ----

  // Behind a call registers and memory agree for the emptied table, whatever the callee stored.  Without
  // emptying it they would agree exactly when the callee left every cached variable as it was.
  lemma AfterCall(table: seq<string>, env: M.Env, s: M.State, t: M.State)
    requires G.Coherent(table, env, s) && M.Loaded(env, t) && t.reg[0] == 0
    requires forall r | 0 <= r < R.MAXREG && table[r] != "" :: t.reg[r] == s.reg[r]
    requires "" !in env.layout
    ensures G.Coherent(R.Empty(), env, t)
    ensures G.Coherent(table, env, t) <==>
              forall r | 0 <= r < R.MAXREG && table[r] in env.layout :: t.mem[env.layout[table[r]]] == s.mem[env.layout[table[r]]]
  {
    var v, w := M.Vars(env, s.mem), M.Vars(env, t.mem);
    forall r | 0 <= r < R.MAXREG && table[r] in env.layout
      ensures t.reg[r] == s.mem[env.layout[table[r]]] && w[table[r]] == t.mem[env.layout[table[r]]]
    {
      assert s.reg[r] == v[table[r]];
    }
  }

  // The compiler's loops.
  class Caller {
    const regi: R.RegisterTable
    const regd: R.RegisterTable
    var saveI: seq<bool>
    var saveD: seq<bool>
    var code: seq<Instr>

    ghost predicate Valid()
      reads this, regi.regi, regd.regi
    {
      regi.regi != regd.regi && regi.regi.Length == R.MAXREG && regd.regi.Length == R.MAXREG
    }

    constructor ()
      ensures Valid() && fresh(regi) && fresh(regd) && fresh(regi.regi) && fresh(regd.regi) && code == []
    {
      regi := new R.RegisterTable();
      regd := new R.RegisterTable();
      saveI, saveD, code := [], [], [];
    }

    method SaveRegisters()
      requires Valid()
      modifies this
      ensures Valid() && saveI == Marks(regi.regi[..]) && saveD == Marks(regd.regi[..])
      ensures code == old(code) + SaveCode(regi.regi[..], regd.regi[..])
    {
      ghost var mi, md := Marks(regi.regi[..]), Marks(regd.regi[..]);
      saveI := [];
      for e := 0 to R.MAXREG
        invariant saveI == mi[..e] && code == old(code) + Pushes(true, mi, e)
      {
        var mark := regi.regi[e] != "";
        saveI := saveI + [mark];
        if mark { code := code + [PushI(e)]; }
      }
      saveD := [];
      for e := 0 to R.MAXREG
        invariant saveI == mi && saveD == md[..e] && code == old(code) + (Pushes(true, mi, R.MAXREG) + Pushes(false, md, e))
      {
        var mark := regd.regi[e] != "";
        saveD := saveD + [mark];
        if mark { code := code + [PushD(e)]; }
      }
    }

    // loadreg
    method LoadRegisters()
      requires Valid() && |saveI| == R.MAXREG && |saveD| == R.MAXREG
      modifies this`code, regi.regi, regd.regi
      ensures code == old(code) + LoadCode(saveI, saveD)
      ensures regi.regi[..] == R.Empty() && regd.regi[..] == R.Empty()
    {
      for e := R.MAXREG downto 0
        invariant code + Pops(false, saveD, e) == old(code) + Pops(false, saveD, R.MAXREG)
      {
        if saveD[e] { code := code + [PopD(e)]; }
      }
      assert code + Pops(false, saveD, 0) == code;
      assert old(code) + LoadCode(saveI, saveD)
          == old(code) + Pops(false, saveD, R.MAXREG) + Pops(true, saveI, R.MAXREG);
      for e := R.MAXREG downto 0
        invariant code + Pops(true, saveI, e) == old(code) + LoadCode(saveI, saveD)
      {
        if saveI[e] { code := code + [PopI(e)]; }
      }
      regi.InitRegisters();
      regd.InitRegisters();
    }
  }

  // ---- the virtual machine on its stack of bytes ----

  class Processor {
    const st: Stack
    const regi: array<seq<byte>>
    const regd: array<seq<byte>>
    var sp: nat
    ghost var frames: seq<Frame>

    ghost predicate Valid()
      reads this, st.mem, regi, regd
    {
      && st.Valid() && st.bottom <= sp && st.Holds(sp, frames) && regi != regd
      && (forall k | 0 <= k < regi.Length :: |regi[k]| == 8) && (forall k | 0 <= k < regd.Length :: |regd[k]| == 8)
    }

    // The machine that the bytes stand for.
    ghost function State(): Machine
      reads this, regi, regd
      requires st.bottom <= sp
    {
      Machine(regi[..], regd[..], frames, sp - st.bottom)
    }

    constructor (size: nat, bottom: nat, top: nat, count: nat)
      requires 2 <= bottom <= top <= size
      ensures Valid() && State().stack == [] && State().room == top - bottom && regi.Length == regd.Length == count
    {
      st := new Stack(size, bottom, top);
      regi := new seq<byte>[count](_ => [0, 0, 0, 0, 0, 0, 0, 0]);
      regd := new seq<byte>[count](_ => [0, 0, 0, 0, 0, 0, 0, 0]);
      sp := top;
      frames := [];
    }

    method Step(i: Instr) returns (ok: bool)
      requires Valid()
      modifies this, st.mem, regi, regd
      ensures ok <==> Do(i, old(State())).Some?
      ensures ok ==> Valid() && State() == Do(i, old(State())).value
    {
      match i
      case PushI(r) =>
        if r >= regi.Length { return false; }
        var p;
        ok, p := st.StPushI(regi[r], sp, frames);
        if ok { sp, frames := p, [FInt(regi[r])] + frames; }
      case PushD(r) =>
        if r >= regd.Length { return false; }
        var p;
        ok, p := st.StPushD(regd[r], sp, frames);
        if ok { sp, frames := p, [FDouble(regd[r])] + frames; }
      case PopI(r) =>
        if r >= regi.Length { return false; }
        var w, p;
        ok, w, p := st.StPopI(sp, frames);
        if ok {
          regi[r] := w;
          sp, frames := p, frames[1..];
        }
      case PopD(r) =>
        if r >= regd.Length { return false; }
        var w, p;
        ok, w, p := st.StPopD(sp, frames);
        if ok {
          regd[r] := w;
          sp, frames := p, frames[1..];
        }
    }

    // On bytes the code does exactly what it does on the abstract stack.
    method Execute(code: seq<Instr>) returns (ok: bool)
      requires Valid()
      modifies this, st.mem, regi, regd
      ensures ok <==> Run(code, old(State())).Some?
      ensures ok ==> Valid() && State() == Run(code, old(State())).value
    {
      hide Do;
      for k := 0 to |code|
        invariant Valid() && Run(code[k..], State()) == Run(code, old(State()))
      {
        assert code[k..][0] == code[k] && code[k..][1..] == code[k + 1..];
        ok := Step(code[k]);
        if !ok { return; }
      }
      assert code[|code|..] == [];
      return true;
    }
  }
}
