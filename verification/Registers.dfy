// The register tables of the compiler: which variable each register caches ("" when none).
module Registers {

  const MAXREG: nat := 256

  // First register whose entry is `name`, searching upwards from `from`; -1 when there is none.
  function Find(t: seq<string>, name: string, from: nat): (r: int)
    requires from <= |t|
    ensures r == -1 ==> forall k | from <= k < |t| :: t[k] != name
    ensures r != -1 ==> from <= r < |t| && t[r] == name && forall k | from <= k < r :: t[k] != name
    decreases |t| - from
  {
    if from == |t| then -1 else if t[from] == name then from else Find(t, name, from + 1)
  }

  function Lookup(t: seq<string>, name: string): (r: int)
    ensures r == -1 ==> name !in t
    ensures r != -1 ==> 0 <= r < |t| && t[r] == name
  {
    Find(t, name, 0)
  }

  // Register 0 is never handed out.
  function NextFree(t: seq<string>): (r: int)
    ensures r != -1 ==> 1 <= r < |t| && t[r] == ""
  {
    if |t| == 0 then -1 else Find(t, "", 1)
  }

  function Empty(): seq<string> {
    seq(MAXREG, _ => "")
  }

  // Entries of one variable removed.
  function Forget(t: seq<string>, name: string): (r: seq<string>)
    ensures |r| == |t|
    ensures forall k | 0 <= k < |t| :: r[k] == if t[k] == name then "" else t[k]
  {
    seq(|t|, k requires 0 <= k < |t| => if t[k] == name then "" else t[k])
  }

  // Registers that can still be handed out.
  ghost function FreeSet(t: seq<string>): set<int> {
    set k | 1 <= k < |t| && t[k] == ""
  }

  ghost function Spare(t: seq<string>): nat {
    |FreeSet(t)|
  }

  lemma SpareUsed(t: seq<string>, r: nat, name: string)
    requires 1 <= r < |t| && t[r] == "" && name != ""
    ensures Spare(t[r := name]) == Spare(t) - 1
  {
    assert FreeSet(t) == FreeSet(t[r := name]) + {r};
  }

  lemma SpareExists(t: seq<string>)
    ensures NextFree(t) != -1 <==> Spare(t) > 0
  {
    if NextFree(t) != -1 { assert NextFree(t) in FreeSet(t); } else { assert FreeSet(t) == {}; }
  }

  class RegisterTable {
    const regi: array<string>

    constructor ()
      ensures fresh(regi) && regi.Length == MAXREG && regi[..] == Empty()
    {
      regi := new string[MAXREG](_ => "");
    }

    method SetRegi(reg: nat, name: string)
      requires reg < regi.Length
      modifies regi
      ensures regi[..] == old(regi[..])[reg := name]
    {
      regi[reg] := name;
    }

    method GetRegi(name: string) returns (r: int)
      ensures r == Lookup(regi[..], name)
    {
      for i := 0 to regi.Length
        invariant Lookup(regi[..], name) == Find(regi[..], name, i)
      {
        if regi[i] == name { return i; }
      }
      return -1;
    }

    method GetFreeRegi() returns (r: int)
      requires regi.Length == MAXREG
      ensures r == NextFree(regi[..])
    {
      for i := 1 to regi.Length
        invariant NextFree(regi[..]) == Find(regi[..], "", i)
      {
        if regi[i] == "" { return i; }
      }
      return -1;
    }

    method InitRegisters()
      requires regi.Length == MAXREG
      modifies regi
      ensures regi[..] == Empty()
    {
      for i := 0 to regi.Length
        invariant forall k | 0 <= k < i :: regi[k] == ""
      {
        SetRegi(i, "");
      }
    }

    // The "reset old value" loop: look the variable up and clear its entry until none is left.
    method ForgetRegi(name: string)
      requires name != ""
      modifies regi
      ensures regi[..] == Forget(old(regi[..]), name)
    {
      var r := GetRegi(name);
      ghost var left := set k | 0 <= k < regi.Length && regi[k] == name;
      while r != -1
        invariant r == Lookup(regi[..], name)
        invariant left == set k | 0 <= k < regi.Length && regi[k] == name
        invariant Forget(regi[..], name) == Forget(old(regi[..]), name)
        decreases left
      {
        ghost var t := regi[..];
        SetRegi(r, "");
        assert Forget(regi[..], name) == Forget(t, name);
        left := left - {r};
        r := GetRegi(name);
      }
      assert regi[..] == Forget(regi[..], name);
    }
  }
}
