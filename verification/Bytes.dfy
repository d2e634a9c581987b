// Big-endian two's-complement words, as the assembler writes them and the loader reads them.
module Bytes {

  type byte = b: int | 0 <= b < 256

  // The low n bytes of v, most significant first.
  function Word(v: int, n: nat): (w: seq<byte>)
    ensures |w| == n
    decreases n
  {
    if n == 0 then [] else Word(v / 256, n - 1) + [v % 256]
  }

  function Signed(w: seq<byte>): int {
    if |w| == 0 then 0
    else if |w| == 1 then (if w[0] < 128 then w[0] else w[0] - 256)
    else Signed(w[..|w| - 1]) * 256 + w[|w| - 1]
  }

  // v is representable in n bytes.
  predicate Fits(v: int, n: nat)
    decreases n
  {
    if n == 0 then false else if n == 1 then -128 <= v < 128 else Fits(v / 256, n - 1)
  }

  function Reverse<T>(s: seq<T>): (r: seq<T>)
    ensures |r| == |s| && forall k | 0 <= k < |s| :: r[k] == s[|s| - 1 - k]
  {
    seq(|s|, k requires 0 <= k < |s| => s[|s| - 1 - k])
  }

  // `now` is `was` with w written at `at`.
  ghost predicate Written(was: seq<byte>, at: nat, w: seq<byte>, now: seq<byte>) {
    at + |w| <= |was| && now == was[..at] + w + was[at + |w|..]
  }

  lemma {:induction false} WrittenOn(a: seq<byte>, at: nat, w: seq<byte>, b: seq<byte>, x: seq<byte>, c: seq<byte>)
    requires Written(a, at, w, b) && Written(b, at + |w|, x, c)
    ensures Written(a, at, w + x, c)
  {
  }

  // Put w into a buffer, byte by byte.
  method WriteBytes(a: array<byte>, at: nat, w: seq<byte>)
    requires at + |w| <= a.Length
    modifies a
    ensures Written(old(a[..]), at, w, a[..])
  {
    for j := 0 to |w|
      invariant forall k | 0 <= k < a.Length :: a[k] == if at <= k < at + j then w[k - at] else old(a[k])
    {
      a[at + j] := w[j];
    }
  }

  lemma ReverseTwice<T>(s: seq<T>)
    ensures Reverse(Reverse(s)) == s
  {
  }

  lemma {:induction false} SignedWord(v: int, n: nat)
    requires Fits(v, n)
    ensures Signed(Word(v, n)) == v
    decreases n
  {
    if n == 1 {
      assert Word(v, 1) == [v % 256];
    } else {
      SignedWord(v / 256, n - 1);
      assert Word(v, n)[..n - 1] == Word(v / 256, n - 1);
    }
  }

  lemma {:induction false} WordSigned(w: seq<byte>)
    requires |w| > 0
    ensures Word(Signed(w), |w|) == w && Fits(Signed(w), |w|)
  {
    if |w| == 1 {
      assert Word(Signed(w), 1) == [Signed(w) % 256];
    } else {
      var last := |w| - 1;
      WordSigned(w[..last]);
      assert w == w[..last] + [w[last]];
    }
  }

  lemma FitsRange(v: int)
    ensures Fits(v, 8) <==> -0x8000_0000_0000_0000 <= v < 0x8000_0000_0000_0000
    ensures Fits(v, 4) <==> -0x8000_0000 <= v < 0x8000_0000
    ensures Fits(v, 2) <==> -0x8000 <= v < 0x8000
  {
    var v1 := v / 256; var v2 := v1 / 256; var v3 := v2 / 256; var v4 := v3 / 256;
    var v5 := v4 / 256; var v6 := v5 / 256; var v7 := v6 / 256;
    assert Fits(v7, 1) <==> -128 <= v7 < 128;
    assert Fits(v6, 2) <==> -0x8000 <= v6 < 0x8000;
    assert Fits(v5, 3) <==> -0x80_0000 <= v5 < 0x80_0000;
    assert Fits(v4, 4) <==> -0x8000_0000 <= v4 < 0x8000_0000;
    assert Fits(v3, 5) <==> -0x80_0000_0000 <= v3 < 0x80_0000_0000;
    assert Fits(v2, 6) <==> -0x8000_0000_0000 <= v2 < 0x8000_0000_0000;
    assert Fits(v1, 7) <==> -0x80_0000_0000_0000 <= v1 < 0x80_0000_0000_0000;
    assert Fits(v3, 1) <==> -128 <= v3 < 128;
    assert Fits(v2, 2) <==> -0x8000 <= v2 < 0x8000;
    assert Fits(v1, 3) <==> -0x80_0000 <= v1 < 0x80_0000;
  }
}
