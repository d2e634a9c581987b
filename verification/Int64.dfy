// The numbers of the language: 64 bits in two's complement.
module Int64 {

  const MIN: int := -0x8000_0000_0000_0000
  const MAX: int := 0x7FFF_FFFF_FFFF_FFFF

  predicate InS8(v: int) {
    MIN <= v <= MAX
  }

  // The int64 with the same low 64 bits.
  function Wrap(v: int): (w: int)
    ensures InS8(w) && (InS8(v) ==> w == v)
  {
    (v - MIN) % 0x1_0000_0000_0000_0000 + MIN
  }

  // C's division rounds towards zero.
  function TDiv(x: int, y: int): int
    requires y != 0
  {
    if x >= 0 then (if y > 0 then x / y else -(x / -y))
    else (if y > 0 then -(-x / y) else -x / -y)
  }

  function TMod(x: int, y: int): int
    requires y != 0
  {
    x - TDiv(x, y) * y
  }

  function Bool(b: bool): int {
    if b then 1 else 0
  }

  function Power(n: nat): (p: nat)
    ensures p > 0
  {
    if n == 0 then 1 else 2 * Power(n - 1)
  }

  // f on each of the low n bits and on the sign that stands for all others.
  function Bitwise(f: (bool, bool) -> bool, x: int, y: int, n: nat): int
    decreases n
  {
    if n == 0 then (if f(x < 0, y < 0) then -1 else 0)
    else 2 * Bitwise(f, x / 2, y / 2, n - 1) + Bool(f(x % 2 == 1, y % 2 == 1))
  }

  function BitAnd(x: int, y: int): int {
    Bitwise((a: bool, b: bool) => a && b, x, y, 64)
  }

  function BitOr(x: int, y: int): int {
    Bitwise((a: bool, b: bool) => a || b, x, y, 64)
  }

  function BitXor(x: int, y: int): int {
    Bitwise((a: bool, b: bool) => a != b, x, y, 64)
  }

  // ---- what they compute ----

  predicate Bit(v: int, k: nat) {
    v / Power(k) % 2 == 1
  }

  // Bit by bit.
  lemma {:induction false} BitwiseBits(f: (bool, bool) -> bool, x: int, y: int, n: nat, k: nat)
    requires k < n
    ensures Bit(Bitwise(f, x, y, n), k) == f(Bit(x, k), Bit(y, k))
    decreases n
  {
    if k > 0 {
      var b := Bool(f(x % 2 == 1, y % 2 == 1));
      BitwiseBits(f, x / 2, y / 2, n - 1, k - 1);
      BitBehind(x / 2, x % 2, k);
      BitBehind(y / 2, y % 2, k);
      BitBehind(Bitwise(f, x / 2, y / 2, n - 1), b, k);
      hide Bit;
    }
  }

  lemma BitBehind(v: int, b: int, k: nat)
    requires 0 <= b <= 1 && k > 0
    ensures Bit(2 * v + b, k) == Bit(v, k - 1)
  {
    var p := Power(k - 1);
    var q := v / p;
    assert p * q <= v < p * q + p;
    Quotient(2 * v + b, 2 * p, q);
  }

  lemma {:induction false} Behind(p: int, m: int, n: int)
    requires p > 0 && m < n
    ensures p * m + p <= p * n
    decreases n - m
  {
    assert p * (n - 1) == p * n - p;
    if m < n - 1 { Behind(p, m, n - 1); }
  }

  lemma Quotient(v: int, p: int, q: int)
    requires p > 0 && p * q <= v < p * q + p
    ensures v / p == q
  {
    var r := v / p;
    if r < q { Behind(p, r, q); }
    if r > q { Behind(p, q, r); }
  }

  // Quotient and remainder: the remainder is smaller than the divisor and has the sign of the dividend.
  lemma DivisionRounds(x: int, y: int)
    requires y != 0
    ensures var q, r := TDiv(x, y), TMod(x, y);
            x == q * y + r && (if y > 0 then -y < r < y else y < r < -y) && (if x >= 0 then r >= 0 else r <= 0)
  {
    var a, b := if x >= 0 then x else -x, if y > 0 then y else -y;
    assert a == b * (a / b) + a % b;
  }
}
