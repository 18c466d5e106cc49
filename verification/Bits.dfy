/** Unbounded bitwise operators, as Python has them, and what masking with 2^k - 1 does to them. */
module Bits {

  function Pow2(n: nat): (p: nat)
    ensures p > 0
  {
    if n == 0 then 1 else 2 * Pow2(n - 1)
  }

  function And(a: nat, b: nat): nat
    decreases a + b
  {
    if a == 0 || b == 0 then 0
    else (if a % 2 == 1 && b % 2 == 1 then 1 else 0) + 2 * And(a / 2, b / 2)
  }

  function Xor(a: nat, b: nat): nat
    decreases a + b
  {
    if a == 0 && b == 0 then 0
    else (if a % 2 != b % 2 then 1 else 0) + 2 * Xor(a / 2, b / 2)
  }

  /** Splitting off the low bit commutes with reducing modulo an even number. */
  lemma SplitLowBit(x: nat, m: nat)
    requires m > 0
    ensures x % (2 * m) == x % 2 + 2 * (x / 2 % m)
    ensures x % (2 * m) % 2 == x % 2 && x % (2 * m) / 2 == x / 2 % m
  {
    var q, r := x / 2 / m, x / 2 % m;
    DivMod(x / 2, m);
    assert 2 * m * q == 2 * (m * q) by {
      Associate(2, m, q);
    }
    ModUnique(x, 2 * m, q, 2 * r + x % 2);
  }

  /** Quotient and remainder are unique. */
  lemma ModUnique(x: nat, m: nat, q: nat, r: nat)
    requires m > 0 && r < m && x == m * q + r
    ensures x % m == r && x / m == q
  {
    DivMod(x, m);
    Distribute(m, q, x / m);
    SmallMultiple(m, q - x / m, x % m - r);
  }

  lemma DivMod(x: nat, m: nat)
    requires m > 0
    ensures x == m * (x / m) + x % m && 0 <= x % m < m && x / m >= 0
  {
  }

  lemma Distribute(m: int, a: int, b: int)
    ensures m * (a - b) == m * a - m * b
    ensures m * (a + b) == m * a + m * b
  {
  }

  lemma SmallMultiple(m: int, d: int, p: int)
    requires m * d == p && -m < p < m
    ensures d == 0
  {
    if d >= 1 {
      assert m * d == m * (d - 1) + m;
      MulNonneg(m, d - 1);
    } else if d <= -1 {
      assert m * d == -(m * (-d - 1)) - m;
      MulNonneg(m, -d - 1);
    }
  }

  lemma MulNonneg(a: nat, b: nat)
    ensures a * b >= 0
  {
  }

  lemma Associate(a: int, b: int, c: int)
    ensures a * b * c == a * (b * c)
  {
  }

  /** `x & (2^k - 1)` is the remainder modulo 2^k. */
  lemma AndMask(x: nat, k: nat)
    ensures And(x, Pow2(k) - 1) == x % Pow2(k)
  {
    var q := AndLeaves(x, k);
    ModUnique(x, Pow2(k), q, And(x, Pow2(k) - 1));
  }

  /** What masking takes away is a multiple of 2^k. */
  lemma {:induction false} AndLeaves(x: nat, k: nat) returns (q: nat)
    ensures x == Pow2(k) * q + And(x, Pow2(k) - 1) && And(x, Pow2(k) - 1) < Pow2(k)
    decreases k
  {
    if k == 0 {
      q := x;
    } else {
      var m := Pow2(k - 1);
      q := AndLeaves(x / 2, k - 1);
      AndOdd(x, m - 1);
      Associate(2, m, q);
    }
  }

  lemma AndOdd(x: nat, m: nat)
    ensures And(x, 2 * m + 1) == x % 2 + 2 * And(x / 2, m)
  {
    assert (2 * m + 1) / 2 == m && (2 * m + 1) % 2 == 1;
  }

  lemma XorSplit(a: nat, b: nat)
    ensures Xor(a, b) / 2 == Xor(a / 2, b / 2)
    ensures Xor(a, b) % 2 == if a % 2 != b % 2 then 1 else 0
  {
  }

  /** Exclusive or modulo 2^k only depends on the operands modulo 2^k. */
  lemma {:induction false} XorMod(a: nat, b: nat, k: nat)
    ensures Xor(a, b) % Pow2(k) == Xor(a % Pow2(k), b % Pow2(k))
    decreases k
  {
    if k > 0 {
      var m := Pow2(k - 1);
      SplitLowBit(a, m);
      SplitLowBit(b, m);
      SplitLowBit(Xor(a, b), m);
      XorMod(a / 2, b / 2, k - 1);
      XorSplit(a, b);
      XorSplit(a % Pow2(k), b % Pow2(k));
    }
  }

  lemma {:induction false} Pow2Divides(j: nat, k: nat)
    requires j <= k
    ensures Pow2(k) == Pow2(j) * Pow2(k - j)
    decreases k - j
  {
    if j < k {
      Pow2Divides(j, k - 1);
      assert Pow2(j) * (2 * Pow2(k - 1 - j)) == 2 * (Pow2(j) * Pow2(k - 1 - j));
    }
  }

  /** Reducing modulo 2^k first does not change the remainder modulo a smaller power of two. */
  lemma ModMod(x: nat, j: nat, k: nat)
    requires j <= k
    ensures x % Pow2(k) % Pow2(j) == x % Pow2(j)
  {
    var m, n := Pow2(j), Pow2(k - j);
    var q, r := x / Pow2(k), x % Pow2(k);
    Pow2Divides(j, k);
    DivMod(x, Pow2(k));
    DivMod(r, m);
    Associate(m, n, q);
    Distribute(m, n * q, r / m);
    MulNonneg(n, q);
    ModUnique(x, m, n * q + r / m, r % m);
  }

  lemma Pow2Of32()
    ensures Pow2(32) == 0x1_0000_0000
  {
    assert Pow2(8) == 256;
    Pow2Divides(8, 16);
    Pow2Divides(16, 32);
  }

  lemma {:induction false} Pow2AtLeast(j: nat, k: nat)
    requires j <= k
    ensures Pow2(j) <= Pow2(k)
    decreases k
  {
    if j < k {
      Pow2AtLeast(j, k - 1);
    }
  }
}
