/** Powers of two and bitwise "and" on natural numbers. */
module Bits {
  import opened CInt

  function Pow2(k: nat): (p: nat)
    ensures p >= 1
  {
    if k == 0 then 1 else 2 * Pow2(k - 1)
  }

  function BitAnd(a: nat, b: nat): nat {
    if a == 0 || b == 0 then 0 else (if a % 2 == 1 && b % 2 == 1 then 1 else 0) + 2 * BitAnd(a / 2, b / 2)
  }

  ghost predicate IsPow2(n: int) {
    exists k: nat :: n == Pow2(k)
  }

  /** Masking with a power of two less one is the remainder. */
  lemma {:induction false} MaskIsRemainder(x: nat, k: nat)
    ensures BitAnd(x, Pow2(k) - 1) == x % Pow2(k)
  {
    if k > 0 {
      MaskIsRemainder(x / 2, k - 1);
      MaskStep(x, Pow2(k - 1), Pow2(k), x / 2 % Pow2(k - 1));
    }
  }

  lemma MaskStep(x: nat, p: nat, c: nat, r: nat)
    requires p > 0 && c == 2 * p && r == x / 2 % p && BitAnd(x / 2, p - 1) == r
    ensures BitAnd(x, c - 1) == x % c
  {
    AndOdd(x, p - 1, c - 1);
    RemainderByHalves(x, p, c, r);
  }

  lemma AndOdd(x: nat, b: nat, c: nat)
    requires c == 2 * b + 1
    ensures BitAnd(x, c) == x % 2 + 2 * BitAnd(x / 2, b)
  {
    assert c / 2 == b && c % 2 == 1;
  }

  lemma RemainderByHalves(x: nat, p: nat, c: nat, r: nat)
    requires p > 0 && c == 2 * p && r == x / 2 % p
    ensures x % c == x % 2 + 2 * r
  {
    var y := x / 2;
    var q := y / p;
    assert y == q * p + r;
    assert q * c == 2 * (q * p);
    DivModUnique(x, c, q, x % 2 + 2 * r);
  }
}
