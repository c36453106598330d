/** Decimal digits, most significant first. */
module Decimal {
  import opened CInt

  function Pow10(k: nat): (r: nat)
    ensures r >= 1
  {
    if k == 0 then 1 else 10 * Pow10(k - 1)
  }

  predicate Digits(s: seq<int>) { forall i :: 0 <= i < |s| ==> 0 <= s[i] <= 9 }

  /** The number that digits stand for. */
  function Num(s: seq<int>): int {
    if |s| == 0 then 0 else 10 * Num(s[..|s| - 1]) + s[|s| - 1]
  }

  /** The low `k` digits of a number. */
  function Fixed(n: nat, k: nat): (r: seq<int>)
    ensures |r| == k && Digits(r)
  {
    if k == 0 then [] else Fixed(n / 10, k - 1) + [n % 10]
  }

  /** A number in decimal, without leading zeros. */
  function Shortest(n: nat): (r: seq<int>)
    ensures Digits(r)
  {
    if n < 10 then [n] else Shortest(n / 10) + [n % 10]
  }

  lemma {:induction false} FixedOfNum(s: seq<int>)
    requires Digits(s)
    ensures 0 <= Num(s) < Pow10(|s|) && s == Fixed(Num(s), |s|)
  {
    if |s| > 0 {
      var front := s[..|s| - 1];
      FixedOfNum(front);
      assert Num(s) / 10 == Num(front) && Num(s) % 10 == s[|s| - 1];
    }
  }

  lemma {:induction false} NumOfFixed(n: nat, k: nat)
    requires n < Pow10(k)
    ensures Num(Fixed(n, k)) == n
  {
    if k > 0 {
      NumOfFixed(n / 10, k - 1);
      assert Fixed(n, k)[..k - 1] == Fixed(n / 10, k - 1);
    }
  }

  /** Reading a number back. */
  lemma {:induction false} NumOfShortest(n: nat)
    ensures Num(Shortest(n)) == n
  {
    if n < 10 {
      assert Shortest(n)[..0] == [];
    } else {
      NumOfShortest(n / 10);
      assert Shortest(n)[..|Shortest(n)| - 1] == Shortest(n / 10);
    }
  }

  /** A number without its low `k` digits. */
  function High(n: nat, k: nat): nat {
    QuotientNotNegative(n, Pow10(k));
    n / Pow10(k)
  }

  lemma QuotientNotNegative(n: nat, p: nat)
    requires p > 0
    ensures n / p >= 0
  {
  }

  lemma DivTwice(n: nat, p: nat)
    requires p > 0
    ensures n / 10 / p == n / (10 * p)
  {
    var q, r := n / 10 / p, n / 10 % p;
    var c := 10 * p;
    assert n == 10 * (q * p + r) + n % 10;
    assert n == q * c + (10 * r + n % 10);
    DivModUnique(n, c, q, 10 * r + n % 10);
  }

  lemma {:induction false} FixedSplit(n: nat, a: nat, b: nat)
    ensures Fixed(n, a + b) == Fixed(High(n, b), a) + Fixed(n, b)
    decreases b
  {
    if b > 0 {
      FixedSplit(n / 10, a, b - 1);
      DivTwice(n, Pow10(b - 1));
    }
  }

  lemma {:induction false} PowAdd(a: nat, b: nat)
    ensures Pow10(a + b) == Pow10(a) * Pow10(b)
    decreases b
  {
    if b > 0 { PowAdd(a, b - 1); }
  }

  lemma HighPart(n: nat, a: nat, b: nat)
    requires n < Pow10(a + b)
    ensures High(n, b) < Pow10(a)
  {
    PowAdd(a, b);
    var q, p := n / Pow10(b), Pow10(b);
    assert q * p <= n < Pow10(a) * p;
    SmallerFactor(q, Pow10(a), p);
  }

  lemma SmallerFactor(q: int, a: int, p: int)
    requires p > 0 && q * p < a * p
    ensures q < a
  {
    assert (a - q) * p > 0;
  }

  // ----- leading zeros

  /** Digits without leading zeros, but at least one. */
  function Strip(s: seq<int>): seq<int> {
    if |s| <= 1 || s[0] != 0 then s else Strip(s[1..])
  }

  lemma {:induction false} StripAt(s: seq<int>, c: nat)
    requires c < |s| && (forall i :: 0 <= i < c ==> s[i] == 0) && (s[c] != 0 || c == |s| - 1)
    ensures Strip(s) == s[c..]
    decreases c
  {
    if c > 0 {
      StripAt(s[1..], c - 1);
      assert s[1..][c - 1..] == s[c..];
    }
  }

  /** Some digit of a positive number is not zero. */
  lemma {:induction false} FirstNonZeroFrom(s: seq<int>, from: nat) returns (c: nat)
    requires Num(s) > 0 && from <= |s| && forall i :: 0 <= i < from ==> s[i] == 0
    ensures c < |s| && s[c] != 0 && forall i :: 0 <= i < c ==> s[i] == 0
    decreases |s| - from
  {
    if from == |s| {
      ZerosAreZero(s);
      assert false;
    } else if s[from] != 0 {
      c := from;
    } else {
      c := FirstNonZeroFrom(s, from + 1);
    }
  }

  lemma {:induction false} ZerosAreZero(s: seq<int>)
    requires forall i :: 0 <= i < |s| ==> s[i] == 0
    ensures Num(s) == 0
  {
    if |s| > 0 { ZerosAreZero(s[..|s| - 1]); }
  }

  /** The digits of zero are zeros. */
  lemma {:induction false} FixedZero(k: nat)
    ensures forall i :: 0 <= i < k ==> Fixed(0, k)[i] == 0
  {
    if k > 0 { FixedZero(k - 1); }
  }

  lemma StripAppend(t: seq<int>, d: int)
    requires Num(t) > 0
    ensures Strip(t + [d]) == Strip(t) + [d]
  {
    var c := FirstNonZeroFrom(t, 0);
    StripAt(t, c);
    StripAt(t + [d], c);
  }

  /** Fixed-width digits without their leading zeros are the decimal form. */
  lemma {:induction false} StripFixed(n: nat, k: nat)
    requires k > 0 && n < Pow10(k)
    ensures Strip(Fixed(n, k)) == Shortest(n)
    decreases k
  {
    if n < 10 {
      FixedZero(k - 1);
      assert n / 10 == 0 && Fixed(n, k) == Fixed(0, k - 1) + [n];
      StripAt(Fixed(n, k), k - 1);
    } else {
      assert k > 1;
      StripFixed(n / 10, k - 1);
      NumOfFixed(n / 10, k - 1);
      StripAppend(Fixed(n / 10, k - 1), n % 10);
    }
  }

  /** A number split at the point. */
  lemma SplitAtPoint(n: nat, a: nat, b: nat)
    requires a > 0 && n < Pow10(a + b)
    ensures var s := Fixed(n, a + b); Strip(s[..a]) == Shortest(High(n, b)) && s[a..] == Fixed(n, b)
  {
    FixedSplit(n, a, b);
    HighPart(n, a, b);
    StripFixed(High(n, b), a);
    assert Fixed(n, a + b)[..a] == Fixed(High(n, b), a);
  }

  // ----- rounding up

  /** Add one unit in the last place; a carry out of the first digit is lost. */
  function Inc(s: seq<int>): (r: seq<int>)
    ensures |r| == |s|
  {
    if s == [] then []
    else if s[|s| - 1] == 9 then Inc(s[..|s| - 1]) + [0]
    else s[..|s| - 1] + [s[|s| - 1] + 1]
  }

  lemma {:induction false} IncAddsOne(s: seq<int>)
    requires Digits(s) && Num(s) + 1 < Pow10(|s|)
    ensures Digits(Inc(s)) && Num(Inc(s)) == Num(s) + 1
  {
    var n := |s| - 1;
    if s[n] == 9 {
      IncAddsOne(s[..n]);
      assert Inc(s)[..n] == Inc(s[..n]);
    } else {
      assert Inc(s)[..n] == s[..n];
    }
  }
}
