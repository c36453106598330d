/** Polynomials over GF(2), as the sets of their exponents. */
module Polynomial {
  type Poly = set<nat>

  const ONE: Poly := {0}

  const X: Poly := {1}

  /** x^128 + x^7 + x^2 + x + 1 */
  const MODULUS: Poly := {128, 7, 2, 1, 0}

  function Plus(a: Poly, b: Poly): Poly {
    (a - b) + (b - a)
  }

  /** The exponents in `a` that meet one in `b` whose sum with them is `k`. */
  function Ways(a: Poly, b: Poly, k: nat): Poly {
    set i | i in a && i <= k && k - i in b
  }

  /** Whether x^k is in the product: its coefficient is the number of those pairs modulo two. */
  predicate InProduct(a: Poly, b: Poly, k: nat) {
    |Ways(a, b, k)| % 2 == 1
  }

  /** `r`, of degree below 128, differs from the product of `a` and `b` by a multiple of MODULUS. */
  ghost predicate IsRemainder(a: Poly, b: Poly, r: Poly) {
    (forall i :: i in r ==> i < 128) && exists q :: IsQuotient(a, b, r, q)
  }

  /** The product of `a` and `b` is that of `q` and MODULUS plus `r`. */
  ghost predicate IsQuotient(a: Poly, b: Poly, r: Poly, q: Poly) {
    forall k: nat :: InProduct(a, b, k) <==> (InProduct(q, MODULUS, k) != (k in r))
  }

  // ----- products with little factors

  lemma TimesZero(b: Poly, k: nat)
    ensures !InProduct({}, b, k)
  {
    assert Ways({}, b, k) == {};
  }

  lemma TimesOne(b: Poly, k: nat)
    ensures InProduct(ONE, b, k) <==> k in b
  {
    assert Ways(ONE, b, k) == if k in b then {0} else {};
  }

  lemma TimesX(b: Poly, k: nat)
    ensures InProduct(X, b, k) <==> k > 0 && k - 1 in b
  {
    assert Ways(X, b, k) == if k > 0 && k - 1 in b then {1} else {};
  }

  // ----- products distribute over sums

  lemma PlusSize(a: Poly, b: Poly)
    ensures |Plus(a, b)| % 2 == (|a| + |b|) % 2
  {
    assert |a - b| + |a * b| == |a| by { assert (a - b) + (a * b) == a; }
    assert |b - a| + |a * b| == |b| by { assert (b - a) + (a * b) == b; }
  }

  lemma ProductDistributes(a: Poly, b: Poly, c: Poly, k: nat)
    ensures InProduct(Plus(a, b), c, k) <==> (InProduct(a, c, k) != InProduct(b, c, k))
  {
    assert Ways(Plus(a, b), c, k) == Plus(Ways(a, c, k), Ways(b, c, k));
    PlusSize(Ways(a, c, k), Ways(b, c, k));
  }

  // ----- remainders are unique

  lemma Degree(q: Poly) returns (d: nat)
    requires q != {}
    ensures d in q && forall i :: i in q ==> i <= d
    decreases |q|
  {
    d :| d in q;
    var rest := q - {d};
    if rest == {} {
      assert q == {d};
    } else {
      var e := Degree(rest);
      assert q == rest + {d};
      if d < e { d := e; }
    }
  }

  /** A multiple of MODULUS other than zero has degree 128 or more. */
  lemma MultipleIsLong(q: Poly) returns (k: nat)
    requires q != {}
    ensures k >= 128 && InProduct(q, MODULUS, k)
  {
    var d := Degree(q);
    k := d + 128;
    assert Ways(q, MODULUS, k) == {d};
  }

  /** From degree 128 on the remainder takes no part. */
  lemma TooShort(a: Poly, b: Poly, r: Poly, q: Poly, k: nat)
    requires k >= 128 && (forall i :: i in r ==> i < 128) && IsQuotient(a, b, r, q)
    ensures InProduct(a, b, k) <==> InProduct(q, MODULUS, k)
  {
    assert k !in r;
  }

  lemma QuotientIsUnique(a: Poly, b: Poly, r1: Poly, q1: Poly, r2: Poly, q2: Poly)
    requires (forall i :: i in r1 ==> i < 128) && (forall i :: i in r2 ==> i < 128)
    requires IsQuotient(a, b, r1, q1) && IsQuotient(a, b, r2, q2)
    ensures q1 == q2
  {
    if Plus(q1, q2) != {} {
      var k := MultipleIsLong(Plus(q1, q2));
      ProductDistributes(q1, q2, MODULUS, k);
      TooShort(a, b, r1, q1, k);
      TooShort(a, b, r2, q2, k);
    } else {
      assert q1 - q2 == {} && q2 - q1 == {};
    }
  }

  lemma RemainderIsUnique(a: Poly, b: Poly, r1: Poly, r2: Poly)
    requires IsRemainder(a, b, r1) && IsRemainder(a, b, r2)
    ensures r1 == r2
  {
    var q1 :| IsQuotient(a, b, r1, q1);
    var q2 :| IsQuotient(a, b, r2, q2);
    QuotientIsUnique(a, b, r1, q1, r2, q2);
    forall k: nat ensures k in r1 <==> k in r2 {
      assert InProduct(a, b, k) <==> (InProduct(q1, MODULUS, k) != (k in r1));
      assert InProduct(a, b, k) <==> (InProduct(q1, MODULUS, k) != (k in r2));
    }
  }
}
