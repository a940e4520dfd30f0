/** Prime numbers, as far as the periods of the CRC generators need them. */
module Primes {
  import opened Modular

  predicate Divides(d: nat, n: nat)
    requires d > 0
  {
    n % d == 0
  }

  predicate Prime(p: nat) {
    p > 1 && forall d | 1 < d < p :: !Divides(d, p)
  }

  lemma NoSmallFactor(p: nat, d: nat, q: nat)
    requires p == 7 || p == 31 || p == 127 || p == 151
    requires d < 13 && d * q == p
    ensures d == 1 || q == 1
  {
    if d == 2 {} else if d == 3 {} else if d == 4 {} else if d == 5 {} else if d == 6 {} else if d == 7 {}
    else if d == 8 {} else if d == 9 {} else if d == 10 {} else if d == 11 {} else if d == 12 {} else {}
  }

  lemma LargeProduct(d: nat, q: nat)
    requires d >= 13 && q >= 13
    ensures d * q >= 169
  {
    assert d * q >= 13 * q;
  }

  lemma IsPrime(p: nat)
    requires p == 7 || p == 31 || p == 127 || p == 151
    ensures Prime(p)
  {
    forall d | 1 < d < p
      ensures !Divides(d, p)
    {
      var q, r := WithRest(p, d);
      if r == 0 {
        if d < 13 {
          NoSmallFactor(p, d, q);
        } else if q < 13 {
          NoSmallFactor(p, q, d);
        } else {
          LargeProduct(d, q);
        }
      }
    }
  }

  lemma DividesIff(d: nat, n: nat, k: nat, r: nat)
    requires r < d && n == d * k + r
    ensures Divides(d, n) <==> r == 0
  {
    QuotientUnique(d, k, r, n / d, n % d);
  }

  lemma WithRest(n: nat, d: nat) returns (k: nat, r: nat)
    requires d > 0
    ensures n == d * k + r && r < d
    ensures Divides(d, n) <==> r == 0
  {
    k, r := n / d, n % d;
  }

  lemma FactorDivides(d: nat, n: nat, m: int)
    requires d > 0 && n == d * m
    ensures Divides(d, n)
  {
    QuotientUnique(d, m, 0, n / d, n % d);
  }

  /** A prime that divides a product divides a factor. */
  lemma {:induction false} DividesFactor(p: nat, a: nat, b: nat, m: int)
    requires Prime(p) && a * b == p * m
    ensures Divides(p, a) || Divides(p, b)
    decreases a
  {
    hide Prime, Divides;
    AboveOne(p);
    if a <= 1 {
      FactorDivides(p, a * b, m);
      assert a * b == if a == 0 then a else b;
    } else if a >= p {
      var k, r := WithRest(a, p);
      LessMultiples(p, a, b, m, k, r);
      DividesFactor(p, r, b, m - k * b);
      DividesIff(p, r, 0, r);
    } else {
      var k, r := WithRest(p, a);
      NoDivisor(p, a);
      LessOfPrime(p, a, b, m, k, r);
      DividesFactor(p, r, b, b - k * m);
      DividesIff(p, r, 0, r);
    }
  }

  lemma AboveOne(p: nat)
    requires Prime(p)
    ensures p > 1
  {
  }

  lemma NoDivisor(p: nat, d: nat)
    requires Prime(p) && 1 < d < p
    ensures !Divides(d, p)
  {
  }

  lemma OnlyFactors(p: nat, d: nat, q: nat)
    requires Prime(p) && p == d * q
    ensures d == 1 || d == p
  {
    FactorAtMost(d, q);
    FactorDivides(d, p, q);
  }

  lemma FactorAtMost(d: nat, q: nat)
    requires d * q > 0
    ensures 0 < d <= d * q
  {
    assert d * (q - 1) >= 0;
  }

  lemma LessMultiples(p: nat, a: nat, b: nat, m: int, k: nat, r: nat)
    requires a * b == p * m && a == p * k + r
    ensures r * b == p * (m - k * b)
  {
    assert r * b == a * b - p * k * b;
    assert p * (m - k * b) == p * m - p * k * b;
  }

  lemma LessOfPrime(p: nat, a: nat, b: nat, m: int, k: nat, r: nat)
    requires a * b == p * m && p == a * k + r
    ensures r * b == p * (b - k * m)
  {
    assert r * b == p * b - a * k * b;
    assert a * k * b == k * (a * b) == k * (p * m);
    assert p * (b - k * m) == p * b - k * (p * m);
  }
}
