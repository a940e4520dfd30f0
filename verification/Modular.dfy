/** Counting round a cycle. */
module Modular {

  lemma AtLeastOnce(m: int, d: int)
    requires m > 0 && d >= 1
    ensures m * d >= m
  {
    assert m * (d - 1) >= 0;
  }

  lemma QuotientUnique(m: int, q: int, r: int, q': int, r': int)
    requires 0 <= r < m && 0 <= r' < m
    requires m * q + r == m * q' + r'
    ensures q == q' && r == r'
  {
    assert m * (q - q') == r' - r;
    assert m * (q' - q) == r - r';
    if q > q' {
      AtLeastOnce(m, q - q');
    } else if q < q' {
      AtLeastOnce(m, q' - q);
    }
  }

  /** The place reached `k` steps after place `a` on a cycle of `m` places. */
  function Turn(a: nat, m: nat, k: nat): (p: nat)
    requires m > 0
    ensures p < m
  {
    (a + k) % m
  }

  lemma TurnIs(a: nat, m: nat, k: nat, q: nat, r: nat)
    requires r < m && a + k == m * q + r
    ensures Turn(a, m, k) == r
  {
    QuotientUnique(m, q, r, (a + k) / m, (a + k) % m);
  }

  lemma TurnStart(a: nat, m: nat)
    requires a < m
    ensures Turn(a, m, 0) == a
  {
    TurnIs(a, m, 0, 0, a);
  }

  /** One more step round the cycle. */
  lemma TurnNext(a: nat, m: nat, k: nat)
    requires m > 0
    ensures Turn(a, m, k + 1) == if Turn(a, m, k) + 1 < m then Turn(a, m, k) + 1 else 0
  {
    var q, r := (a + k) / m, (a + k) % m;
    assert a + k == m * q + r;
    if r + 1 < m {
      TurnIs(a, m, k + 1, q, r + 1);
    } else {
      assert m * (q + 1) == m * q + m;
      TurnIs(a, m, k + 1, q + 1, 0);
    }
  }

  lemma TurnInOneRound(a: nat, m: nat, k: nat)
    requires m > 0 && k < m
    ensures Turn(a, m, k) == if a % m + k < m then a % m + k else a % m + k - m
  {
    var q, r := a / m, a % m;
    assert a == m * q + r;
    if r + k < m {
      TurnIs(a, m, k, q, r + k);
    } else {
      assert m * (q + 1) == m * q + m;
      TurnIs(a, m, k, q + 1, r + k - m);
    }
  }

  lemma TurnFrom(a: nat, m: nat, b: nat, k: nat)
    requires m > 0
    ensures Turn(a + b, m, k) == Turn(a, m, b + k)
  {
  }

  lemma TurnRound(a: nat, m: nat, k: nat)
    requires m > 0
    ensures Turn(a, m, k + m) == Turn(a, m, k)
  {
    var q, r := (a + k) / m, (a + k) % m;
    assert a + k == m * q + r;
    assert m * (q + 1) == m * q + m;
    TurnIs(a, m, k + m, q + 1, r);
  }

  /** A full round meets every place exactly once. */
  lemma MeetsOnce(a: nat, m: nat, t: nat) returns (i: nat)
    requires t < m
    ensures i < m && Turn(a, m, i) == t
    ensures forall k: nat | k < m && Turn(a, m, k) == t :: k == i
  {
    hide Turn;
    var r := a % m;
    i := if r <= t then t - r else m + t - r;
    TurnInOneRound(a, m, i);
    forall k: nat | k < m && Turn(a, m, k) == t
      ensures k == i
    {
      TurnInOneRound(a, m, k);
    }
  }
}
