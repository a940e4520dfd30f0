/**
  The theory behind the 1-Wire search: ROM numbers as paths in a binary tree, the direction rule at a
  fork, and why repeated walks visit the leaves in order.
  */
module RomSearch {
  import opened Gf2

  /** A ROM number, in the order in which its bits cross the wire. */
  type Rom = r: Bits | |r| == 64 witness Zeros(64)

  // ----- paths and forks

  predicate Agree(r: Rom, p: Bits, k: nat)
    requires k <= |p| && k <= 64
  {
    forall j {:trigger r[j]} {:trigger p[j]} | 0 <= j < k :: r[j] == p[j]
  }

  /** Some ROM of `S` follows the path up to bit `i` and leaves it there. */
  ghost predicate Fork(S: set<Rom>, p: Bits, i: nat)
    requires i < |p| <= 64
  {
    exists s :: s in S && Agree(s, p, i) && s[i] != p[i]
  }

  /**
    The direction taken at a fork at bit `i`: repeat the last ROM before the last discrepancy,
    take 1 at it, and 0 beyond it.  Positions count from 1 in `ld`.
    */
  function Choice(last: Rom, ld: nat, i: nat): bool
    requires i < 64
  {
    if i + 1 < ld then last[i] else i + 1 == ld
  }

  /** `p` took the prescribed direction at every fork it passed. */
  ghost predicate Prescribed(S: set<Rom>, last: Rom, ld: nat, p: Bits)
    requires |p| <= 64
  {
    forall i {:trigger Fork(S, p, i)} | 0 <= i < |p| :: Fork(S, p, i) ==> p[i] == Choice(last, ld, i)
  }

  /** The last position, counted from 1, at which `p` took 0 at a fork; 0 if there is none. */
  ghost function LastZero(S: set<Rom>, p: Bits): nat
    requires |p| <= 64
  {
    LastZeroBelow(S, p, |p|)
  }

  ghost function LastZeroBelow(S: set<Rom>, p: Bits, k: nat): (z: nat)
    requires k <= |p| <= 64
    ensures z <= k
    ensures z > 0 ==> Fork(S, p, z - 1) && !p[z - 1]
    ensures forall i {:trigger Fork(S, p, i)} | z <= i < k :: Fork(S, p, i) ==> p[i]
  {
    if k == 0 then 0
    else if Fork(S, p, k - 1) && !p[k - 1] then k
    else LastZeroBelow(S, p, k - 1)
  }

  lemma ForkOnPrefix(S: set<Rom>, p: Bits, q: Bits, i: nat)
    requires i < |p| <= |q| <= 64
    requires p == q[..|p|]
    ensures Fork(S, p, i) == Fork(S, q, i)
  {
    forall s | s in S
      ensures (Agree(s, p, i) && s[i] != p[i]) == (Agree(s, q, i) && s[i] != q[i])
    {
      assert forall j | 0 <= j < |p| :: p[j] == q[j];
    }
  }

  lemma {:induction false} LastZeroOnPrefix(S: set<Rom>, p: Bits, q: Bits, k: nat)
    requires k <= |p| <= |q| <= 64
    requires p == q[..|p|]
    ensures LastZeroBelow(S, p, k) == LastZeroBelow(S, q, k)
  {
    if k > 0 {
      ForkOnPrefix(S, p, q, k - 1);
      LastZeroOnPrefix(S, p, q, k - 1);
    }
  }

  /** How a path and its last fork grow by one bit. */
  lemma PathSnoc(S: set<Rom>, last: Rom, ld: nat, p: Bits, b: bool)
    requires |p| < 64
    requires Prescribed(S, last, ld, p)
    requires Fork(S, p + [b], |p|) ==> b == Choice(last, ld, |p|)
    ensures Prescribed(S, last, ld, p + [b])
    ensures LastZero(S, p + [b]) == if Fork(S, p + [b], |p|) && !b then |p| + 1 else LastZero(S, p)
  {
    var q := p + [b];
    forall i | 0 <= i < |q| && Fork(S, q, i)
      ensures q[i] == Choice(last, ld, i)
    {
      if i < |p| {
        ForkOnPrefix(S, p, q, i);
      }
    }
    LastZeroOnPrefix(S, p, q, |p|);
  }

  // ----- the order of ROM numbers

  function FirstDiffFrom(a: Rom, b: Rom, i: nat): (d: nat)
    requires i <= 64
    requires a != b && Agree(a, b, i)
    ensures i <= d < 64 && Agree(a, b, d) && a[d] != b[d]
    decreases 64 - i
  {
    if i < 64 && a[i] != b[i] then i
    else
      assert i == 64 ==> a == b;
      FirstDiffFrom(a, b, i + 1)
  }

  /** The bit at which two distinct ROMs part. */
  function FirstDiff(a: Rom, b: Rom): (d: nat)
    requires a != b
    ensures d < 64 && Agree(a, b, d) && a[d] != b[d]
  {
    FirstDiffFrom(a, b, 0)
  }

  /** Lexicographic order, least significant bit first. */
  predicate Less(a: Rom, b: Rom) {
    a != b && b[FirstDiff(a, b)]
  }

  lemma LessAt(a: Rom, b: Rom, d: nat)
    requires d < 64 && Agree(a, b, d) && a[d] != b[d]
    ensures a != b && FirstDiff(a, b) == d
    ensures Less(a, b) == b[d]
  {
    var e := FirstDiff(a, b);
    assert !(e < d) && !(d < e);
  }

  lemma LessTotal(a: Rom, b: Rom)
    ensures Less(a, b) || a == b || Less(b, a)
    ensures !(Less(a, b) && Less(b, a))
  {
    if a != b {
      LessAt(b, a, FirstDiff(a, b));
    }
  }

  lemma LessTransitive(a: Rom, b: Rom, c: Rom)
    requires Less(a, b) && Less(b, c)
    ensures Less(a, c)
  {
    var d, e := FirstDiff(a, b), FirstDiff(b, c);
    assert b[d] && !b[e];
    if d < e {
      assert b[d] == c[d];
      LessAt(a, c, d);
    } else {
      LessAt(a, c, e);
    }
  }

  // ----- one walk

  /** Where a walk ends: a ROM of `S` that took the prescribed direction at every fork. */
  ghost predicate Reached(S: set<Rom>, last: Rom, ld: nat, r: Rom) {
    r in S && Prescribed(S, last, ld, r)
  }

  /** Two ROMs of `S` fork where they part. */
  lemma PartingForks(S: set<Rom>, r: Rom, s: Rom)
    requires r in S && s in S && r != s
    ensures Fork(S, r, FirstDiff(r, s)) && Fork(S, s, FirstDiff(r, s))
  {
    var d := FirstDiff(r, s);
    assert Agree(s, r, d);
  }

  lemma ReachedUnique(S: set<Rom>, last: Rom, ld: nat, r: Rom, s: Rom)
    requires Reached(S, last, ld, r) && Reached(S, last, ld, s)
    ensures r == s
  {
    if r != s {
      PartingForks(S, r, s);
    }
  }

  ghost predicate IsLeast(S: set<Rom>, m: Rom) {
    m in S && forall s | s in S :: s == m || Less(m, s)
  }

  ghost predicate IsGreatest(S: set<Rom>, m: Rom) {
    m in S && forall s | s in S :: s == m || Less(s, m)
  }

  /** `t` follows `r` in `S` with nothing between them. */
  ghost predicate IsSuccessor(S: set<Rom>, r: Rom, t: Rom) {
    t in S && Less(r, t) && forall s | s in S && Less(r, s) :: s == t || Less(t, s)
  }

  /** A ROM that takes 0 at every fork from bit `k` on is least among those that share its first `k` bits. */
  lemma ZeroForksLeast(S: set<Rom>, r: Rom, k: nat, s: Rom)
    requires r in S && s in S && s != r
    requires k <= 64 && Agree(s, r, k)
    requires forall i {:trigger Fork(S, r, i)} | k <= i < 64 && Fork(S, r, i) :: !r[i]
    ensures Less(r, s)
  {
    PartingForks(S, r, s);
  }

  /** With no last discrepancy the walk ends at the least ROM. */
  lemma FreshWalkIsLeast(S: set<Rom>, last: Rom, r: Rom)
    requires Reached(S, last, 0, r)
    ensures IsLeast(S, r)
  {
    forall s | s in S && s != r
      ensures Less(r, s)
    {
      ZeroForksLeast(S, r, 0, s);
    }
  }

  /** Never having taken 0 at a fork means being the greatest. */
  lemma GreatestHasNoZero(S: set<Rom>, r: Rom)
    requires r in S
    ensures LastZero(S, r) == 0 <==> IsGreatest(S, r)
  {
    if LastZero(S, r) == 0 {
      forall s | s in S && s != r
        ensures Less(s, r)
      {
        PartingForks(S, s, r);
      }
    } else {
      var z := LastZero(S, r);
      var s :| s in S && Agree(s, r, z - 1) && s[z - 1] != r[z - 1];
      LessAt(s, r, z - 1);
    }
  }

  /** A walk with the last discrepancy of `r` ends at the successor of `r`. */
  lemma WalkIsSuccessor(S: set<Rom>, r: Rom, t: Rom)
    requires r in S
    requires LastZero(S, r) > 0
    requires Reached(S, r, LastZero(S, r), t)
    ensures IsSuccessor(S, r, t)
  {
    var d := LastZero(S, r) - 1;
    TurnsAtLastZero(S, r, t);
    LessAt(r, t, d);
    forall s | s in S && Less(r, s) && s != t
      ensures Less(t, s)
    {
      var e := FirstDiff(r, s);
      PartingForks(S, r, s);
      assert e <= d;
      if e < d {
        LessAt(t, s, e);
      } else {
        assert Agree(s, t, d + 1);
        AfterTurnZeros(S, r, t);
        ZeroForksLeast(S, t, d + 1, s);
      }
    }
  }

  lemma ForkShared(S: set<Rom>, r: Rom, t: Rom, d: nat)
    requires d < 64 && Agree(t, r, d) && t[d] == r[d]
    requires Fork(S, r, d)
    ensures Fork(S, t, d)
  {
    var s :| s in S && Agree(s, r, d) && s[d] != r[d];
    assert Agree(s, t, d);
  }

  lemma TurnsAtLastZero(S: set<Rom>, r: Rom, t: Rom)
    requires r in S
    requires LastZero(S, r) > 0
    requires Reached(S, r, LastZero(S, r), t)
    ensures Agree(t, r, LastZero(S, r) - 1) && t[LastZero(S, r) - 1]
  {
    var d := LastZero(S, r) - 1;
    if !Agree(t, r, d) {
      assert FirstDiff(t, r) < d;
      PartingForks(S, t, r);
    }
    if !t[d] {
      ForkShared(S, r, t, d);
    }
  }

  lemma AfterTurnZeros(S: set<Rom>, r: Rom, t: Rom)
    requires r in S
    requires LastZero(S, r) > 0
    requires Reached(S, r, LastZero(S, r), t)
    ensures forall i {:trigger Fork(S, t, i)} | LastZero(S, r) <= i < 64 && Fork(S, t, i) :: !t[i]
  {
  }
}
