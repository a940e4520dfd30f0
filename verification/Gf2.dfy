/**
  Polynomials over GF(2), and the shift register that divides them.

  A bit sequence is a polynomial with its highest power first.  A register of `n` cells with taps `g`
  divides by the polynomial `x^n + g`; feeding it one bit performs one step of long division.
  */
module Gf2 {
  import opened Primes

  type Bits = seq<bool>

  function Zeros(n: nat): (z: Bits)
    ensures |z| == n
    ensures forall i {:trigger z[i]} | 0 <= i < n :: !z[i]
  {
    seq(n, i => false)
  }

  function Xor(a: Bits, b: Bits): (c: Bits)
    requires |a| == |b|
    ensures |c| == |a|
    ensures forall i {:trigger c[i]} | 0 <= i < |a| :: c[i] == (a[i] != b[i])
  {
    seq(|a|, i requires 0 <= i < |a| => a[i] != b[i])
  }

  function Scale(b: bool, a: Bits): (c: Bits)
    ensures |c| == |a|
    ensures forall i {:trigger c[i]} | 0 <= i < |a| :: c[i] == (b && a[i])
  {
    if b then a else Zeros(|a|)
  }

  /** One step of the register: the cell that leaves, added to the input bit, decides the feedback. */
  function Shift(g: Bits, c: Bits, b: bool): (r: Bits)
    requires |g| == |c| > 0
    ensures |r| == |c|
  {
    Xor(c[1..] + [false], Scale(c[0] != b, g))
  }

  function Feed(g: Bits, c: Bits, bits: Bits): (r: Bits)
    requires |g| == |c| > 0
    ensures |r| == |c|
  {
    if bits == [] then c
    else Shift(g, Feed(g, c, bits[..|bits| - 1]), bits[|bits| - 1])
  }

  lemma {:induction false} FeedConcat(g: Bits, c: Bits, a: Bits, b: Bits)
    requires |g| == |c| > 0
    ensures Feed(g, c, a + b) == Feed(g, Feed(g, c, a), b)
  {
    if b == [] {
      assert a + b == a;
    } else {
      assert (a + b)[..|a + b| - 1] == a + b[..|b| - 1];
      FeedConcat(g, c, a, b[..|b| - 1]);
    }
  }

  lemma FeedFront(g: Bits, c: Bits, b: bool, rest: Bits)
    requires |g| == |c| > 0
    ensures Feed(g, c, [b] + rest) == Feed(g, Shift(g, c, b), rest)
  {
    FeedConcat(g, c, [b], rest);
    assert [b][..0] == [];
    assert Feed(g, c, [b]) == Shift(g, Feed(g, c, []), b);
  }

  // ----- long division

  /** The quotient bits: the feedback decisions of a register that starts at zero. */
  function Quotient(g: Bits, bits: Bits): (q: Bits)
    requires |g| > 0
    ensures |q| == |bits|
  {
    if bits == [] then []
    else
      var front := bits[..|bits| - 1];
      Quotient(g, front) + [Feed(g, Zeros(|g|), front)[0] != bits[|bits| - 1]]
  }

  /** The product of `q` and `x^n + g`, by Horner's rule on `q`. */
  function Product(q: Bits, g: Bits): (p: Bits)
    ensures |p| == |q| + |g|
  {
    if q == [] then Zeros(|g|)
    else Xor(Product(q[..|q| - 1], g) + [false], Zeros(|q| - 1) + Scale(q[|q| - 1], [true] + g))
  }

  /** `bits * x^n + r`, for a remainder of `n` coefficients. */
  function Dividend(bits: Bits, r: Bits): (d: Bits)
    ensures |d| == |bits| + |r|
  {
    Xor(bits + Zeros(|r|), Zeros(|bits|) + r)
  }

  /** The register divides: message times `x^n`, plus the register, is quotient times generator. */
  lemma {:induction false} RegisterDivides(g: Bits, bits: Bits)
    requires |g| > 0
    ensures Dividend(bits, Feed(g, Zeros(|g|), bits)) == Product(Quotient(g, bits), g)
  {
    if bits == [] {
      assert Dividend([], Zeros(|g|)) == Zeros(|g|);
    } else {
      var k := |bits| - 1;
      var front, b := bits[..k], bits[k];
      assert bits == front + [b];
      var c, q := Feed(g, Zeros(|g|), front), Quotient(g, front);
      calc {
        Dividend(bits, Feed(g, Zeros(|g|), bits));
        Dividend(front + [b], Shift(g, c, b));
        { DivisionStep(g, front, b, c); }
        Xor(Dividend(front, c) + [false], Zeros(k) + Scale(c[0] != b, [true] + g));
        { RegisterDivides(g, front); }
        Xor(Product(q, g) + [false], Zeros(k) + Scale(c[0] != b, [true] + g));
        { ProductSnoc(q, c[0] != b, g); }
        Product(q + [c[0] != b], g);
        Product(Quotient(g, bits), g);
      }
    }
  }

  lemma ProductSnoc(q: Bits, b: bool, g: Bits)
    ensures Product(q + [b], g) == Xor(Product(q, g) + [false], Zeros(|q|) + Scale(b, [true] + g))
  {
    assert (q + [b])[..|q|] == q;
  }

  lemma DivisionStep(g: Bits, front: Bits, b: bool, c: Bits)
    requires |g| == |c| > 0
    ensures Dividend(front + [b], Shift(g, c, b))
         == Xor(Dividend(front, c) + [false], Zeros(|front|) + Scale(c[0] != b, [true] + g))
  {
    var lhs := Dividend(front + [b], Shift(g, c, b));
    var rhs := Xor(Dividend(front, c) + [false], Zeros(|front|) + Scale(c[0] != b, [true] + g));
    forall i | 0 <= i < |lhs|
      ensures lhs[i] == rhs[i]
    {
      DivisionStepAt(g, front, b, c, i);
    }
  }

  lemma DivisionStepAt(g: Bits, front: Bits, b: bool, c: Bits, i: nat)
    requires |g| == |c| > 0
    requires i < |front| + 1 + |g|
    ensures Dividend(front + [b], Shift(g, c, b))[i]
         == Xor(Dividend(front, c) + [false], Zeros(|front|) + Scale(c[0] != b, [true] + g))[i]
  {
    var k := |front|;
    if i > k {
      assert Dividend(front + [b], Shift(g, c, b))[i] == Shift(g, c, b)[i - k - 1];
      assert ([true] + g)[i - k] == g[i - k - 1];
    }
  }

  /** Long division has one answer: quotient and remainder are those of the register. */
  lemma DivisionUnique(g: Bits, bits: Bits, q: Bits, r: Bits)
    requires |g| == |r| > 0
    requires |q| == |bits|
    requires Dividend(bits, r) == Product(q, g)
    ensures q == Quotient(g, bits)
    ensures r == Feed(g, Zeros(|g|), bits)
  {
    hide Feed, Quotient, Product;
    RegisterDivides(g, bits);
    var c, q' := Feed(g, Zeros(|g|), bits), Quotient(g, bits);
    forall i | 0 <= i < |q|
      ensures Product(q, g)[i] == Product(q', g)[i]
    {
      DividendFront(bits, r, i);
      DividendFront(bits, c, i);
    }
    ProductInjective(g, q, q');
    DividendInjective(bits, r, c);
  }

  lemma DividendFront(bits: Bits, r: Bits, i: nat)
    requires i < |bits|
    ensures Dividend(bits, r)[i] == bits[i]
  {
  }

  lemma DividendInjective(bits: Bits, r: Bits, c: Bits)
    requires |r| == |c| && Dividend(bits, r) == Dividend(bits, c)
    ensures r == c
  {
    forall i | 0 <= i < |r|
      ensures r[i] == c[i]
    {
      assert Dividend(bits, r)[|bits| + i] == r[i];
      assert Dividend(bits, c)[|bits| + i] == c[i];
    }
  }

  lemma ProductHead(g: Bits, q: Bits, b: bool, i: nat)
    requires i <= |q| < |q| + |g|
    ensures Product(q + [b], g)[i] == if i < |q| then Product(q, g)[i] else Product(q, g)[i] != b
  {
    hide Product;
    ProductSnoc(q, b, g);
    assert (Product(q, g) + [false])[i] == Product(q, g)[i];
  }

  lemma {:induction false} ProductInjective(g: Bits, q: Bits, q': Bits)
    requires |g| > 0 && |q| == |q'|
    requires forall i | 0 <= i < |q| :: Product(q, g)[i] == Product(q', g)[i]
    ensures q == q'
  {
    hide Product;
    if q != [] {
      var k := |q| - 1;
      var front, front' := q[..k], q'[..k];
      assert q == front + [q[k]] && q' == front' + [q'[k]];
      forall i | 0 <= i < k
        ensures Product(front, g)[i] == Product(front', g)[i]
      {
        ProductHead(g, front, q[k], i);
        ProductHead(g, front', q'[k], i);
      }
      ProductInjective(g, front, front');
      ProductHead(g, front, q[k], k);
      ProductHead(g, front', q'[k], k);
    }
  }

  // ----- error detection

  lemma {:induction false} FeedLinear(g: Bits, c: Bits, d: Bits, a: Bits, b: Bits)
    requires |g| == |c| == |d| > 0
    requires |a| == |b|
    ensures Feed(g, Xor(c, d), Xor(a, b)) == Xor(Feed(g, c, a), Feed(g, d, b))
  {
    if a != [] {
      var k := |a| - 1;
      assert Xor(a, b)[..k] == Xor(a[..k], b[..k]);
      FeedLinear(g, c, d, a[..k], b[..k]);
    }
  }

  lemma {:induction false} FeedZeros(g: Bits, k: nat)
    requires |g| > 0
    ensures Feed(g, Zeros(|g|), Zeros(k)) == Zeros(|g|)
  {
    if k > 0 {
      assert Zeros(k)[..k - 1] == Zeros(k - 1);
      FeedZeros(g, k - 1);
    }
  }

  /** With a nonzero constant term, the last cell shows the feedback, so a step can be undone. */
  lemma ShiftInjective(g: Bits, c: Bits, d: Bits, b: bool)
    requires |g| == |c| == |d| > 0
    requires g[|g| - 1]
    requires Shift(g, c, b) == Shift(g, d, b)
    ensures c == d
  {
    var n := |g|;
    assert Shift(g, c, b)[n - 1] == (c[0] != b);
    assert Shift(g, d, b)[n - 1] == (d[0] != b);
    forall i | 0 < i < n
      ensures c[i] == d[i]
    {
      assert Shift(g, c, b)[i - 1] == (c[i] != ((c[0] != b) && g[i - 1]));
      assert Shift(g, d, b)[i - 1] == (d[i] != ((d[0] != b) && g[i - 1]));
    }
  }

  lemma {:induction false} FeedInjective(g: Bits, c: Bits, d: Bits, bits: Bits)
    requires |g| == |c| == |d| > 0
    requires g[|g| - 1]
    requires Feed(g, c, bits) == Feed(g, d, bits)
    ensures c == d
  {
    if bits != [] {
      var k := |bits| - 1;
      ShiftInjective(g, Feed(g, c, bits[..k]), Feed(g, d, bits[..k]), bits[k]);
      FeedInjective(g, c, d, bits[..k]);
    }
  }

  /** A step without feedback, run backwards. */
  lemma ShiftBack(g: Bits, c: Bits, b: bool, d: Bits)
    requires |g| == |c| == |d| > 0
    requires g[|g| - 1] && !d[|g| - 1]
    ensures Shift(g, c, b) == d <==> c == [b] + d[..|g| - 1]
  {
    var n := |g|;
    var c' := [b] + d[..n - 1];
    forall i | 0 <= i < n
      ensures Shift(g, c', b)[i] == d[i]
    {
      if i < n - 1 {
        assert Shift(g, c', b)[i] == c'[i + 1];
      }
    }
    assert Shift(g, c', b) == d;
    if Shift(g, c, b) == d {
      ShiftInjective(g, c, c', b);
    }
  }

  lemma PadFront(w: Bits, n: nat)
    requires 0 < |w| <= n
    ensures [w[0]] + (w[1..] + Zeros(n - |w[1..]|))[..n - 1] == w + Zeros(n - |w|)
  {
  }

  /** Up to `n` bits bring the register to zero exactly when they equal its contents. */
  lemma {:induction false} FeedToZero(g: Bits, c: Bits, w: Bits)
    requires |g| == |c| > 0
    requires g[|g| - 1]
    requires |w| <= |g|
    ensures Feed(g, c, w) == Zeros(|g|) <==> c == w + Zeros(|g| - |w|)
    decreases |w|
  {
    var n := |g|;
    if w == [] {
      assert w + Zeros(n) == Zeros(n);
    } else {
      var b, rest := w[0], w[1..];
      var next := rest + Zeros(n - |rest|);
      calc {
        Feed(g, c, w) == Zeros(n);
        { assert w == [b] + rest; FeedFront(g, c, b, rest); }
        Feed(g, Shift(g, c, b), rest) == Zeros(n);
        { FeedToZero(g, Shift(g, c, b), rest); }
        Shift(g, c, b) == next;
        { ShiftBack(g, c, b, next); }
        c == [b] + next[..n - 1];
        { PadFront(w, n); }
        c == w + Zeros(n - |w|);
      }
    }
  }

  lemma XorCommutes(a: Bits, b: Bits)
    requires |a| == |b|
    ensures Xor(a, b) == Xor(b, a)
  {
  }

  lemma XorSelf(a: Bits)
    ensures Xor(a, a) == Zeros(|a|)
  {
  }

  /** Input bits may be added to the register before they are fed, instead of one at a time. */
  lemma FeedAbsorbs(g: Bits, c: Bits, w: Bits)
    requires |g| == |c| > 0 && g[|g| - 1]
    requires |w| <= |g|
    ensures Feed(g, c, w) == Feed(g, Xor(c, w + Zeros(|g| - |w|)), Zeros(|w|))
  {
    var pad := w + Zeros(|g| - |w|);
    var moved := Feed(g, Xor(c, pad), Zeros(|w|));
    calc {
      Feed(g, c, w);
      { assert Xor(Xor(c, pad), pad) == c; assert Xor(Zeros(|w|), w) == w; }
      Feed(g, Xor(Xor(c, pad), pad), Xor(Zeros(|w|), w));
      { FeedLinear(g, Xor(c, pad), pad, Zeros(|w|), w); }
      Xor(moved, Feed(g, pad, w));
      { FeedToZero(g, pad, w); }
      Xor(moved, Zeros(|g|));
      moved;
    }
  }

  lemma XorIsZero(a: Bits, b: Bits)
    requires |a| == |b|
    ensures Xor(a, b) == Zeros(|a|) <==> a == b
  {
    if Xor(a, b) == Zeros(|a|) {
      forall i | 0 <= i < |a|
        ensures a[i] == b[i]
      {
        assert !Xor(a, b)[i];
      }
    }
  }

  /** Two inputs leave the same register exactly when they differ by a multiple of the generator. */
  lemma DifferenceIsDivisible(g: Bits, c: Bits, x: Bits, y: Bits)
    requires |g| == |c| > 0
    requires |x| == |y|
    ensures Feed(g, Zeros(|g|), Xor(x, y)) == Zeros(|g|) <==> Feed(g, c, x) == Feed(g, c, y)
  {
    hide Feed;
    XorSelf(c);
    FeedLinear(g, c, c, x, y);
    XorIsZero(Feed(g, c, x), Feed(g, c, y));
  }

  lemma ZeroPrefix(w: Bits, n: nat)
    requires |w| <= n
    requires Zeros(n) == w + Zeros(n - |w|)
    ensures w == Zeros(|w|)
  {
    forall i | 0 <= i < |w|
      ensures w[i] == Zeros(|w|)[i]
    {
      assert Zeros(n)[i] == w[i];
    }
  }

  lemma FeedAfterZeros(g: Bits, lead: nat, w: Bits, tail: Bits)
    requires |g| > 0
    ensures Feed(g, Zeros(|g|), Zeros(lead) + w + tail) == Feed(g, Feed(g, Zeros(|g|), w), tail)
  {
    FeedConcat(g, Zeros(|g|), Zeros(lead) + w, tail);
    FeedConcat(g, Zeros(|g|), Zeros(lead), w);
    FeedZeros(g, lead);
  }

  /** A divisible bit sequence whose ones fit in `n` consecutive positions has no ones. */
  lemma BurstIsZero(g: Bits, lead: nat, w: Bits, trail: nat)
    requires |g| > 0 && g[|g| - 1]
    requires |w| <= |g|
    requires Feed(g, Zeros(|g|), Zeros(lead) + w + Zeros(trail)) == Zeros(|g|)
    ensures w == Zeros(|w|)
  {
    var n := |g|;
    var c := Feed(g, Zeros(n), w);
    FeedAfterZeros(g, lead, w, Zeros(trail));
    FeedZeros(g, trail);
    FeedInjective(g, c, Zeros(n), Zeros(trail));
    FeedToZero(g, Zeros(n), w);
    ZeroPrefix(w, n);
  }

  /** Sequences that agree outside a window have a difference that is zero outside it. */
  lemma DifferenceInWindow(x: Bits, y: Bits, from: nat, to: nat)
    requires |x| == |y|
    requires from <= to <= |x|
    requires forall i | 0 <= i < |x| && !(from <= i < to) :: x[i] == y[i]
    ensures Xor(x, y) == Zeros(from) + Xor(x, y)[from..to] + Zeros(|x| - to)
    ensures Xor(x, y)[from..to] == Zeros(to - from) ==> x == y
  {
    var w := Xor(x, y)[from..to];
    if w == Zeros(to - from) {
      forall i | 0 <= i < |x|
        ensures x[i] == y[i]
      {
        assert from <= i < to ==> Xor(x, y)[i] == w[i - from];
      }
    }
  }

  lemma WindowIsZero(g: Bits, x: Bits, y: Bits, from: nat, to: nat)
    requires |g| > 0 && g[|g| - 1]
    requires |x| == |y|
    requires Feed(g, Zeros(|g|), Xor(x, y)) == Zeros(|g|)
    requires from <= to <= |x| && to - from <= |g|
    requires forall i | 0 <= i < |x| && !(from <= i < to) :: x[i] == y[i]
    ensures x == y
  {
    DifferenceInWindow(x, y, from, to);
    BurstIsZero(g, from, Xor(x, y)[from..to], |x| - to);
  }

  /** Inputs that differ only within `n` consecutive bits, and do differ, leave different registers. */
  lemma BurstDetected(g: Bits, c: Bits, x: Bits, y: Bits, at: nat)
    requires |g| == |c| > 0 && g[|g| - 1]
    requires |x| == |y|
    requires Feed(g, c, x) == Feed(g, c, y)
    requires forall i | 0 <= i < |x| && !(at <= i < at + |g|) :: x[i] == y[i]
    ensures x == y
  {
    var from := if at <= |x| then at else |x|;
    var to := if at + |g| <= |x| then at + |g| else |x|;
    DifferenceIsDivisible(g, c, x, y);
    WindowIsZero(g, x, y, from, to);
  }

  /** How many positions carry a one. */
  function Weight(a: Bits): nat {
    if a == [] then 0 else Weight(a[..|a| - 1]) + (if a[|a| - 1] then 1 else 0)
  }

  lemma WeightSnoc(a: Bits, b: bool)
    ensures Weight(a + [b]) == Weight(a) + (if b then 1 else 0)
  {
    assert (a + [b])[..|a|] == a;
  }

  predicate Odd(a: Bits) {
    Weight(a) % 2 == 1
  }

  lemma {:induction false} OddXor(a: Bits, b: Bits)
    requires |a| == |b|
    ensures Odd(Xor(a, b)) == (Odd(a) != Odd(b))
  {
    if a != [] {
      var k := |a| - 1;
      assert Xor(a, b)[..k] == Xor(a[..k], b[..k]);
      OddXor(a[..k], b[..k]);
    }
  }

  lemma {:induction false} WeightTail(a: Bits)
    requires a != []
    ensures Weight(a) == (if a[0] then 1 else 0) + Weight(a[1..])
  {
    if |a| > 1 {
      var k := |a| - 1;
      WeightTail(a[..k]);
      assert a[..k][1..] == a[1..][..k - 1];
    }
  }

  lemma {:induction false} WeightZeros(n: nat)
    ensures Weight(Zeros(n)) == 0
  {
    if n > 0 {
      assert Zeros(n)[..n - 1] == Zeros(n - 1);
      WeightZeros(n - 1);
    }
  }

  /** Taps of odd weight make the register carry the parity of what it was fed. */
  lemma ShiftParity(g: Bits, c: Bits, b: bool)
    requires |g| == |c| > 0
    requires Odd(g)
    ensures Odd(Shift(g, c, b)) == (Odd(c) != b)
  {
    var moved := c[1..] + [false];
    assert moved[..|moved| - 1] == c[1..];
    WeightTail(c);
    OddXor(moved, Scale(c[0] != b, g));
    WeightZeros(|g|);
  }

  lemma {:induction false} FeedParity(g: Bits, c: Bits, bits: Bits)
    requires |g| == |c| > 0
    requires Odd(g)
    ensures Odd(Feed(g, c, bits)) == (Odd(c) != Odd(bits))
  {
    if bits != [] {
      var k := |bits| - 1;
      FeedParity(g, c, bits[..k]);
      ShiftParity(g, Feed(g, c, bits[..k]), bits[k]);
    }
  }

  /** Inputs that differ in an odd number of bits leave different registers. */
  lemma OddErrorDetected(g: Bits, c: Bits, x: Bits, y: Bits)
    requires |g| == |c| > 0 && Odd(g)
    requires |x| == |y|
    requires Feed(g, c, x) == Feed(g, c, y)
    ensures Weight(Xor(x, y)) % 2 == 0
  {
    DifferenceIsDivisible(g, c, x, y);
    FeedParity(g, Zeros(|g|), Xor(x, y));
    WeightZeros(|g|);
  }

  // ----- errors in two bits

  lemma {:induction false} NoOnes(a: Bits)
    requires Weight(a) == 0
    ensures a == Zeros(|a|)
  {
    if a != [] {
      NoOnes(a[..|a| - 1]);
      assert a == a[..|a| - 1] + [false];
    }
  }

  lemma {:induction false} SomeOne(a: Bits) returns (i: nat)
    requires Weight(a) > 0
    ensures i < |a| && a == a[..i] + [true] + Zeros(|a| - 1 - i)
    ensures Weight(a[..i]) == Weight(a) - 1
  {
    var k := |a| - 1;
    if a[k] {
      i := k;
      assert a == a[..k] + [true] + Zeros(0);
    } else {
      i := SomeOne(a[..k]);
      assert a[..k][..i] == a[..i];
      assert a == a[..k] + [false];
      assert Zeros(k - 1 - i) + [false] == Zeros(k - i);
    }
  }

  /** A sequence of weight two, position by position. */
  lemma TwoOnes(a: Bits) returns (i: nat, j: nat)
    requires Weight(a) == 2
    ensures i < j < |a|
    ensures a == Zeros(i) + ([true] + Zeros(j - i - 1) + [true]) + Zeros(|a| - 1 - j)
  {
    hide Weight;
    j := SomeOne(a);
    i := SomeOne(a[..j]);
    assert a[..j][..i] == a[..i];
    NoOnes(a[..i]);
  }

  /** The register that holds a single one, in the cell that leaves next. */
  function One(n: nat): (c: Bits)
    requires n > 0
    ensures |c| == n
  {
    [true] + Zeros(n - 1)
  }

  /** The single one is back after `d` steps. */
  predicate Returns(g: Bits, d: nat)
    requires |g| > 0
  {
    Feed(g, One(|g|), Zeros(d)) == One(|g|)
  }

  /** Two ones at distance `d` are divisible exactly if `d` steps bring the single one back. */
  lemma TwoOnesReturn(g: Bits, lead: nat, d: nat, trail: nat)
    requires |g| > 0 && g[|g| - 1] && d > 0
    ensures Feed(g, Zeros(|g|), Zeros(lead) + ([true] + Zeros(d - 1) + [true]) + Zeros(trail)) == Zeros(|g|)
       <==> Returns(g, d)
  {
    hide Feed, Shift;
    var n := |g|;
    var head := [true] + Zeros(d - 1);
    var c := Feed(g, Zeros(n), head + [true]);
    FeedAfterZeros(g, lead, head + [true], Zeros(trail));
    FeedZeros(g, trail);
    if Feed(g, c, Zeros(trail)) == Zeros(n) {
      FeedInjective(g, c, Zeros(n), Zeros(trail));
    }
    FeedConcat(g, Zeros(n), head, [true]);
    FeedToZero(g, Feed(g, Zeros(n), head), [true]);
    FeedFront(g, Zeros(n), true, Zeros(d - 1));
    FeedFront(g, One(n), false, Zeros(d - 1));
    OneEntersAsInput(g);
    assert [false] + Zeros(d - 1) == Zeros(d);
  }

  lemma OneEntersAsInput(g: Bits)
    requires |g| > 0
    ensures Shift(g, Zeros(|g|), true) == Shift(g, One(|g|), false)
  {
    assert Zeros(|g|)[1..] == One(|g|)[1..];
  }

  lemma NoLead(w: Bits, tail: Bits)
    ensures Zeros(0) + w + tail == w + tail
  {
  }

  /** Two ones and no more. */
  lemma WeightOfTwo(d: nat, trail: nat)
    requires d > 0
    ensures Weight([true] + Zeros(d - 1) + [true] + Zeros(trail)) == 2
    decreases trail
  {
    hide Weight;
    var s := [true] + Zeros(d - 1) + [true] + Zeros(trail);
    if trail > 0 {
      WeightOfTwo(d, trail - 1);
      assert s == ([true] + Zeros(d - 1) + [true] + Zeros(trail - 1)) + [false];
      WeightSnoc([true] + Zeros(d - 1) + [true] + Zeros(trail - 1), false);
    } else {
      assert s == ([true] + Zeros(d - 1)) + [true];
      WeightSnoc([true] + Zeros(d - 1), true);
      WeightTail([true] + Zeros(d - 1));
      assert ([true] + Zeros(d - 1))[1..] == Zeros(d - 1);
      WeightZeros(d - 1);
    }
  }

  /** Where a register that becomes the single one starts does not matter. */
  lemma ReturnsAnywhere(g: Bits, c: Bits, k: nat, d: nat)
    requires |g| == |c| > 0 && g[|g| - 1]
    requires Feed(g, c, Zeros(k)) == One(|g|)
    ensures Returns(g, d) <==> Feed(g, c, Zeros(d)) == c
  {
    hide Feed;
    FeedConcat(g, c, Zeros(k), Zeros(d));
    FeedConcat(g, c, Zeros(d), Zeros(k));
    assert Zeros(k) + Zeros(d) == Zeros(d) + Zeros(k);
    if Returns(g, d) {
      FeedInjective(g, Feed(g, c, Zeros(d)), c, Zeros(k));
    }
  }

  /** After a return the register starts over. */
  lemma StartsOver(g: Bits, d: nat, k: nat)
    requires |g| > 0 && Returns(g, d)
    ensures Returns(g, d + k) <==> Returns(g, k)
  {
    hide Feed;
    assert Zeros(d + k) == Zeros(d) + Zeros(k);
    FeedConcat(g, One(|g|), Zeros(d), Zeros(k));
  }

  /** If `d` steps bring the single one back, `d * q + r` steps do exactly when `r` steps do. */
  lemma {:induction false} ReturnsModulo(g: Bits, d: nat, q: nat, r: nat)
    requires |g| > 0 && Returns(g, d)
    ensures Returns(g, d * q + r) <==> Returns(g, r)
    decreases q
  {
    hide Returns;
    if q > 0 {
      assert d * q + r == d + (d * (q - 1) + r);
      StartsOver(g, d, d * (q - 1) + r);
      ReturnsModulo(g, d, q - 1, r);
    }
  }

  /** Among the numbers of steps that bring the single one back, a smaller one leads to a divisor. */
  lemma {:induction false} ReturnsAtDivisor(g: Bits, n: nat, d: nat) returns (e: nat, q: nat)
    requires |g| > 0 && Returns(g, n) && Returns(g, d)
    requires 0 < d < n
    ensures 0 < e <= d && Returns(g, e) && n == e * q
    decreases d
  {
    hide Returns;
    var k, r := WithRest(n, d);
    if r == 0 {
      e, q := d, k;
    } else {
      ReturnsModulo(g, d, k, r);
      e, q := ReturnsAtDivisor(g, n, r);
    }
  }
}
