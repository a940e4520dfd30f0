/** Bytes and words as the bits that the 1-Wire bus carries, least significant first. */
module ByteStream {
  import opened Gf2

  /** The single-bit masks of a byte, in the order in which the wire carries its bits. */
  function Mask(i: nat): (m: bv8)
    requires i < 8
  {
    if i == 0 then 0x01 else if i == 1 then 0x02 else if i == 2 then 0x04 else if i == 3 then 0x08
    else if i == 4 then 0x10 else if i == 5 then 0x20 else if i == 6 then 0x40 else 0x80
  }

  function ByteBit(b: bv8, i: nat): bool
    requires i < 8
  {
    b & Mask(i) != 0
  }

  function ByteBits(b: bv8): (s: Bits)
    ensures |s| == 8
    ensures forall i {:trigger s[i]} | 0 <= i < 8 :: s[i] == ByteBit(b, i)
  {
    seq(8, i requires 0 <= i < 8 => ByteBit(b, i))
  }

  lemma ByteBitsXor(a: bv8, b: bv8)
    ensures ByteBits(a ^ b) == Xor(ByteBits(a), ByteBits(b))
  {
    hide ByteBit, ByteBits;
    forall i | 0 <= i < 8
      ensures ByteBit(a ^ b, i) == (ByteBit(a, i) != ByteBit(b, i))
    {
      ByteBitXor(a, b, i);
    }
  }

  lemma ByteBitXor(a: bv8, b: bv8, i: nat)
    requires i < 8
    ensures ByteBit(a ^ b, i) == (ByteBit(a, i) != ByteBit(b, i))
  {
    MaskIsOneBit(i);
    hide Mask;
    MaskXor(a, b, Mask(i));
  }

  lemma MaskIsOneBit(i: nat)
    requires i < 8
    ensures var m := Mask(i); m == 1 || m == 2 || m == 4 || m == 8 || m == 16 || m == 32 || m == 64 || m == 128
  {
  }

  lemma MaskXor(a: bv8, b: bv8, m: bv8)
    requires m == 1 || m == 2 || m == 4 || m == 8 || m == 16 || m == 32 || m == 64 || m == 128
    ensures ((a ^ b) & m != 0) == ((a & m != 0) != (b & m != 0))
  {
  }

  lemma ByteBitsShift(b: bv8)
    ensures ByteBits(b >> 1) == ByteBits(b)[1..] + [false]
  {
    hide ByteBit, ByteBits;
    forall i {:trigger ByteBit(b >> 1, i)} | 0 <= i < 8
      ensures ByteBit(b >> 1, i) == (i < 7 && ByteBit(b, i + 1))
    {
      ByteBitShift(b, i);
    }
  }

  lemma ByteBitShift(b: bv8, i: nat)
    requires i < 8
    ensures ByteBit(b >> 1, i) == (i < 7 && ByteBit(b, i + 1))
  {
  }

  lemma ByteBitsInjective(a: bv8, b: bv8)
    requires ByteBits(a) == ByteBits(b)
    ensures a == b
  {
    hide ByteBits;
    forall i | 0 <= i < 8
      ensures ByteBit(a, i) == ByteBit(b, i)
    {
      assert ByteBits(a)[i] == ByteBits(b)[i];
    }
    ByteBitInjective(a, b);
  }

  lemma ByteBitInjective(a: bv8, b: bv8)
    requires forall i | 0 <= i < 8 :: ByteBit(a, i) == ByteBit(b, i)
    ensures a == b
  {
    assert ByteBit(a, 0) == ByteBit(b, 0) && ByteBit(a, 1) == ByteBit(b, 1);
    assert ByteBit(a, 2) == ByteBit(b, 2) && ByteBit(a, 3) == ByteBit(b, 3);
    assert ByteBit(a, 4) == ByteBit(b, 4) && ByteBit(a, 5) == ByteBit(b, 5);
    assert ByteBit(a, 6) == ByteBit(b, 6) && ByteBit(a, 7) == ByteBit(b, 7);
  }

  /** The bits of a byte sequence, in wire order. */
  function Stream(bytes: seq<bv8>): (s: Bits)
    ensures |s| == 8 * |bytes|
  {
    if bytes == [] then [] else Stream(bytes[..|bytes| - 1]) + ByteBits(bytes[|bytes| - 1])
  }

  lemma StreamSnoc(bytes: seq<bv8>, b: bv8)
    ensures Stream(bytes + [b]) == Stream(bytes) + ByteBits(b)
  {
    assert (bytes + [b])[..|bytes|] == bytes;
  }

  lemma {:induction false} StreamConcat(a: seq<bv8>, b: seq<bv8>)
    ensures Stream(a + b) == Stream(a) + Stream(b)
  {
    hide ByteBits, Stream;
    if b == [] {
      StreamEmpty();
      assert a + b == a;
    } else {
      var front, last := b[..|b| - 1], b[|b| - 1];
      calc {
        Stream(a + b);
        { assert a + b == a + front + [last]; StreamSnoc(a + front, last); }
        Stream(a + front) + ByteBits(last);
        { StreamConcat(a, front); }
        Stream(a) + Stream(front) + ByteBits(last);
        Stream(a) + (Stream(front) + ByteBits(last));
        { assert b == front + [last]; StreamSnoc(front, last); }
        Stream(a) + Stream(b);
      }
    }
  }

  lemma StreamEmpty()
    ensures Stream([]) == []
  {
  }

  lemma {:induction false} StreamInjective(a: seq<bv8>, b: seq<bv8>)
    requires Stream(a) == Stream(b)
    ensures a == b
  {
    hide ByteBits;
    if a != [] {
      var k := |a| - 1;
      assert Stream(a)[..8 * k] == Stream(a[..k]) && Stream(b)[..8 * k] == Stream(b[..k]);
      assert Stream(a)[8 * k..] == ByteBits(a[k]) && Stream(b)[8 * k..] == ByteBits(b[k]);
      StreamInjective(a[..k], b[..k]);
      ByteBitsInjective(a[k], b[k]);
      assert a == a[..k] + [a[k]] && b == b[..k] + [b[k]];
    }
  }

  // ----- masks and single bits

  lemma StreamOfZeros(bytes: seq<bv8>)
    requires forall k | 0 <= k < |bytes| :: bytes[k] == 0
    ensures Stream(bytes) == Zeros(8 * |bytes|)
  {
    if bytes != [] {
      var front := bytes[..|bytes| - 1];
      StreamOfZeros(front);
      assert bytes == front + [0];
      StreamSnoc(front, 0);
      ZeroByte();
      hide ByteBits, Stream;
      assert Zeros(8 * |front|) + Zeros(8) == Zeros(8 * |bytes|);
    }
  }

  lemma ZeroByte()
    ensures ByteBits(0) == Zeros(8)
  {
  }

  lemma NoBits()
    ensures forall j {:trigger ByteBit(0, j)} | 0 <= j < 8 :: !ByteBit(0, j)
  {
  }

  lemma MaskStart()
    ensures Mask(0) == 1
  {
  }

  lemma MaskTest(v: bv8, i: nat)
    requires i < 8
    ensures (Mask(i) & v != 0) == ByteBit(v, i)
  {
  }

  lemma MaskNext(i: nat)
    requires i < 8
    ensures Mask(i) << 1 == if i < 7 then Mask(i + 1) else 0
    ensures i < 7 ==> Mask(i + 1) != 0
  {
  }

  lemma SetMask(r: bv8, i: nat, m: bv8)
    requires i < 8 && m == Mask(i)
    ensures forall j {:trigger ByteBit(r | m, j)} | 0 <= j < 8 :: ByteBit(r | m, j) == (j == i || ByteBit(r, j))
  {
    forall j {:trigger ByteBit(r | m, j)} | 0 <= j < 8
      ensures ByteBit(r | m, j) == (j == i || ByteBit(r, j))
    {
      SetMaskAt(r, i, j);
    }
  }

  lemma MasksDisjoint(i: nat, j: nat)
    requires i < 8 && j < 8
    ensures Mask(i) & Mask(j) == if i == j then Mask(j) else 0
    ensures Mask(j) != 0
  {
  }

  lemma OrThenAnd(r: bv8, m: bv8, n: bv8)
    ensures (r | m) & n == (r & n) | (m & n)
  {
  }

  lemma SetMaskAt(r: bv8, i: nat, j: nat)
    requires i < 8 && j < 8
    ensures ByteBit(r | Mask(i), j) == (j == i || ByteBit(r, j))
  {
    var m, n := Mask(i), Mask(j);
    MasksDisjoint(i, j);
    OrThenAnd(r, m, n);
  }

  /** The byte with bit `i` set or cleared. */
  function WithBit(b: bv8, m: bv8, on: bool): bv8 {
    if on then b | m else b & !m
  }

  lemma ClearThenAnd(r: bv8, m: bv8, n: bv8)
    ensures n & m == 0 ==> (r & !m) & n == r & n
    ensures n == m ==> (r & !m) & n == 0
  {
  }

  lemma WithBitAt(b: bv8, i: nat, on: bool, j: nat)
    requires i < 8 && j < 8
    ensures ByteBit(WithBit(b, Mask(i), on), j) == if j == i then on else ByteBit(b, j)
  {
    if on {
      SetMaskAt(b, i, j);
    } else {
      MasksDisjoint(j, i);
      MasksDisjoint(i, j);
      hide Mask;
      ClearThenAnd(b, Mask(i), Mask(j));
    }
  }

  lemma {:induction false} StreamAt(bytes: seq<bv8>, k: nat, i: nat)
    requires k < |bytes| && i < 8
    ensures Stream(bytes)[8 * k + i] == ByteBit(bytes[k], i)
  {
    hide ByteBits, ByteBit;
    if k < |bytes| - 1 {
      StreamAt(bytes[..|bytes| - 1], k, i);
    }
  }

  /** Changing one bit of one byte changes one bit of the stream. */
  lemma StreamWithBit(bytes: seq<bv8>, k: nat, i: nat, m: bv8, on: bool)
    requires k < |bytes| && i < 8 && m == Mask(i)
    ensures Stream(bytes[k := WithBit(bytes[k], m, on)]) == Stream(bytes)[8 * k + i := on]
  {
    hide Stream, ByteBit, Mask, WithBit;
    var after := bytes[k := WithBit(bytes[k], m, on)];
    forall n | 0 <= n < 8 * |bytes|
      ensures Stream(after)[n] == Stream(bytes)[8 * k + i := on][n]
    {
      var q, r := n / 8, n % 8;
      StreamAt(after, q, r);
      StreamAt(bytes, q, r);
      if q == k {
        WithBitAt(bytes[k], i, on, r);
      }
    }
  }

  /** The sequence with the first bit of its first byte and the last bit of byte `k` changed. */
  lemma FlipTwo(bytes: seq<bv8>, k: nat) returns (other: seq<bv8>)
    requires 0 < k < |bytes|
    ensures |other| == |bytes|
    ensures Xor(Stream(bytes), Stream(other))
         == [true] + Zeros(8 * k + 6) + [true] + Zeros(8 * (|bytes| - k - 1))
  {
    hide *;
    var b, c := !ByteBit(bytes[0], 0), !ByteBit(bytes[k], 7);
    var once := bytes[0 := WithBit(bytes[0], Mask(0), b)];
    other := once[k := WithBit(once[k], Mask(7), c)];
    StreamWithBit(bytes, 0, 0, Mask(0), b);
    StreamWithBit(once, k, 7, Mask(7), c);
    StreamAt(bytes, 0, 0);
    StreamAt(bytes, k, 7);
  }

  lemma BitIsMasked(b: bv8, i: nat)
    requires i < 8
    ensures (b & Mask(i) > 0) == ByteBit(b, i)
  {
  }
}
