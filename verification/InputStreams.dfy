/**
  Reading from a buffer with a cursor, by the type of the value; strings are read through an iterator that
  is always one character ahead.
  */
module InputStreams {
  import opened Codec
  import opened OutputStreams

  class ArrayInputStream {
    const buf: array<byte>
    var rpos: nat

    /** The cursor is inside the buffer. */
    ghost predicate Valid()
      reads this
    {
      rpos <= buf.Length
    }

    /** What is left to read. */
    ghost function Rest(): seq<byte>
      requires Valid()
      reads this, buf
    {
      buf[rpos..]
    }

    function Size(): nat
      requires Valid()
      reads this
    {
      buf.Length - rpos
    }

    constructor (buf: array<byte>)
      ensures Valid() && this.buf == buf && Rest() == buf[..]
    {
      this.buf := buf;
      rpos := 0;
    }

    method ReadBytes(n: nat) returns (data: seq<byte>)
      requires Valid()
      modifies this
      ensures Valid() && data == Front(old(Rest()), n) && old(Rest()) == data + Rest()
    {
      var size := if n <= Size() then n else Size();
      data := buf[rpos..rpos + size];
      rpos := rpos + size;
    }

    /** A value of fixed width. */
    method ReadNum(width: nat) returns (ok: bool, bytes: seq<byte>)
      requires Valid()
      modifies this
      ensures Valid() && ok == (width <= |old(Rest())|)
      ensures ok ==> |bytes| == width && old(Rest()) == bytes + Rest()
      ensures !ok ==> Rest() == old(Rest())
    {
      if width > Size() {
        return false, [];
      }
      bytes := ReadBytes(width);
      ok := |bytes| == width;
    }

    method ReadStr() returns (ok: bool, chars: seq<byte>)
      requires Valid()
      modifies this
      ensures Valid() && |Rest()| <= |old(Rest())|
      ensures ok == Decode(Str, old(Rest())).Got?
      ensures ok ==> Decode(Str, old(Rest())) == Got(VStr(chars), Rest())
    {
      hide Decode, IsAhead, FromU32;
      ghost var b := Rest();
      chars := [];
      var bytes;
      ok, bytes := ReadNum(4);
      StrRead(b, bytes, Rest());
      if !ok {
        return;
      }
      var n := FromU32(bytes);
      if Size() < n {
        return n == 0, [];
      }
      ghost var all := Rest();
      var next := new CharIterator(this, ToInt(n));
      if n < INT_LIMIT {
        StartsAhead(next.itemsLeft, next.value, all, Rest(), n);
      }
      while next.itemsLeft != END_OF_ITERATIONS
        invariant Valid() && next.stream == this
        invariant n < INT_LIMIT ==> IsAhead(next.itemsLeft, next.value, chars, all, Rest(), n)
        invariant n >= INT_LIMIT ==> next.itemsLeft == END_OF_ITERATIONS && chars == []
        invariant |Rest()| <= |all|
        decreases next.itemsLeft
      {
        ghost var left, rest := next.itemsLeft, Rest();
        var value := next.value;
        next.Next();
        StaysAhead(left, value, chars, all, rest, n, next.itemsLeft, next.value, Rest());
        chars := chars + [value];
      }
      ok := |chars| == n;
      if n < INT_LIMIT {
        EndsAhead(next.value, chars, all, Rest(), n);
      }
    }

    /** A list, or a set: items up to the end marker. */
    method ReadListLike(elem: Ty, kind: Kind) returns (ok: bool, items: seq<Val>)
      requires Valid() && WellFormed(elem) && kind != MapKind
      modifies this
      ensures Valid() && |Rest()| <= |old(Rest())|
      ensures ok == DecodeItems(kind, elem, [], old(Rest())).GotAll?
      ensures ok ==> DecodeItems(kind, elem, [], old(Rest())) == GotAll(items, Rest())
      decreases elem, 1
    {
      hide Decode, DecodeItems, Insert;
      items := [];
      ghost var b := Rest();
      var more, marker := ReadNum(1);
      while more
        invariant Valid() && b == Marked(more, marker) + Rest()
        invariant !more ==> Rest() == []
        invariant more ==> |marker| == 1
        invariant DecodeItems(kind, elem, [], old(Rest())) == DecodeItems(kind, elem, items, b)
        invariant |b| <= |old(Rest())|
        decreases |b|
      {
        ItemsStep(kind, elem, items, b);
        assert b[0] == marker[0] && b[1..] == Rest();
        if marker[0] == END {
          return true, items;
        } else if marker[0] != ITEM {
          return false, items;
        }
        var done, v := Read(elem);
        if !done {
          return false, items;
        }
        items := Insert(kind, elem, items, v);
        b := Rest();
        more, marker := ReadNum(1);
      }
      ItemsStep(kind, elem, items, b);
      ok := false;
    }

    /** A map: key and value up to the end marker. */
    method ReadMapLike(fields: seq<Ty>) returns (ok: bool, entries: seq<Val>)
      requires Valid() && |fields| == 2 && WellFormed(fields[0]) && WellFormed(fields[1])
      modifies this
      ensures Valid() && |Rest()| <= |old(Rest())|
      ensures ok == DecodeItems(MapKind, Struct(fields), [], old(Rest())).GotAll?
      ensures ok ==> DecodeItems(MapKind, Struct(fields), [], old(Rest())) == GotAll(entries, Rest())
      decreases fields, 1
    {
      hide Decode, DecodeItems, Insert, WellFormed;
      entries := [];
      ghost var b := Rest();
      var more, marker := ReadNum(1);
      while more
        invariant Valid() && b == Marked(more, marker) + Rest()
        invariant !more ==> Rest() == []
        invariant more ==> |marker| == 1
        invariant DecodeItems(MapKind, Struct(fields), [], old(Rest()))
               == DecodeItems(MapKind, Struct(fields), entries, b)
        invariant |b| <= |old(Rest())|
        decreases |b|
      {
        ItemsStep(MapKind, Struct(fields), entries, b);
        assert b[0] == marker[0] && b[1..] == Rest();
        if marker[0] == END {
          return true, entries;
        } else if marker[0] != ITEM {
          return false, entries;
        }
        PairStep(fields, Rest());
        var done, k := Read(fields[0]);
        if !done {
          return false, entries;
        }
        var v;
        done, v := Read(fields[1]);
        if !done {
          return false, entries;
        }
        entries := Insert(MapKind, Struct(fields), entries, VStruct([k, v]));
        b := Rest();
        more, marker := ReadNum(1);
      }
      ItemsStep(MapKind, Struct(fields), entries, b);
      ok := false;
    }

    /** An object reads its fields one after the other, until one fails. */
    method ReadFields(fields: seq<Ty>) returns (ok: bool, vs: seq<Val>)
      requires Valid() && forall i | 0 <= i < |fields| :: WellFormed(fields[i])
      modifies this
      ensures Valid() && |Rest()| <= |old(Rest())|
      ensures ok == DecodeFields(fields, old(Rest())).GotAll?
      ensures ok ==> DecodeFields(fields, old(Rest())) == GotAll(vs, Rest())
      decreases fields, 0
    {
      hide Decode, WellFormed;
      if fields == [] {
        return true, [];
      }
      var v;
      vs := [];
      ok, v := Read(fields[0]);
      if ok {
        ok, vs := ReadFields(fields[1..]);
        vs := [v] + vs;
      }
    }

    /**
      A read ends on any bytes with the cursor inside the buffer; it succeeds exactly when the bytes at
      the cursor decode, with the value and the cursor that the format gives.
      */
    method Read(ty: Ty) returns (ok: bool, v: Val)
      requires Valid() && WellFormed(ty)
      modifies this
      ensures Valid() && |Rest()| <= |old(Rest())|
      ensures ok == Decode(ty, old(Rest())).Got?
      ensures ok ==> Decode(ty, old(Rest())) == Got(v, Rest())
      decreases ty, 0
    {
      match ty
      case Num(width) =>
        var bytes;
        ok, bytes := ReadNum(width);
        v := VNum(bytes);
      case Str =>
        var chars;
        ok, chars := ReadStr();
        v := VStr(chars);
      case Struct(fields) =>
        var vs;
        ok, vs := ReadFields(fields);
        v := VStruct(vs);
      case Box(kind, elem) =>
        var items;
        if kind == MapKind {
          ok, items := ReadMapLike(elem.fields);
        } else {
          ok, items := ReadListLike(elem, kind);
        }
        v := VBox(items);
    }
  }

  // ----- the iterator over the characters of a string

  const END_OF_ITERATIONS := -1

  /** The iterator keeps its count in an `int`. */
  function ToInt(n: nat): int
    requires n < 2 * INT_LIMIT
  {
    if n < INT_LIMIT then n else n - 2 * INT_LIMIT
  }

  class CharIterator {
    const stream: ArrayInputStream
    var itemsLeft: int
    var value: byte

    constructor (stream: ArrayInputStream, itemsCount: int)
      requires stream.Valid()
      modifies stream
      ensures this.stream == stream && stream.Valid()
      ensures if old(stream.Rest()) == [] || itemsCount <= 0
              then itemsLeft == END_OF_ITERATIONS && stream.Rest() == old(stream.Rest())
              else itemsLeft == itemsCount - 1 && old(stream.Rest()) == [value] + stream.Rest()
    {
      this.stream := stream;
      itemsLeft := itemsCount;
      value := 0;
      new;
      Next();
    }

    method Next()
      requires stream.Valid()
      modifies this, stream
      ensures stream.Valid()
      ensures if old(stream.Rest()) == [] || old(itemsLeft) <= 0
              then itemsLeft == END_OF_ITERATIONS && stream.Rest() == old(stream.Rest())
              else itemsLeft == old(itemsLeft) - 1 && old(stream.Rest()) == [value] + stream.Rest()
    {
      if stream.Size() < 1 || itemsLeft <= 0 {
        itemsLeft := END_OF_ITERATIONS;
        return;
      }
      var ok, bytes := stream.ReadNum(1);
      if ok {
        value := bytes[0];
        itemsLeft := itemsLeft - 1;
      } else {
        itemsLeft := END_OF_ITERATIONS;
      }
    }
  }

  /**
    The iterator over the `n` first characters of `all` has delivered `chars` and holds the next one,
    already taken from the stream; at the end it has delivered all `n`.
    */
  ghost predicate IsAhead(itemsLeft: int, value: byte, chars: seq<byte>, all: seq<byte>, rest: seq<byte>, n: nat) {
    && n <= |all|
    && if itemsLeft == END_OF_ITERATIONS then chars == all[..n] && rest == all[n..]
       else 0 <= itemsLeft < n && |chars| == n - 1 - itemsLeft
            && all[..|chars| + 1] == chars + [value] && rest == all[|chars| + 1..]
  }

  lemma StartsAhead(itemsLeft: int, value: byte, all: seq<byte>, rest: seq<byte>, n: nat)
    requires n <= |all|
    requires if all == [] || n == 0 then itemsLeft == END_OF_ITERATIONS && rest == all
             else itemsLeft == n - 1 && all == [value] + rest
    ensures IsAhead(itemsLeft, value, [], all, rest, n)
  {
  }

  lemma StaysAhead(itemsLeft: int, value: byte, chars: seq<byte>, all: seq<byte>, rest: seq<byte>, n: nat,
                   itemsLeft': int, value': byte, rest': seq<byte>)
    requires IsAhead(itemsLeft, value, chars, all, rest, n) && itemsLeft != END_OF_ITERATIONS
    requires if rest == [] || itemsLeft <= 0 then itemsLeft' == END_OF_ITERATIONS && rest' == rest
             else itemsLeft' == itemsLeft - 1 && rest == [value'] + rest'
    ensures IsAhead(itemsLeft', value', chars + [value], all, rest', n)
    ensures itemsLeft' < itemsLeft && itemsLeft >= 0
  {
    if itemsLeft > 0 {
      assert all[|chars| + 1] == value' && rest' == all[|chars| + 2..];
      assert all[..|chars| + 2] == all[..|chars| + 1] + [all[|chars| + 1]];
    }
  }

  lemma EndsAhead(value: byte, chars: seq<byte>, all: seq<byte>, rest: seq<byte>, n: nat)
    requires IsAhead(END_OF_ITERATIONS, value, chars, all, rest, n)
    ensures n <= |all| && chars == all[..n] && rest == all[n..]
  {
  }

  // ----- single steps of the format

  lemma StrRead(b: seq<byte>, bytes: seq<byte>, rest: seq<byte>)
    ensures |b| < 4 ==> Decode(Str, b) == Fail
    ensures |bytes| == 4 && b == bytes + rest ==>
              var n := FromU32(bytes);
              Decode(Str, b) == if n > |rest| || n >= INT_LIMIT then Fail else Got(VStr(rest[..n]), rest[n..])
  {
    if |bytes| == 4 && b == bytes + rest {
      var n := FromU32(bytes);
      assert b[..4] == bytes && b[4..] == rest;
      if n <= |rest| {
        assert b[4..4 + n] == rest[..n] && b[4 + n..] == rest[n..];
      }
    }
  }

  function Marked(more: bool, marker: seq<byte>): seq<byte> {
    if more then marker else []
  }

  lemma ItemsStep(kind: Kind, elem: Ty, items: seq<Val>, b: seq<byte>)
    ensures b == [] ==> DecodeItems(kind, elem, items, b) == FailAll
    ensures b != [] && b[0] == END ==> DecodeItems(kind, elem, items, b) == GotAll(items, b[1..])
    ensures b != [] && b[0] != END && b[0] != ITEM ==> DecodeItems(kind, elem, items, b) == FailAll
    ensures b != [] && b[0] == ITEM ==>
              var r := Decode(elem, b[1..]);
              DecodeItems(kind, elem, items, b)
              == if r.Fail? then FailAll else DecodeItems(kind, elem, Insert(kind, elem, items, r.value), r.rest)
  {
    hide Decode, Insert;
  }

  /** A map's item is read as a key and then a value. */
  lemma PairStep(fields: seq<Ty>, b: seq<byte>)
    requires |fields| == 2
    ensures var k := Decode(fields[0], b);
            && (k.Fail? ==> Decode(Struct(fields), b) == Fail)
            && (k.Got? ==>
                  var v := Decode(fields[1], k.rest);
                  Decode(Struct(fields), b) == if v.Fail? then Fail else Got(VStruct([k.value, v.value]), v.rest))
  {
    var k := Decode(fields[0], b);
    if k.Got? {
      assert fields[1..][0] == fields[1] && fields[1..][1..] == [];
      var v := Decode(fields[1], k.rest);
      if v.Got? {
        assert DecodeFields(fields[1..][1..], v.rest) == GotAll([], v.rest);
        assert DecodeFields(fields[1..], k.rest) == GotAll([v.value], v.rest);
        assert [k.value] + [v.value] == [k.value, v.value];
      } else {
        assert DecodeFields(fields[1..], k.rest) == FailAll;
      }
    }
  }
}
