/**
  What lists, sets and maps keep of what is read into them, and what their bytes look like, said without the
  functions that put items in.
  */
module Containers {
  import opened Codec

  /** A list keeps everything, in order. */
  lemma {:induction false} ListKeepsAll(elem: Ty, items: seq<Val>, xs: seq<Val>)
    ensures AddAll(ListKind, elem, items, xs) == items + xs
    decreases |xs|
  {
    if xs == [] {
      assert items + xs == items;
    } else {
      ListKeepsAll(elem, items + [xs[0]], xs[1..]);
      assert items + [xs[0]] + xs[1..] == items + xs;
    }
  }

  lemma EarlierElements(elem: Ty, xs: seq<Val>, i: nat)
    requires i < |xs|
    ensures Takes(SetKind, elem, xs[..i], xs[i]) <==> forall j | 0 <= j < i :: !Same(elem, xs[j], xs[i])
  {
    hide Same, Takes;
    TakesByPlace(SetKind, elem, xs[..i], xs[i]);
    assert forall j | 0 <= j < i :: xs[..i][j] == xs[j];
  }

  /** A set keeps an element exactly when no earlier one is equal to it. */
  lemma SetKeepsFirst(elem: Ty, xs: seq<Val>, x: Val)
    ensures x in AddAll(SetKind, elem, [], xs)
       <==> exists i :: 0 <= i < |xs| && xs[i] == x && forall j | 0 <= j < i :: !Same(elem, xs[j], x)
  {
    FirstWins(SetKind, elem, xs, x);
    hide Same, AddAll;
    forall i | 0 <= i < |xs|
      ensures First(SetKind, elem, xs, i) <==> forall j | 0 <= j < i :: !Same(elem, xs[j], xs[i])
    {
      EarlierElements(elem, xs, i);
    }
    hide First;
  }

  predicate Entries(xs: seq<Val>) {
    forall i | 0 <= i < |xs| :: xs[i].VStruct? && |xs[i].fields| == 2
  }

  lemma EarlierKeys(key: Ty, value: Ty, xs: seq<Val>, i: nat)
    requires Entries(xs) && i < |xs|
    ensures Takes(MapKind, Struct([key, value]), xs[..i], xs[i])
       <==> forall j | 0 <= j < i :: !Same(key, xs[j].fields[0], xs[i].fields[0])
  {
    hide Same, Takes;
    TakesByPlace(MapKind, Struct([key, value]), xs[..i], xs[i]);
    assert forall j | 0 <= j < i :: xs[..i][j] == xs[j];
  }

  /** A map keeps an entry exactly when no earlier one has an equal first field; the second plays no part. */
  lemma MapKeepsFirst(key: Ty, value: Ty, xs: seq<Val>, x: Val)
    requires Entries(xs)
    ensures x in AddAll(MapKind, Struct([key, value]), [], xs)
       <==> exists i :: 0 <= i < |xs| && xs[i] == x
                        && forall j | 0 <= j < i :: !Same(key, xs[j].fields[0], xs[i].fields[0])
  {
    var elem := Struct([key, value]);
    FirstWins(MapKind, elem, xs, x);
    hide Same, AddAll;
    forall i | 0 <= i < |xs|
      ensures First(MapKind, elem, xs, i) <==> forall j | 0 <= j < i :: !Same(key, xs[j].fields[0], xs[i].fields[0])
    {
      EarlierKeys(key, value, xs, i);
    }
    hide First;
  }

  /** Entries with pairwise different first fields are all kept, in order. */
  lemma MapKeepsAll(key: Ty, value: Ty, xs: seq<Val>)
    requires Entries(xs)
    requires forall i, j | 0 <= i < j < |xs| :: !Same(key, xs[i].fields[0], xs[j].fields[0])
    ensures AddAll(MapKind, Struct([key, value]), [], xs) == xs
  {
    hide *;
    forall i | 0 <= i < |xs|
      ensures Takes(MapKind, Struct([key, value]), xs[..i], xs[i])
    {
      EarlierKeys(key, value, xs, i);
    }
    DistinctKept(MapKind, Struct([key, value]), xs);
  }

  lemma DistinctKept(kind: Kind, elem: Ty, xs: seq<Val>)
    requires forall i | 0 <= i < |xs| :: Takes(kind, elem, xs[..i], xs[i])
    ensures AddAll(kind, elem, [], xs) == xs
  {
    assert [] + xs == xs;
    AddAllDistinct(kind, elem, [], xs);
  }

  /** What a map object can hold: entries of its type with pairwise different first fields. */
  lemma MapValues(key: Ty, value: Ty, xs: seq<Val>)
    ensures Proper(Box(MapKind, Struct([key, value])), VBox(xs))
       <==> && (forall i | 0 <= i < |xs| :: Proper(Struct([key, value]), xs[i]))
            && (forall i, j | 0 <= i < j < |xs| ::
                  xs[i].VStruct? && xs[j].VStruct? && |xs[i].fields| == |xs[j].fields| == 2
                  && !Same(key, xs[i].fields[0], xs[j].fields[0]))
  {
    var elem := Struct([key, value]);
    hide Same;
    if forall i | 0 <= i < |xs| :: Proper(elem, xs[i]) {
      assert Entries(xs);
      hide Proper;
      forall i | 0 <= i < |xs|
        ensures Takes(MapKind, elem, xs[..i], xs[i])
           <==> forall j | 0 <= j < i :: !Same(key, xs[j].fields[0], xs[i].fields[0])
      {
        EarlierKeys(key, value, xs, i);
      }
      hide Takes;
    }
  }

  /** What a set object can hold: elements of its type that are pairwise different. */
  lemma SetValues(elem: Ty, xs: seq<Val>)
    ensures Proper(Box(SetKind, elem), VBox(xs))
       <==> && (forall i | 0 <= i < |xs| :: Proper(elem, xs[i]))
            && (forall i, j | 0 <= i < j < |xs| :: !Same(elem, xs[i], xs[j]))
  {
    hide Same;
    forall i | 0 <= i < |xs|
      ensures Takes(SetKind, elem, xs[..i], xs[i]) <==> forall j | 0 <= j < i :: !Same(elem, xs[j], xs[i])
    {
      EarlierElements(elem, xs, i);
    }
    hide Takes;
  }

  // ----- equality

  /** Numbers, strings, structs and lists are equal only when they are the same. */
  lemma {:induction false} PlainSame(ty: Ty, v: Val, w: Val)
    requires Plain(ty)
    ensures Same(ty, v, w) <==> v == w
    decreases ty
  {
    if Same(ty, v, w) && v != w {
      match ty
      case Struct(fields) =>
        forall i | 0 <= i < |fields|
          ensures v.fields[i] == w.fields[i]
        {
          PlainSame(fields[i], v.fields[i], w.fields[i]);
        }
      case Box(_, elem) =>
        forall i | 0 <= i < |v.items|
          ensures v.items[i] == w.items[i]
        {
          PlainSame(elem, v.items[i], w.items[i]);
        }
    }
  }

  /** Sets and maps of such items are equal exactly when they have the same items, in whatever order. */
  lemma SameItems(kind: Kind, elem: Ty, xs: seq<Val>, ys: seq<Val>)
    requires kind != ListKind && Plain(elem)
    ensures Same(Box(kind, elem), VBox(xs), VBox(ys)) <==> forall x :: x in xs <==> x in ys
  {
    WithinPlain(elem, xs, ys);
    WithinPlain(elem, ys, xs);
    hide Within;
  }

  lemma WithinPlain(elem: Ty, xs: seq<Val>, ys: seq<Val>)
    requires Plain(elem)
    ensures Within(elem, xs, ys) <==> forall x | x in xs :: x in ys
  {
    hide Same;
    forall x
      ensures Among(elem, x, ys) <==> x in ys
    {
      forall y
        ensures Same(elem, x, y) <==> x == y
      {
        PlainSame(elem, x, y);
      }
    }
  }

  // ----- bytes

  /** A map from bytes to bytes: 0 before an entry, 1 at the end; the first entry of a key stays. */
  lemma MapBytes(k: byte, v: byte, l: byte, w: byte, rest: seq<byte>)
    ensures Decode(Box(MapKind, Struct([Num(1), Num(1)])), [0, k, v, 0, l, w, 1] + rest)
         == Got(VBox(if k == l then [Entry(k, v)] else [Entry(k, v), Entry(l, w)]), rest)
  {
    var elem := Struct([Num(1), Num(1)]);
    var ws := [Entry(k, v), Entry(l, w)];
    EntryBytes(k, v);
    EntryBytes(l, w);
    TwoItems(Entry(k, v), Entry(l, w));
    assert Encode(VBox(ws)) == [0, k, v, 0, l, w, 1];
    hide Encode, EncodeItems;
    Complete(Box(MapKind, elem), VBox(ws), rest);
    NormalEntries(k, v, l, w);
    hide Normal, NormalItems, Decode;
    MapOfTwo(k, v, l, w);
  }

  function Entry(k: byte, v: byte): Val {
    VStruct([VNum([k]), VNum([v])])
  }

  lemma EntryBytes(k: byte, v: byte)
    ensures Encode(Entry(k, v)) == [k, v] && OfType(Struct([Num(1), Num(1)]), Entry(k, v))
  {
    var fields := [VNum([k]), VNum([v])];
    assert fields[1..] == [VNum([v])] && fields[1..][1..] == [];
    assert EncodeFields(fields[1..]) == [v] + EncodeFields(fields[1..][1..]);
    assert EncodeFields(fields) == [k] + EncodeFields(fields[1..]);
  }

  lemma TwoItems(x: Val, y: Val)
    ensures EncodeItems([x, y]) == [0] + Encode(x) + ([0] + Encode(y) + [1])
  {
    hide Encode;
    assert [x, y][1..] == [y] && [y][1..] == [];
    assert EncodeItems([y]) == [0] + Encode(y) + EncodeItems([]);
  }

  lemma NormalEntries(k: byte, v: byte, l: byte, w: byte)
    ensures NormalItems(Struct([Num(1), Num(1)]), [Entry(k, v), Entry(l, w)]) == [Entry(k, v), Entry(l, w)]
  {
    var elem := Struct([Num(1), Num(1)]);
    forall x | x in [Entry(k, v), Entry(l, w)]
      ensures Proper(elem, x)
    {
    }
    ProperItems(elem, [Entry(k, v), Entry(l, w)]);
  }

  lemma SameBytes(k: byte, l: byte)
    ensures Same(Num(1), VNum([k]), VNum([l])) <==> k == l
  {
    assert [k][0] == k && [l][0] == l;
  }

  lemma MapOfTwo(k: byte, v: byte, l: byte, w: byte)
    ensures AddAll(MapKind, Struct([Num(1), Num(1)]), [], [Entry(k, v), Entry(l, w)])
         == if k == l then [Entry(k, v)] else [Entry(k, v), Entry(l, w)]
  {
    var elem, x, y := Struct([Num(1), Num(1)]), Entry(k, v), Entry(l, w);
    assert [x, y][1..] == [y] && [y][1..] == [];
    SameBytes(k, l);
    assert Refuses(MapKind, elem, x, y) <==> k == l;
    assert Insert(MapKind, elem, [], x) == [x];
    assert AddAll(MapKind, elem, [x], [y]) == Insert(MapKind, elem, [x], y);
  }

  /** A list of bytes: the same markers, without any removal. */
  lemma ListBytes(x: byte, y: byte, rest: seq<byte>)
    ensures Decode(Box(ListKind, Num(1)), [0, x, 0, y, 1] + rest) == Got(VBox([VNum([x]), VNum([y])]), rest)
  {
    var v := VBox([VNum([x]), VNum([y])]);
    TwoItems(VNum([x]), VNum([y]));
    assert Encode(v) == [0, x, 0, y, 1];
    PlainReads(Box(ListKind, Num(1)), Encode(v) + rest, v, rest);
  }

  /** A set of bytes keeps one of two equal elements. */
  lemma SetBytes(x: byte, y: byte, rest: seq<byte>)
    ensures Decode(Box(SetKind, Num(1)), [0, x, 0, y, 1] + rest)
         == Got(VBox(if x == y then [VNum([x])] else [VNum([x]), VNum([y])]), rest)
  {
    var elem, v, w := Num(1), VNum([x]), VNum([y]);
    TwoItems(v, w);
    assert Encode(VBox([v, w])) == [0, x, 0, y, 1];
    hide Encode, EncodeItems;
    Complete(Box(SetKind, elem), VBox([v, w]), rest);
    forall u | u in [v, w]
      ensures Proper(elem, u)
    {
    }
    ProperItems(elem, [v, w]);
    hide Normal, NormalItems, Decode;
    assert [v, w][1..] == [w] && [w][1..] == [];
    SameBytes(x, y);
    assert Refuses(SetKind, elem, v, w) <==> x == y;
    assert Insert(SetKind, elem, [], v) == [v];
    assert AddAll(SetKind, elem, [v], [w]) == Insert(SetKind, elem, [v], w);
  }

  /** A string has its length in four bytes before it, low byte first. */
  lemma StringBytes(chars: seq<byte>)
    requires |chars| < 65536
    ensures Encode(VStr(chars)) == [(|chars| % 256) as byte, (|chars| / 256) as byte, 0, 0] + chars
  {
  }

  /**
    A string is read exactly when its whole length is there and is less than 2^31; `b0` to `b3` are the
    bytes of the length.
    */
  lemma StringRead(b0: byte, b1: byte, b2: byte, b3: byte, more: seq<byte>)
    ensures var n: int := b0 as int + 256 * b1 as int + 65536 * b2 as int + 16777216 * b3 as int;
            && (Decode(Str, [b0, b1, b2, b3] + more).Got? <==> n <= |more| && n < 2147483648)
            && (n <= |more| && n < 2147483648 ==>
                  Decode(Str, [b0, b1, b2, b3] + more) == Got(VStr(more[..n]), more[n..]))
  {
    var b := [b0, b1, b2, b3] + more;
    assert b[..4] == [b0, b1, b2, b3] && b[4..] == more;
    var n := FromU32(b[..4]);
    if n <= |more| {
      assert b[4..4 + n] == more[..n] && b[4 + n..] == more[n..];
    }
  }
}
