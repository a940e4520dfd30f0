/**
  The stream format: a grammar of types and values, its encoding, and the meaning of a read.
  */
module Codec {

  type byte = x: int | 0 <= x < 256

  /** How a container takes a new item: a list always, a set unless it has it, a map unless it has its key. */
  datatype Kind = ListKind | SetKind | MapKind

  /**
    Numbers are taken as their bytes in memory.  The item of a map is the struct of its key and its value.
    */
  datatype Ty =
    | Num(width: nat)
    | Str
    | Struct(fields: seq<Ty>)
    | Box(kind: Kind, elem: Ty)

  datatype Val =
    | VNum(bytes: seq<byte>)
    | VStr(chars: seq<byte>)
    | VStruct(fields: seq<Val>)
    | VBox(items: seq<Val>)

  /** Markers before an item and after the last one. */
  const ITEM: byte := 0
  const END: byte := 1

  const INT_LIMIT := 0x8000_0000

  // ----- lengths: 32 bits, low byte first

  function U32(n: nat): (b: seq<byte>)
    ensures |b| == 4
  {
    [n % 256, n / 256 % 256, n / 65536 % 256, n / 16777216 % 256]
  }

  function FromU32(b: seq<byte>): (n: nat)
    requires |b| == 4
    ensures n < 0x1_0000_0000
  {
    var (b0: int, b1: int, b2: int, b3: int) := (b[0], b[1], b[2], b[3]);
    b0 + 256 * b1 + 65536 * b2 + 16777216 * b3
  }

  lemma U32Inverse(n: nat)
    requires n < 0x1_0000_0000
    ensures FromU32(U32(n)) == n
  {
    var (n1, n2, n3) := (n / 256, n / 65536, n / 16777216);
    assert n2 == n1 / 256 && n3 == n2 / 256;
    assert n == n % 256 + 256 * n1 && n1 == n1 % 256 + 256 * n2 && n2 == n2 % 256 + 256 * n3;
    assert n3 < 256;
  }

  lemma FromU32Inverse(b: seq<byte>)
    requires |b| == 4
    ensures U32(FromU32(b)) == b
  {
    var n := FromU32(b);
    var (b1: int, b2: int, b3: int) := (b[1], b[2], b[3]);
    assert n / 256 == b1 + 256 * b2 + 65536 * b3;
    assert n / 65536 == b2 + 256 * b3;
    assert n / 16777216 == b3;
  }

  // ----- encoding

  function Encode(v: Val): (b: seq<byte>) {
    match v
    case VNum(bytes) => bytes
    case VStr(chars) => U32(|chars|) + chars
    case VStruct(fields) => EncodeFields(fields)
    case VBox(items) => EncodeItems(items)
  }

  function EncodeFields(fields: seq<Val>): (b: seq<byte>) {
    if fields == [] then [] else Encode(fields[0]) + EncodeFields(fields[1..])
  }

  function EncodeItems(items: seq<Val>): (b: seq<byte>) {
    if items == [] then [END] else [ITEM] + Encode(items[0]) + EncodeItems(items[1..])
  }

  // ----- reading

  datatype Read = Fail | Got(value: Val, rest: seq<byte>)

  datatype ReadAll = FailAll | GotAll(values: seq<Val>, rest: seq<byte>)

  /**
    Whether two values of a type are equal for the program: sets and maps are equal when each has what the
    other has, in whatever order.
    */
  predicate Same(ty: Ty, v: Val, w: Val)
    decreases ty, 0
  {
    v == w ||
    match ty
    case Struct(fields) =>
      && v.VStruct? && w.VStruct? && |v.fields| == |w.fields| == |fields|
      && forall i | 0 <= i < |fields| :: Same(fields[i], v.fields[i], w.fields[i])
    case Box(ListKind, elem) =>
      && v.VBox? && w.VBox? && |v.items| == |w.items|
      && forall i | 0 <= i < |v.items| :: Same(elem, v.items[i], w.items[i])
    case Box(_, elem) =>
      v.VBox? && w.VBox? && Within(elem, v.items, w.items) && Within(elem, w.items, v.items)
    case _ => false
  }

  predicate Among(elem: Ty, x: Val, ys: seq<Val>)
    decreases elem, 1
  {
    exists y :: y in ys && Same(elem, x, y)
  }

  predicate Within(elem: Ty, xs: seq<Val>, ys: seq<Val>)
    decreases elem, 2
  {
    forall x | x in xs :: Among(elem, x, ys)
  }

  /** Whether a container that holds `y` refuses `x`: a list never, a set if equal, a map if the keys are equal. */
  predicate Refuses(kind: Kind, elem: Ty, y: Val, x: Val) {
    match kind
    case ListKind => false
    case SetKind => Same(elem, y, x)
    case MapKind => Same(KeyTy(elem), KeyOf(y), KeyOf(x))
  }

  function KeyTy(elem: Ty): Ty {
    if elem.Struct? && elem.fields != [] then elem.fields[0] else elem
  }

  function KeyOf(entry: Val): Val {
    if entry.VStruct? && entry.fields != [] then entry.fields[0] else entry
  }

  /** Whether a container that holds `items` takes `x`. */
  predicate Takes(kind: Kind, elem: Ty, items: seq<Val>, x: Val) {
    forall y | y in items :: !Refuses(kind, elem, y, x)
  }

  function Insert(kind: Kind, elem: Ty, items: seq<Val>, x: Val): seq<Val> {
    if Takes(kind, elem, items, x) then items + [x] else items
  }

  function Decode(ty: Ty, b: seq<byte>): (r: Read)
    ensures r.Got? ==> |r.rest| <= |b|
    decreases ty, 0
  {
    match ty
    case Num(width) => if |b| < width then Fail else Got(VNum(b[..width]), b[width..])
    case Str =>
      if |b| < 4 then Fail
      else
        var n := FromU32(b[..4]);
        if n > |b| - 4 || n >= INT_LIMIT then Fail else Got(VStr(b[4..4 + n]), b[4 + n..])
    case Struct(fields) =>
      (match DecodeFields(fields, b)
       case FailAll => Fail
       case GotAll(values, rest) => Got(VStruct(values), rest))
    case Box(kind, elem) =>
      (match DecodeItems(kind, elem, [], b)
       case FailAll => Fail
       case GotAll(values, rest) => Got(VBox(values), rest))
  }

  function DecodeFields(fields: seq<Ty>, b: seq<byte>): (r: ReadAll)
    ensures r.GotAll? ==> |r.rest| <= |b|
    decreases fields, 0
  {
    if fields == [] then GotAll([], b)
    else
      match Decode(fields[0], b)
      case Fail => FailAll
      case Got(v, more) =>
        match DecodeFields(fields[1..], more)
        case FailAll => FailAll
        case GotAll(vs, rest) => GotAll([v] + vs, rest)
  }

  /** Reads items into a container that holds `items` already. */
  function DecodeItems(kind: Kind, elem: Ty, items: seq<Val>, b: seq<byte>): (r: ReadAll)
    ensures r.GotAll? ==> |r.rest| <= |b|
    decreases elem, |b| + 1
  {
    if b == [] then FailAll
    else if b[0] == END then GotAll(items, b[1..])
    else if b[0] != ITEM then FailAll
    else
      match Decode(elem, b[1..])
      case Fail => FailAll
      case Got(v, more) => DecodeItems(kind, elem, Insert(kind, elem, items, v), more)
  }

  // ----- values of a type

  /** A written form of type `ty`: its containers may repeat elements and keys. */
  predicate OfType(ty: Ty, v: Val)
    decreases ty
  {
    match ty
    case Num(width) => v.VNum? && |v.bytes| == width
    case Str => v.VStr? && |v.chars| < INT_LIMIT
    case Struct(fields) =>
      v.VStruct? && |v.fields| == |fields| && forall i | 0 <= i < |fields| :: OfType(fields[i], v.fields[i])
    case Box(_, elem) => v.VBox? && forall i | 0 <= i < |v.items| :: OfType(elem, v.items[i])
  }

  /** Adds items to a container one after the other. */
  function AddAll(kind: Kind, elem: Ty, items: seq<Val>, xs: seq<Val>): seq<Val>
    decreases |xs|
  {
    if xs == [] then items else AddAll(kind, elem, Insert(kind, elem, items, xs[0]), xs[1..])
  }

  /** What a read makes of a written form: at every level, containers refuse repeated elements and keys. */
  function Normal(ty: Ty, w: Val): Val
    decreases w
  {
    match (ty, w)
    case (Struct(fields), VStruct(ws)) => VStruct(NormalFields(fields, ws))
    case (Box(kind, elem), VBox(ws)) => VBox(AddAll(kind, elem, [], NormalItems(elem, ws)))
    case _ => w
  }

  function NormalFields(fields: seq<Ty>, ws: seq<Val>): (vs: seq<Val>)
    decreases ws
  {
    if fields == [] || ws == [] then [] else [Normal(fields[0], ws[0])] + NormalFields(fields[1..], ws[1..])
  }

  function NormalItems(elem: Ty, ws: seq<Val>): (vs: seq<Val>)
    decreases ws
  {
    if ws == [] then [] else [Normal(elem, ws[0])] + NormalItems(elem, ws[1..])
  }

  // ----- every written form is read

  lemma NumDecoded(w: Val, rest: seq<byte>)
    requires w.VNum?
    ensures Decode(Num(|w.bytes|), w.bytes + rest) == Got(w, rest)
  {
  }

  lemma StrDecoded(w: Val, rest: seq<byte>)
    requires w.VStr? && |w.chars| < INT_LIMIT
    ensures Decode(Str, Encode(w) + rest) == Got(w, rest)
  {
    var n := |w.chars|;
    var b := Encode(w) + rest;
    U32Inverse(n);
    assert b[..4] == U32(n);
    assert b[4..4 + n] == w.chars && b[4 + n..] == rest;
  }

  /** Any written form of the type, followed by any tail, is read up to the tail, to its normal form. */
  lemma {:induction false} Complete(ty: Ty, w: Val, rest: seq<byte>)
    requires OfType(ty, w)
    ensures Decode(ty, Encode(w) + rest) == Got(Normal(ty, w), rest)
    decreases w
  {
    match ty
    case Num(width) => NumDecoded(w, rest);
    case Str => StrDecoded(w, rest);
    case Struct(fields) => CompleteFields(fields, w.fields, rest);
    case Box(kind, elem) => CompleteItems(kind, elem, [], w.items, rest);
  }

  lemma {:induction false} CompleteFields(fields: seq<Ty>, ws: seq<Val>, rest: seq<byte>)
    requires |fields| == |ws| && forall i | 0 <= i < |ws| :: OfType(fields[i], ws[i])
    ensures DecodeFields(fields, EncodeFields(ws) + rest) == GotAll(NormalFields(fields, ws), rest)
    decreases ws
  {
    if ws == [] {
      assert EncodeFields(ws) + rest == rest;
    } else {
      var more := EncodeFields(ws[1..]) + rest;
      assert EncodeFields(ws) + rest == Encode(ws[0]) + more;
      Complete(fields[0], ws[0], more);
      CompleteFields(fields[1..], ws[1..], rest);
    }
  }

  lemma {:induction false} CompleteItems(kind: Kind, elem: Ty, items: seq<Val>, ws: seq<Val>, rest: seq<byte>)
    requires forall i | 0 <= i < |ws| :: OfType(elem, ws[i])
    ensures DecodeItems(kind, elem, items, EncodeItems(ws) + rest)
            == GotAll(AddAll(kind, elem, items, NormalItems(elem, ws)), rest)
    decreases ws
  {
    var b := EncodeItems(ws) + rest;
    if ws == [] {
      assert b == [END] + rest && b[1..] == rest;
    } else {
      var more := EncodeItems(ws[1..]) + rest;
      assert b[0] == ITEM && b[1..] == Encode(ws[0]) + more;
      Complete(elem, ws[0], more);
      var v := Normal(elem, ws[0]);
      CompleteItems(kind, elem, Insert(kind, elem, items, v), ws[1..], rest);
      assert NormalItems(elem, ws)[0] == v && NormalItems(elem, ws)[1..] == NormalItems(elem, ws[1..]);
    }
  }

  // ----- nothing else is read

  lemma StrSound(b: seq<byte>)
    requires Decode(Str, b).Got?
    ensures var r := Decode(Str, b); OfType(Str, r.value) && b == Encode(r.value) + r.rest
  {
    FromU32Inverse(b[..4]);
    var n := FromU32(b[..4]);
    assert b == b[..4] + b[4..4 + n] + b[4 + n..];
  }

  /** What a read consumes is a written form of the type, and its result is the normal form of that. */
  lemma {:induction false} Sound(ty: Ty, b: seq<byte>) returns (w: Val)
    requires Decode(ty, b).Got?
    ensures var r := Decode(ty, b); OfType(ty, w) && b == Encode(w) + r.rest && r.value == Normal(ty, w)
    decreases ty, 0
  {
    match ty
    case Num(width) =>
      w := VNum(b[..width]);
    case Str =>
      StrSound(b);
      w := Decode(ty, b).value;
    case Struct(fields) =>
      var ws := SoundFields(fields, b);
      w := VStruct(ws);
    case Box(kind, elem) =>
      var ws := SoundItems(kind, elem, [], b);
      w := VBox(ws);
  }

  lemma FieldsCons(ty: Ty, fields: seq<Ty>, w: Val, ws: seq<Val>)
    ensures EncodeFields([w] + ws) == Encode(w) + EncodeFields(ws)
    ensures NormalFields([ty] + fields, [w] + ws) == [Normal(ty, w)] + NormalFields(fields, ws)
  {
    assert ([w] + ws)[1..] == ws && ([ty] + fields)[1..] == fields;
  }

  lemma Reassociate(b: seq<byte>, w: seq<byte>, more: seq<byte>, ws: seq<byte>, rest: seq<byte>)
    requires b == w + more && more == ws + rest
    ensures b == w + ws + rest
  {
  }

  lemma FieldRead(fields: seq<Ty>, b: seq<byte>)
    requires fields != [] && DecodeFields(fields, b).GotAll?
    ensures var r := Decode(fields[0], b);
            && r.Got?
            && var s := DecodeFields(fields[1..], r.rest);
            s.GotAll? && DecodeFields(fields, b) == GotAll([r.value] + s.values, s.rest)
  {
    hide Decode;
  }

  lemma {:induction false} SoundFields(fields: seq<Ty>, b: seq<byte>) returns (ws: seq<Val>)
    requires DecodeFields(fields, b).GotAll?
    ensures var r := DecodeFields(fields, b);
            && |ws| == |fields| && (forall i | 0 <= i < |ws| :: OfType(fields[i], ws[i]))
            && b == EncodeFields(ws) + r.rest && r.values == NormalFields(fields, ws)
    decreases fields, 0
  {
    if fields == [] {
      ws := [];
    } else {
      hide Encode, Decode, OfType, Normal, DecodeFields, EncodeFields, NormalFields;
      FieldRead(fields, b);
      var w := Sound(fields[0], b);
      var ws' := SoundFields(fields[1..], Decode(fields[0], b).rest);
      ws := [w] + ws';
      assert fields == [fields[0]] + fields[1..];
      FieldsCons(fields[0], fields[1..], w, ws');
      Reassociate(b, Encode(w), Decode(fields[0], b).rest, EncodeFields(ws'), DecodeFields(fields, b).rest);
      forall i | 0 <= i < |ws|
        ensures OfType(fields[i], ws[i])
      {
        if i > 0 {
          assert fields[i] == fields[1..][i - 1] && ws[i] == ws'[i - 1];
        }
      }
    }
  }

  lemma ItemsCons(kind: Kind, elem: Ty, items: seq<Val>, w: Val, ws: seq<Val>)
    ensures EncodeItems([w] + ws) == [ITEM] + Encode(w) + EncodeItems(ws)
    ensures AddAll(kind, elem, items, NormalItems(elem, [w] + ws))
            == AddAll(kind, elem, Insert(kind, elem, items, Normal(elem, w)), NormalItems(elem, ws))
  {
    assert ([w] + ws)[1..] == ws;
    var all := NormalItems(elem, [w] + ws);
    assert all[0] == Normal(elem, w) && all[1..] == NormalItems(elem, ws);
  }

  lemma ItemRead(kind: Kind, elem: Ty, items: seq<Val>, b: seq<byte>)
    requires DecodeItems(kind, elem, items, b).GotAll?
    ensures b != [] && (b[0] == END || b[0] == ITEM)
    ensures b[0] == END ==> DecodeItems(kind, elem, items, b) == GotAll(items, b[1..])
    ensures b[0] == ITEM ==>
              var r := Decode(elem, b[1..]);
              && r.Got?
              && DecodeItems(kind, elem, items, b)
              == DecodeItems(kind, elem, Insert(kind, elem, items, r.value), r.rest)
  {
    hide Decode, Insert;
  }

  lemma ItemBytes(b: seq<byte>, w: seq<byte>, more: seq<byte>, ws: seq<byte>, rest: seq<byte>)
    requires b != [] && b[0] == ITEM && b[1..] == w + more && more == ws + rest
    ensures b == [ITEM] + w + ws + rest
  {
    assert b == [ITEM] + b[1..];
  }

  lemma NoItems(kind: Kind, elem: Ty, items: seq<Val>, b: seq<byte>)
    requires b != [] && b[0] == END
    ensures b == EncodeItems([]) + b[1..] && AddAll(kind, elem, items, NormalItems(elem, [])) == items
  {
    assert b == [END] + b[1..];
  }

  lemma {:induction false} SoundItems(kind: Kind, elem: Ty, items: seq<Val>, b: seq<byte>) returns (ws: seq<Val>)
    requires DecodeItems(kind, elem, items, b).GotAll?
    ensures var r := DecodeItems(kind, elem, items, b);
            && (forall i | 0 <= i < |ws| :: OfType(elem, ws[i]))
            && b == EncodeItems(ws) + r.rest && r.values == AddAll(kind, elem, items, NormalItems(elem, ws))
    decreases elem, |b| + 1
  {
    hide Encode, Decode, OfType, Normal, Insert, DecodeItems, EncodeItems, NormalItems, AddAll;
    ItemRead(kind, elem, items, b);
    if b[0] == END {
      ws := [];
      NoItems(kind, elem, items, b);
    } else {
      var w := Sound(elem, b[1..]);
      var r := Decode(elem, b[1..]);
      var ws' := SoundItems(kind, elem, Insert(kind, elem, items, r.value), r.rest);
      ws := [w] + ws';
      ItemsCons(kind, elem, items, w, ws');
      ItemBytes(b, Encode(w), r.rest, EncodeItems(ws'), DecodeItems(kind, elem, items, b).rest);
    }
  }

  // ----- main results

  /** A read succeeds exactly on the written forms of its type, and returns their normal form. */
  lemma ReadsWrittenForms(ty: Ty, b: seq<byte>, v: Val, rest: seq<byte>)
    ensures Decode(ty, b) == Got(v, rest) <==> exists w :: OfType(ty, w) && b == Encode(w) + rest && v == Normal(ty, w)
  {
    if Decode(ty, b) == Got(v, rest) {
      var w := Sound(ty, b);
      assert OfType(ty, w) && b == Encode(w) + rest && v == Normal(ty, w);
    }
    forall w | OfType(ty, w) && b == Encode(w) + rest && v == Normal(ty, w)
      ensures Decode(ty, b) == Got(v, rest)
    {
      Complete(ty, w, rest);
    }
  }

  /** A container that took every item in turn: a set without repeated elements, a map without repeated keys. */
  predicate Distinct(kind: Kind, elem: Ty, items: seq<Val>) {
    forall i | 0 <= i < |items| :: Takes(kind, elem, items[..i], items[i])
  }

  /** A value that an object of the type can hold. */
  predicate Proper(ty: Ty, v: Val)
    decreases ty
  {
    match ty
    case Struct(fields) =>
      v.VStruct? && |v.fields| == |fields| && forall i | 0 <= i < |fields| :: Proper(fields[i], v.fields[i])
    case Box(kind, elem) =>
      v.VBox? && Distinct(kind, elem, v.items) && forall i | 0 <= i < |v.items| :: Proper(elem, v.items[i])
    case _ => OfType(ty, v)
  }

  lemma {:induction false} AddAllDistinct(kind: Kind, elem: Ty, items: seq<Val>, xs: seq<Val>)
    requires Distinct(kind, elem, items + xs)
    ensures AddAll(kind, elem, items, xs) == items + xs
    decreases |xs|
  {
    if xs == [] {
      assert items + xs == items;
    } else {
      var all := items + xs;
      assert Takes(kind, elem, all[..|items|], all[|items|]);
      assert all[..|items|] == items;
      assert items + [xs[0]] + xs[1..] == all;
      AddAllDistinct(kind, elem, items + [xs[0]], xs[1..]);
    }
  }

  /** A proper value is written in a form that is already normal. */
  lemma {:induction false} ProperNormal(ty: Ty, v: Val)
    requires Proper(ty, v)
    ensures OfType(ty, v) && Normal(ty, v) == v
    decreases v
  {
    match ty
    case Struct(fields) =>
      forall i | 0 <= i < |fields|
        ensures OfType(fields[i], v.fields[i])
      {
        ProperNormal(fields[i], v.fields[i]);
      }
      ProperFields(fields, v.fields);
    case Box(kind, elem) =>
      forall i | 0 <= i < |v.items|
        ensures OfType(elem, v.items[i])
      {
        ProperNormal(elem, v.items[i]);
      }
      ProperItems(elem, v.items);
      assert [] + v.items == v.items;
      AddAllDistinct(kind, elem, [], v.items);
    case _ =>
  }

  lemma {:induction false} ProperFields(fields: seq<Ty>, vs: seq<Val>)
    requires |fields| == |vs| && forall i | 0 <= i < |vs| :: Proper(fields[i], vs[i])
    ensures NormalFields(fields, vs) == vs
    decreases vs
  {
    if vs != [] {
      ProperNormal(fields[0], vs[0]);
      ProperFields(fields[1..], vs[1..]);
    }
  }

  lemma {:induction false} ProperItems(elem: Ty, vs: seq<Val>)
    requires forall i | 0 <= i < |vs| :: Proper(elem, vs[i])
    ensures NormalItems(elem, vs) == vs
    decreases vs
  {
    if vs != [] {
      ProperNormal(elem, vs[0]);
      ProperItems(elem, vs[1..]);
    }
  }

  /** What a program wrote is read back, from its bytes and any tail, up to the tail. */
  lemma RoundTrip(ty: Ty, v: Val, rest: seq<byte>)
    requires Proper(ty, v)
    ensures Decode(ty, Encode(v) + rest) == Got(v, rest)
  {
    ProperNormal(ty, v);
    Complete(ty, v, rest);
  }

  // ----- what a read returns

  lemma {:induction false} AddAllKeeps(kind: Kind, elem: Ty, items: seq<Val>, xs: seq<Val>)
    requires Distinct(kind, elem, items)
    ensures Distinct(kind, elem, AddAll(kind, elem, items, xs))
    ensures forall y | y in AddAll(kind, elem, items, xs) :: y in items || y in xs
    decreases |xs|
  {
    if xs != [] {
      var next := Insert(kind, elem, items, xs[0]);
      forall i | 0 <= i < |next|
        ensures Takes(kind, elem, next[..i], next[i])
      {
        assert next[..i] == items[..i];
      }
      AddAllKeeps(kind, elem, next, xs[1..]);
    }
  }

  /** Whatever the bytes, what a read returns is a value that an object of the type can hold. */
  lemma {:induction false} NormalProper(ty: Ty, w: Val)
    requires OfType(ty, w)
    ensures Proper(ty, Normal(ty, w))
    decreases w
  {
    match ty
    case Struct(fields) => NormalProperFields(fields, w.fields);
    case Box(kind, elem) =>
      NormalProperItems(elem, w.items);
      AddAllKeeps(kind, elem, [], NormalItems(elem, w.items));
    case _ =>
  }

  lemma {:induction false} NormalProperFields(fields: seq<Ty>, ws: seq<Val>)
    requires |fields| == |ws| && forall i | 0 <= i < |ws| :: OfType(fields[i], ws[i])
    ensures |NormalFields(fields, ws)| == |ws|
    ensures forall i | 0 <= i < |ws| :: Proper(fields[i], NormalFields(fields, ws)[i])
    decreases ws
  {
    if ws != [] {
      NormalProper(fields[0], ws[0]);
      NormalProperFields(fields[1..], ws[1..]);
    }
  }

  lemma {:induction false} NormalProperItems(elem: Ty, ws: seq<Val>)
    requires forall i | 0 <= i < |ws| :: OfType(elem, ws[i])
    ensures forall v | v in NormalItems(elem, ws) :: Proper(elem, v)
    decreases ws
  {
    if ws != [] {
      NormalProper(elem, ws[0]);
      NormalProperItems(elem, ws[1..]);
    }
  }

  lemma ReadsAreProper(ty: Ty, b: seq<byte>)
    requires Decode(ty, b).Got?
    ensures Proper(ty, Decode(ty, b).value)
    ensures exists used :: b == used + Decode(ty, b).rest
  {
    var w := Sound(ty, b);
    NormalProper(ty, w);
    assert b == Encode(w) + Decode(ty, b).rest;
  }

  // ----- types without sets and maps

  predicate Plain(ty: Ty) {
    match ty
    case Struct(fields) => forall i | 0 <= i < |fields| :: Plain(fields[i])
    case Box(kind, elem) => kind == ListKind && Plain(elem)
    case _ => true
  }

  lemma {:induction false} PlainProper(ty: Ty, w: Val)
    requires Plain(ty) && OfType(ty, w)
    ensures Proper(ty, w)
    decreases ty
  {
    match ty
    case Struct(fields) =>
      forall i | 0 <= i < |fields|
        ensures Proper(fields[i], w.fields[i])
      {
        PlainProper(fields[i], w.fields[i]);
      }
    case Box(_, elem) =>
      forall i | 0 <= i < |w.items|
        ensures Proper(elem, w.items[i])
      {
        PlainProper(elem, w.items[i]);
      }
    case _ =>
  }

  /** For numbers, strings, lists and structs, a read succeeds exactly on the encodings of its result. */
  lemma PlainReads(ty: Ty, b: seq<byte>, v: Val, rest: seq<byte>)
    requires Plain(ty)
    ensures Decode(ty, b) == Got(v, rest) <==> OfType(ty, v) && b == Encode(v) + rest
  {
    if Decode(ty, b) == Got(v, rest) {
      var w := Sound(ty, b);
      PlainProper(ty, w);
      ProperNormal(ty, w);
    }
    if OfType(ty, v) && b == Encode(v) + rest {
      PlainProper(ty, v);
      RoundTrip(ty, v, rest);
    }
  }

  // ----- no encoding is the front of another

  /** The type with every container taken as a list. */
  function Lists(ty: Ty): Ty {
    match ty
    case Struct(fields) => Struct(seq(|fields|, i requires 0 <= i < |fields| => Lists(fields[i])))
    case Box(_, elem) => Box(ListKind, Lists(elem))
    case _ => ty
  }

  lemma {:induction false} ListsPlain(ty: Ty, w: Val)
    ensures Plain(Lists(ty))
    ensures OfType(ty, w) ==> OfType(Lists(ty), w)
    decreases ty
  {
    match ty
    case Struct(fields) =>
      forall i | 0 <= i < |fields|
        ensures Plain(Lists(fields[i]))
        ensures OfType(ty, w) ==> OfType(Lists(fields[i]), w.fields[i])
      {
        ListsPlain(fields[i], if OfType(ty, w) then w.fields[i] else w);
      }
    case Box(_, elem) =>
      ListsPlain(elem, w);
      if OfType(ty, w) {
        forall i | 0 <= i < |w.items|
          ensures OfType(Lists(elem), w.items[i])
        {
          ListsPlain(elem, w.items[i]);
        }
      }
    case _ =>
  }

  /** Two written forms of one type that begin the same bytes are the same. */
  lemma UniquelyReadable(ty: Ty, v: Val, w: Val, a: seq<byte>, b: seq<byte>)
    requires OfType(ty, v) && OfType(ty, w) && Encode(v) + a == Encode(w) + b
    ensures v == w && a == b
  {
    ListsPlain(ty, v);
    ListsPlain(ty, w);
    PlainReads(Lists(ty), Encode(v) + a, v, a);
    PlainReads(Lists(ty), Encode(w) + b, w, b);
  }

  // ----- equality

  lemma {:induction false} SameTransitive(ty: Ty, u: Val, v: Val, w: Val)
    requires Same(ty, u, v) && Same(ty, v, w)
    ensures Same(ty, u, w)
    decreases ty, 0
  {
    hide Within;
    if u != v && v != w {
      match ty
      case Struct(fields) =>
        forall i | 0 <= i < |fields|
          ensures Same(fields[i], u.fields[i], w.fields[i])
        {
          SameTransitive(fields[i], u.fields[i], v.fields[i], w.fields[i]);
        }
      case Box(ListKind, elem) =>
        forall i | 0 <= i < |u.items|
          ensures Same(elem, u.items[i], w.items[i])
        {
          SameTransitive(elem, u.items[i], v.items[i], w.items[i]);
        }
      case Box(_, elem) =>
        WithinTransitive(elem, u.items, v.items, w.items);
        WithinTransitive(elem, w.items, v.items, u.items);
    }
  }

  lemma {:induction false} WithinTransitive(elem: Ty, us: seq<Val>, vs: seq<Val>, ws: seq<Val>)
    requires Within(elem, us, vs) && Within(elem, vs, ws)
    ensures Within(elem, us, ws)
    decreases elem, 1
  {
    hide Same;
    forall x | x in us
      ensures Among(elem, x, ws)
    {
      assert Among(elem, x, vs);
      var y :| y in vs && Same(elem, x, y);
      assert Among(elem, y, ws);
      var z :| z in ws && Same(elem, y, z);
      SameTransitive(elem, x, y, z);
    }
  }

  lemma {:induction false} SameSymmetric(ty: Ty, v: Val, w: Val)
    requires Same(ty, v, w)
    ensures Same(ty, w, v)
    decreases ty
  {
    hide Within;
    if v != w {
      match ty
      case Struct(fields) =>
        forall i | 0 <= i < |fields|
          ensures Same(fields[i], w.fields[i], v.fields[i])
        {
          SameSymmetric(fields[i], v.fields[i], w.fields[i]);
        }
      case Box(ListKind, elem) =>
        forall i | 0 <= i < |v.items|
          ensures Same(elem, w.items[i], v.items[i])
        {
          SameSymmetric(elem, v.items[i], w.items[i]);
        }
      case Box(_, elem) =>
    }
  }

  /** Sets that list the same elements in different orders are equal. */
  lemma SetOrderIgnored(elem: Ty, xs: seq<Val>, ys: seq<Val>)
    requires forall x :: x in xs <==> x in ys
    ensures Same(Box(SetKind, elem), VBox(xs), VBox(ys))
  {
    hide Within;
    WithinMore(elem, xs, ys);
    WithinMore(elem, ys, xs);
  }

  lemma WithinMore(elem: Ty, xs: seq<Val>, ys: seq<Val>)
    requires forall x :: x in xs ==> x in ys
    ensures Within(elem, xs, ys)
  {
    hide Same;
    forall x | x in xs
      ensures Among(elem, x, ys)
    {
      SameReflexive(elem, x);
    }
  }

  lemma SameReflexive(ty: Ty, v: Val)
    ensures Same(ty, v, v)
  {
  }

  lemma RefusesTransitive(kind: Kind, elem: Ty, x: Val, y: Val, z: Val)
    requires Refuses(kind, elem, x, y) && Refuses(kind, elem, y, z)
    ensures Refuses(kind, elem, x, z)
  {
    hide Same;
    if kind == SetKind {
      SameTransitive(elem, x, y, z);
    } else {
      SameTransitive(KeyTy(elem), KeyOf(x), KeyOf(y), KeyOf(z));
    }
  }

  // ----- sets and maps

  /** Whether no earlier item refuses the item at `i`. */
  predicate First(kind: Kind, elem: Ty, xs: seq<Val>, i: nat)
    requires i < |xs|
  {
    Takes(kind, elem, xs[..i], xs[i])
  }

  lemma {:induction false} AddAllSnoc(kind: Kind, elem: Ty, items: seq<Val>, xs: seq<Val>, x: Val)
    ensures AddAll(kind, elem, items, xs + [x]) == Insert(kind, elem, AddAll(kind, elem, items, xs), x)
    decreases |xs|
  {
    if xs == [] {
      assert (xs + [x])[1..] == [];
    } else {
      assert (xs + [x])[0] == xs[0] && (xs + [x])[1..] == xs[1..] + [x];
      AddAllSnoc(kind, elem, Insert(kind, elem, items, xs[0]), xs[1..], x);
    }
  }

  /** `y` is the first of its kind. */
  ghost predicate IsFirst(kind: Kind, elem: Ty, xs: seq<Val>, y: Val) {
    exists i :: 0 <= i < |xs| && xs[i] == y && First(kind, elem, xs, i)
  }

  lemma FirstOfFront(kind: Kind, elem: Ty, xs: seq<Val>, x: Val, i: nat)
    requires i < |xs|
    ensures First(kind, elem, xs + [x], i) <==> First(kind, elem, xs, i)
  {
    hide Takes;
    assert (xs + [x])[..i] == xs[..i];
  }

  lemma FirstSnoc(kind: Kind, elem: Ty, xs: seq<Val>, x: Val, y: Val)
    ensures IsFirst(kind, elem, xs + [x], y)
       <==> IsFirst(kind, elem, xs, y) || (y == x && First(kind, elem, xs + [x], |xs|))
  {
    hide First;
    var all := xs + [x];
    if IsFirst(kind, elem, all, y) {
      var i :| 0 <= i < |all| && all[i] == y && First(kind, elem, all, i);
      if i < |xs| {
        FirstOfFront(kind, elem, xs, x, i);
        assert xs[i] == y;
      }
    }
    if IsFirst(kind, elem, xs, y) {
      var i :| 0 <= i < |xs| && xs[i] == y && First(kind, elem, xs, i);
      FirstOfFront(kind, elem, xs, x, i);
      assert all[i] == y;
    }
    if y == x && First(kind, elem, all, |xs|) {
      assert all[|xs|] == y;
    }
  }

  /** Of entries with the same key a map keeps the first one, of equal elements a set, and nothing else. */
  lemma {:induction false} FirstWins(kind: Kind, elem: Ty, xs: seq<Val>, y: Val)
    ensures y in AddAll(kind, elem, [], xs) <==> IsFirst(kind, elem, xs, y)
  {
    hide Refuses;
    if xs != [] {
      var front, last := xs[..|xs| - 1], xs[|xs| - 1];
      assert xs == front + [last];
      FirstWins(kind, elem, front, y);
      AddAllSnoc(kind, elem, [], front, last);
      KeyKept(kind, elem, front, last);
      FirstSnoc(kind, elem, front, last, y);
      TakesByPlace(kind, elem, front, last);
      assert xs[..|front|] == front;
    }
  }

  lemma TakesByPlace(kind: Kind, elem: Ty, xs: seq<Val>, x: Val)
    ensures Takes(kind, elem, xs, x) <==> forall j | 0 <= j < |xs| :: !Refuses(kind, elem, xs[j], x)
  {
    hide Refuses;
  }

  /** No key and no element is lost. */
  lemma KeysKept(kind: Kind, elem: Ty, xs: seq<Val>, i: nat)
    requires i < |xs| && kind != ListKind
    ensures exists z :: z in AddAll(kind, elem, [], xs) && Refuses(kind, elem, z, xs[i])
  {
    KeyKept(kind, elem, xs, xs[i]);
    assert Refuses(kind, elem, xs[i], xs[i]);
  }

  lemma {:induction false} KeyKept(kind: Kind, elem: Ty, xs: seq<Val>, x: Val)
    ensures Takes(kind, elem, AddAll(kind, elem, [], xs), x)
       <==> forall j | 0 <= j < |xs| :: !Refuses(kind, elem, xs[j], x)
  {
    hide Refuses;
    if xs != [] {
      var front, last := xs[..|xs| - 1], xs[|xs| - 1];
      assert xs == front + [last];
      AddAllSnoc(kind, elem, [], front, last);
      KeyKept(kind, elem, front, x);
      KeyKept(kind, elem, front, last);
      hide AddAll;
      if Refuses(kind, elem, last, x) && !Takes(kind, elem, AddAll(kind, elem, [], front), last) {
        var y :| y in AddAll(kind, elem, [], front) && Refuses(kind, elem, y, last);
        RefusesTransitive(kind, elem, y, last, x);
      }
    }
  }
}
