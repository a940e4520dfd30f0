/**
  Writing into a bounded buffer: a write that does not fit fills the buffer with the front of its bytes.
  */
module OutputStreams {
  import opened Codec

  /** As much of `e` as fits in `n` bytes. */
  function Front(e: seq<byte>, n: nat): (f: seq<byte>)
    ensures |f| == if |e| <= n then |e| else n
    ensures f <= e
    ensures |e| <= n ==> f == e
  {
    if |e| <= n then e else e[..n]
  }

  lemma FrontConcat(a: seq<byte>, b: seq<byte>, n: nat)
    ensures Front(a + b, n) == if |a| <= n then a + Front(b, n - |a|) else Front(a, n)
  {
  }

  /** The item of every map is the struct of its key and its value. */
  predicate WellFormed(ty: Ty) {
    match ty
    case Struct(fields) => forall i | 0 <= i < |fields| :: WellFormed(fields[i])
    case Box(kind, elem) => WellFormed(elem) && (kind == MapKind ==> elem.Struct? && |elem.fields| == 2)
    case _ => true
  }

  class ArrayOutputStream {
    const buf: array<byte>
    var wpos: nat

    ghost predicate Valid()
      reads this
    {
      wpos <= buf.Length
    }

    ghost function Written(): seq<byte>
      requires Valid()
      reads this, buf
    {
      buf[..wpos]
    }

    function FreeSpace(): nat
      requires Valid()
      reads this
    {
      buf.Length - wpos
    }

    constructor (buf: array<byte>)
      ensures Valid() && this.buf == buf && wpos == 0
    {
      this.buf := buf;
      wpos := 0;
    }

    method WriteBytes(data: seq<byte>) returns (n: nat)
      requires Valid()
      modifies this, buf
      ensures Valid() && Written() == old(Written()) + Front(data, old(FreeSpace()))
      ensures n == |Front(data, old(FreeSpace()))|
      ensures buf[wpos..] == old(buf[..])[wpos..]
    {
      n := if |data| <= FreeSpace() then |data| else FreeSpace();
      forall i | 0 <= i < n {
        buf[wpos + i] := data[i];
      }
      wpos := wpos + n;
    }

    /** A value of fixed width. */
    method WriteNum(bytes: seq<byte>) returns (ok: bool)
      requires Valid()
      modifies this, buf
      ensures Valid() && Written() == old(Written()) + Front(bytes, old(FreeSpace()))
      ensures ok == (|bytes| <= old(FreeSpace()))
    {
      var n := WriteBytes(bytes);
      ok := n == |bytes|;
    }

    method WriteStr(chars: seq<byte>) returns (ok: bool)
      requires Valid()
      modifies this, buf
      ensures Valid() && Written() == old(Written()) + Front(U32(|chars|) + chars, old(FreeSpace()))
      ensures ok == (4 + |chars| <= old(FreeSpace()))
    {
      FrontConcat(U32(|chars|), chars, FreeSpace());
      ok := WriteNum(U32(|chars|));
      if ok {
        var n := WriteBytes(chars);
        ok := n == |chars|;
      }
    }

    /** Lists and sets, in iteration order. */
    method WriteListLike(elem: Ty, items: seq<Val>) returns (ok: bool)
      requires Valid() && WellFormed(elem) && forall x | x in items :: OfType(elem, x)
      modifies this, buf
      ensures Valid() && Written() == old(Written()) + Front(EncodeItems(items), old(FreeSpace()))
      ensures ok == (|EncodeItems(items)| <= old(FreeSpace()))
      decreases items
    {
      hide Encode, EncodeItems, OfType, WellFormed, Front;
      ghost var free, start, done := FreeSpace(), Written(), [];
      var i := 0;
      while i < |items|
        invariant 0 <= i <= |items|
        invariant Valid() && |done| <= free && FreeSpace() == free - |done|
        invariant Written() == start + done
        invariant EncodeItems(items) == done + EncodeItems(items[i..])
      {
        ghost var e, more := Encode(items[i]), EncodeItems(items[i + 1..]);
        ItemsFrom(items, i);
        ok := WriteNum([ITEM]);
        Step(start, done, [ITEM], e + more, free, Written(), ok);
        if !ok {
          return;
        }
        done := done + [ITEM];
        ok := Write(elem, items[i]);
        Step(start, done, e, more, free, Written(), ok);
        if !ok {
          return;
        }
        done := done + e;
        i := i + 1;
      }
      EncodedNone(items[i..]);
      ok := WriteNum([END]);
      Step(start, done, [END], [], free, Written(), ok);
    }

    /** The key of an entry, and then its value. */
    method WriteEntry(key: Ty, value: Ty, entry: Val) returns (ok: bool)
      requires Valid() && WellFormed(key) && WellFormed(value) && OfType(Struct([key, value]), entry)
      modifies this, buf
      ensures Valid() && Written() == old(Written()) + Front(Encode(entry), old(FreeSpace()))
      ensures ok == (|Encode(entry)| <= old(FreeSpace()))
      decreases entry
    {
      EntryFields(key, value, entry);
      hide Encode, OfType, WellFormed, Front;
      var k, v := entry.fields[0], entry.fields[1];
      ghost var free, start := FreeSpace(), Written();
      ok := Write(key, k);
      Step(start, [], Encode(k), Encode(v), free, Written(), ok);
      assert [] + (Encode(k) + Encode(v)) == Encode(k) + Encode(v);
      if ok {
        ok := Write(value, v);
        Step(start, Encode(k), Encode(v), [], free, Written(), ok);
        assert Encode(k) + (Encode(v) + []) == Encode(k) + Encode(v);
      }
    }

    method WriteMapLike(key: Ty, value: Ty, entries: seq<Val>) returns (ok: bool)
      requires Valid() && WellFormed(key) && WellFormed(value)
      requires forall x | x in entries :: OfType(Struct([key, value]), x)
      modifies this, buf
      ensures Valid() && Written() == old(Written()) + Front(EncodeItems(entries), old(FreeSpace()))
      ensures ok == (|EncodeItems(entries)| <= old(FreeSpace()))
      decreases entries
    {
      hide Encode, EncodeItems, OfType, WellFormed, Front;
      ghost var free, start, done := FreeSpace(), Written(), [];
      var i := 0;
      while i < |entries|
        invariant 0 <= i <= |entries|
        invariant Valid() && |done| <= free && FreeSpace() == free - |done|
        invariant Written() == start + done
        invariant EncodeItems(entries) == done + EncodeItems(entries[i..])
      {
        ghost var e, more := Encode(entries[i]), EncodeItems(entries[i + 1..]);
        ItemsFrom(entries, i);
        ok := WriteNum([ITEM]);
        Step(start, done, [ITEM], e + more, free, Written(), ok);
        if !ok {
          return;
        }
        done := done + [ITEM];
        ok := WriteEntry(key, value, entries[i]);
        Step(start, done, e, more, free, Written(), ok);
        if !ok {
          return;
        }
        done := done + e;
        i := i + 1;
      }
      EncodedNone(entries[i..]);
      ok := WriteNum([END]);
      Step(start, done, [END], [], free, Written(), ok);
    }

    /** An object writes its fields one after the other, until one does not fit. */
    method WriteFields(fields: seq<Ty>, vs: seq<Val>) returns (ok: bool)
      requires Valid() && |fields| == |vs|
      requires forall i | 0 <= i < |vs| :: WellFormed(fields[i]) && OfType(fields[i], vs[i])
      modifies this, buf
      ensures Valid() && Written() == old(Written()) + Front(EncodeFields(vs), old(FreeSpace()))
      ensures ok == (|EncodeFields(vs)| <= old(FreeSpace()))
      decreases vs
    {
      hide Encode, OfType, WellFormed, Front;
      if vs == [] {
        assert Front([], FreeSpace()) == [];
        return true;
      }
      ghost var free, start, more := FreeSpace(), Written(), EncodeFields(vs[1..]);
      ok := Write(fields[0], vs[0]);
      hide EncodeFields;
      Step(start, [], Encode(vs[0]), more, free, Written(), ok);
      assert [] + (Encode(vs[0]) + more) == Encode(vs[0]) + more;
      if ok {
        ok := WriteFields(fields[1..], vs[1..]);
        Step(start, Encode(vs[0]), more, [], free, Written(), ok);
        assert Encode(vs[0]) + (more + []) == Encode(vs[0]) + more;
      }
    }

    /** A write succeeds exactly when the whole encoding fits; otherwise the front of it fills the buffer. */
    method Write(ty: Ty, v: Val) returns (ok: bool)
      requires Valid() && WellFormed(ty) && OfType(ty, v)
      modifies this, buf
      ensures Valid() && Written() == old(Written()) + Front(Encode(v), old(FreeSpace()))
      ensures ok == (|Encode(v)| <= old(FreeSpace()))
      decreases v
    {
      match ty
      case Num(_) => ok := WriteNum(v.bytes);
      case Str => ok := WriteStr(v.chars);
      case Struct(fields) => ok := WriteFields(fields, v.fields);
      case Box(kind, elem) =>
        if kind == MapKind {
          ok := WriteMapLike(elem.fields[0], elem.fields[1], v.items);
        } else {
          ok := WriteListLike(elem, v.items);
        }
    }
  }

  /**
    A part is written after `done`, with `rest` to follow: it fits, or what fits of it is the end of what
    fits of everything.
    */
  lemma Step(start: seq<byte>, done: seq<byte>, part: seq<byte>, rest: seq<byte>, free: nat, written: seq<byte>,
             ok: bool)
    requires |done| <= free && ok == (|part| <= free - |done|)
    requires written == start + done + Front(part, free - |done|)
    ensures ok ==> written == start + (done + part) && |done + part| <= free
    ensures ok ==> done + (part + rest) == done + part + rest
    ensures ok && rest == [] ==> written == start + Front(done + (part + rest), free) && |done + (part + rest)| <= free
    ensures !ok ==> written == start + Front(done + (part + rest), free) && |done + (part + rest)| > free
  {
    hide Front;
    FrontConcat(done, part + rest, free);
    FrontConcat(part, rest, free - |done|);
    assert done + (part + rest) == done + part + rest;
  }

  lemma EncodedNone(items: seq<Val>)
    requires items == []
    ensures EncodeItems(items) == [END] + []
  {
  }

  lemma ItemsFrom(items: seq<Val>, i: nat)
    requires i < |items|
    ensures EncodeItems(items[i..]) == [ITEM] + (Encode(items[i]) + EncodeItems(items[i + 1..]))
  {
    assert items[i..][1..] == items[i + 1..];
  }

  lemma EntryFields(key: Ty, value: Ty, entry: Val)
    requires OfType(Struct([key, value]), entry)
    ensures entry.VStruct? && |entry.fields| == 2
    ensures OfType(key, entry.fields[0]) && OfType(value, entry.fields[1])
    ensures Encode(entry) == Encode(entry.fields[0]) + Encode(entry.fields[1])
  {
    var fields := [key, value];
    assert OfType(fields[0], entry.fields[0]) && OfType(fields[1], entry.fields[1]);
    var vs := entry.fields;
    assert EncodeFields(vs[1..]) == Encode(vs[1]) + EncodeFields(vs[1..][1..]);
    assert vs[1..][1..] == [];
  }
}
