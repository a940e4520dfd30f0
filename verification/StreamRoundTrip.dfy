/** Writing a value into a buffer and reading it back from the same buffer. */
module StreamRoundTrip {
  import opened Codec
  import opened InputStreams
  import opened OutputStreams

  lemma BeginsWithEncoding(ty: Ty, v: Val, b: seq<byte>, n: nat)
    requires Proper(ty, v) && n == |Encode(v)| <= |b| && b[..n] == Encode(v)
    ensures Decode(ty, b) == Got(v, b[n..])
  {
    hide Encode, Decode, Proper;
    RoundTrip(ty, v, b[n..]);
    assert b == b[..n] + b[n..];
  }

  /** Writes a value at the start of a buffer. */
  method WriteInto(ty: Ty, v: Val, buf: array<byte>) returns (ok: bool, size: nat)
    requires WellFormed(ty) && OfType(ty, v)
    modifies buf
    ensures ok <==> |Encode(v)| <= buf.Length
    ensures ok ==> size == |Encode(v)| && buf[..size] == Encode(v)
  {
    hide Encode, OfType, WellFormed, Front;
    var writer := new ArrayOutputStream(buf);
    assert writer.Written() == [];
    ok := writer.Write(ty, v);
    size := writer.wpos;
  }

  /** Reads a value from the start of a buffer, and tells where the reader stopped. */
  method ReadFrom(ty: Ty, buf: array<byte>) returns (ok: bool, w: Val, stoppedAt: nat)
    requires WellFormed(ty)
    ensures ok == Decode(ty, buf[..]).Got? && stoppedAt <= buf.Length
    ensures ok ==> Decode(ty, buf[..]) == Got(w, buf[stoppedAt..])
  {
    hide Decode, WellFormed;
    var reader := new ArrayInputStream(buf);
    ok, w := reader.Read(ty);
    stoppedAt := reader.rpos;
  }

  /**
    What fits is read back, through the two streams and their cursors, whatever the buffer holds after it;
    the reader stops where the writer did.
    */
  method WriteThenRead(ty: Ty, v: Val, buf: array<byte>) returns (ok: bool, w: Val, stoppedAt: nat)
    requires WellFormed(ty) && Proper(ty, v)
    modifies buf
    ensures ok <==> |Encode(v)| <= buf.Length
    ensures ok ==> w == v && stoppedAt == |Encode(v)|
  {
    ProperNormal(ty, v);
    hide *;
    var size;
    w, stoppedAt := v, 0;
    ok, size := WriteInto(ty, v, buf);
    if ok {
      BeginsWithEncoding(ty, v, buf[..], size);
      ok, w, stoppedAt := ReadFrom(ty, buf);
    }
  }
}
