/** Searching for a device family: where `target_search` sends the next search, and what the CRC is for. */
module TargetSearch {
  import opened Gf2
  import opened ByteStream
  import opened Options
  import opened RomSearch
  import opened Enumeration
  import Crc8

  /** The search state that `target_search` prepares. */
  function TargetState(family: bv8): SearchState {
    SearchState(ByteBits(family) + Zeros(56), 64, 0, false)
  }

  predicate InFamily(r: Rom, family: bv8) {
    r[..8] == ByteBits(family)
  }

  ghost function OfFamily(S: set<Rom>, family: bv8): set<Rom> {
    set r | r in S && InFamily(r, family)
  }

  /** The ROM that differs from `r` in its last bit only. */
  function Sibling(r: Rom): Rom {
    r[63 := !r[63]]
  }

  lemma FamilyByteNonzero(r: Rom, family: bv8)
    requires InFamily(r, family)
    ensures HasFamily(r) <==> family != 0
  {
    forall j | 0 <= j < 8
      ensures r[j] == ByteBit(family, j)
    {
      assert r[..8][j] == r[j];
    }
    hide ByteBits;
    if family != 0 {
      var j := SetBit(family);
      assert r[j];
    }
  }

  lemma FirstByteNonzero(bytes: seq<bv8>)
    requires |bytes| == 8
    ensures HasFamily(Stream(bytes)) <==> bytes[0] != 0
  {
    hide ByteBits, HasFamily, Stream;
    StreamConcat(bytes[..1], bytes[1..]);
    assert bytes == bytes[..1] + bytes[1..];
    StreamSnoc([], bytes[0]);
    StreamEmpty();
    assert bytes[..1] == [] + [bytes[0]];
    FamilyByteNonzero(Stream(bytes), bytes[0]);
  }

  lemma SetBit(b: bv8) returns (j: nat)
    requires b != 0
    ensures j < 8 && ByteBit(b, j)
  {
    j := if b & 0x01 != 0 then 0 else if b & 0x02 != 0 then 1 else if b & 0x04 != 0 then 2 else if b & 0x08 != 0 then 3
    else if b & 0x10 != 0 then 4 else if b & 0x20 != 0 then 5 else if b & 0x40 != 0 then 6 else 7;
  }

  /** The least ROM of the family takes the prescribed direction at every fork but, possibly, the last bit. */
  lemma LeastFollowsTarget(S: set<Rom>, family: bv8, m: Rom, i: nat)
    requires IsLeast(OfFamily(S, family), m)
    requires i < 64 && Fork(S, m, i)
    ensures !(i < 8) ==> !m[i]
    ensures i < 63 ==> m[i] == Choice(TargetState(family).rom, 64, i)
  {
    hide ByteBits;
    var s :| s in S && Agree(s, m, i) && s[i] != m[i];
    if i >= 8 {
      assert s[..8] == m[..8];
      LessAt(m, s, i);
    } else {
      assert m[..8][i] == m[i];
    }
  }

  lemma ForkAtLastBit(S: set<Rom>, m: Rom)
    requires m in S
    ensures Fork(S, m, 63) <==> Sibling(m) in S
  {
    if Fork(S, m, 63) {
      var s :| s in S && Agree(s, m, 63) && s[63] != m[63];
      assert s == Sibling(m);
    }
    if Sibling(m) in S {
      assert Agree(Sibling(m), m, 63);
    }
  }

  /**
    The search after `target_search` returns the least ROM of a family that is present exactly when no
    device differs from that ROM in the last bit alone.
    */
  lemma TargetFindsLeast(S: set<Rom>, family: bv8, st': SearchState, result: Option<Rom>)
    requires family != 0 && OfFamily(S, family) != {}
    requires SearchStep(S, true, TargetState(family), st', result)
    ensures result == Some(Least(OfFamily(S, family))) <==> Sibling(Least(OfFamily(S, family))) !in S
  {
    hide ByteBits, HasFamily, LastZero, LastZeroBelow;
    var m := Least(OfFamily(S, family));
    var last := TargetState(family).rom;
    assert m in S && InFamily(m, family);
    FamilyByteNonzero(m, family);
    ForkAtLastBit(S, m);
    if Fork(S, m, 63) {
      LeastFollowsTarget(S, family, m, 63);
      assert !Prescribed(S, last, 64, m);
    } else {
      forall i | 0 <= i < 64 && Fork(S, m, i)
        ensures m[i] == Choice(last, 64, i)
      {
        LeastFollowsTarget(S, family, m, i);
      }
      ReachedUnique(S, last, 64, m, st'.rom);
    }
  }

  /** The last byte of a ROM is the CRC-8 of its first seven. */
  predicate CrcValid(r: Rom) {
    r[56..] == Feed(Crc8.TAPS, Zeros(8), r[..56])
  }

  lemma CrcExcludesSibling(S: set<Rom>, m: Rom)
    requires m in S
    requires forall r | r in S :: CrcValid(r)
    ensures Sibling(m) !in S
  {
    hide Feed;
    Crc8.TapsShape();
    var s := Sibling(m);
    assert s[..56] == m[..56];
    assert s[56..][7] != m[56..][7];
  }

  /** With valid CRCs, the search after `target_search` returns the least ROM of the family and stands after it. */
  lemma TargetSearchFinds(S: set<Rom>, family: bv8, st': SearchState, result: Option<Rom>) returns (j: nat)
    requires family != 0 && OfFamily(S, family) != {}
    requires forall r | r in S :: CrcValid(r)
    requires SearchStep(S, true, TargetState(family), st', result)
    ensures result == Some(Least(OfFamily(S, family)))
    ensures 0 < j <= |S| && Standing(S, st', j)
    ensures Sorted(S)[j - 1] == Least(OfFamily(S, family))
  {
    var m := Least(OfFamily(S, family));
    assert m in S;
    CrcExcludesSibling(S, m);
    TargetFindsLeast(S, family, st', result);
    hide *;
    SuccessStands(S, TargetState(family), st', m);
    j :| 0 < j <= |S| && Sorted(S)[j - 1] == m && Standing(S, st', j);
  }

  /**
    The calls after that continue the ordered enumeration from the ROM found, up to the greatest, on every
    bus; then they come back empty, and start over if all devices have families, or stay empty if not.
    */
  lemma TargetSearchContinues(S: set<Rom>, family: bv8, states: seq<SearchState>, results: seq<Option<Rom>>)
    returns (j: nat)
    requires family != 0 && OfFamily(S, family) != {}
    requires forall r | r in S :: CrcValid(r)
    requires IsRun(S, states, results) && |results| > 0
    requires states[0] == TargetState(family)
    ensures j < |S| && Sorted(S)[j] == Least(OfFamily(S, family))
    ensures forall k {:trigger results[k]} | 0 <= k < |results| ::
              results[k] == if k < |S| - j then Some(Sorted(S)[j + k])
                            else if AllHaveFamilies(S) then Expected(S, Place(S, j, k)) else None
  {
    hide CrcValid, AllHaveFamilies, Standing, Call, Place, Expected, HasFamily, InFamily, Sorted;
    assert Call(S, true, states[0], states[1], results[0]);
    var j' := TargetCallFinds(S, family, states[1], results[0]);
    j := j' - 1;
    FoundHasFamily(S, family);
    forall k | 0 <= k < |results|
      ensures results[k] == if k < |S| - j then Some(Sorted(S)[j + k])
                            else if AllHaveFamilies(S) then Expected(S, Place(S, j, k)) else None
    {
      if k > 0 {
        LaterCalls(S, states, results, j, k);
      }
    }
  }

  lemma FoundHasFamily(S: set<Rom>, family: bv8)
    requires family != 0 && OfFamily(S, family) != {}
    ensures HasFamily(Least(OfFamily(S, family)))
  {
    FamilyByteNonzero(Least(OfFamily(S, family)), family);
  }

  lemma LaterCalls(S: set<Rom>, states: seq<SearchState>, results: seq<Option<Rom>>, j: nat, k: nat)
    requires IsRun(S, states, results) && 0 < k < |results|
    requires j < |S| && Standing(S, states[1], j + 1) && HasFamily(Sorted(S)[j])
    ensures results[k] == if k < |S| - j then Some(Sorted(S)[j + k])
                          else if AllHaveFamilies(S) then Expected(S, Place(S, j, k)) else None
  {
    hide AllHaveFamilies, Standing, Call, Place, HasFamily, Sorted;
    var first := |S| - j - 1;
    RunTail(S, states, results, 1);
    assert results[1..][k - 1] == results[k];
    if k - 1 <= first {
      RunAscends(S, states[1..], results[1..], j + 1, k - 1);
      PlaceInRound(S, j, k);
    } else if AllHaveFamilies(S) {
      RunCycles(S, states[1..], results[1..], j + 1, k - 1);
      PlaceShift(S, j, k - 1);
    } else {
      RunAscends(S, states[1..], results[1..], j + 1, first);
      RunTail(S, states, results, first + 2);
      assert states[1..][first + 1] == states[first + 2];
      ZeroFamilyHidesAll(S, states[first + 2..], results[first + 2..], k - first - 2);
      assert results[first + 2..][k - first - 2] == results[k];
    }
  }

  lemma PlaceInRound(S: set<Rom>, j: nat, k: nat)
    requires j + k <= |S|
    ensures Place(S, j, k) == j + k
  {
  }

  lemma TargetCallFinds(S: set<Rom>, family: bv8, st': SearchState, result: Option<Rom>) returns (j: nat)
    requires family != 0 && OfFamily(S, family) != {}
    requires forall r | r in S :: CrcValid(r)
    requires Call(S, true, TargetState(family), st', result)
    ensures result == Some(Least(OfFamily(S, family)))
    ensures 0 < j <= |S| && Standing(S, st', j)
    ensures Sorted(S)[j - 1] == Least(OfFamily(S, family))
  {
    hide CrcValid, SearchStep, Standing, OfFamily, Least, Sorted;
    if SearchStep(S, true, TargetState(family), st', result) {
      j := TargetSearchFinds(S, family, st', result);
    } else {
      var mid :| SearchStep(S, true, TargetState(family), mid, None);
      j := TargetSearchFinds(S, family, mid, None);
    }
  }

  lemma PlaceShift(S: set<Rom>, j: nat, k: nat)
    ensures Place(S, j + 1, k) == Place(S, j, k + 1)
  {
  }

  lemma RunTail(S: set<Rom>, states: seq<SearchState>, results: seq<Option<Rom>>, n: nat)
    requires IsRun(S, states, results) && n <= |results|
    ensures IsRun(S, states[n..], results[n..])
  {
    hide Call;
    forall k | 0 <= k < |results[n..]|
      ensures Call(S, true, states[n..][k], states[n..][k + 1], results[n..][k])
    {
      assert results[n..][k] == results[k + n];
    }
  }
}
