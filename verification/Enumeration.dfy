/**
  Runs of search calls on one search state: what each call may do, and why the calls enumerate the
  devices on the bus.
  */
module Enumeration {
  import opened Gf2
  import opened Options
  import opened RomSearch
  import opened Modular

  /** What the master keeps between two searches. */
  datatype SearchState = SearchState(rom: Rom, lastDiscrepancy: nat, lastFamilyDiscrepancy: nat, lastDevice: bool)

  /** The family byte, which comes first, is not zero. */
  predicate HasFamily(r: Rom) {
    exists j :: 0 <= j < 8 && r[j]
  }

  function Cleared(rom: Rom): SearchState {
    SearchState(rom, 0, 0, false)
  }

  /** One search call on a bus whose devices in `S` answer the search command. */
  ghost predicate SearchStep(S: set<Rom>, presence: bool, st: SearchState, st': SearchState, result: Option<Rom>) {
    if st.lastDevice || !presence || S == {} then
      st' == Cleared(st.rom) && result == None
    else
      && Reached(S, st.rom, st.lastDiscrepancy, st'.rom)
      && if HasFamily(st'.rom) then
           && result == Some(st'.rom)
           && st'.lastDiscrepancy == LastZero(S, st'.rom)
           && st'.lastDevice == (LastZero(S, st'.rom) == 0)
           && st'.lastFamilyDiscrepancy == FamilyDiscrepancy(S, st'.rom, st.lastFamilyDiscrepancy)
         else
           st' == Cleared(st'.rom) && result == None
  }

  /** The last zero taken within the family byte, or the previous value if there is none. */
  ghost function FamilyDiscrepancy(S: set<Rom>, r: Rom, before: nat): nat {
    if LastZeroBelow(S, r, 8) > 0 then LastZeroBelow(S, r, 8) else before
  }

  // ----- the ROMs in order

  lemma {:induction false} LeastExists(S: set<Rom>)
    requires S != {}
    ensures exists m :: IsLeast(S, m)
  {
    var x :| x in S;
    var rest := S - {x};
    if rest == {} {
      assert S == {x};
      assert IsLeast(S, x);
    } else {
      LeastExists(rest);
      var m :| IsLeast(rest, m);
      LessTotal(x, m);
      if Less(x, m) {
        forall s | s in S && s != x
          ensures Less(x, s)
        {
          if s != m {
            LessTransitive(x, m, s);
          }
        }
        assert IsLeast(S, x);
      } else {
        assert IsLeast(S, m);
      }
    }
  }

  ghost function Least(S: set<Rom>): (m: Rom)
    requires S != {}
    ensures IsLeast(S, m)
  {
    LeastExists(S);
    var m :| IsLeast(S, m);
    m
  }

  lemma LeastUnique(S: set<Rom>, m: Rom, k: Rom)
    requires IsLeast(S, m) && IsLeast(S, k)
    ensures m == k
  {
    LessTotal(m, k);
  }

  /** The elements of `S` in increasing order. */
  ghost function Sorted(S: set<Rom>): (q: seq<Rom>)
    ensures |q| == |S|
    ensures forall r :: r in q <==> r in S
  {
    if S == {} then []
    else [Least(S)] + Sorted(S - {Least(S)})
  }

  lemma SortedTail(S: set<Rom>, k: nat)
    requires 0 < k < |S|
    ensures |S - {Least(S)}| == |S| - 1
    ensures Sorted(S)[k] == Sorted(S - {Least(S)})[k - 1]
    ensures Less(Least(S), Sorted(S)[k])
  {
    hide Less;
    var rest := S - {Least(S)};
    assert Sorted(rest)[k - 1] in Sorted(rest);
  }

  lemma {:induction false} SortedIncreases(S: set<Rom>, i: nat, k: nat)
    requires i < k < |S|
    ensures Less(Sorted(S)[i], Sorted(S)[k])
    decreases k
  {
    SortedTail(S, k);
    if i == 0 {
      assert Sorted(S)[0] == Least(S);
    } else {
      hide *;
      SortedTail(S, i);
      SortedIncreases(S - {Least(S)}, i - 1, k - 1);
    }
  }

  lemma SortedInjective(S: set<Rom>, i: nat, k: nat)
    requires i < |S| && k < |S|
    ensures Sorted(S)[i] == Sorted(S)[k] ==> i == k
  {
    if i < k {
      SortedIncreases(S, i, k);
    } else if k < i {
      SortedIncreases(S, k, i);
    }
  }

  lemma LeastIsFirst(S: set<Rom>, m: Rom)
    requires IsLeast(S, m)
    ensures |S| > 0 && Sorted(S)[0] == m
  {
    LeastUnique(S, m, Least(S));
  }

  lemma PlaceOf(S: set<Rom>, r: Rom) returns (i: nat)
    requires r in S
    ensures i < |S| && Sorted(S)[i] == r
  {
    assert r in Sorted(S);
    i :| 0 <= i < |S| && Sorted(S)[i] == r;
  }

  lemma GreatestIsLast(S: set<Rom>, i: nat)
    requires i < |S|
    ensures IsGreatest(S, Sorted(S)[i]) <==> i == |S| - 1
  {
    hide Sorted, Less;
    var r := Sorted(S)[i];
    assert r in Sorted(S);
    if i == |S| - 1 {
      forall s | s in S && s != r
        ensures Less(s, r)
      {
        var k := PlaceOf(S, s);
        SortedIncreases(S, k, i);
      }
    } else {
      var next := Sorted(S)[i + 1];
      SortedIncreases(S, i, i + 1);
      assert next in Sorted(S);
      LessTotal(r, next);
    }
  }

  /** The successor of an element is the next one in order. */
  lemma SuccessorIsNext(S: set<Rom>, i: nat, t: Rom)
    requires i < |S|
    requires IsSuccessor(S, Sorted(S)[i], t)
    ensures i + 1 < |S| && t == Sorted(S)[i + 1]
  {
    hide Sorted, Less;
    var k := PlaceOf(S, t);
    LessTotal(Sorted(S)[i], t);
    if k < i {
      SortedIncreases(S, k, i);
    }
    assert i < k;
    var next := Sorted(S)[i + 1];
    assert next in Sorted(S);
    SortedIncreases(S, i, i + 1);
    if i + 1 < k {
      SortedIncreases(S, i + 1, k);
      LessTotal(next, t);
    }
  }

  // ----- one call

  /** The state of a master that has not searched, or has just reset its search. */
  predicate Fresh(st: SearchState) {
    !st.lastDevice && st.lastDiscrepancy == 0
  }

  /** After how many calls of a cycle the search state stands: `j` ROMs of `S` have been returned. */
  ghost predicate Standing(S: set<Rom>, st: SearchState, j: nat) {
    && j <= |S|
    && if j == 0 then !st.lastDevice && st.lastDiscrepancy == 0
       else
         && st.rom == Sorted(S)[j - 1]
         && st.lastDiscrepancy == LastZero(S, st.rom)
         && st.lastDevice == (st.lastDiscrepancy == 0)
  }

  /** What the call after `j` returned ROMs gives: the next ROM, or nothing at the end of the cycle. */
  ghost function Expected(S: set<Rom>, j: nat): Option<Rom>
    requires j <= |S|
  {
    if j < |S| then Some(Sorted(S)[j]) else None
  }

  ghost predicate AllHaveFamilies(S: set<Rom>) {
    forall r | r in S :: HasFamily(r)
  }

  lemma SuccessIsDevice(S: set<Rom>, st: SearchState, st': SearchState, r: Rom)
    requires SearchStep(S, true, st, st', Some(r))
    ensures r in S && st'.rom == r
  {
  }

  /** A successful call, from whatever state it started, leaves the state standing after its ROM. */
  lemma SuccessStands(S: set<Rom>, st: SearchState, st': SearchState, r: Rom)
    requires SearchStep(S, true, st, st', Some(r))
    ensures r in S && st'.rom == r
    ensures st'.lastDevice <==> IsGreatest(S, r)
    ensures exists j :: 0 < j <= |S| && Sorted(S)[j - 1] == r && Standing(S, st', j)
  {
    hide Sorted, Less, Reached, LastZero;
    SuccessIsDevice(S, st, st', r);
    GreatestHasNoZero(S, r);
    var i := PlaceOf(S, r);
    assert Standing(S, st', i + 1);
  }

  /** The family byte comes first, so what follows a ROM with a family has one too. */
  lemma FamiliesAscend(r: Rom, t: Rom)
    requires HasFamily(r) && Less(r, t)
    ensures HasFamily(t)
  {
    var d := FirstDiff(r, t);
    if d < 8 {
      assert t[d];
    } else {
      var k :| 0 <= k < 8 && r[k];
      assert t[k];
    }
  }

  /** After a successful call the next one returns the immediate successor, or nothing after the greatest. */
  lemma NextIsSuccessor(S: set<Rom>, st: SearchState, st': SearchState, st'': SearchState, r: Rom, next: Option<Rom>)
    requires SearchStep(S, true, st, st', Some(r))
    requires SearchStep(S, true, st', st'', next)
    ensures if IsGreatest(S, r) then next == None else next.Some? && IsSuccessor(S, r, next.value)
  {
    GreatestHasNoZero(S, r);
    if !IsGreatest(S, r) {
      WalkIsSuccessor(S, r, st''.rom);
      FamiliesAscend(r, st''.rom);
    }
  }

  /** The first call of a cycle. */
  lemma FirstStep(S: set<Rom>, st: SearchState, st': SearchState, result: Option<Rom>)
    requires S != {} && AllHaveFamilies(S)
    requires Standing(S, st, 0)
    requires SearchStep(S, true, st, st', result)
    ensures result == Expected(S, 0) && Standing(S, st', 1)
  {
    FreshWalkIsLeast(S, st.rom, st'.rom);
    hide Sorted, Less, LastZero, Prescribed;
    LeastIsFirst(S, st'.rom);
  }

  /** The call after a ROM with a family that is not the greatest. */
  lemma MiddleStep(S: set<Rom>, st: SearchState, st': SearchState, result: Option<Rom>, j: nat)
    requires 0 < j < |S| && Standing(S, st, j) && HasFamily(st.rom)
    requires SearchStep(S, true, st, st', result)
    ensures result == Expected(S, j) && Standing(S, st', j + 1) && HasFamily(Sorted(S)[j])
  {
    hide Sorted, Less, Prescribed, IsGreatest, LastZero, FamilyDiscrepancy, HasFamily;
    assert Sorted(S)[j - 1] in Sorted(S);
    GreatestHasNoZero(S, st.rom);
    GreatestIsLast(S, j - 1);
    WalkIsSuccessor(S, st.rom, st'.rom);
    FamiliesAscend(st.rom, st'.rom);
    SuccessorIsNext(S, j - 1, st'.rom);
  }

  /** The call after the greatest ROM comes back empty and starts over. */
  lemma LastStep(S: set<Rom>, st: SearchState, st': SearchState, result: Option<Rom>)
    requires S != {} && Standing(S, st, |S|)
    requires SearchStep(S, true, st, st', result)
    ensures result == None && Fresh(st')
  {
    hide Sorted, Less, Reached, IsGreatest, LastZero;
    assert Sorted(S)[|S| - 1] in Sorted(S);
    GreatestHasNoZero(S, st.rom);
    GreatestIsLast(S, |S| - 1);
  }

  /** One call moves the state one place on in the cycle. */
  lemma StepAdvances(S: set<Rom>, st: SearchState, st': SearchState, result: Option<Rom>, j: nat)
    requires S != {} && AllHaveFamilies(S)
    requires Standing(S, st, j)
    requires SearchStep(S, true, st, st', result)
    ensures result == Expected(S, j)
    ensures Standing(S, st', if j < |S| then j + 1 else 0)
  {
    if j == 0 {
      FirstStep(S, st, st', result);
    } else if j < |S| {
      assert Sorted(S)[j - 1] in Sorted(S);
      MiddleStep(S, st, st', result, j);
    } else {
      LastStep(S, st, st', result);
    }
  }

  // ----- runs of calls

  /** A search call whose caller may reset the search when it comes back empty. */
  ghost predicate Call(S: set<Rom>, presence: bool, st: SearchState, st': SearchState, result: Option<Rom>) {
    || SearchStep(S, presence, st, st', result)
    || (result == None && st' == Cleared(Zeros(64)) && exists mid :: SearchStep(S, presence, st, mid, None))
  }

  /** A run of calls on a stable bus: the states before, between and after them, and their results. */
  ghost predicate IsRun(S: set<Rom>, states: seq<SearchState>, results: seq<Option<Rom>>) {
    && |states| == |results| + 1
    && forall k {:trigger results[k]} | 0 <= k < |results| :: Call(S, true, states[k], states[k + 1], results[k])
  }

  /** A call advances the cycle like a bare search. */
  lemma CallAdvances(S: set<Rom>, st: SearchState, st': SearchState, result: Option<Rom>, j: nat)
    requires S != {} && AllHaveFamilies(S)
    requires Standing(S, st, j)
    requires Call(S, true, st, st', result)
    ensures result == Expected(S, j)
    ensures Standing(S, st', if j < |S| then j + 1 else 0)
  {
    hide SearchStep, Sorted, LastZero;
    if SearchStep(S, true, st, st', result) {
      StepAdvances(S, st, st', result, j);
    } else {
      var mid :| SearchStep(S, true, st, mid, None);
      StepAdvances(S, st, mid, None, j);
    }
  }

  /** The cycle position `k` calls after position `j`. */
  function Place(S: set<Rom>, j: nat, k: nat): (p: nat)
    ensures p <= |S|
  {
    Turn(j, |S| + 1, k)
  }

  /** From any standing state, the results run through the sorted ROMs, one empty result, and over again. */
  lemma {:induction false} RunCycles(S: set<Rom>, states: seq<SearchState>, results: seq<Option<Rom>>, j: nat, k: nat)
    requires S != {} && AllHaveFamilies(S)
    requires IsRun(S, states, results)
    requires Standing(S, states[0], j)
    requires k <= |results|
    ensures Standing(S, states[k], Place(S, j, k))
    ensures k < |results| ==> results[k] == Expected(S, Place(S, j, k))
  {
    hide Standing, Call, Expected, Turn, AllHaveFamilies;
    assert Standing(S, states[k], Place(S, j, k)) by {
      if k > 0 {
        RunCycles(S, states, results, j, k - 1);
        assert Call(S, true, states[k - 1], states[k], results[k - 1]);
        CallAdvances(S, states[k - 1], states[k], results[k - 1], Place(S, j, k - 1));
        TurnNext(j, |S| + 1, k - 1);
      } else {
        StandingBound(S, states[0], j);
        TurnStart(j, |S| + 1);
      }
    }
    if k < |results| {
      CallAdvances(S, states[k], states[k + 1], results[k], Place(S, j, k));
    }
  }

  lemma FreshStands(S: set<Rom>, st: SearchState)
    requires Fresh(st)
    ensures Standing(S, st, 0)
  {
  }

  lemma StandingBound(S: set<Rom>, st: SearchState, j: nat)
    requires Standing(S, st, j)
    ensures j <= |S|
  {
  }

  /** The least ROM has a zero family byte as soon as any ROM has one. */
  lemma ZeroFamilyIsLeast(S: set<Rom>, m: Rom)
    requires IsLeast(S, m)
    ensures HasFamily(m) <==> AllHaveFamilies(S)
  {
    if r :| r in S && !HasFamily(r) && r != m {
      var d := FirstDiff(m, r);
      assert r[d];
      assert forall j | 0 <= j < 8 :: m[j] == r[j];
    }
  }

  /** One device without a family byte hides every device: no call after a reset ever succeeds. */
  lemma {:induction false} ZeroFamilyHidesAll(S: set<Rom>, states: seq<SearchState>, results: seq<Option<Rom>>, k: nat)
    requires S != {} && !AllHaveFamilies(S)
    requires IsRun(S, states, results)
    requires Fresh(states[0])
    requires k <= |results|
    ensures Fresh(states[k])
    ensures k < |results| ==> results[k] == None
  {
    hide AllHaveFamilies, Call;
    if k > 0 {
      ZeroFamilyHidesAll(S, states, results, k - 1);
      assert Call(S, true, states[k - 1], states[k], results[k - 1]);
      FreshCallFindsLeast(S, states[k - 1], states[k], results[k - 1]);
    }
    if k < |results| {
      FreshCallFindsLeast(S, states[k], states[k + 1], results[k]);
    }
  }

  /** A fresh search walks to the least ROM, and succeeds exactly when no family byte is zero. */
  lemma FreshFindsLeast(S: set<Rom>, st: SearchState, st': SearchState, result: Option<Rom>)
    requires S != {} && Fresh(st)
    requires SearchStep(S, true, st, st', result)
    ensures result == if AllHaveFamilies(S) then Some(Least(S)) else None
    ensures result == None ==> Fresh(st')
  {
    hide AllHaveFamilies, IsLeast, Prescribed, HasFamily;
    FreshWalkIsLeast(S, st.rom, st'.rom);
    LeastUnique(S, st'.rom, Least(S));
    ZeroFamilyIsLeast(S, st'.rom);
  }

  /**
    When a call comes back empty: after the last device, without a presence, when nobody answers, or when the
    ROM it has walked to has a zero family byte.  Otherwise it returns a ROM of a device that answered.
    */
  lemma EmptyIff(S: set<Rom>, presence: bool, st: SearchState, st': SearchState, result: Option<Rom>)
    requires SearchStep(S, presence, st, st', result)
    ensures result == None <==> st.lastDevice || !presence || S == {} || st'.rom[..8] == Zeros(8)
    ensures result.Some? ==> result.value in S && result.value == st'.rom
  {
    hide LastZero, FamilyDiscrepancy, Prescribed;
    if HasFamily(st'.rom) {
      var j :| 0 <= j < 8 && st'.rom[j];
      assert st'.rom[..8][j];
    } else {
      assert forall j | 0 <= j < 8 :: st'.rom[..8][j] == st'.rom[j];
    }
  }

  /**
    After a call that came back empty, for whatever reason, the next one starts over: it finds the least ROM of
    whoever is on the bus by then, unless a zero family byte hides it.
    */
  lemma EmptyStartsOver(S: set<Rom>, presence: bool, st: SearchState, mid: SearchState,
                        T: set<Rom>, st': SearchState, result: Option<Rom>)
    requires SearchStep(S, presence, st, mid, None)
    requires T != {} && SearchStep(T, true, mid, st', result)
    ensures result == if AllHaveFamilies(T) then Some(Least(T)) else None
  {
    hide Reached, HasFamily, LastZero, FamilyDiscrepancy, AllHaveFamilies;
    FreshFindsLeast(T, mid, st', result);
  }

  /**
    From a ROM with a family the calls return the ROMs above it in order, and after the greatest come back
    empty, whatever other devices are on the bus.
    */
  lemma {:induction false} RunAscends(S: set<Rom>, states: seq<SearchState>, results: seq<Option<Rom>>, j: nat, k: nat)
    requires IsRun(S, states, results)
    requires 0 < j <= |S| && Standing(S, states[0], j) && HasFamily(Sorted(S)[j - 1])
    requires k <= |results| && k <= |S| - j
    ensures Standing(S, states[k], j + k) && HasFamily(Sorted(S)[j + k - 1])
    ensures k < |results| ==>
              results[k] == Expected(S, j + k) && (k == |S| - j ==> Fresh(states[k + 1]))
  {
    hide Standing, Call, Expected, HasFamily, Sorted;
    assert Standing(S, states[k], j + k) && HasFamily(Sorted(S)[j + k - 1]) by {
      if k > 0 {
        RunAscends(S, states, results, j, k - 1);
        assert Call(S, true, states[k - 1], states[k], results[k - 1]);
        CallAscends(S, states[k - 1], states[k], results[k - 1], j + k - 1);
      }
    }
    if k < |results| {
      CallAscends(S, states[k], states[k + 1], results[k], j + k);
    }
  }

  lemma CallAscends(S: set<Rom>, st: SearchState, st': SearchState, result: Option<Rom>, j: nat)
    requires 0 < j <= |S| && Standing(S, st, j) && HasFamily(Sorted(S)[j - 1])
    requires Call(S, true, st, st', result)
    ensures result == Expected(S, j)
    ensures if j < |S| then Standing(S, st', j + 1) && HasFamily(Sorted(S)[j]) else Fresh(st')
  {
    hide SearchStep, Sorted, LastZero, HasFamily;
    if j < |S| {
      if SearchStep(S, true, st, st', result) {
        MiddleStep(S, st, st', result, j);
      } else {
        var mid :| SearchStep(S, true, st, mid, None);
        MiddleStep(S, st, mid, None, j);
      }
    } else if SearchStep(S, true, st, st', result) {
      LastStep(S, st, st', result);
    } else {
      var mid :| SearchStep(S, true, st, mid, None);
      LastStep(S, st, mid, None);
    }
  }

  lemma FreshCallFindsLeast(S: set<Rom>, st: SearchState, st': SearchState, result: Option<Rom>)
    requires S != {} && Fresh(st)
    requires Call(S, true, st, st', result)
    ensures result == if AllHaveFamilies(S) then Some(Least(S)) else None
    ensures result == None ==> Fresh(st')
  {
    hide AllHaveFamilies, SearchStep, Least;
    if SearchStep(S, true, st, st', result) {
      FreshFindsLeast(S, st, st', result);
    } else {
      var mid :| SearchStep(S, true, st, mid, None);
      FreshFindsLeast(S, st, mid, None);
    }
  }

  /**
    Complete enumeration: the calls after a reset return every ROM once, in order, and then nothing,
    exactly when no device has a zero family byte.
    */
  lemma CompleteEnumeration(S: set<Rom>, states: seq<SearchState>, results: seq<Option<Rom>>)
    requires S != {}
    requires IsRun(S, states, results)
    requires Fresh(states[0])
    requires |results| == |S| + 1
    ensures (results[|S|] == None && forall k | 0 <= k < |S| :: results[k] == Some(Sorted(S)[k]))
       <==> AllHaveFamilies(S)
  {
    hide AllHaveFamilies, Call, Sorted, Turn;
    if AllHaveFamilies(S) {
      forall k | 0 <= k <= |S|
        ensures results[k] == Expected(S, k)
      {
        RunCycles(S, states, results, 0, k);
        TurnIs(0, |S| + 1, k, 0, k);
      }
    } else {
      ZeroFamilyHidesAll(S, states, results, 0);
    }
  }

  /** Any `|S| + 1` consecutive calls return each ROM exactly once, and come back empty exactly once. */
  lemma EveryRoundOnce(S: set<Rom>, states: seq<SearchState>, results: seq<Option<Rom>>, j: nat, from: nat,
                       want: Option<Rom>)
    returns (at: nat)
    requires S != {} && AllHaveFamilies(S)
    requires IsRun(S, states, results)
    requires Standing(S, states[0], j)
    requires from + |S| + 1 <= |results|
    requires want.Some? ==> want.value in S
    ensures from <= at < from + |S| + 1 && results[at] == want
    ensures forall k | from <= k < from + |S| + 1 && results[k] == want :: k == at
  {
    hide AllHaveFamilies, Call, Standing, Sorted, Turn;
    var t := |S|;
    if want.Some? {
      t := PlaceOf(S, want.value);
    }
    var i := MeetsOnce(j + from, |S| + 1, t);
    at := from + i;
    forall k | from <= k < from + |S| + 1
      ensures results[k] == want <==> k == at
    {
      RunCycles(S, states, results, j, k);
      TurnFrom(j, |S| + 1, from, k - from);
      ExpectedIs(S, Place(S, j, k), t, want);
    }
  }

  lemma ExpectedIs(S: set<Rom>, p: nat, t: nat, want: Option<Rom>)
    requires p <= |S| && t <= |S| && want == Expected(S, t)
    ensures Expected(S, p) == want <==> p == t
  {
    hide Sorted;
    if p < |S| && t < |S| {
      SortedInjective(S, p, t);
    }
  }

  /** The results of a run on a stable bus repeat with period `|S| + 1`. */
  lemma Periodic(S: set<Rom>, states: seq<SearchState>, results: seq<Option<Rom>>, j: nat, k: nat)
    requires S != {} && AllHaveFamilies(S)
    requires IsRun(S, states, results)
    requires Standing(S, states[0], j)
    requires k + |S| + 1 < |results|
    ensures results[k + |S| + 1] == results[k]
  {
    hide AllHaveFamilies, Call, Standing, Sorted, Turn;
    RunCycles(S, states, results, j, k);
    RunCycles(S, states, results, j, k + |S| + 1);
    TurnRound(j, |S| + 1, k);
  }
}
