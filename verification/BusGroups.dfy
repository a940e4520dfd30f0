/**
  Groups in a running bus: how their member lists change, when they repeat a member, and what that means
  for the snapshots that messages take.
  */
module BusGroups {
  import opened Options
  import opened BusRegistry
  import opened BusProtocol
  import opened BusRuns

  predicate NoDup<T(==)>(s: seq<T>) {
    forall i, j | 0 <= i < j < |s| :: s[i] != s[j]
  }

  predicate IsSuffix(a: seq<int>, b: seq<int>) {
    |a| <= |b| && b[|b| - |a|..] == a
  }

  /** `e` is `d`, or `d` with a new member in front. */
  predicate Grows(d: seq<int>, e: seq<int>) {
    e == d || (|e| == |d| + 1 && e[1..] == d && e[0] !in d)
  }

  /** The second section of a leave by a member of group `g` that is not the first that joined it. */
  predicate MiddleLeave(s: Sys, a: Action, g: int) {
    && a.LeaveRemove? && a.client in s.tasks && s.tasks[a.client].leaving == Some(g) && g > 0
    && var d := Destination(s.reg, g);
    s.tasks[a.client].addr in d && s.tasks[a.client].addr != d[|d| - 1]
  }

  /** No member but the first that joined completes a leave of group `g`. */
  ghost predicate NoMiddleLeave(run: seq<Action>, g: int) {
    run != [] ==>
      NoMiddleLeave(run[..|run| - 1], g) && !MiddleLeave(Final(run[..|run| - 1]), run[|run| - 1], g)
  }

  /** Runs in which nobody completes a leave are runs without a middle leave of any group. */
  lemma {:induction false} NoLeaveNoMiddle(run: seq<Action>, g: int)
    requires forall i | 0 <= i < |run| :: !run[i].LeaveRemove?
    ensures NoMiddleLeave(run, g)
  {
    if run != [] {
      NoLeaveNoMiddle(run[..|run| - 1], g);
    }
  }

  // ----- one step

  /** A step that is not the second section of a leave adds at most one new member, in front. */
  lemma OthersGrow(s: Sys, a: Action, g: int)
    requires RegistryInv(s) && !a.LeaveRemove?
    ensures Grows(Destination(s.reg, g), Destination(Apply(s, a).reg, g))
  {
    hide RegistryInv, Connect, NameGroup, JoinGroup, LeaveGroup, HasGroup, Destination, Pass, DoJoinAdd, DoJoinFind,
      DoConnect;
    match a
    case Initialize(c) =>
      if c in s.tasks && c !in s.queues {
        InitializeGroups(s, c, g);
      }
    case Reconnect(c) =>
      if c in s.tasks && c in s.queues { ReconnectChangesNothing(s, c); }
    case JoinFind(c, name) => if c in s.tasks { JoinFindKeeps(s, c, name); }
    case JoinAdd(c) => if c in s.tasks && s.tasks[c].joining.Some? { JoinAddKeeps(s, c); }
    case Forward(c) => ForwardRegistry(s, c);
    case _ =>
  }

  lemma InitializeGroups(s: Sys, c: nat, g: int)
    requires RegistryInv(s) && c in s.tasks && c !in s.queues
    ensures Destination(DoInitialize(s, c).reg, g) == Destination(s.reg, g)
  {
    hide Destination, Connect;
    ConnectKeeps(s.reg, c);
    SameGroups(s.reg, DoInitialize(s, c).reg, g);
  }

  lemma ForwardRegistry(s: Sys, c: nat)
    ensures Apply(s, Forward(c)).reg == s.reg
  {
  }

  /** A leave changes at most the group that is left, by removal without erasing. */
  lemma LeaveChanges(s: Sys, c: nat, g: int)
    requires RegistryInv(s) && c in s.tasks && s.tasks[c].leaving.Some?
    ensures var d, e := Destination(s.reg, g), Destination(DoLeaveRemove(s, c).reg, g);
            e == d || (g > 0 && s.tasks[c].leaving == Some(g) && e == RemoveIf(d, OtherAddress(s.tasks[c].addr)))
  {
    hide ClientsValid, Connected, JoinsFind, MembersConnected, LeaveGroup, Destination, RemoveIf;
    LeaveGroupKeeps(s.reg, s.tasks[c].leaving.value, s.tasks[c].addr, g);
  }

  /** Every member list has the shape that removal without erasing leaves. */
  ghost predicate Shaped(s: Sys) {
    forall g :: OnlyOldestRepeats(Destination(s.reg, g))
  }

  lemma StepKeepsShape(s: Sys, a: Action, g: int)
    requires RegistryInv(s) && OnlyOldestRepeats(Destination(s.reg, g))
    ensures OnlyOldestRepeats(Destination(Apply(s, a).reg, g))
  {
    hide RegistryInv, Destination, OnlyOldestRepeats, RemoveIf, Apply, DoLeaveRemove;
    var d, e := Destination(s.reg, g), Destination(Apply(s, a).reg, g);
    if a.LeaveRemove? {
      LeaveApplies(s, a.client);
      if a.client in s.tasks && s.tasks[a.client].leaving.Some? {
        LeaveChanges(s, a.client, g);
        RemoveKeepsShape(d, OtherAddress(s.tasks[a.client].addr), s.tasks[a.client].addr);
      }
    } else {
      OthersGrow(s, a, g);
      if e != d {
        ConsKeepsShape(e[0], d);
        assert e == [e[0]] + d;
      }
    }
  }

  lemma LeaveApplies(s: Sys, c: nat)
    ensures Apply(s, LeaveRemove(c))
            == if c in s.tasks && s.tasks[c].leaving.Some? then DoLeaveRemove(s, c) else s
  {
  }

  lemma {:induction false} ShapedInEveryRun(run: seq<Action>)
    ensures Shaped(Final(run))
  {
    if run != [] {
      var front, a := run[..|run| - 1], run[|run| - 1];
      ShapedInEveryRun(front);
      EveryRun(front);
      hide Apply, Destination, RegistryInv, OnlyOldestRepeats, LogOk, Linear;
      forall g
        ensures OnlyOldestRepeats(Destination(Final(run).reg, g))
      {
        StepKeepsShape(Final(front), a, g);
      }
    }
  }

  /** Unless a member other than the first leaves it, a group only grows. */
  lemma GroupsGrow(s: Sys, a: Action, g: int)
    requires RegistryInv(s) && OnlyOldestRepeats(Destination(s.reg, g)) && !MiddleLeave(s, a, g)
    ensures Grows(Destination(s.reg, g), Destination(Apply(s, a).reg, g))
  {
    hide RegistryInv, Destination, OnlyOldestRepeats, RemoveIf, Apply, DoLeaveRemove;
    if a.LeaveRemove? {
      LeaveApplies(s, a.client);
      if a.client in s.tasks && s.tasks[a.client].leaving.Some? {
        var addr := s.tasks[a.client].addr;
        LeaveChanges(s, a.client, g);
        if s.tasks[a.client].leaving == Some(g) && g > 0 {
          RemoveLast(Destination(s.reg, g), OtherAddress(addr), addr);
        }
      }
    } else {
      OthersGrow(s, a, g);
    }
  }

  /** A middle leave takes out the member's entry and lists the first that joined once more. */
  lemma MiddleLeaveDoubles(s: Sys, a: Action, g: int)
    requires RegistryInv(s) && OnlyOldestRepeats(Destination(s.reg, g)) && MiddleLeave(s, a, g)
    ensures var d, e := Destination(s.reg, g), Destination(Apply(s, a).reg, g);
            && |e| == |d| >= 2 && e[|e| - 1] == e[|e| - 2] == d[|d| - 1]
            && s.tasks[a.client].addr !in e
  {
    hide Destination, LeaveGroup, RemoveIf, OnlyOldestRepeats, ClientsValid, Connected, JoinsFind, HasGroup;
    var d, addr := Destination(s.reg, g), s.tasks[a.client].addr;
    MemberAddress(s, g, addr);
    GroupOfMember(s, g, addr);
    var i := FirstPlace(d, addr);
    LeaveGroupKeeps(s.reg, g, addr, g);
    RemoveMiddle(d, OtherAddress(addr), i);
    MiddleShape(d, i);
  }

  lemma MemberAddress(s: Sys, g: int, a: int)
    requires RegistryInv(s) && g > 0 && a in Destination(s.reg, g)
    ensures a < INVALID
  {
    hide Destination, GroupsValid, JoinsFind;
    assert IsMember(s, a);
    var c :| c in s.queues && c in s.tasks && s.tasks[c].addr == a;
    assert Client(s.tasks[c].addr, c) in s.reg.clients;
  }

  lemma GroupOfMember(s: Sys, g: int, a: int)
    requires g > 0 && a in Destination(s.reg, g)
    ensures HasGroup(s.reg, g)
  {
  }

  // ----- when a list repeats a member

  lemma GrowsKeeps(a: seq<int>, d: seq<int>, e: seq<int>)
    requires Grows(d, e)
    ensures NoDup(d) ==> NoDup(e)
    ensures IsSuffix(a, d) ==> IsSuffix(a, e)
  {
    if NoDup(d) && e != d {
      forall i, j | 0 <= i < j < |e|
        ensures e[i] != e[j]
      {
        assert e[j] == e[1..][j - 1];
        if i > 0 {
          assert e[i] == e[1..][i - 1];
        }
      }
    }
    if IsSuffix(a, d) && e != d {
      assert e[|e| - |a|..] == d[|d| - |a|..];
    }
  }

  lemma GrowsKeepsDup(d: seq<int>, e: seq<int>)
    requires Grows(d, e) && !NoDup(d)
    ensures !NoDup(e)
  {
    var i, j :| 0 <= i < j < |d| && d[i] == d[j];
    if e != d {
      assert e[i + 1] == e[1..][i] && e[j + 1] == e[1..][j];
    }
  }

  /** A member list repeats a member exactly when one other than the first that joined has left the group. */
  lemma {:induction false} DistinctMembers(run: seq<Action>, g: int)
    ensures NoDup(Destination(Final(run).reg, g)) <==> NoMiddleLeave(run, g)
  {
    if run == [] {
      NoGroups(g);
    } else {
      var front, a := run[..|run| - 1], run[|run| - 1];
      var s := Final(front);
      DistinctMembers(front, g);
      EveryRun(front);
      ShapedInEveryRun(front);
      assert OnlyOldestRepeats(Destination(s.reg, g));
      hide Apply, Destination, RegistryInv, OnlyOldestRepeats, LogOk, Linear, MiddleLeave, Grows;
      DupStep(s, a, g);
    }
  }

  lemma DupStep(s: Sys, a: Action, g: int)
    requires RegistryInv(s) && OnlyOldestRepeats(Destination(s.reg, g))
    ensures NoDup(Destination(Apply(s, a).reg, g)) <==> NoDup(Destination(s.reg, g)) && !MiddleLeave(s, a, g)
  {
    hide Apply, Destination, RegistryInv, OnlyOldestRepeats, MiddleLeave, Grows;
    var d, e := Destination(s.reg, g), Destination(Apply(s, a).reg, g);
    if MiddleLeave(s, a, g) {
      MiddleLeaveDoubles(s, a, g);
    } else {
      GroupsGrow(s, a, g);
      hide NoDup;
      GrowsKeeps([], d, e);
      if !NoDup(d) {
        GrowsKeepsDup(d, e);
      }
    }
  }

  lemma NoGroups(g: int)
    ensures NoDup(Destination(Initial().reg, g))
  {
  }

  // ----- snapshots

  /** No step changes the sender, the target or the snapshot of a message. */
  lemma SnapshotsStay(s: Sys, a: Action, id: nat)
    requires id < |s.msgs|
    ensures id < |Apply(s, a).msgs|
    ensures var m, n := s.msgs[id], Apply(s, a).msgs[id]; m.snapshot == n.snapshot && m.to == n.to && m.from == n.from
  {
    hide Connect, NameGroup, JoinGroup, LeaveGroup, Destination, Route;
  }

  lemma NewMessage(s: Sys, a: Action, id: nat)
    requires |s.msgs| <= id < |Apply(s, a).msgs|
    ensures a.Send? && a.client in s.tasks && a.to != INVALID && s.tasks[a.client].outgoing.None?
    ensures id == |s.msgs| && Apply(s, a) == DoSend(s, a.client, a.to)
  {
    hide Connect, NameGroup, JoinGroup, LeaveGroup, Destination, Route;
  }

  lemma SendSuffix(s: Sys, c: nat, to: int)
    requires c in s.tasks
    ensures var t := DoSend(s, c, to); IsSuffix(t.msgs[|s.msgs|].snapshot, Destination(t.reg, t.msgs[|s.msgs|].to))
  {
  }

  /** Members of `g` are distinct, and the snapshot of a message to `g` is still the older part of the group. */
  ghost predicate GroupInv(s: Sys, g: int) {
    && NoDup(Destination(s.reg, g)) && OnlyOldestRepeats(Destination(s.reg, g))
    && forall id | 0 <= id < |s.msgs| && s.msgs[id].to == g :: IsSuffix(s.msgs[id].snapshot, Destination(s.reg, g))
  }

  lemma StepKeepsGroup(s: Sys, a: Action, g: int)
    requires RegistryInv(s) && GroupInv(s, g) && !MiddleLeave(s, a, g)
    ensures GroupInv(Apply(s, a), g)
  {
    var t := Apply(s, a);
    hide Apply, Destination, RegistryInv, Grows, NoDup, IsSuffix, OnlyOldestRepeats, MiddleLeave;
    StepKeepsShape(s, a, g);
    GroupsGrow(s, a, g);
    GrowsKeeps([], Destination(s.reg, g), Destination(t.reg, g));
    forall id | 0 <= id < |t.msgs| && t.msgs[id].to == g
      ensures IsSuffix(t.msgs[id].snapshot, Destination(t.reg, g))
    {
      if id < |s.msgs| {
        SnapshotsStay(s, a, id);
        GrowsKeeps(s.msgs[id].snapshot, Destination(s.reg, g), Destination(t.reg, g));
      } else {
        NewMessage(s, a, id);
        SendSuffix(s, a.client, a.to);
      }
    }
  }

  /** Without a middle leave of `g`, its members are distinct and snapshots stay the older part of the group. */
  lemma {:induction false} GroupInEveryRun(run: seq<Action>, g: int)
    requires NoMiddleLeave(run, g)
    ensures GroupInv(Final(run), g)
  {
    if run == [] {
      NoGroups(g);
      ShapedInEveryRun(run);
    } else {
      var front, a := run[..|run| - 1], run[|run| - 1];
      GroupInEveryRun(front, g);
      EveryRun(front);
      hide GroupInv, Apply, RegistryInv, LogOk, Linear, MiddleLeave;
      StepKeepsGroup(Final(front), a, g);
    }
  }

  lemma SnapshotDistinct(s: Sys, id: nat)
    requires id < |s.msgs| && GroupInv(s, s.msgs[id].to)
    ensures NoDup(s.msgs[id].snapshot)
  {
    hide Destination, OnlyOldestRepeats;
    var a, d := s.msgs[id].snapshot, Destination(s.reg, s.msgs[id].to);
    assert NoDup(d) && IsSuffix(a, d);
    forall i, j | 0 <= i < j < |a|
      ensures a[i] != a[j]
    {
      assert a[i] == d[|d| - |a| + i] && a[j] == d[|d| - |a| + j];
    }
  }

  /** After a middle leave of `g`, and for ever, every message sent to `g` takes a snapshot that repeats a member. */
  lemma SentAfterMiddleLeave(run: seq<Action>, c: nat, g: int)
    requires g > 0 && c in Final(run).tasks && Final(run).tasks[c].outgoing.None?
    ensures var s, t := Final(run), Final(run + [Send(c, g)]);
            && |t.msgs| == |s.msgs| + 1 && t.msgs[|s.msgs|].to == g
            && (NoDup(t.msgs[|s.msgs|].snapshot) <==> NoMiddleLeave(run, g))
  {
    DistinctMembers(run, g);
    hide Final, NoDup, Destination, NoMiddleLeave;
    FinalSnoc(run, Send(c, g));
  }
}
