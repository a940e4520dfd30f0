/** Joining and leaving by name: which group the two sections together change, and how. */
module BusNames {
  import opened Options
  import opened BusRegistry
  import opened BusProtocol
  import opened BusRuns
  import opened BusGroups

  /** The registry lists a group with this name under this address. */
  predicate Named(s: Sys, name: string, g: int) {
    exists i :: 0 <= i < |s.reg.groups| && s.reg.groups[i].name == name && s.reg.groups[i].addr == g
  }

  lemma FoundIsNamed(s: Sys, name: string, g: int)
    requires GroupsValid(s.reg) && Named(s, name, g)
    ensures g > 0 && FindNamed(s.reg.groups, name).Some?
    ensures s.reg.groups[FindNamed(s.reg.groups, name).value].addr == g
  {
    var i :| 0 <= i < |s.reg.groups| && s.reg.groups[i].name == name && s.reg.groups[i].addr == g;
    var j := FindNamed(s.reg.groups, name);
    assert s.reg.groups[i] in s.reg.groups;
    assert j.Some? && s.reg.groups[j.value].name == name;
  }

  /** What a leave by address `x` makes of a member list. */
  ghost predicate Left(d: seq<int>, x: int, e: seq<int>) {
    if x !in d || x == d[|d| - 1] then e == d
    else exists i :: 0 <= i < |d| && d[i] == x && e == d[..i] + d[i + 1..] + [d[|d| - 1]]
  }

  lemma RemovalIsLeft(d: seq<int>, x: int)
    requires OnlyOldestRepeats(d)
    ensures Left(d, x, RemoveIf(d, OtherAddress(x)))
  {
    hide RemoveIf, OnlyOldestRepeats;
    if x in d && x != d[|d| - 1] {
      var i := FirstPlace(d, x);
      RemoveMiddle(d, OtherAddress(x), i);
    } else {
      RemoveLast(d, OtherAddress(x), x);
    }
  }

  /** A leave of a name that no group has changes nothing. */
  lemma NothingToLeave(s: Sys, c: nat, name: string)
    requires forall g :: !Named(s, name, g)
    ensures Apply(s, LeaveFind(c, name)) == s
  {
    if FindNamed(s.reg.groups, name).Some? {
      FoundHasAddress(s, name);
    }
  }

  lemma FoundHasAddress(s: Sys, name: string)
    requires FindNamed(s.reg.groups, name).Some?
    ensures exists g :: Named(s, name, g)
  {
    assert Named(s, name, s.reg.groups[FindNamed(s.reg.groups, name).value].addr);
  }

  /**
    In every run, the two sections of a leave take the client out of the group with that name, the way removal
    without erasing does, and change no other group.
    */
  lemma LeaveByName(run: seq<Action>, c: nat, name: string, g: int, h: int)
    requires c in Final(run).tasks && c in Final(run).queues && Named(Final(run), name, g)
    ensures var s, t := Final(run), Final(run + [LeaveFind(c, name)] + [LeaveRemove(c)]);
            && (h != g ==> Destination(t.reg, h) == Destination(s.reg, h))
            && Left(Destination(s.reg, g), s.tasks[c].addr, Destination(t.reg, g))
  {
    var s := Final(run);
    EveryRun(run);
    ShapedInEveryRun(run);
    assert OnlyOldestRepeats(Destination(s.reg, g)) && RegistryInv(s);
    hide *;
    FinalSnoc(run, LeaveFind(c, name));
    FinalSnoc(run + [LeaveFind(c, name)], LeaveRemove(c));
    LeaveNamed(s, c, name, g, h);
  }

  lemma LeaveNamed(s: Sys, c: nat, name: string, g: int, h: int)
    requires RegistryInv(s) && OnlyOldestRepeats(Destination(s.reg, g))
    requires c in s.tasks && c in s.queues && Named(s, name, g)
    ensures var t := Apply(Apply(s, LeaveFind(c, name)), LeaveRemove(c));
            && (h != g ==> Destination(t.reg, h) == Destination(s.reg, h))
            && Left(Destination(s.reg, g), s.tasks[c].addr, Destination(t.reg, g))
  {
    LeaverConnected(s, c);
    hide *;
    FoundIsNamed(s, name, g);
    LeaveSections(s, c, name, g, h);
    LeaveSections(s, c, name, g, g);
    RemovalIsLeft(Destination(s.reg, g), s.tasks[c].addr);
  }

  lemma LeaverConnected(s: Sys, c: nat)
    requires RegistryInv(s) && c in s.queues
    ensures c in s.tasks && s.tasks[c].addr < 0 && GroupsValid(s.reg)
  {
    assert Client(s.tasks[c].addr, c) in s.reg.clients;
  }

  lemma LeaveSections(s: Sys, c: nat, name: string, g: int, h: int)
    requires GroupsValid(s.reg) && c in s.tasks && s.tasks[c].addr < 0 && g > 0
    requires FindNamed(s.reg.groups, name).Some? && s.reg.groups[FindNamed(s.reg.groups, name).value].addr == g
    ensures var t := Apply(Apply(s, LeaveFind(c, name)), LeaveRemove(c));
            Destination(t.reg, h) == if h == g then RemoveIf(Destination(s.reg, g), OtherAddress(s.tasks[c].addr))
                                     else Destination(s.reg, h)
  {
    GroupAt(s.reg, g, FindNamed(s.reg.groups, name).value);
    hide FindNamed, GroupsValid, RemoveIf, Destination, LeaveGroup;
    LeaveGroupKeeps(s.reg, g, s.tasks[c].addr, h);
  }

  /**
    In every run, the two sections of a join put the client in front of the group with that name, made if there
    was none, unless it is a member; no other group changes.
    */
  lemma JoinByName(run: seq<Action>, c: nat, name: string, h: int) returns (g: int)
    requires c in Final(run).tasks && c in Final(run).queues
    ensures var s, t := Final(run), Final(run + [JoinFind(c, name)] + [JoinAdd(c)]);
            && Named(t, name, g) && (forall k | Named(s, name, k) :: k == g)
            && (h != g ==> Destination(t.reg, h) == Destination(s.reg, h))
            && var d, x := Destination(s.reg, g), s.tasks[c].addr;
               Destination(t.reg, g) == if x in d then d else [x] + d
  {
    var s := Final(run);
    EveryRun(run);
    FinalSnoc(run, JoinFind(c, name));
    FinalSnoc(run + [JoinFind(c, name)], JoinAdd(c));
    hide Final, Linear, MsgOk, VisitsOk;
    LeaverConnected(s, c);
    hide RegistryInv, Connected, Destination;
    g := NameGroup(s.reg, name).1;
    forall k | Named(s, name, k)
      ensures k == g
    {
      FoundIsNamed(s, name, k);
    }
    JoinSections(s, c, name, h);
    JoinSections(s, c, name, g);
  }

  lemma JoinSections(s: Sys, c: nat, name: string, h: int)
    requires GroupsValid(s.reg) && c in s.tasks && s.tasks[c].addr < 0
    ensures var t, g, x := Apply(Apply(s, JoinFind(c, name)), JoinAdd(c)), NameGroup(s.reg, name).1, s.tasks[c].addr;
            && Named(t, name, g)
            && Destination(t.reg, h) == if h == g && x !in Destination(s.reg, h) then [x] + Destination(s.reg, h)
                                        else Destination(s.reg, h)
  {
    var (reg, g) := NameGroup(s.reg, name);
    var x := s.tasks[c].addr;
    NameGroupKeeps(s.reg, name);
    NameGroupFinds(s.reg, name, h);
    NameGroupFinds(s.reg, name, g);
    NamedThere(s.reg, name);
    hide NameGroup, GroupsValid, Destination, HasGroup;
    JoinGroupKeeps(reg, g, x, h);
    NameStays(reg, g, x, name);
    var m := Apply(s, JoinFind(c, name));
    assert m.reg == reg && m.tasks[c].joining == Some(g) && m.tasks[c].addr == x;
    hide JoinGroup;
    JoinAddIs(m, c);
  }

  lemma JoinAddIs(m: Sys, c: nat)
    requires c in m.tasks && m.tasks[c].joining.Some?
    ensures var r := JoinGroup(m.reg, m.tasks[c].joining.value, m.tasks[c].addr);
            Apply(m, JoinAdd(c)).reg == if r.Joined? then r.reg else m.reg
  {
    hide JoinGroup;
  }

  lemma NamedThere(reg: Registry<nat>, name: string)
    ensures var (after, g) := NameGroup(reg, name);
            exists i :: 0 <= i < |after.groups| && after.groups[i].name == name && after.groups[i].addr == g
  {
    var (after, g) := NameGroup(reg, name);
    if FindNamed(reg.groups, name).Some? {
      var i := FindNamed(reg.groups, name).value;
      assert after.groups[i].name == name && after.groups[i].addr == g;
    } else {
      assert after.groups[0].name == name && after.groups[0].addr == g;
    }
  }

  lemma NameStays(reg: Registry<nat>, g: int, x: int, name: string)
    requires exists i :: 0 <= i < |reg.groups| && reg.groups[i].name == name && reg.groups[i].addr == g
    ensures JoinGroup(reg, g, x).Joined? ==>
              var after := JoinGroup(reg, g, x).reg;
              exists i :: 0 <= i < |after.groups| && after.groups[i].name == name && after.groups[i].addr == g
  {
    var i :| 0 <= i < |reg.groups| && reg.groups[i].name == name && reg.groups[i].addr == g;
    if JoinGroup(reg, g, x).Joined? {
      var after := JoinGroup(reg, g, x).reg;
      assert after.groups[i].name == name && after.groups[i].addr == g;
    }
  }
}
