/**
  The registry under every interleaving of its critical sections, disconnects included.
  */
module RegistryRuns {
  import opened Options
  import opened BusRegistry

  datatype Section<Q> =
    | OnConnect(queue: Q)
    | OnDisconnect(queue: Q)
    | OnNameGroup(name: string)               // first section of a named join
    | OnJoinGroup(group: int, client: int)    // its second section
    | OnLeaveGroup(group: int, client: int)   // second section of a named leave

  /** `named` holds the group addresses that first sections of joins have handed out. */
  datatype State<Q> = State(reg: Registry<Q>, named: set<int>)

  /** A second section runs only on an address that a first section has found or made. */
  function Run<Q(==)>(sections: seq<Section<Q>>): (s: State<Q>) {
    if sections == [] then State(Registry([], [], 0, 0), {})
    else
      var s := Run(sections[..|sections| - 1]);
      match sections[|sections| - 1]
      case OnConnect(queue) => s.(reg := Connect(s.reg, queue).0)
      case OnDisconnect(queue) => s.(reg := Disconnect(s.reg, queue))
      case OnNameGroup(name) =>
        var (reg, addr) := NameGroup(s.reg, name);
        State(reg, s.named + {addr})
      case OnJoinGroup(group, client) =>
        if group in s.named then
          match JoinGroup(s.reg, group, client)
          case Joined(reg) => s.(reg := reg)
          case _ => s
        else s
      case OnLeaveGroup(group, client) =>
        if group in s.named then s.(reg := LeaveGroup(s.reg, group, client)) else s
  }

  ghost predicate Invariant<Q>(s: State<Q>) {
    && ClientsValid(s.reg) && GroupsValid(s.reg) && ListsShaped(s.reg)
    && forall a | a in s.named :: HasGroup(s.reg, a)
  }

  /**
    After any interleaving: client entries relate addresses to queues one to one, group names and
    addresses are distinct and within 1 .. groupLast, only the oldest entry of a list is ever repeated,
    and the second section of a named join finds the group of its first section.
    */
  lemma {:induction false} EveryInterleaving<Q>(sections: seq<Section<Q>>)
    ensures Invariant(Run(sections))
    ensures forall a, client | a in Run(sections).named :: !JoinGroup(Run(sections).reg, a, client).NullName?
  {
    if sections != [] {
      var front, last := sections[..|sections| - 1], sections[|sections| - 1];
      EveryInterleaving(front);
      hide Connect, Disconnect, NameGroup, LeaveGroup, ClientsValid, GroupsValid, FindGroup, ListsShaped;
      SectionKeeps(Run(front), last, Run(sections));
      SectionShapes(Run(front), last, Run(sections));
    } else {
      NoLists(Run(sections).reg);
    }
  }

  lemma NoLists<Q>(reg: Registry<Q>)
    requires reg.clients == [] && reg.groups == []
    ensures ListsShaped(reg)
  {
  }

  /** What one section makes of the state. */
  ghost predicate Follows<Q>(s: State<Q>, section: Section<Q>, t: State<Q>) {
    match section
    case OnConnect(queue) => t == s.(reg := Connect(s.reg, queue).0)
    case OnDisconnect(queue) => t == s.(reg := Disconnect(s.reg, queue))
    case OnNameGroup(name) => t == State(NameGroup(s.reg, name).0, s.named + {NameGroup(s.reg, name).1})
    case OnJoinGroup(group, client) =>
      || t == s
      || (group in s.named && JoinGroup(s.reg, group, client).Joined?
          && t == s.(reg := JoinGroup(s.reg, group, client).reg))
    case OnLeaveGroup(group, client) => t == s || t == s.(reg := LeaveGroup(s.reg, group, client))
  }

  lemma SectionKeeps<Q>(s: State<Q>, section: Section<Q>, t: State<Q>)
    requires ClientsValid(s.reg) && GroupsValid(s.reg) && forall a | a in s.named :: HasGroup(s.reg, a)
    requires Follows(s, section, t)
    ensures ClientsValid(t.reg) && GroupsValid(t.reg) && forall a | a in t.named :: HasGroup(t.reg, a)
  {
    hide Connect, Disconnect, NameGroup, JoinGroup, LeaveGroup, ClientsValid, GroupsValid, Destination, HasGroup;
    match section
    case OnConnect(queue) =>
      ConnectKeeps(s.reg, queue);
      SameGroupList(s, t);
    case OnDisconnect(queue) =>
      DisconnectKeeps(s.reg, queue);
      SameGroupList(s, t);
    case OnNameGroup(name) =>
      NameGroupKeeps(s.reg, name);
      SameClientList(s, t);
      forall a | a in t.named
        ensures HasGroup(t.reg, a)
      {
        NameGroupFinds(s.reg, name, a);
      }
    case OnJoinGroup(group, client) =>
      if t != s {
        JoinGroupKeeps(s.reg, group, client, group);
        SameClientList(s, t);
        forall a | a in t.named
          ensures HasGroup(t.reg, a)
        {
          JoinGroupKeeps(s.reg, group, client, a);
        }
      }
    case OnLeaveGroup(group, client) =>
      if t != s {
        LeaveGroupKeeps(s.reg, group, client, group);
        SameClientList(s, t);
        forall a | a in t.named
          ensures HasGroup(t.reg, a)
        {
          LeaveGroupKeeps(s.reg, group, client, a);
        }
      }
  }

  lemma SameGroupList<Q>(s: State<Q>, t: State<Q>)
    requires GroupsValid(s.reg) && t.reg.groups == s.reg.groups && t.reg.groupLast == s.reg.groupLast
    ensures GroupsValid(t.reg) && forall a :: HasGroup(t.reg, a) == HasGroup(s.reg, a)
  {
  }

  lemma SameClientList<Q>(s: State<Q>, t: State<Q>)
    requires ClientsValid(s.reg) && t.reg.clients == s.reg.clients && t.reg.addrLast == s.reg.addrLast
    ensures ClientsValid(t.reg)
  {
  }

  lemma SectionShapes<Q>(s: State<Q>, section: Section<Q>, t: State<Q>)
    requires Invariant(s) && Follows(s, section, t)
    ensures ListsShaped(t.reg)
  {
    hide Connect, Disconnect, NameGroup, JoinGroup, LeaveGroup, ClientsValid, GroupsValid, Destination, HasGroup,
      OnlyOldestRepeats;
    match section {
      case OnConnect(queue) =>
        ConnectKeeps(s.reg, queue);
        ConnectKeepsShape(s.reg, queue);
      case OnDisconnect(queue) =>
        DisconnectKeeps(s.reg, queue);
        DisconnectKeepsShape(s.reg, queue);
      case OnNameGroup(name) =>
        NameGroupKeeps(s.reg, name);
      case OnJoinGroup(group, client) =>
        if t != s {
          JoinGroupKeeps(s.reg, group, client, group);
        }
      case OnLeaveGroup(group, client) =>
        LeaveGroupKeeps(s.reg, group, client, group);
    }
    forall a
      ensures OnlyOldestRepeats(Destination(t.reg, a))
      ensures forall m | m in Destination(t.reg, a) :: m in Destination(s.reg, a) || m < 0
    {
      SectionShapesGroup(s, section, t, a);
    }
  }

  lemma SectionShapesGroup<Q>(s: State<Q>, section: Section<Q>, t: State<Q>, a: int)
    requires ClientsValid(s.reg) && GroupsValid(s.reg) && OnlyOldestRepeats(Destination(s.reg, a))
    requires forall g | g in s.named :: HasGroup(s.reg, g)
    requires Follows(s, section, t)
    ensures OnlyOldestRepeats(Destination(t.reg, a))
    ensures forall m | m in Destination(t.reg, a) :: m in Destination(s.reg, a) || m < 0
  {
    hide Connect, Disconnect, NameGroup, JoinGroup, LeaveGroup, ClientsValid, GroupsValid, HasGroup, OnlyOldestRepeats;
    match section
    case OnConnect(queue) => ConnectKeeps(s.reg, queue);
    case OnDisconnect(queue) => DisconnectKeeps(s.reg, queue);
    case OnNameGroup(name) => NameGroupFinds(s.reg, name, a);
    case OnJoinGroup(group, client) =>
      if t != s { JoinKeepsShape(s.reg, group, client, a); }
    case OnLeaveGroup(group, client) =>
      if t != s { LeaveKeepsShape(s.reg, group, client, a); }
  }

  // ----- main results

  /**
    After any interleaving, disconnecting a client makes its address unreachable exactly when it is not
    the oldest one; otherwise the disconnect changes nothing.
    */
  lemma DisconnectInEveryInterleaving<Q>(sections: seq<Section<Q>>, i: nat)
    requires i < |Run(sections).reg.clients|
    ensures var reg := Run(sections).reg;
            var s, after := reg.clients, Disconnect(reg, reg.clients[i].queue);
            && (Resolve(after.clients, s[i].addr).None? <==> s[i].queue != s[|s| - 1].queue)
            && (s[i].queue == s[|s| - 1].queue ==> after == reg)
  {
    EveryInterleaving(sections);
    hide ClientsValid, GroupsValid, OnlyOldestRepeats, Disconnect;
    DisconnectForgets(Run(sections).reg, i);
  }

  /**
    After any interleaving, a leave ends the membership of a member exactly when it is not the first that
    joined; otherwise the leave changes nothing.
    */
  lemma LeaveInEveryInterleaving<Q>(sections: seq<Section<Q>>, addr: int, i: nat)
    requires addr > 0 && i < |Destination(Run(sections).reg, addr)|
    ensures var s := Destination(Run(sections).reg, addr);
            var after := Destination(LeaveGroup(Run(sections).reg, addr, s[i]), addr);
            && (s[i] !in after <==> s[i] != s[|s| - 1])
            && (s[i] == s[|s| - 1] ==> after == s)
  {
    EveryInterleaving(sections);
    var s := Destination(Run(sections).reg, addr);
    assert s[i] in s;
    hide ClientsValid, GroupsValid, OnlyOldestRepeats, LeaveGroup;
    LeaveForgets(Run(sections).reg, addr, i);
  }

  /** A list with a repeated entry is in reach: connect two clients, then disconnect the younger one. */
  lemma OldestIsRepeated(p: nat, q: nat)
    requires p != q
    ensures Run([OnConnect(p), OnConnect(q), OnDisconnect(q)]).reg.clients == [Client(-1, p), Client(-1, p)]
  {
    var a: seq<Section<nat>> := [OnConnect(p)];
    var b := a + [OnConnect(q)];
    var c := b + [OnDisconnect(q)];
    assert a[..0] == [] && b[..1] == a && c[..2] == b;
    assert Run(a).reg.clients == [Client(-1, p)];
    var s := [Client(-2, q), Client(-1, p)];
    assert Run(b).reg.clients == s;
    RemoveOne(s, OtherQueue(q), 0);
    assert c == [OnConnect(p), OnConnect(q), OnDisconnect(q)];
  }
}
