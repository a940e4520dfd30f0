/**
  What holds in every run of the bus: the registry stays consistent, and every message has one owner and
  follows its snapshot.
  */
module BusRuns {
  import opened Options
  import opened BusRegistry
  import opened BusProtocol

  // ----- the registry in every run

  /** The address of a connected client resolves to its queue. */
  lemma OwnerResolves(s: Sys, c: nat)
    requires ClientsValid(s.reg) && Connected(s) && c in s.queues
    ensures Resolve(s.reg.clients, s.tasks[c].addr) == Some(c)
  {
    var mine := Client(s.tasks[c].addr, c);
    assert mine in s.reg.clients;
    var found := Resolve(s.reg.clients, mine.addr);
    assert found.Some? ==> Client(mine.addr, found.value) in s.reg.clients;
  }

  /** An address resolves only to the connected client that has it. */
  lemma ResolvesToOwner(s: Sys, a: int)
    requires ClientsValid(s.reg) && Connected(s) && Resolve(s.reg.clients, a).Some?
    ensures var c := Resolve(s.reg.clients, a).value; c in s.queues && c in s.tasks && s.tasks[c].addr == a
  {
    hide Resolve;
    var c := Resolve(s.reg.clients, a).value;
    var entry := Client(a, c);
    assert entry in s.reg.clients && entry.queue in s.queues;
    assert Client(s.tasks[c].addr, c) in s.reg.clients;
  }

  /** A client that connects again recovers its address: nothing changes. */
  lemma ReconnectRecovers(s: Sys, c: nat)
    requires ClientsValid(s.reg) && Connected(s) && c in s.queues
    ensures DoConnect(s, c) == s
  {
    assert Client(s.tasks[c].addr, c) in s.reg.clients;
    var i := FindQueue(s.reg.clients, c).value;
    assert s.reg.clients[i] in s.reg.clients;
    assert s.tasks[c := s.tasks[c].(addr := s.tasks[c].addr)] == s.tasks;
  }

  lemma MembersKept(s: Sys, t: Sys)
    requires MembersConnected(s)
    requires forall g | g > 0 :: Destination(t.reg, g) == Destination(s.reg, g)
    requires forall c | c in s.queues && c in s.tasks ::
               c in t.queues && c in t.tasks && t.tasks[c].addr == s.tasks[c].addr
    ensures MembersConnected(t)
  {
    hide Destination;
    forall g, a | g > 0 && a in Destination(t.reg, g)
      ensures IsMember(t, a)
    {
      assert a in Destination(s.reg, g) && IsMember(s, a);
      var c :| c in s.queues && c in s.tasks && s.tasks[c].addr == a;
      assert c in t.queues && c in t.tasks && t.tasks[c].addr == a;
    }
  }

  /** A step that leaves the client list, the queues and the addresses alone keeps the connections. */
  lemma ConnectionsKept(s: Sys, t: Sys)
    requires ClientsValid(s.reg) && Connected(s)
    requires t.reg.clients == s.reg.clients && t.reg.addrLast == s.reg.addrLast && t.queues == s.queues
    requires t.tasks.Keys == s.tasks.Keys && forall c | c in s.tasks :: t.tasks[c].addr == s.tasks[c].addr
    ensures ClientsValid(t.reg) && Connected(t)
  {
    assert forall c | c in t.tasks :: c in s.tasks;
  }

  lemma InitializeKeeps(s: Sys, c: nat)
    requires RegistryInv(s) && c in s.tasks && c !in s.queues
    ensures RegistryInv(DoInitialize(s, c))
    ensures forall d | d in s.queues :: d in DoInitialize(s, c).tasks && DoInitialize(s, c).tasks[d] == s.tasks[d]
  {
    var t := DoInitialize(s, c);
    ConnectKeeps(s.reg, c);
    hide Connect, FindGroup, MembersConnected;
    assert Connected(t);
    forall g
      ensures Destination(t.reg, g) == Destination(s.reg, g) && HasGroup(t.reg, g) == HasGroup(s.reg, g)
    {
      SameGroups(s.reg, t.reg, g);
    }
    MembersKept(s, t);
  }

  lemma SameGroups<Q>(a: Registry<Q>, b: Registry<Q>, g: int)
    requires a.groups == b.groups
    ensures Destination(a, g) == Destination(b, g) && HasGroup(a, g) == HasGroup(b, g)
  {
  }

  lemma JoinFindKeeps(s: Sys, c: nat, name: string)
    requires RegistryInv(s) && c in s.tasks
    ensures RegistryInv(DoJoinFind(s, c, name))
    ensures forall g :: Destination(DoJoinFind(s, c, name).reg, g) == Destination(s.reg, g)
  {
    var t := DoJoinFind(s, c, name);
    NameGroupKeeps(s.reg, name);
    forall g
      ensures Destination(t.reg, g) == Destination(s.reg, g)
      ensures HasGroup(s.reg, g) ==> HasGroup(t.reg, g)
      ensures HasGroup(t.reg, t.tasks[c].joining.value)
    {
      NameGroupFinds(s.reg, name, g);
    }
    hide NameGroup, HasGroup, Destination, MembersConnected;
    MembersKept(s, t);
  }

  /** The second section of a join: it never meets a missing group, and adds the client's own address. */
  lemma JoinAddKeeps(s: Sys, c: nat)
    requires RegistryInv(s) && c in s.tasks && s.tasks[c].joining.Some?
    ensures RegistryInv(DoJoinAdd(s, c))
    ensures !JoinGroup(s.reg, s.tasks[c].joining.value, s.tasks[c].addr).NullName?
    ensures forall g :: || Destination(DoJoinAdd(s, c).reg, g) == Destination(s.reg, g)
                        || (s.tasks[c].addr !in Destination(s.reg, g) && s.tasks[c].addr < 0
                            && Destination(DoJoinAdd(s, c).reg, g) == [s.tasks[c].addr] + Destination(s.reg, g))
  {
    hide JoinGroup, HasGroup, Destination, ClientsValid, GroupsValid, Connected;
    var t, addr, mine := DoJoinAdd(s, c), s.tasks[c].joining.value, s.tasks[c].addr;
    forall g
      ensures HasGroup(s.reg, g) == HasGroup(t.reg, g)
      ensures !JoinGroup(s.reg, addr, mine).NullName?
      ensures GroupsValid(t.reg) && t.reg.clients == s.reg.clients && t.reg.addrLast == s.reg.addrLast
      ensures || Destination(t.reg, g) == Destination(s.reg, g)
              || (mine < 0 && mine !in Destination(s.reg, g) && Destination(t.reg, g) == [mine] + Destination(s.reg, g))
    {
      JoinGroupKeeps(s.reg, addr, mine, g);
    }
    ConnectionsKept(s, t);
    hide DoJoinAdd;
    forall g, a | g > 0 && a in Destination(t.reg, g)
      ensures IsMember(t, a)
    {
      if a in Destination(s.reg, g) {
        assert IsMember(s, a);
        var d :| d in s.queues && d in s.tasks && s.tasks[d].addr == a;
        assert d in t.queues && d in t.tasks && t.tasks[d].addr == a;
      } else {
        assert a == mine && c in t.queues && t.tasks[c].addr == a;
      }
    }
  }

  lemma LeaveRemoveKeeps(s: Sys, c: nat)
    requires RegistryInv(s) && c in s.tasks && s.tasks[c].leaving.Some?
    ensures RegistryInv(DoLeaveRemove(s, c))
  {
    var t, addr, mine := DoLeaveRemove(s, c), s.tasks[c].leaving.value, s.tasks[c].addr;
    var keep := OtherAddress(mine);
    forall g
      ensures HasGroup(s.reg, g) == HasGroup(t.reg, g)
      ensures GroupsValid(t.reg) && t.reg.clients == s.reg.clients && t.reg.addrLast == s.reg.addrLast
      ensures || Destination(t.reg, g) == Destination(s.reg, g)
              || Destination(t.reg, g) == RemoveIf(Destination(s.reg, g), keep)
    {
      LeaveGroupKeeps(s.reg, addr, mine, g);
    }
    hide LeaveGroup, HasGroup, Destination, RemoveIf, ClientsValid, GroupsValid, Connected;
    ConnectionsKept(s, t);
    forall g, a | g > 0 && a in Destination(t.reg, g)
      ensures IsMember(t, a)
    {
      RemoveIfMember(Destination(s.reg, g), keep, a);
      assert IsMember(s, a);
      var d :| d in s.queues && d in s.tasks && s.tasks[d].addr == a;
      assert d in t.queues && d in t.tasks && t.tasks[d].addr == a;
    }
  }

  lemma NewClientKeeps(s: Sys, c: nat)
    requires RegistryInv(s) && c !in s.tasks
    ensures RegistryInv(Apply(s, NewClient(c)))
  {
    hide HasGroup, Destination, MembersConnected, ClientsValid, GroupsValid;
    MembersKept(s, Apply(s, NewClient(c)));
  }

  lemma LeaveFindKeeps(s: Sys, c: nat, name: string)
    requires RegistryInv(s) && c in s.tasks
    ensures RegistryInv(DoLeaveFind(s, c, name))
    ensures DoLeaveFind(s, c, name).reg == s.reg
  {
    hide HasGroup, Destination, MembersConnected, ClientsValid, GroupsValid, FindNamed;
    MembersKept(s, DoLeaveFind(s, c, name));
  }

  // ----- steps that move no message

  predicate MovesMessages(a: Action) {
    a.Send? || a.Forward? || a.Receive?
  }

  /** Between `s` and `t` no message was made, moved or received, and connected clients kept their address. */
  ghost predicate Quiet(s: Sys, t: Sys) {
    && t.msgs == s.msgs && t.log == s.log
    && (forall c | c in s.queues :: c in t.queues && t.queues[c] == s.queues[c])
    && (forall c | c in t.queues && c !in s.queues :: t.queues[c] == [])
    && (forall c | c in s.tasks :: c in t.tasks && t.tasks[c].inHand == s.tasks[c].inHand
                                   && t.tasks[c].outgoing == s.tasks[c].outgoing)
    && (forall c | c in s.tasks && c in s.queues :: t.tasks[c].addr == s.tasks[c].addr)
    && (forall c | c in t.tasks && c !in s.tasks :: Free(t.tasks[c]))
  }

  lemma ReconnectChangesNothing(s: Sys, c: nat)
    requires RegistryInv(s) && c in s.queues
    ensures c in s.tasks && DoConnect(s, c) == s
  {
    ReconnectRecovers(s, c);
  }

  lemma QuietTraffic(s: Sys, a: Action)
    requires RegistryInv(s) && !MovesMessages(a)
    ensures Quiet(s, Apply(s, a))
  {
    hide RegistryInv, Connect, NameGroup, JoinGroup, LeaveGroup, HasGroup, Destination, FindNamed, DoConnect;
    match a
    case Initialize(c) =>
      if c in s.tasks && c !in s.queues {
        hide Connect;
        var (reg, addr) := Connect(s.reg, c);
        ConnectEffect(s.(queues := s.queues[c := []]), c);
        assert DoInitialize(s, c)
            == Sys(reg, s.tasks[c := s.tasks[c].(addr := addr)], s.queues[c := []], s.msgs, s.log);
      }
    case Reconnect(c) =>
      if c in s.tasks && c in s.queues { ReconnectChangesNothing(s, c); }
    case _ =>
  }

  lemma ConnectEffect(s: Sys, c: nat)
    requires c in s.tasks
    ensures var (reg, addr) := Connect(s.reg, c);
            DoConnect(s, c) == Sys(reg, s.tasks[c := s.tasks[c].(addr := addr)], s.queues, s.msgs, s.log)
  {
  }

  lemma QuietStep(s: Sys, a: Action)
    requires RegistryInv(s) && !MovesMessages(a)
    ensures RegistryInv(Apply(s, a)) && Quiet(s, Apply(s, a))
  {
    QuietTraffic(s, a);
    hide Quiet, DoJoinFind, DoJoinAdd, DoLeaveFind, DoLeaveRemove, DoConnect;
    hide RegistryInv, Connect, NameGroup, JoinGroup, LeaveGroup, HasGroup, Destination, FindNamed;
    match a
    case NewClient(c) => if c !in s.tasks { NewClientKeeps(s, c); }
    case Initialize(c) => if c in s.tasks && c !in s.queues { InitializeKeeps(s, c); }
    case Reconnect(c) => if c in s.tasks && c in s.queues { ReconnectChangesNothing(s, c); }
    case JoinFind(c, name) => if c in s.tasks { JoinFindKeeps(s, c, name); }
    case JoinAdd(c) => if c in s.tasks && s.tasks[c].joining.Some? { JoinAddKeeps(s, c); }
    case LeaveFind(c, name) => if c in s.tasks { LeaveFindKeeps(s, c, name); }
    case LeaveRemove(c) => if c in s.tasks && s.tasks[c].leaving.Some? { LeaveRemoveKeeps(s, c); }
    case _ =>
  }

  // ----- where messages are, and what they have left to do

  datatype Place =
    | Queued(client: nat, pos: nat)
    | Outgoing(client: nat)
    | Held(client: nat)

  predicate At(s: Sys, p: Place, id: nat) {
    match p
    case Queued(c, i) => c in s.queues && i < |s.queues[c]| && s.queues[c][i] == id
    case Outgoing(c) => c in s.tasks && s.tasks[c].outgoing == Some(id)
    case Held(c) => c in s.tasks && s.tasks[c].inHand == Some(id)
  }

  /** The clients that have received a message, in order. */
  function Visits(log: seq<Event>, id: nat): (v: seq<nat>) {
    if log == [] then []
    else
      var last := log[|log| - 1];
      Visits(log[..|log| - 1], id) + if last.msg == id then [last.client] else []
  }

  /** No message is in two places: queues and tasks own disjoint messages. */
  ghost predicate Linear(s: Sys) {
    && (forall p: Place, id: nat | At(s, p, id) :: id < |s.msgs|)
    && (forall p: Place, q: Place, id: nat | At(s, p, id) && At(s, q, id) :: p == q)
  }

  /** What is left of a list is a front of the snapshot, and a group's snapshot names connected clients. */
  ghost predicate MsgOk(s: Sys, m: Msg) {
    && m.dest <= m.snapshot
    && (m.to < 0 ==> m.snapshot == [m.to])
    && (m.to >= 0 ==> forall a | a in m.snapshot :: IsMember(s, a))
  }

  /** The client at which a message is, is the one whose address was taken from its list last. */
  predicate PlaceOk(s: Sys, p: Place, m: Msg) {
    match p
    case Outgoing(_) => m.dest == m.snapshot
    case _ =>
      && p.client in s.queues && p.client in s.tasks
      && |m.dest| < |m.snapshot| && m.snapshot[|m.dest|] == s.tasks[p.client].addr
  }

  /** The receivers of a message so far are the last entries of its snapshot, read backwards. */
  ghost predicate VisitsOk(s: Sys, v: seq<nat>, m: Msg) {
    && |v| + |m.dest| <= |m.snapshot|
    && forall i | 0 <= i < |v| ::
         v[i] in s.queues && v[i] in s.tasks && s.tasks[v[i]].addr == m.snapshot[|m.snapshot| - 1 - i]
  }

  /** How many entries a message at `p` has used up beyond those that received it. */
  function Ahead(p: Place): nat {
    if p.Queued? then 1 else 0
  }

  ghost predicate FlowInv(s: Sys) {
    && RegistryInv(s) && Linear(s)
    && (forall id | 0 <= id < |s.msgs| :: MsgOk(s, s.msgs[id]) && VisitsOk(s, Visits(s.log, id), s.msgs[id]))
    && (forall p: Place, id: nat | At(s, p, id) ::
          PlaceOk(s, p, s.msgs[id]) && |Visits(s.log, id)| + |s.msgs[id].dest| + Ahead(p) == |s.msgs[id].snapshot|)
  }

  lemma MemberKept(s: Sys, t: Sys, a: int)
    requires IsMember(s, a)
    requires forall c | c in s.queues && c in s.tasks ::
               c in t.queues && c in t.tasks && t.tasks[c].addr == s.tasks[c].addr
    ensures IsMember(t, a)
  {
    var c :| c in s.queues && c in s.tasks && s.tasks[c].addr == a;
    assert c in t.queues && c in t.tasks && t.tasks[c].addr == a;
  }

  lemma MsgKept(s: Sys, t: Sys, m: Msg, rest: seq<int>)
    requires MsgOk(s, m) && rest <= m.dest
    requires forall c | c in s.queues && c in s.tasks ::
               c in t.queues && c in t.tasks && t.tasks[c].addr == s.tasks[c].addr
    ensures MsgOk(t, m.(dest := rest))
  {
    if m.to >= 0 {
      forall a | a in m.snapshot
        ensures IsMember(t, a)
      {
        MemberKept(s, t, a);
      }
    }
  }

  lemma QuietKeepsFlow(s: Sys, t: Sys)
    requires FlowInv(s) && RegistryInv(t) && Quiet(s, t)
    ensures FlowInv(t)
  {
    hide RegistryInv, MsgOk;
    forall p: Place, id: nat | At(t, p, id)
      ensures At(s, p, id)
    {
    }
    forall id | 0 <= id < |s.msgs|
      ensures MsgOk(t, t.msgs[id])
    {
      assert s.msgs[id].(dest := s.msgs[id].dest) == s.msgs[id];
      assert MsgOk(s, s.msgs[id]);
      TasksOfQueues(s);
      MsgDest(s, s.msgs[id]);
      MsgKept(s, t, s.msgs[id], s.msgs[id].dest);
    }
  }

  lemma TasksOfQueues(s: Sys)
    requires RegistryInv(s)
    ensures forall c | c in s.queues :: c in s.tasks
  {
  }

  lemma MsgDest(s: Sys, m: Msg)
    requires MsgOk(s, m)
    ensures m.dest <= m.snapshot
  {
  }

  // ----- sending

  lemma {:induction false} VisitsInLog(log: seq<Event>, id: nat)
    requires Visits(log, id) != []
    ensures exists e | e in log :: e.msg == id
  {
    if log[|log| - 1].msg != id {
      VisitsInLog(log[..|log| - 1], id);
    }
  }

  /** Only messages that exist have been received. */
  ghost predicate LogOk(s: Sys) {
    forall e | e in s.log :: e.msg < |s.msgs| && e.client in s.queues
  }

  lemma SnapshotOk(s: Sys, from: int, to: int)
    requires RegistryInv(s) && to != INVALID
    ensures var d := Destination(s.reg, to); MsgOk(s, Msg(from, to, d, d))
  {
    hide ClientsValid, GroupsValid, Connected, JoinsFind;
  }

  /** The same clients, with the same addresses. */
  ghost predicate SameClients(s: Sys, t: Sys) {
    && t.queues.Keys == s.queues.Keys && t.tasks.Keys == s.tasks.Keys
    && forall c | c in s.tasks :: t.tasks[c].addr == s.tasks[c].addr && t.tasks[c].joining == s.tasks[c].joining
  }

  /** A step that leaves the registry and the addresses alone keeps the registry invariant. */
  lemma SameRegistry(s: Sys, t: Sys)
    requires RegistryInv(s) && t.reg == s.reg && SameClients(s, t)
    ensures RegistryInv(t)
  {
    hide ClientsValid, GroupsValid, Destination, HasGroup, MembersConnected;
    assert forall c :: c in t.tasks <==> c in s.tasks;
    assert forall c :: c in t.queues <==> c in s.queues;
    MembersKept(s, t);
  }

  lemma MsgKeptSame(s: Sys, t: Sys, m: Msg, rest: seq<int>)
    requires MsgOk(s, m) && rest <= m.dest
    requires RegistryInv(s) && SameClients(s, t)
    ensures MsgOk(t, m.(dest := rest))
    ensures rest == m.dest ==> MsgOk(t, m)
  {
    hide RegistryInv, MsgOk;
    TasksOfQueues(s);
    assert forall c :: c in t.tasks <==> c in s.tasks;
    assert forall c :: c in t.queues <==> c in s.queues;
    MsgKept(s, t, m, rest);
    assert m.(dest := m.dest) == m;
  }

  lemma VisitsKept(s: Sys, t: Sys, v: seq<nat>, m: Msg, rest: seq<int>)
    requires SameClients(s, t) && VisitsOk(s, v, m) && rest <= m.dest
    ensures VisitsOk(t, v, m.(dest := rest))
    ensures rest == m.dest ==> VisitsOk(t, v, m)
  {
  }

  lemma SendMsg(s: Sys, c: nat, to: int, id: nat)
    requires FlowInv(s) && LogOk(s) && c in s.tasks && to != INVALID && id <= |s.msgs|
    ensures var t := DoSend(s, c, to); MsgOk(t, t.msgs[id]) && VisitsOk(t, Visits(t.log, id), t.msgs[id])
    ensures id == |s.msgs| ==> Visits(s.log, id) == []
  {
    var t := DoSend(s, c, to);
    hide RegistryInv, MsgOk, Destination, VisitsOk, Visits;
    if id < |s.msgs| {
      assert MsgOk(s, s.msgs[id]);
      MsgKeptSame(s, t, s.msgs[id], s.msgs[id].dest);
      VisitsKept(s, t, Visits(s.log, id), s.msgs[id], s.msgs[id].dest);
    } else {
      SnapshotOk(s, s.tasks[c].addr, to);
      MsgKeptSame(s, t, t.msgs[id], t.msgs[id].dest);
      if Visits(s.log, id) != [] {
        VisitsInLog(s.log, id);
      }
      NoVisits(t, t.msgs[id]);
    }
  }

  lemma NoVisits(s: Sys, m: Msg)
    requires m.dest == m.snapshot
    ensures VisitsOk(s, [], m)
  {
  }

  lemma SendKeeps(s: Sys, c: nat, to: int)
    requires FlowInv(s) && LogOk(s)
    requires c in s.tasks && s.tasks[c].outgoing.None? && to != INVALID
    ensures FlowInv(DoSend(s, c, to))
  {
    var t, newest := DoSend(s, c, to), |s.msgs|;
    hide RegistryInv, MsgOk, Destination, VisitsOk, Visits;
    SameRegistry(s, t);
    SendMsg(s, c, to, newest);
    forall id: nat | 0 <= id < |t.msgs|
      ensures MsgOk(t, t.msgs[id]) && VisitsOk(t, Visits(t.log, id), t.msgs[id])
    {
      SendMsg(s, c, to, id);
    }
    forall p: Place, id: nat | At(t, p, id)
      ensures if p == Outgoing(c) then id == newest else At(s, p, id)
    {
    }
  }

  // ----- receiving

  lemma VisitsSnoc(log: seq<Event>, e: Event, id: nat)
    ensures Visits(log + [e], id) == Visits(log, id) + if e.msg == id then [e.client] else []
  {
    assert (log + [e])[..|log|] == log;
  }

  /** Where a message at `p` was before client `c` received. */
  function BeforeReceive(c: nat, p: Place): Place {
    if p == Held(c) then Queued(c, 0)
    else if p.Queued? && p.client == c then Queued(c, p.pos + 1)
    else p
  }

  lemma ReceiveMoves(s: Sys, c: nat, p: Place, id: nat)
    requires c in s.tasks && c in s.queues && s.queues[c] != [] && Free(s.tasks[c])
    requires At(DoReceive(s, c), p, id)
    ensures At(s, BeforeReceive(c, p), id)
  {
  }

  lemma ReceiveLinear(s: Sys, c: nat)
    requires Linear(s)
    requires c in s.tasks && c in s.queues && s.queues[c] != [] && Free(s.tasks[c])
    ensures Linear(DoReceive(s, c))
  {
    var t := DoReceive(s, c);
    forall p: Place, id: nat | At(t, p, id)
      ensures At(s, BeforeReceive(c, p), id)
    {
      ReceiveMoves(s, c, p, id);
    }
    hide At;
    forall p: Place, q: Place, id: nat | At(t, p, id) && At(t, q, id)
      ensures p == q
    {
      assert BeforeReceive(c, p) == BeforeReceive(c, q);
    }
  }

  /** The message at the head of the queue moves into the hand of its receiver. */
  lemma ReceiveHead(s: Sys, c: nat)
    requires FlowInv(s)
    requires c in s.tasks && c in s.queues && s.queues[c] != [] && Free(s.tasks[c])
    ensures var t, m := DoReceive(s, c), s.queues[c][0];
            && m < |s.msgs| && PlaceOk(t, Held(c), t.msgs[m])
            && |Visits(t.log, m)| + |t.msgs[m].dest| == |t.msgs[m].snapshot|
  {
    hide RegistryInv, MsgOk, Linear, Visits, VisitsOk, At;
    var m := s.queues[c][0];
    AtHead(s, c);
    assert At(s, Queued(c, 0), m);
    AtExists(s, Queued(c, 0), m);
    VisitsSnoc(s.log, Event(c, m), m);
  }

  lemma AtExists(s: Sys, p: Place, id: nat)
    requires Linear(s) && At(s, p, id)
    ensures id < |s.msgs|
  {
  }

  /** Every other message stays where it is, or moves up in its queue. */
  lemma ReceiveOthers(s: Sys, c: nat, q: Place, id: nat)
    requires FlowInv(s)
    requires c in s.tasks && c in s.queues && s.queues[c] != [] && Free(s.tasks[c])
    requires At(s, q, id) && id != s.queues[c][0]
    ensures var t := DoReceive(s, c);
            && t.msgs == s.msgs && id < |s.msgs| && PlaceOk(t, q, t.msgs[id])
            && |Visits(t.log, id)| + |t.msgs[id].dest| + Ahead(q) == |t.msgs[id].snapshot|
  {
    hide RegistryInv, MsgOk, Linear, Visits, VisitsOk, At;
    AtExists(s, q, id);
    VisitsSnoc(s.log, Event(c, s.queues[c][0]), id);
    assert PlaceOk(s, q, s.msgs[id]);
  }

  lemma ReceivePlace(s: Sys, c: nat, p: Place, id: nat)
    requires FlowInv(s)
    requires c in s.tasks && c in s.queues && s.queues[c] != [] && Free(s.tasks[c])
    requires At(DoReceive(s, c), p, id)
    ensures var t := DoReceive(s, c);
            && id < |s.msgs| && PlaceOk(t, p, t.msgs[id])
            && |Visits(t.log, id)| + |t.msgs[id].dest| + Ahead(p) == |t.msgs[id].snapshot|
  {
    hide RegistryInv, MsgOk, Visits, VisitsOk, At, DoReceive;
    var q := BeforeReceive(c, p);
    ReceiveMoves(s, c, p, id);
    if id == s.queues[c][0] {
      AtHead(s, c);
      assert At(s, Queued(c, 0), id) && q == Queued(c, 0);
      ReceiveHead(s, c);
    } else {
      HeadAlone(s, c, p, id);
      ReceiveOthers(s, c, q, id);
      SamePlaceKind(DoReceive(s, c), p, q, id);
    }
  }

  lemma HeadAlone(s: Sys, c: nat, p: Place, id: nat)
    requires c in s.tasks && c in s.queues && s.queues[c] != [] && Free(s.tasks[c])
    requires At(DoReceive(s, c), p, id) && id != s.queues[c][0]
    ensures p != Held(c) && p.Queued? == BeforeReceive(c, p).Queued? && p.Outgoing? == BeforeReceive(c, p).Outgoing?
    ensures p.client == BeforeReceive(c, p).client
  {
  }

  /** What a place asks of its message does not depend on the position in the queue. */
  lemma SamePlaceKind(t: Sys, p: Place, q: Place, id: nat)
    requires p.Queued? == q.Queued? && p.Outgoing? == q.Outgoing? && p.client == q.client
    requires id < |t.msgs| && PlaceOk(t, q, t.msgs[id])
    ensures PlaceOk(t, p, t.msgs[id]) && Ahead(p) == Ahead(q)
  {
  }

  lemma ReceiveMsg(s: Sys, c: nat, id: nat)
    requires FlowInv(s)
    requires c in s.tasks && c in s.queues && s.queues[c] != [] && Free(s.tasks[c])
    requires id < |s.msgs|
    ensures var t := DoReceive(s, c);
            t.msgs[id] == s.msgs[id] && MsgOk(t, t.msgs[id]) && VisitsOk(t, Visits(t.log, id), t.msgs[id])
  {
    hide RegistryInv, MsgOk, At, Visits, Linear;
    var t, m := DoReceive(s, c), s.queues[c][0];
    VisitsSnoc(s.log, Event(c, m), id);
    MsgKeptSame(s, t, s.msgs[id], s.msgs[id].dest);
    VisitsKept(s, t, Visits(s.log, id), s.msgs[id], s.msgs[id].dest);
    if id == m {
      AtHead(s, c);
      assert At(s, Queued(c, 0), m) && PlaceOk(s, Queued(c, 0), s.msgs[m]);
    }
  }

  lemma AtHead(s: Sys, c: nat)
    requires c in s.queues && s.queues[c] != []
    ensures At(s, Queued(c, 0), s.queues[c][0])
  {
  }

  lemma ReceiveKeeps(s: Sys, c: nat)
    requires FlowInv(s)
    requires c in s.tasks && c in s.queues && s.queues[c] != [] && Free(s.tasks[c])
    ensures FlowInv(DoReceive(s, c))
  {
    var t := DoReceive(s, c);
    SameRegistry(s, t);
    ReceiveLinear(s, c);
    hide RegistryInv, MsgOk, At, Visits, Linear, PlaceOk, VisitsOk;
    forall p: Place, id: nat | At(t, p, id)
      ensures id < |s.msgs| && PlaceOk(t, p, t.msgs[id])
      ensures |Visits(t.log, id)| + |t.msgs[id].dest| + Ahead(p) == |t.msgs[id].snapshot|
    {
      ReceivePlace(s, c, p, id);
    }
    forall id: nat | 0 <= id < |s.msgs|
      ensures MsgOk(t, t.msgs[id]) && VisitsOk(t, Visits(t.log, id), t.msgs[id])
    {
      ReceiveMsg(s, c, id);
    }
  }

  // ----- forwarding

  /** Forwarding takes one entry off the list, and puts the message into the queue with that address, if at all. */
  lemma PassTakesOne(s: Sys, m: nat)
    requires RegistryInv(s) && m < |s.msgs| && MsgOk(s, s.msgs[m])
    requires s.msgs[m].dest != []
    ensures var (target, rest) := Route(s.reg.clients, s.msgs[m].dest);
            && rest == s.msgs[m].dest[..|s.msgs[m].dest| - 1]
            && (target.Some? ==> target.value in s.queues && target.value in s.tasks
                                 && s.tasks[target.value].addr == s.msgs[m].dest[|s.msgs[m].dest| - 1])
            && (s.msgs[m].to >= 0 ==> target.Some?)
  {
    var msg := s.msgs[m];
    var next := msg.dest[|msg.dest| - 1];
    assert next in msg.snapshot by { assert msg.dest[|msg.dest| - 1] == msg.snapshot[|msg.dest| - 1]; }
    if msg.to >= 0 {
      assert IsMember(s, next);
      var c :| c in s.queues && c in s.tasks && s.tasks[c].addr == next;
      OwnerResolves(s, c);
    }
    if Resolve(s.reg.clients, next).Some? {
      ResolvesToOwner(s, next);
    } else {
      assert |msg.snapshot| == 1;
      assert msg.dest[..|msg.dest| - 1] == [];
    }
  }

  /** The queue that message `m` enters when it is passed on. */
  function Landing(s: Sys, m: nat): (y: Option<nat>)
    requires m < |s.msgs|
    ensures y.Some? ==> y.value in s.queues && |s.queues[y.value]| < MESSAGE_QUEUE_LENGTH
  {
    var target := Route(s.reg.clients, s.msgs[m].dest).0;
    if target.Some? && target.value in s.queues && |s.queues[target.value]| < MESSAGE_QUEUE_LENGTH then target else None
  }

  function Rest(dest: seq<int>): (r: seq<int>)
    ensures r <= dest
  {
    if dest == [] then [] else dest[..|dest| - 1]
  }

  /** The whole effect of forwarding. */
  lemma ForwardEffect(s: Sys, c: nat, m: nat)
    requires RegistryInv(s) && m < |s.msgs| && MsgOk(s, s.msgs[m])
    requires c in s.tasks && Carried(s.tasks[c]) == Some(m)
    ensures var t, y, dest := DoForward(s, c), Landing(s, m), s.msgs[m].dest;
            && t == Sys(s.reg, s.tasks[c := PutDown(s.tasks[c])],
                        if y.Some? then s.queues[y.value := s.queues[y.value] + [m]] else s.queues,
                        s.msgs[m := s.msgs[m].(dest := Rest(dest))], s.log)
            && (y.Some? ==> dest != [] && y.value in s.tasks && s.tasks[y.value].addr == dest[|dest| - 1])
  {
    if s.msgs[m].dest != [] {
      hide RegistryInv, MsgOk;
      PassTakesOne(s, m);
    }
  }

  function CarriedPlace(t: Task, c: nat): Place {
    if t.outgoing.Some? then Outgoing(c) else Held(c)
  }

  /** Where a message at `p` was before client `c` forwarded what it carried into the queue of `y`. */
  function BeforeForward(s: Sys, c: nat, y: Option<nat>, p: Place): Place
    requires c in s.tasks && (y.Some? ==> y.value in s.queues)
  {
    if y.Some? && p == Queued(y.value, |s.queues[y.value]|) then CarriedPlace(s.tasks[c], c) else p
  }

  lemma ForwardMoves(s: Sys, c: nat, m: nat, p: Place, id: nat)
    requires FlowInv(s) && m < |s.msgs| && c in s.tasks && Carried(s.tasks[c]) == Some(m)
    requires At(DoForward(s, c), p, id)
    ensures At(s, BeforeForward(s, c, Landing(s, m), p), id)
    ensures At(s, CarriedPlace(s.tasks[c], c), m)
    ensures p != CarriedPlace(s.tasks[c], c)
  {
    ForwardEffect(s, c, m);
    hide DoForward, RegistryInv, MsgOk, Linear;
    assert MsgOk(s, s.msgs[m]);
  }

  lemma ForwardLinear(s: Sys, c: nat, m: nat)
    requires FlowInv(s) && m < |s.msgs| && c in s.tasks && Carried(s.tasks[c]) == Some(m)
    ensures Linear(DoForward(s, c))
  {
    var t, y := DoForward(s, c), Landing(s, m);
    forall p: Place, id: nat | At(t, p, id)
      ensures At(s, BeforeForward(s, c, y, p), id) && p != CarriedPlace(s.tasks[c], c)
    {
      ForwardMoves(s, c, m, p, id);
    }
    ForwardEffect(s, c, m);
    hide DoForward, RegistryInv, MsgOk, At;
    forall p: Place, q: Place, id: nat | At(t, p, id) && At(t, q, id)
      ensures p == q
    {
      assert BeforeForward(s, c, y, p) == BeforeForward(s, c, y, q);
    }
  }

  lemma ForwardPlace(s: Sys, c: nat, m: nat, p: Place, id: nat)
    requires FlowInv(s) && m < |s.msgs| && c in s.tasks && Carried(s.tasks[c]) == Some(m)
    requires At(DoForward(s, c), p, id)
    ensures var t := DoForward(s, c);
            && id < |s.msgs| && PlaceOk(t, p, t.msgs[id])
            && |Visits(t.log, id)| + |t.msgs[id].dest| + Ahead(p) == |t.msgs[id].snapshot|
  {
    var t, q := DoForward(s, c), BeforeForward(s, c, Landing(s, m), p);
    ForwardMoves(s, c, m, p, id);
    ForwardEffect(s, c, m);
    assert MsgOk(s, s.msgs[m]) && s.msgs[m].dest <= s.msgs[m].snapshot;
    hide DoForward, RegistryInv, MsgOk, At, Visits;
    assert At(s, q, id) && PlaceOk(s, q, s.msgs[id]);
    if id == m {
      assert q == CarriedPlace(s.tasks[c], c);
    }
  }

  lemma ForwardSame(s: Sys, c: nat, m: nat)
    requires RegistryInv(s) && m < |s.msgs| && MsgOk(s, s.msgs[m])
    requires c in s.tasks && Carried(s.tasks[c]) == Some(m)
    ensures RegistryInv(DoForward(s, c)) && SameClients(s, DoForward(s, c))
  {
    ForwardEffect(s, c, m);
    hide DoForward, Landing, Carried, RegistryInv, MsgOk;
    assert DoForward(s, c).queues.Keys == s.queues.Keys;
    assert DoForward(s, c).tasks.Keys == s.tasks.Keys;
    SameRegistry(s, DoForward(s, c));
  }

  lemma ForwardMsg(s: Sys, c: nat, m: nat, id: nat)
    requires FlowInv(s) && m < |s.msgs| && c in s.tasks && Carried(s.tasks[c]) == Some(m)
    requires id < |s.msgs|
    ensures var t := DoForward(s, c);
            && t.log == s.log && |t.msgs| == |s.msgs|
            && t.msgs[id] == s.msgs[id].(dest := if id == m then Rest(s.msgs[id].dest) else s.msgs[id].dest)
            && MsgOk(t, t.msgs[id]) && VisitsOk(t, Visits(t.log, id), t.msgs[id])
  {
    hide DoForward, RegistryInv, MsgOk, VisitsOk, SameClients, At, Visits, Linear, PutDown, Landing, Carried, Rest,
      PlaceOk;
    var t := DoForward(s, c);
    assert MsgOk(s, s.msgs[id]) && VisitsOk(s, Visits(s.log, id), s.msgs[id]);
    assert MsgOk(s, s.msgs[m]);
    ForwardEffect(s, c, m);
    ForwardSame(s, c, m);
    MsgKeptSame(s, t, s.msgs[id], t.msgs[id].dest);
    VisitsKept(s, t, Visits(s.log, id), s.msgs[id], t.msgs[id].dest);
  }

  lemma ForwardKeeps(s: Sys, c: nat, m: nat)
    requires FlowInv(s) && m < |s.msgs| && c in s.tasks && Carried(s.tasks[c]) == Some(m)
    ensures FlowInv(DoForward(s, c))
  {
    var t := DoForward(s, c);
    assert MsgOk(s, s.msgs[m]);
    ForwardSame(s, c, m);
    ForwardLinear(s, c, m);
    hide DoForward, Carried, RegistryInv, MsgOk, At, Visits, VisitsOk, Linear, PlaceOk;
    forall p: Place, id: nat | At(t, p, id)
      ensures id < |s.msgs| && PlaceOk(t, p, t.msgs[id])
      ensures |Visits(t.log, id)| + |t.msgs[id].dest| + Ahead(p) == |t.msgs[id].snapshot|
    {
      ForwardPlace(s, c, m, p, id);
    }
    ForwardMsg(s, c, m, m);
    forall id: nat | 0 <= id < |s.msgs|
      ensures MsgOk(t, t.msgs[id]) && VisitsOk(t, Visits(t.log, id), t.msgs[id])
    {
      ForwardMsg(s, c, m, id);
    }
  }

  // ----- every run

  lemma StepKeepsLog(s: Sys, a: Action)
    requires FlowInv(s) && LogOk(s)
    ensures LogOk(Apply(s, a))
  {
    hide RegistryInv, MsgOk, VisitsOk, Visits, PlaceOk;
    match a
    case Send(c, to) =>
    case Forward(c) =>
      if c in s.tasks && Carried(s.tasks[c]).Some? {
        CarriedAt(s, c);
        var m := Carried(s.tasks[c]).value;
        assert MsgOk(s, s.msgs[m]);
        ForwardEffect(s, c, m);
      }
    case Receive(c) =>
      if c in s.tasks && c in s.queues && s.queues[c] != [] && Free(s.tasks[c]) {
        assert At(s, Queued(c, 0), s.queues[c][0]);
      }
    case _ => QuietStep(s, a);
  }

  lemma CarriedAt(s: Sys, c: nat)
    requires Linear(s) && c in s.tasks && Carried(s.tasks[c]).Some?
    ensures Carried(s.tasks[c]).value < |s.msgs|
    ensures At(s, CarriedPlace(s.tasks[c], c), Carried(s.tasks[c]).value)
  {
    assert At(s, CarriedPlace(s.tasks[c], c), Carried(s.tasks[c]).value);
  }

  lemma StepKeeps(s: Sys, a: Action)
    requires FlowInv(s) && LogOk(s)
    ensures FlowInv(Apply(s, a))
  {
    hide RegistryInv, MsgOk, VisitsOk, Visits, PlaceOk, At;
    match a
    case Send(c, to) =>
      if c in s.tasks && s.tasks[c].outgoing.None? && to != INVALID { SendKeeps(s, c, to); }
    case Forward(c) =>
      if c in s.tasks && Carried(s.tasks[c]).Some? {
        CarriedAt(s, c);
        ForwardKeeps(s, c, Carried(s.tasks[c]).value);
      }
    case Receive(c) =>
      if c in s.tasks && c in s.queues && s.queues[c] != [] && Free(s.tasks[c]) { ReceiveKeeps(s, c); }
    case _ =>
      QuietStep(s, a);
      QuietKeepsFlow(s, Apply(s, a));
  }

  lemma {:induction false} EveryRun(run: seq<Action>)
    ensures FlowInv(Final(run)) && LogOk(Final(run))
  {
    if run != [] {
      var s, a := Final(run[..|run| - 1]), run[|run| - 1];
      EveryRun(run[..|run| - 1]);
      hide FlowInv, LogOk, Apply;
      StepKeeps(s, a);
      StepKeepsLog(s, a);
    }
  }

  // ----- main results

  /**
    In every run, client entries relate addresses to queues one to one, group names and addresses are
    distinct and within the counter, groups hold connected clients only, and the second section of a
    named join finds the group that the first section found or made.
    */
  lemma RegistryInEveryRun(run: seq<Action>, c: nat)
    ensures var s := Final(run);
            && ClientsValid(s.reg) && GroupsValid(s.reg) && MembersConnected(s)
            && (c in s.tasks && s.tasks[c].joining.Some? ==>
                  && HasGroup(s.reg, s.tasks[c].joining.value)
                  && !JoinGroup(s.reg, s.tasks[c].joining.value, s.tasks[c].addr).NullName?)
            && (c in s.queues ==> c in s.tasks && Resolve(s.reg.clients, s.tasks[c].addr) == Some(c))
  {
    hide Final, Apply;
    var s := Final(run);
    EveryRun(run);
    hide Linear, MsgOk, VisitsOk;
    if c in s.tasks && s.tasks[c].joining.Some? {
      JoinAddKeeps(s, c);
    }
    if c in s.queues {
      OwnerResolves(s, c);
    }
  }

  /** In every run, a message is in one queue at one position, or with one task, or nowhere any more. */
  lemma OneOwner(run: seq<Action>, p: Place, q: Place, id: nat)
    requires At(Final(run), p, id) && At(Final(run), q, id)
    ensures p == q && id < |Final(run).msgs|
  {
    EveryRun(run);
  }

  /**
    In every run, the clients that have received a message are the owners of the last addresses of its
    snapshot, read backwards and without a gap; so it is received at most once per entry.
    The queue it is in belongs to the next one.
    */
  lemma HopBound(run: seq<Action>, id: nat)
    requires id < |Final(run).msgs|
    ensures var s := Final(run);
            var m, v := s.msgs[id], Visits(s.log, id);
            && |v| <= |m.snapshot|
            && (forall i | 0 <= i < |v| ::
                  v[i] in s.tasks && s.tasks[v[i]].addr == m.snapshot[|m.snapshot| - 1 - i])
            && (forall h, i | At(s, Queued(h, i), id) ::
                  |v| < |m.snapshot| && h in s.tasks && s.tasks[h].addr == m.snapshot[|m.snapshot| - 1 - |v|])
  {
    hide Final, Apply, RegistryInv, MsgOk, Linear, At, Visits;
    var s := Final(run);
    EveryRun(run);
    assert VisitsOk(s, Visits(s.log, id), s.msgs[id]);
  }

  /** Every forward of a message whose list is not empty shortens that list by its last entry. */
  lemma ForwardShrinks(run: seq<Action>, c: nat, m: nat)
    requires c in Final(run).tasks && Carried(Final(run).tasks[c]) == Some(m)
    ensures var s, t := Final(run), Final(run + [Forward(c)]);
            && m < |s.msgs| == |t.msgs|
            && t.msgs[m].snapshot == s.msgs[m].snapshot
            && (s.msgs[m].dest != [] ==> t.msgs[m].dest + [s.msgs[m].dest[|s.msgs[m].dest| - 1]] == s.msgs[m].dest)
            && (forall id | 0 <= id < |s.msgs| && id != m :: t.msgs[id] == s.msgs[id])
  {
    hide Final, Apply, DoForward, RegistryInv, VisitsOk, MsgOk, Linear, At, PlaceOk, Visits, Carried, PutDown, Landing;
    var s := Final(run);
    EveryRun(run);
    FinalSnoc(run, Forward(c));
    ForwardApplies(s, c);
    CarriedAt(s, c);
    assert MsgOk(s, s.msgs[m]);
    ForwardEffect(s, c, m);
  }

  lemma FinalSnoc(run: seq<Action>, a: Action)
    ensures Final(run + [a]) == Apply(Final(run), a)
  {
    assert (run + [a])[..|run|] == run;
  }

  lemma ForwardApplies(s: Sys, c: nat)
    requires c in s.tasks
    ensures Apply(s, Forward(c)) == DoForward(s, c)
  {
  }
}
