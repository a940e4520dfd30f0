/**
  The message bus as a state machine.  Every critical section under the bus mutex, and every queue
  receive, is one atomic step of one task; steps of different tasks interleave freely.
  */
module BusProtocol {
  import opened Options
  import opened BusRegistry

  const MESSAGE_QUEUE_LENGTH := 32

  /**
    A message in memory.  `snapshot` is the destination list it was created with, `dest` what is left of
    it; the next destination is the last element.
    */
  datatype Msg = Msg(from: int, to: int, snapshot: seq<int>, dest: seq<int>)

  /**
    What one client's task holds between two steps: its bus address, the group address of a named join or
    leave whose second section is still to come, a message it is about to send, and a message it has
    received and is still processing.
    */
  datatype Task = Task(
    addr: int,
    joining: Option<int>,
    leaving: Option<int>,
    outgoing: Option<nat>,
    inHand: Option<nat>)

  /** A message handed to a client's `receive`. */
  datatype Event = Event(client: nat, msg: nat)

  /** Clients are numbered; a client that has been initialized owns the queue with its number. */
  datatype Sys = Sys(
    reg: Registry<nat>,
    tasks: map<nat, Task>,
    queues: map<nat, seq<nat>>,
    msgs: seq<Msg>,
    log: seq<Event>)

  datatype Action =
    | NewClient(client: nat)
    | Initialize(client: nat)
    | Reconnect(client: nat)
    | JoinFind(client: nat, name: string)
    | JoinAdd(client: nat)
    | LeaveFind(client: nat, name: string)
    | LeaveRemove(client: nat)
    | Send(client: nat, to: int)
    | Forward(client: nat)
    | Receive(client: nat)

  function Initial(): Sys {
    Sys(Registry([], [], 0, 0), map[], map[], [], [])
  }

  // ----- steps; a step that is not enabled changes nothing

  function DoConnect(s: Sys, c: nat): Sys
    requires c in s.tasks
  {
    var (reg, addr) := Connect(s.reg, c);
    s.(reg := reg, tasks := s.tasks[c := s.tasks[c].(addr := addr)])
  }

  function DoInitialize(s: Sys, c: nat): Sys
    requires c in s.tasks
  {
    if c in s.queues then s
    else DoConnect(s.(queues := s.queues[c := []]), c)
  }

  function DoJoinFind(s: Sys, c: nat, name: string): Sys
    requires c in s.tasks
  {
    var (reg, addr) := NameGroup(s.reg, name);
    s.(reg := reg, tasks := s.tasks[c := s.tasks[c].(joining := Some(addr))])
  }

  function DoJoinAdd(s: Sys, c: nat): Sys
    requires c in s.tasks && s.tasks[c].joining.Some?
  {
    var t := s.tasks[c];
    var done := s.(tasks := s.tasks[c := t.(joining := None)]);
    match JoinGroup(s.reg, t.joining.value, t.addr)
    case Joined(reg) => done.(reg := reg)
    case _ => done
  }

  function DoLeaveFind(s: Sys, c: nat, name: string): Sys
    requires c in s.tasks
  {
    match FindNamed(s.reg.groups, name)
    case Some(i) => s.(tasks := s.tasks[c := s.tasks[c].(leaving := Some(s.reg.groups[i].addr))])
    case None => s
  }

  function DoLeaveRemove(s: Sys, c: nat): Sys
    requires c in s.tasks && s.tasks[c].leaving.Some?
  {
    var t := s.tasks[c];
    s.(tasks := s.tasks[c := t.(leaving := None)], reg := LeaveGroup(s.reg, t.leaving.value, t.addr))
  }

  /** A new message takes its snapshot and waits to be sent on. */
  function DoSend(s: Sys, c: nat, to: int): Sys
    requires c in s.tasks
  {
    var snapshot := Destination(s.reg, to);
    s.(msgs := s.msgs + [Msg(s.tasks[c].addr, to, snapshot, snapshot)],
       tasks := s.tasks[c := s.tasks[c].(outgoing := Some(|s.msgs|))])
  }

  /** The next destination that resolves, if any, and what is left of the list. */
  function Route<Q>(clients: seq<Client<Q>>, dest: seq<int>): (r: (Option<Q>, seq<int>))
    ensures |r.1| <= |dest| && r.1 == dest[..|r.1|]
    ensures dest != [] ==> |r.1| < |dest|
    ensures r.0.Some? ==> dest != [] && Resolve(clients, dest[|r.1|]) == r.0
  {
    if dest == [] then (None, [])
    else
      var rest := dest[..|dest| - 1];
      match Resolve(clients, dest[|dest| - 1])
      case Some(queue) => (Some(queue), rest)
      case None => Route(clients, rest)
  }

  /** The route is the last entry of the list that resolves; what comes after that entry is dropped. */
  lemma {:induction false} RouteFindsLast<Q>(clients: seq<Client<Q>>, dest: seq<int>)
    ensures var (target, rest) := Route(clients, dest);
            && (target.None? ==> rest == [] && forall i | 0 <= i < |dest| :: Resolve(clients, dest[i]).None?)
            && (target.Some? ==> && |rest| < |dest| && Resolve(clients, dest[|rest|]) == target
                                 && forall i | |rest| < i < |dest| :: Resolve(clients, dest[i]).None?)
  {
    hide Resolve;
    if dest != [] && Resolve(clients, dest[|dest| - 1]).None? {
      RouteFindsLast(clients, dest[..|dest| - 1]);
    }
  }

  /** Sends message `m` on: into the next queue that resolves, unless that queue is full. */
  function Pass(s: Sys, m: nat): Sys
    requires m < |s.msgs|
  {
    var (target, rest) := Route(s.reg.clients, s.msgs[m].dest);
    var popped := s.(msgs := s.msgs[m := s.msgs[m].(dest := rest)]);
    if target.Some? && target.value in s.queues && |s.queues[target.value]| < MESSAGE_QUEUE_LENGTH then
      popped.(queues := s.queues[target.value := s.queues[target.value] + [m]])
    else popped
  }

  /** The message that a task passes on next: one it sends comes before the one it processes. */
  function Carried(t: Task): Option<nat> {
    if t.outgoing.Some? then t.outgoing else t.inHand
  }

  function PutDown(t: Task): Task {
    if t.outgoing.Some? then t.(outgoing := None) else t.(inHand := None)
  }

  function DoForward(s: Sys, c: nat): Sys
    requires c in s.tasks
  {
    var m := Carried(s.tasks[c]);
    if m.Some? && m.value < |s.msgs| then
      Pass(s, m.value).(tasks := s.tasks[c := PutDown(s.tasks[c])])
    else s
  }

  function DoReceive(s: Sys, c: nat): Sys
    requires c in s.tasks && c in s.queues && s.queues[c] != []
  {
    var m := s.queues[c][0];
    s.(queues := s.queues[c := s.queues[c][1..]],
       tasks := s.tasks[c := s.tasks[c].(inHand := Some(m))],
       log := s.log + [Event(c, m)])
  }

  predicate Free(t: Task) {
    t.outgoing.None? && t.inHand.None?
  }

  function Apply(s: Sys, a: Action): Sys {
    match a
    case NewClient(c) =>
      if c in s.tasks then s else s.(tasks := s.tasks[c := Task(INVALID, None, None, None, None)])
    case Initialize(c) => if c in s.tasks then DoInitialize(s, c) else s
    case Reconnect(c) => if c in s.tasks && c in s.queues then DoConnect(s, c) else s
    case JoinFind(c, name) => if c in s.tasks then DoJoinFind(s, c, name) else s
    case JoinAdd(c) => if c in s.tasks && s.tasks[c].joining.Some? then DoJoinAdd(s, c) else s
    case LeaveFind(c, name) => if c in s.tasks then DoLeaveFind(s, c, name) else s
    case LeaveRemove(c) => if c in s.tasks && s.tasks[c].leaving.Some? then DoLeaveRemove(s, c) else s
    case Send(c, to) => if c in s.tasks && s.tasks[c].outgoing.None? && to != INVALID then DoSend(s, c, to) else s
    case Forward(c) => if c in s.tasks then DoForward(s, c) else s
    case Receive(c) =>
      if c in s.tasks && c in s.queues && s.queues[c] != [] && Free(s.tasks[c]) then DoReceive(s, c) else s
  }

  /** The state after a run. */
  function Final(run: seq<Action>): Sys {
    if run == [] then Initial() else Apply(Final(run[..|run| - 1]), run[|run| - 1])
  }

  // ----- the registry in every run

  /**
    Entries and owners correspond: every queue belongs to a connected task, and the entry of a client
    carries the address and the queue of its task.
    */
  ghost predicate Connected(s: Sys) {
    && (forall k | k in s.reg.clients :: k.queue in s.queues)
    && (forall c | c in s.queues :: c in s.tasks && Client(s.tasks[c].addr, c) in s.reg.clients)
    && (forall c | c in s.tasks && c !in s.queues :: s.tasks[c].addr == INVALID)
  }

  ghost predicate JoinsFind(s: Sys) {
    forall c | c in s.tasks && s.tasks[c].joining.Some? :: HasGroup(s.reg, s.tasks[c].joining.value)
  }

  ghost predicate IsMember(s: Sys, a: int) {
    exists c :: c in s.queues && c in s.tasks && s.tasks[c].addr == a
  }

  /** Groups hold addresses of connected clients only. */
  ghost predicate MembersConnected(s: Sys) {
    forall g, a | g > 0 && a in Destination(s.reg, g) :: IsMember(s, a)
  }

  ghost predicate RegistryInv(s: Sys) {
    && ClientsValid(s.reg) && GroupsValid(s.reg)
    && Connected(s) && JoinsFind(s) && MembersConnected(s)
  }
}
