/**
  The message bus itself: the registry that its critical sections change in place, and the clients with
  their bounded queues.  Each method is proved against the functions of the registry model.
  */
module MessageBus {
  import opened Options
  import opened BusRegistry
  import opened BusProtocol

  /** A message in memory; what it carries plays no part in routing. */
  class BusMsg {
    const from: int
    const to: int
    var destination: seq<int>

    constructor (from: int, to: int, destination: seq<int>)
      ensures this.from == from && this.to == to && this.destination == destination
    {
      this.from := from;
      this.to := to;
      this.destination := destination;
    }
  }

  /** A FreeRTOS queue of message pointers, used without waiting. */
  class MessageQueue {
    var items: seq<BusMsg>

    constructor ()
      ensures items == []
    {
      items := [];
    }

    method TrySend(msg: BusMsg) returns (ok: bool)
      modifies this
      ensures ok == (|old(items)| < MESSAGE_QUEUE_LENGTH)
      ensures items == if ok then old(items) + [msg] else old(items)
    {
      ok := |items| < MESSAGE_QUEUE_LENGTH;
      if ok {
        items := items + [msg];
      }
    }

    method TryReceive() returns (msg: BusMsg?)
      modifies this
      ensures old(items) == [] ==> msg == null && items == []
      ensures old(items) != [] ==> msg != null && old(items) == [msg] + items
    {
      if items == [] {
        msg := null;
      } else {
        msg := items[0];
        items := items[1..];
      }
    }
  }

  class Bus {
    var clients: seq<Client<MessageQueue>>
    var groups: seq<Group>
    var addrLast: int
    var groupLast: int

    function State(): Registry<MessageQueue>
      reads this
    {
      Registry(clients, groups, addrLast, groupLast)
    }

    ghost predicate Valid()
      reads this
    {
      ClientsValid(State()) && GroupsValid(State())
    }

    /** The queues that a message can be sent to. */
    ghost function Queues(): set<MessageQueue>
      reads this
    {
      set c | c in clients :: c.queue
    }

    constructor ()
      ensures Valid() && State() == Registry([], [], 0, 0)
    {
      clients, groups, addrLast, groupLast := [], [], INVALID, INVALID;
    }

    method Connect(client: BusClient) returns (ok: bool)
      requires Valid()
      modifies this, client`addr
      ensures Valid()
      ensures ok == (client.queue != null)
      ensures !ok ==> State() == old(State()) && client.addr == old(client.addr)
      ensures ok ==> (State(), client.addr) == BusRegistry.Connect(old(State()), client.queue)
      ensures ok ==> client.queue in Queues() && old(Queues()) <= Queues() <= old(Queues()) + {client.queue}
    {
      if client.queue == null {
        return false;
      }
      ConnectKeeps(State(), client.queue);
      match FindQueue(clients, client.queue) {
        case Some(i) =>
          client.addr := clients[i].addr;
        case None =>
          addrLast := addrLast - 1;
          client.addr := addrLast;
          clients := [Client(client.addr, client.queue)] + clients;
      }
      ok := true;
      QueuesGrow(old(State()), State(), Client(client.addr, client.queue));
    }

    method Disconnect(client: BusClient)
      requires Valid()
      modifies this, client`addr
      ensures Valid()
      ensures client.queue == null ==> State() == old(State()) && client.addr == old(client.addr)
      ensures client.queue != null ==>
                State() == BusRegistry.Disconnect(old(State()), client.queue) && client.addr == INVALID
      ensures Queues() <= old(Queues())
    {
      if client.queue == null {
        return;
      }
      DisconnectKeeps(State(), client.queue);
      var queue := client.queue;
      QueuesShrink(clients, queue);
      clients := RemoveIf(clients, OtherQueue(queue));
      client.addr := INVALID;
    }

    /** The second section of a named join. */
    method JoinAddress(addr: int, client: BusClient) returns (ok: bool)
      requires Valid() && (addr <= INVALID || client.addr >= INVALID || HasGroup(State(), addr))
      modifies this
      ensures Valid()
      ensures ok == JoinGroup(old(State()), addr, client.addr).Joined?
      ensures State() == if ok then JoinGroup(old(State()), addr, client.addr).reg else old(State())
    {
      if addr <= INVALID || client.addr >= INVALID {
        return false;
      }
      JoinGroupKeeps(State(), addr, client.addr, addr);
      var i := FindGroup(groups, addr).value;
      if client.addr !in groups[i].destination {
        groups := groups[i := groups[i].(destination := [client.addr] + groups[i].destination)];
      }
      ok := true;
    }

    method Join(name: Option<string>, client: BusClient) returns (ok: bool)
      requires Valid()
      modifies this
      ensures Valid()
      ensures ok == (name.Some? && client.addr < INVALID)
      ensures name.None? ==> State() == old(State())
      ensures name.Some? ==>
                var (named, addr) := NameGroup(old(State()), name.value);
                State() == if ok then JoinGroup(named, addr, client.addr).reg else named
    {
      if name.None? {
        return false;
      }
      NameGroupKeeps(State(), name.value);
      var addr;
      match FindNamed(groups, name.value) {
        case Some(i) =>
          addr := groups[i].addr;
        case None =>
          groupLast := groupLast + 1;
          addr := groupLast;
          groups := [Group(addr, name.value, [])] + groups;
      }
      NameGroupFinds(old(State()), name.value, addr);
      NamedAddress(old(State()), name.value);
      JoinGroupKeeps(State(), addr, client.addr, addr);
      ok := JoinAddress(addr, client);
    }

    method LeaveAddress(addr: int, client: BusClient)
      requires Valid()
      modifies this
      ensures Valid() && State() == LeaveGroup(old(State()), addr, client.addr)
    {
      if addr <= INVALID || client.addr >= INVALID {
        return;
      }
      LeaveGroupKeeps(State(), addr, client.addr, addr);
      var mine := client.addr;
      match FindGroup(groups, addr)
      case None =>
      case Some(i) =>
        var left := RemoveIf(groups[i].destination, OtherAddress(mine));
        groups := groups[i := groups[i].(destination := left)];
    }

    method Leave(name: Option<string>, client: BusClient)
      requires Valid()
      modifies this
      ensures Valid()
      ensures State() == if name.Some? && FindNamed(old(groups), name.value).Some?
                         then var i := FindNamed(old(groups), name.value).value;
                              LeaveGroup(old(State()), old(groups)[i].addr, client.addr)
                         else old(State())
    {
      if name.Some? {
        match FindNamed(groups, name.value)
        case None =>
        case Some(i) => LeaveAddress(groups[i].addr, client);
      }
    }

    /** The queue of a client address, or null. */
    method ResolveQueue(addr: int) returns (queue: MessageQueue?)
      ensures queue == null <==> Resolve(clients, addr).None?
      ensures queue != null ==> Resolve(clients, addr) == Some(queue) && queue in Queues()
    {
      queue := null;
      match Resolve(clients, addr)
      case None =>
      case Some(found) => queue := found;
    }

    /** A copy of the list of clients that a message to `addr` goes to. */
    method DestinationOf(addr: int) returns (destination: seq<int>)
      ensures destination == Destination(State(), addr)
      ensures forall k | 0 <= k < |destination| :: addr < 0 ==> destination[k] == addr
    {
      if addr < 0 {
        return [addr];
      } else if addr > 0 {
        match FindGroup(groups, addr) {
          case Some(i) => return groups[i].destination;
          case None =>
        }
      }
      destination := [];
    }

    /** The address of a named group, or `INVALID`. */
    method ResolveName(name: Option<string>) returns (addr: int)
      requires Valid()
      ensures addr != INVALID <==> name.Some? && exists g | g in groups :: g.name == name.value
      ensures addr != INVALID ==> exists g | g in groups :: g.name == name.value && g.addr == addr
    {
      addr := INVALID;
      if name.Some? {
        match FindNamed(groups, name.value)
        case None =>
        case Some(i) => addr := groups[i].addr;
      }
    }
  }

  lemma NamedAddress<Q>(reg: Registry<Q>, name: string)
    requires GroupsValid(reg)
    ensures NameGroup(reg, name).1 > INVALID
  {
  }

  lemma QueuesGrow<Q>(a: Registry<Q>, b: Registry<Q>, added: Client<Q>)
    requires added in b.clients
    requires forall c | c in a.clients :: c in b.clients
    requires forall c | c in b.clients :: c in a.clients || c == added
    ensures var before, after := set c | c in a.clients :: c.queue, set c | c in b.clients :: c.queue;
            added.queue in after && before <= after <= before + {added.queue}
  {
  }

  lemma QueuesShrink<Q>(clients: seq<Client<Q>>, queue: Q)
    ensures (set c | c in RemoveIf(clients, OtherQueue(queue)) :: c.queue) <= (set c | c in clients :: c.queue)
  {
    hide RemoveIf;
    forall c | c in RemoveIf(clients, OtherQueue(queue))
      ensures c in clients
    {
      RemoveIfMember(clients, OtherQueue(queue), c);
    }
  }

  /** `after` is `before` with some of `own` added at the end. */
  ghost predicate Gained(before: seq<BusMsg>, after: seq<BusMsg>, own: set<BusMsg>) {
    before <= after && forall m | m in after[|before|..] :: m in own
  }

  class BusClient {
    const bus: Bus
    var addr: int
    var queue: MessageQueue?

    constructor (bus: Bus)
      ensures this.bus == bus && addr == INVALID && queue == null
    {
      this.bus := bus;
      addr := INVALID;
      queue := null;
    }

    predicate IsConnectedToBus()
      reads this
    {
      queue != null && addr != INVALID
    }

    /** `created` tells whether the system can make a queue. */
    method Initialize(created: bool) returns (ok: bool)
      requires bus.Valid()
      modifies this, bus
      ensures bus.Valid() && ok == (queue != null && addr != INVALID)
      ensures old(queue) != null || !created ==>
                bus.State() == old(bus.State()) && addr == old(addr) && queue == old(queue)
      ensures old(queue) == null && created ==>
                && queue != null && fresh(queue) && queue.items == [] && ok
                && (bus.State(), addr) == BusRegistry.Connect(old(bus.State()), queue)
    {
      if queue == null && created {
        queue := new MessageQueue();
        var connected := bus.Connect(this);
        ConnectedAddress(old(bus.State()), queue);
      }
      ok := IsConnectedToBus();
    }

    /**
      Sends a message on: drops entries from the back of its list until one resolves, and puts the message
      into that client's queue.  `passed` says that the queue has taken the message over; otherwise the
      message is destroyed.
      */
    method SendToNextClient(msg: BusMsg) returns (passed: bool)
      requires bus.Valid()
      modifies msg, bus.Queues()
      ensures var (target, rest) := Route(bus.clients, old(msg.destination));
              && msg.destination == rest
              && (passed <==> target.Some? && |old(target.value.items)| < MESSAGE_QUEUE_LENGTH)
              && (passed ==> target.value.items == old(target.value.items) + [msg])
              && (forall q | q in bus.Queues() && !(passed && q == target.value) :: q.items == old(q.items))
      ensures passed ==> |msg.destination| < |old(msg.destination)|
    {
      if msg.destination == [] {
        return false;
      }
      ghost var all := msg.destination;
      var dest := bus.ResolveQueue(msg.destination[|msg.destination| - 1]);
      msg.destination := msg.destination[..|msg.destination| - 1];
      while msg.destination != [] && dest == null
        invariant |msg.destination| < |all|
        invariant dest != null ==> Route(bus.clients, all) == (Some(dest), msg.destination)
        invariant dest == null ==> Route(bus.clients, all) == Route(bus.clients, msg.destination)
        invariant forall q | q in bus.Queues() :: q.items == old(q.items)
        decreases |msg.destination|
      {
        dest := bus.ResolveQueue(msg.destination[|msg.destination| - 1]);
        msg.destination := msg.destination[..|msg.destination| - 1];
      }
      if dest == null {
        return false;
      }
      passed := dest.TrySend(msg);
    }

    /** Sends a new message to the clients that `to` stands for at this moment. */
    method Send(to: int) returns (ghost msg: BusMsg?)
      requires bus.Valid()
      modifies bus.Queues()
      ensures to == INVALID ==> msg == null && forall q | q in bus.Queues() :: q.items == old(q.items)
      ensures to != INVALID ==>
                && msg != null && fresh(msg) && msg.from == addr && msg.to == to
                && var (target, rest) := Route(bus.clients, Destination(bus.State(), to));
                && msg.destination == rest
                && forall q | q in bus.Queues() ::
                     q.items == old(q.items)
                                + if Some(q) == target && |old(q.items)| < MESSAGE_QUEUE_LENGTH then [msg] else []
    {
      if to == INVALID {
        return null;
      }
      var destination := bus.DestinationOf(to);
      var busMsg := new BusMsg(addr, to, destination);
      var passed := SendToNextClient(busMsg);
      msg := busMsg;
    }

    /**
      Receives the message at the head of the queue, if any, and sends it on once it has been processed.
      Processing itself touches neither the message nor the bus here.
      */
    method TryReceive() returns (msg: BusMsg?)
      requires bus.Valid()
      modifies queue, bus.Queues(), OwnMessages()
      ensures old(queue == null || queue.items == []) ==>
                msg == null && forall q | q in bus.Queues() :: q.items == old(q.items)
      ensures old(queue != null && queue.items != []) ==>
                && msg == old(queue.items[0])
                && var (target, rest) := Route(bus.clients, old(queue.items[0].destination));
                && msg.destination == rest
                && forall q | q == queue || q in bus.Queues() ::
                     var left := if q == queue then old(queue.items[1..]) else old(q.items);
                     q.items == left + if Some(q) == target && |left| < MESSAGE_QUEUE_LENGTH then [msg] else []
    {
      msg := null;
      if queue != null {
        msg := queue.TryReceive();
        if msg != null {
          var passed := SendToNextClient(msg);
        }
      }
    }

    ghost function OwnMessages(): set<BusMsg>
      reads this, queue
    {
      if queue == null then {} else set m | m in queue.items
    }

    /** One round of the drain: sends `msg` on and takes the next waiting message. */
    method DrainOne(msg: BusMsg) returns (next: BusMsg?)
      requires bus.Valid() && queue != null
      modifies queue, bus.Queues(), msg
      ensures var (target, rest) := Route(bus.clients, old(msg.destination));
              && msg.destination == rest && (target.Some? ==> target.value in bus.Queues())
              && (forall q | q in bus.Queues() && q != queue ::
                    q.items == old(q.items)
                               + if Some(q) == target && |old(q.items)| < MESSAGE_QUEUE_LENGTH then [msg] else [])
              && var left := old(queue.items)
                             + if Some(queue) == target && |old(queue.items)| < MESSAGE_QUEUE_LENGTH then [msg] else [];
              if left == [] then next == null && queue.items == [] else next != null && left == [next] + queue.items
      ensures Total(Lengths(queue.items)) + (if next == null then 0 else 1 + |next.destination|)
              < old(Total(Lengths(queue.items)) + 1 + |msg.destination|)
    {
      hide Route, ClientsValid, GroupsValid, Total;
      ghost var waiting, before := queue.items, Lengths(queue.items);
      var passed := SendToNextClient(msg);
      ghost var left := queue.items;
      assert left == waiting || (passed && left == waiting + [msg]);
      LeftWeighs(waiting, left, msg, before);
      next := queue.TryReceive();
      if next != null {
        HeadWeighs(next, queue.items);
      }
    }

    /**
      The destructor: disconnects, sends on what is still waiting, and deletes the queue.  The loop ends
      even though a stale registry entry can bring messages back into the queue that is being drained.  What
      becomes of all queues and messages is a number of steps of the drain, up to the empty queue.
      */
    method Destroy()
      requires bus.Valid()
      modifies this, bus, queue, bus.Queues(), OwnMessages()
      ensures bus.Valid() && queue == null
      ensures old(queue) == null ==> bus.State() == old(bus.State())
      ensures old(queue) != null ==>
                && bus.State() == BusRegistry.Disconnect(old(bus.State()), old(queue)) && addr == INVALID
                && old(queue).items == []
                && exists n ::
                     Snapshot(old(bus.Queues()) + {old(queue)}, old(OwnMessages()))
                     == Drained(bus.clients, old(queue),
                                old(Snapshot(bus.Queues() + {queue}, OwnMessages())), n)
      ensures old(queue) != null ==>
                && (forall m | m in old(OwnMessages()) ::
                      && m.destination <= old(m.destination)
                      && (old(m.destination) != [] ==> m.destination != old(m.destination)))
                && (forall q | q in old(bus.Queues()) && q != old(queue) ::
                      Gained(old(q.items), q.items, old(OwnMessages())))
    {
      hide Route, ClientsValid, GroupsValid, RemoveIf, BusRegistry.Disconnect, Total, Drained, Gained, Snapshot;
      bus.Disconnect(this);
      if queue != null {
        ghost var n := DrainAll(old(bus.Queues()) + {queue}, OwnMessages());
        queue := null;
      }
    }

    method DrainAll(ghost queues: set<MessageQueue>, ghost own: set<BusMsg>) returns (ghost n: nat)
      requires bus.Valid() && queue != null && queue in queues && bus.Queues() <= queues && OwnMessages() == own
      modifies queue, bus.Queues(), own
      ensures queue.items == []
      ensures Snapshot(queues, own) == Drained(bus.clients, queue, old(Snapshot(queues, own)), n)
      ensures forall m | m in own ::
                && m.destination <= old(m.destination)
                && (old(m.destination) != [] ==> m.destination != old(m.destination))
      ensures forall q | q in queues && q != queue :: Gained(old(q.items), q.items, own)
    {
      hide Route, ClientsValid, GroupsValid, Total, Drained, Gained;
      ghost var before := Snapshot(queues, own);
      n := Drain(queues, own);
      ghost var after := Snapshot(queues, own);
      DrainedSendsAll(bus.clients, queue, before, n);
      assert forall m | m in own :: after.dests[m] == m.destination && before.dests[m] == old(m.destination);
      assert forall q | q in queues :: after.items[q] == q.items && before.items[q] == old(q.items);
    }

    /** The same as a step on the values of all queues and messages. */
    method DrainTurn(msg: BusMsg, ghost queues: set<MessageQueue>, ghost own: set<BusMsg>) returns (next: BusMsg?)
      requires bus.Valid() && queue != null && queue in queues && bus.Queues() <= queues && msg in own
      requires OwnMessages() <= own
      modifies queue, bus.Queues(), msg
      ensures Holding(Snapshot(queues, own), queue, next)
           == DrainStep(bus.clients, queue, old(Holding(Snapshot(queues, own), queue, msg)))
      ensures next == null ==> queue.items == []
      ensures next != null ==> next in own
      ensures OwnMessages() <= own
      ensures Total(Lengths(queue.items)) + (if next == null then 0 else 1 + |next.destination|)
              < old(Total(Lengths(queue.items)) + 1 + |msg.destination|)
    {
      hide Route, ClientsValid, GroupsValid, Total, DrainStep, Holding;
      ghost var before, waiting := Snapshot(queues, own), queue.items;
      next := DrainOne(msg);
      assert next != null ==> forall m | m in [next] + queue.items :: m in waiting || m == msg;
      StepTaken(bus.clients, queue, before, msg, Snapshot(queues, own), next);
    }

    method FirstWaiting(ghost queues: set<MessageQueue>, ghost own: set<BusMsg>) returns (msg: BusMsg?)
      requires queue != null && queue in queues && OwnMessages() <= own
      modifies queue
      ensures Holding(Snapshot(queues, own), queue, msg) == old(Snapshot(queues, own))
      ensures msg == null ==> queue.items == []
      ensures msg != null ==> msg in own
      ensures OwnMessages() <= own
    {
      ghost var before := Snapshot(queues, own);
      msg := queue.TryReceive();
      assert before.items[queue] == if msg == null then [] else [msg] + queue.items;
      assert msg != null ==> msg in before.items[queue];
      assert forall m | m in queue.items :: m in before.items[queue];
      TakenOut(before, queue, Snapshot(queues, own), msg);
    }

    /** The loop of the destructor. */
    method Drain(ghost queues: set<MessageQueue>, ghost own: set<BusMsg>) returns (ghost n: nat)
      requires bus.Valid() && queue != null && queue in queues && bus.Queues() <= queues && OwnMessages() <= own
      modifies queue, bus.Queues(), own
      ensures queue.items == []
      ensures Snapshot(queues, own) == Drained(bus.clients, queue, old(Snapshot(queues, own)), n)
    {
      hide Route, ClientsValid, GroupsValid, Total, Drained, DrainStep, Snapshot, Holding;
      n := 0;
      NotDrained(bus.clients, queue, Snapshot(queues, own));
      ghost var start := Snapshot(queues, own);
      var msg := FirstWaiting(queues, own);
      while msg != null
        invariant msg == null ==> queue.items == []
        invariant msg != null ==> msg in own
        invariant OwnMessages() <= own
        invariant Holding(Snapshot(queues, own), queue, msg) == Drained(bus.clients, queue, start, n)
        decreases Total(Lengths(queue.items)) + if msg == null then 0 else 1 + |msg.destination|
      {
        OneMoreDrained(bus.clients, queue, start, n);
        msg := DrainTurn(msg, queues, own);
        n := n + 1;
      }
      HoldingNothing(Snapshot(queues, own), queue);
    }
  }

  // ----- what the drain does to queues and messages, as values

  /** The contents of the queues, and what the messages have left to do. */
  datatype Net = Net(items: map<MessageQueue, seq<BusMsg>>, dests: map<BusMsg, seq<int>>)

  ghost function Snapshot(queues: set<MessageQueue>, own: set<BusMsg>): (net: Net)
    reads queues, own
    ensures net.items.Keys == queues && net.dests.Keys == own
  {
    Net(map q | q in queues :: q.items, map m | m in own :: m.destination)
  }

  /** The queues with the message in hand put back in front. */
  ghost function Holding(net: Net, me: MessageQueue, msg: BusMsg?): Net
    requires me in net.items
  {
    if msg == null then net else net.(items := net.items[me := [msg] + net.items[me]])
  }

  /** A message goes to the next client that its list resolves to, if there is one with room. */
  ghost function PassOn(clients: seq<Client<MessageQueue>>, net: Net, m: BusMsg): Net
    requires m in net.dests
  {
    var (target, rest) := Route(clients, net.dests[m]);
    var items := if target.Some? && target.value in net.items && |net.items[target.value]| < MESSAGE_QUEUE_LENGTH
                 then net.items[target.value := net.items[target.value] + [m]] else net.items;
    Net(items, net.dests[m := rest])
  }

  /** The message at the head of the queue is taken out and passed on. */
  ghost function DrainStep(clients: seq<Client<MessageQueue>>, me: MessageQueue, net: Net): Net {
    if me in net.items && net.items[me] != [] && net.items[me][0] in net.dests then
      PassOn(clients, net.(items := net.items[me := net.items[me][1..]]), net.items[me][0])
    else net
  }

  ghost function Drained(clients: seq<Client<MessageQueue>>, me: MessageQueue, net: Net, n: nat): Net {
    if n == 0 then net else DrainStep(clients, me, Drained(clients, me, net, n - 1))
  }

  lemma StepTaken(clients: seq<Client<MessageQueue>>, me: MessageQueue, before: Net, hand: BusMsg, after: Net,
                  next: BusMsg?)
    requires me in before.items && after.items.Keys == before.items.Keys && after.dests.Keys == before.dests.Keys
    requires hand in before.dests
    requires var (target, rest) := Route(clients, before.dests[hand]);
             && after.dests == before.dests[hand := rest]
             && (target.Some? ==> target.value in before.items)
             && (forall q | q in before.items && q != me ::
                   after.items[q] == before.items[q]
                                     + if Some(q) == target && |before.items[q]| < MESSAGE_QUEUE_LENGTH then [hand]
                                       else [])
             && var left := before.items[me]
                            + if Some(me) == target && |before.items[me]| < MESSAGE_QUEUE_LENGTH then [hand] else [];
             left == if next == null then [] else [next] + after.items[me]
    requires next == null ==> after.items[me] == []
    ensures Holding(after, me, next) == DrainStep(clients, me, Holding(before, me, hand))
  {
    hide Route, Holding, PassOn, DrainStep;
    HeadPassedOn(clients, me, before, hand);
    PassedOn(clients, me, before, hand, after, next);
  }

  lemma HeadPassedOn(clients: seq<Client<MessageQueue>>, me: MessageQueue, net: Net, hand: BusMsg)
    requires me in net.items && hand in net.dests
    ensures DrainStep(clients, me, Holding(net, me, hand)) == PassOn(clients, net, hand)
  {
    hide Route, PassOn;
    var put := Holding(net, me, hand);
    assert put.items[me][1..] == net.items[me];
    assert put.items[me := net.items[me]] == net.items;
    assert put.(items := net.items) == net;
  }

  lemma PassedOn(clients: seq<Client<MessageQueue>>, me: MessageQueue, before: Net, hand: BusMsg, after: Net,
                 next: BusMsg?)
    requires me in before.items && after.items.Keys == before.items.Keys && hand in before.dests
    requires var (target, rest) := Route(clients, before.dests[hand]);
             && after.dests == before.dests[hand := rest]
             && (target.Some? ==> target.value in before.items)
             && (forall q | q in before.items && q != me ::
                   after.items[q] == before.items[q]
                                     + if Some(q) == target && |before.items[q]| < MESSAGE_QUEUE_LENGTH then [hand]
                                       else [])
             && var left := before.items[me]
                            + if Some(me) == target && |before.items[me]| < MESSAGE_QUEUE_LENGTH then [hand] else [];
             left == if next == null then [] else [next] + after.items[me]
    requires next == null ==> after.items[me] == []
    ensures Holding(after, me, next) == PassOn(clients, before, hand)
  {
    hide Route;
    var done, passed := Holding(after, me, next), PassOn(clients, before, hand);
    assert done.items.Keys == passed.items.Keys;
    forall q | q in before.items
      ensures done.items[q] == passed.items[q]
    {
    }
    assert done.items == passed.items;
  }

  /** All messages that wait at `me` are known. */
  ghost predicate Known(me: MessageQueue, net: Net) {
    me in net.items && forall m | m in net.items[me] :: m in net.dests
  }

  lemma StepShortens(clients: seq<Client<MessageQueue>>, me: MessageQueue, net: Net)
    requires Known(me, net)
    ensures var t := DrainStep(clients, me, net);
            && Known(me, t) && t.dests.Keys == net.dests.Keys && t.items.Keys == net.items.Keys
            && forall m | m in net.dests ::
                 && t.dests[m] <= net.dests[m]
                 && (m in net.items[me] && net.dests[m] != [] ==> m in t.items[me] || t.dests[m] != net.dests[m])
                 && (m in net.items[me] ==> m in t.items[me] || m == net.items[me][0])
    ensures var t := DrainStep(clients, me, net);
            forall q | q in net.items && q != me ::
              t.items[q] == net.items[q] || (net.items[me] != [] && t.items[q] == net.items[q] + [net.items[me][0]])
  {
    hide Route;
    if net.items[me] != [] {
      assert net.items[me] == [net.items[me][0]] + net.items[me][1..];
    }
  }

  /** Every message that waited has been sent on, and the other queues have gained only such messages. */
  lemma {:induction false} DrainedSendsAll(clients: seq<Client<MessageQueue>>, me: MessageQueue, net: Net, n: nat)
    requires Known(me, net)
    ensures var t := Drained(clients, me, net, n);
            && Known(me, t) && t.dests.Keys == net.dests.Keys && t.items.Keys == net.items.Keys
            && forall m | m in net.dests ::
                 && t.dests[m] <= net.dests[m]
                 && (m in net.items[me] && net.dests[m] != [] ==> m in t.items[me] || t.dests[m] != net.dests[m])
    ensures var t := Drained(clients, me, net, n);
            forall q | q in net.items && q != me :: Gained(net.items[q], t.items[q], net.dests.Keys)
  {
    hide DrainStep;
    if n > 0 {
      var s, t := Drained(clients, me, net, n - 1), Drained(clients, me, net, n);
      DrainedSendsAll(clients, me, net, n - 1);
      StepShortens(clients, me, s);
      hide Drained;
      forall m | m in net.dests
        ensures t.dests[m] <= net.dests[m]
        ensures m in net.items[me] && net.dests[m] != [] ==> m in t.items[me] || t.dests[m] != net.dests[m]
      {
        assert m in s.dests;
      }
    }
  }

  lemma HoldingNothing(net: Net, me: MessageQueue)
    requires me in net.items
    ensures Holding(net, me, null) == net
  {
  }

  /** Taking the head out of a queue and holding it is nothing yet. */
  lemma TakenOut(before: Net, me: MessageQueue, after: Net, msg: BusMsg?)
    requires me in before.items && me in after.items && after.dests == before.dests
    requires after.items == before.items[me := after.items[me]]
    requires before.items[me] == if msg == null then [] else [msg] + after.items[me]
    requires msg == null ==> after.items[me] == []
    ensures Holding(after, me, msg) == before
  {
    assert Holding(after, me, msg).items == before.items;
  }

  lemma NotDrained(clients: seq<Client<MessageQueue>>, me: MessageQueue, net: Net)
    ensures Drained(clients, me, net, 0) == net
  {
  }

  lemma OneMoreDrained(clients: seq<Client<MessageQueue>>, me: MessageQueue, net: Net, n: nat)
    ensures Drained(clients, me, net, n + 1) == DrainStep(clients, me, Drained(clients, me, net, n))
  {
  }

  // ----- the measure of the drain: one for each waiting message, and one for each destination it has left

  function Total(lengths: seq<nat>): nat {
    if lengths == [] then 0 else Total(lengths[..|lengths| - 1]) + 1 + lengths[|lengths| - 1]
  }

  ghost function Lengths(items: seq<BusMsg>): (lengths: seq<nat>)
    reads items
  {
    seq(|items|, i requires 0 <= i < |items| reads items => |items[i].destination|)
  }

  lemma {:induction false} TotalShrinks(a: seq<nat>, b: seq<nat>)
    requires |a| == |b| && forall i | 0 <= i < |a| :: a[i] <= b[i]
    ensures Total(a) <= Total(b)
  {
    if a != [] {
      TotalShrinks(a[..|a| - 1], b[..|b| - 1]);
    }
  }

  lemma TotalSnoc(a: seq<nat>, n: nat)
    ensures Total(a + [n]) == Total(a) + 1 + n
  {
    assert (a + [n])[..|a|] == a;
  }

  /** Sending on took at least one from the message, and put at most the message back. */
  lemma LeftWeighs(waiting: seq<BusMsg>, left: seq<BusMsg>, msg: BusMsg, before: seq<nat>)
    requires left == waiting || left == waiting + [msg]
    requires |before| == |waiting| && forall i | 0 <= i < |waiting| :: |waiting[i].destination| <= before[i]
    ensures Total(Lengths(left)) <= Total(before) + if left == waiting then 0 else 1 + |msg.destination|
  {
    TotalShrinks(Lengths(waiting), before);
    if left != waiting {
      TotalSnoc(Lengths(waiting), |msg.destination|);
      assert Lengths(left) == Lengths(waiting) + [|msg.destination|];
    }
  }

  lemma HeadWeighs(m: BusMsg, items: seq<BusMsg>)
    ensures Total(Lengths([m] + items)) == 1 + |m.destination| + Total(Lengths(items))
  {
    assert Lengths([m] + items) == [|m.destination|] + Lengths(items);
    TotalHead(|m.destination|, Lengths(items));
  }

  lemma {:induction false} TotalHead(n: nat, a: seq<nat>)
    ensures Total([n] + a) == 1 + n + Total(a)
  {
    if a == [] {
      assert [n] + a == [n] && [n][..0] == [];
    } else {
      TotalHead(n, a[..|a| - 1]);
      assert ([n] + a)[..|a|] == [n] + a[..|a| - 1];
    }
  }

  lemma ConnectedAddress<Q>(reg: Registry<Q>, queue: Q)
    requires ClientsValid(reg)
    ensures Connect(reg, queue).1 < INVALID
  {
  }
}
