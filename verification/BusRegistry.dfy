/**
  The registry of the message bus: connected clients and named groups, and what each critical section
  does to them.
  */
module BusRegistry {
  import opened Options

  /** 0 is invalid, negative addresses are clients, positive ones are groups. */
  const INVALID: int := 0

  datatype Client<Q> = Client(addr: int, queue: Q)

  datatype Group = Group(addr: int, name: string, destination: seq<int>)

  /** Both lists grow at the front; the counters give the last addresses handed out. */
  datatype Registry<Q> = Registry(clients: seq<Client<Q>>, groups: seq<Group>, addrLast: int, groupLast: int)

  // ----- lookups: the first match

  function FindQueue<Q(==)>(clients: seq<Client<Q>>, queue: Q): (i: Option<nat>)
    ensures i.Some? ==> i.value < |clients| && clients[i.value].queue == queue
    ensures i.None? ==> forall c | c in clients :: c.queue != queue
  {
    if clients == [] then None
    else if clients[0].queue == queue then Some(0)
    else match FindQueue(clients[1..], queue) case Some(i) => Some(i + 1) case None => None
  }

  function Resolve<Q>(clients: seq<Client<Q>>, addr: int): (queue: Option<Q>)
    ensures queue.Some? ==> addr < 0 && Client(addr, queue.value) in clients
    ensures queue.None? ==> addr >= 0 || forall c | c in clients :: c.addr != addr
  {
    if addr >= 0 || clients == [] then None
    else if clients[0].addr == addr then Some(clients[0].queue)
    else Resolve(clients[1..], addr)
  }

  function FindGroup(groups: seq<Group>, addr: int): (i: Option<nat>)
    ensures i.Some? ==> i.value < |groups| && groups[i.value].addr == addr
    ensures i.None? ==> forall g | g in groups :: g.addr != addr
  {
    if groups == [] then None
    else if groups[0].addr == addr then Some(0)
    else match FindGroup(groups[1..], addr) case Some(i) => Some(i + 1) case None => None
  }

  function FindNamed(groups: seq<Group>, name: string): (i: Option<nat>)
    ensures i.Some? ==> i.value < |groups| && groups[i.value].name == name
    ensures i.None? ==> forall g | g in groups :: g.name != name
  {
    if groups == [] then None
    else if groups[0].name == name then Some(0)
    else match FindNamed(groups[1..], name) case Some(i) => Some(i + 1) case None => None
  }

  // ----- removal without erasing

  function Filter<T>(s: seq<T>, keep: T -> bool): (kept: seq<T>)
    ensures |kept| <= |s|
  {
    if s == [] then []
    else
      var last := s[|s| - 1];
      Filter(s[..|s| - 1], keep) + if keep(last) then [last] else []
  }

  /**
    `std::remove_if` with its result discarded: the kept elements move to the front, and the list keeps
    its length, with what stood there before as its tail.
    */
  function RemoveIf<T>(s: seq<T>, keep: T -> bool): (r: seq<T>)
    ensures |r| == |s|
  {
    var kept := Filter(s, keep);
    kept + s[|kept|..]
  }

  lemma FilterSnoc<T>(s: seq<T>, x: T, keep: T -> bool)
    ensures Filter(s + [x], keep) == Filter(s, keep) + if keep(x) then [x] else []
  {
    assert (s + [x])[..|s|] == s;
  }

  lemma {:induction false} FilterMember<T>(s: seq<T>, keep: T -> bool, x: T)
    ensures x in Filter(s, keep) <==> x in s && keep(x)
  {
    if s != [] {
      var front, last := s[..|s| - 1], s[|s| - 1];
      FilterMember(front, keep, x);
      assert s == front + [last];
    }
  }

  lemma RemoveIfMember<T>(s: seq<T>, keep: T -> bool, x: T)
    ensures x in RemoveIf(s, keep) ==> x in s
    ensures x in s && keep(x) ==> x in RemoveIf(s, keep)
  {
    FilterMember(s, keep, x);
  }

  lemma {:induction false} FilterAll<T>(s: seq<T>, keep: T -> bool)
    requires forall k | 0 <= k < |s| :: keep(s[k])
    ensures Filter(s, keep) == s
  {
    hide Filter;
    if s == [] {
      FilterEmpty(keep);
    } else {
      var front, last := s[..|s| - 1], s[|s| - 1];
      FilterAll(front, keep);
      FilterSnoc(front, last, keep);
      assert s == front + [last];
    }
  }

  lemma FilterEmpty<T>(keep: T -> bool)
    ensures Filter([], keep) == []
  {
  }

  lemma {:induction false} FilterConcat<T>(a: seq<T>, b: seq<T>, keep: T -> bool)
    ensures Filter(a + b, keep) == Filter(a, keep) + Filter(b, keep)
  {
    hide Filter;
    if b == [] {
      FilterEmpty(keep);
      assert a + b == a;
    } else {
      var front, last := b[..|b| - 1], b[|b| - 1];
      FilterConcat(a, front, keep);
      FilterSnoc(a + front, last, keep);
      FilterSnoc(front, last, keep);
      assert a + b == a + front + [last] && b == front + [last];
    }
  }

  /**
    Removing the one element at `i`: the list is unchanged when that element is last, and otherwise
    loses it and repeats its last element.
    */
  lemma RemoveOne<T>(s: seq<T>, keep: T -> bool, i: nat)
    requires i < |s| && !keep(s[i])
    requires forall k | 0 <= k < |s| && k != i :: keep(s[k])
    ensures RemoveIf(s, keep) == if i == |s| - 1 then s else s[..i] + s[i + 1..] + [s[|s| - 1]]
  {
    hide Filter;
    var head, tail := s[..i], s[i + 1..];
    assert s == head + [s[i]] + tail;
    FilterConcat(head + [s[i]], tail, keep);
    FilterSnoc(head, s[i], keep);
    FilterAll(head, keep);
    FilterAll(tail, keep);
    assert Filter(s, keep) == head + tail;
    assert s[|s| - 1..] == [s[|s| - 1]];
    if i == |s| - 1 {
      assert head + tail + [s[i]] == s;
    }
  }

  // ----- what removal without erasing makes of a list

  /** Only the last element is ever listed more than once, and then its copies end the list. */
  ghost predicate OnlyOldestRepeats<T>(s: seq<T>) {
    forall i, j, k | 0 <= i < j < |s| && i <= k < |s| && s[i] == s[j] :: s[k] == s[|s| - 1]
  }

  lemma {:induction false} FilterNone<T>(s: seq<T>, keep: T -> bool)
    requires forall k | 0 <= k < |s| :: !keep(s[k])
    ensures Filter(s, keep) == []
  {
    if s != [] {
      FilterNone(s[..|s| - 1], keep);
    }
  }

  lemma {:induction false} FirstPlace<T>(s: seq<T>, x: T) returns (i: nat)
    requires x in s
    ensures i < |s| && s[i] == x && x !in s[..i]
  {
    var front := s[..|s| - 1];
    assert s == front + [s[|s| - 1]];
    if x in front {
      i := FirstPlace(front, x);
      assert s[..i] == front[..i];
    } else {
      i := |s| - 1;
    }
  }

  lemma ListedOnce<T>(s: seq<T>, i: nat)
    requires OnlyOldestRepeats(s) && i < |s| && s[i] != s[|s| - 1]
    ensures forall k | 0 <= k < |s| && k != i :: s[k] != s[i]
  {
  }

  lemma EndsWith<T>(s: seq<T>, i: nat)
    requires OnlyOldestRepeats(s) && i < |s| && s[i] == s[|s| - 1]
    ensures forall k | i <= k < |s| :: s[k] == s[i]
  {
    if i < |s| - 1 {
      assert s[i] == s[|s| - 1];
    }
  }

  /** Removing what ends the list, or what is not in it, changes nothing. */
  lemma RemoveLast<T>(s: seq<T>, keep: T -> bool, x: T)
    requires OnlyOldestRepeats(s) && forall c | c in s :: keep(c) <==> c != x
    requires x !in s || x == s[|s| - 1]
    ensures RemoveIf(s, keep) == s
  {
    hide Filter, OnlyOldestRepeats;
    if x in s {
      var i := FirstPlace(s, x);
      EndsWith(s, i);
      var head, tail := s[..i], s[i..];
      assert s == head + tail;
      RemoveTail(head, tail, keep, x);
    } else {
      FilterAll(s, keep);
    }
  }

  lemma RemoveTail<T>(head: seq<T>, tail: seq<T>, keep: T -> bool, x: T)
    requires x !in head && forall c | c in head :: keep(c) <==> c != x
    requires forall k | 0 <= k < |tail| :: tail[k] == x && !keep(tail[k])
    ensures RemoveIf(head + tail, keep) == head + tail
  {
    hide Filter;
    FilterAll(head, keep);
    FilterNone(tail, keep);
    FilterConcat(head, tail, keep);
  }

  /** Removing any other element takes out its one entry, and lists the last element once more. */
  lemma RemoveMiddle<T>(s: seq<T>, keep: T -> bool, i: nat)
    requires OnlyOldestRepeats(s) && i < |s| && s[i] != s[|s| - 1]
    requires forall c | c in s :: keep(c) <==> c != s[i]
    ensures RemoveIf(s, keep) == s[..i] + s[i + 1..] + [s[|s| - 1]]
  {
    hide RemoveIf;
    ListedOnce(s, i);
    RemoveOne(s, keep, i);
  }

  lemma MiddleShape<T>(s: seq<T>, i: nat)
    requires OnlyOldestRepeats(s) && i < |s| && s[i] != s[|s| - 1]
    ensures OnlyOldestRepeats(s[..i] + s[i + 1..] + [s[|s| - 1]])
    ensures s[i] !in s[..i] + s[i + 1..] + [s[|s| - 1]]
  {
    var last := s[|s| - 1];
    var r := s[..i] + s[i + 1..] + [last];
    forall a, b, k | 0 <= a < b < |r| && a <= k < |r| && r[a] == r[b]
      ensures r[k] == last
    {
      var a', b', k' := if a < i then a else a + 1, if b < i then b else b + 1, if k < i then k else k + 1;
      if k < |s| - 1 && a' < |s| - 1 {
        var other := if b < |s| - 1 then b' else |s| - 1;
        assert s[a'] == s[other] && a' < other;
        assert s[k'] == last;
      }
    }
    ListedOnce(s, i);
    forall k | 0 <= k < |r|
      ensures r[k] != s[i]
    {
      assert r[k] == if k < |s| - 1 then s[if k < i then k else k + 1] else last;
    }
  }

  /** The shape is kept, and an element is gone exactly when it is not the last one. */
  lemma RemoveKeepsShape<T>(s: seq<T>, keep: T -> bool, x: T)
    requires OnlyOldestRepeats(s) && forall c | c in s :: keep(c) <==> c != x
    ensures OnlyOldestRepeats(RemoveIf(s, keep))
    ensures x in RemoveIf(s, keep) <==> x in s && x == s[|s| - 1]
  {
    hide RemoveIf, OnlyOldestRepeats;
    if x in s && x != s[|s| - 1] {
      var i := FirstPlace(s, x);
      RemoveMiddle(s, keep, i);
      MiddleShape(s, i);
    } else {
      RemoveLast(s, keep, x);
    }
  }

  lemma ConsKeepsShape<T>(x: T, s: seq<T>)
    requires OnlyOldestRepeats(s) && x !in s
    ensures OnlyOldestRepeats([x] + s)
  {
    var r := [x] + s;
    assert forall k | 0 < k < |r| :: r[k] == s[k - 1];
  }

  // ----- critical sections

  /** A queue that is already registered gets its address back; a new one gets the next address. */
  function Connect<Q(==)>(reg: Registry<Q>, queue: Q): (r: (Registry<Q>, int)) {
    match FindQueue(reg.clients, queue)
    case Some(i) => (reg, reg.clients[i].addr)
    case None =>
      var addr := reg.addrLast - 1;
      (reg.(clients := [Client(addr, queue)] + reg.clients, addrLast := addr), addr)
  }

  function OtherQueue<Q(==)>(queue: Q): Client<Q> -> bool {
    (c: Client<Q>) => c.queue != queue
  }

  function OtherAddress(client: int): int -> bool {
    (a: int) => a != client
  }

  function Disconnect<Q(==)>(reg: Registry<Q>, queue: Q): Registry<Q> {
    reg.(clients := RemoveIf(reg.clients, OtherQueue(queue)))
  }

  /** First section of a named join: the group's address, made if there is none. */
  function NameGroup<Q>(reg: Registry<Q>, name: string): (r: (Registry<Q>, int)) {
    match FindNamed(reg.groups, name)
    case Some(i) => (reg, reg.groups[i].addr)
    case None =>
      var addr := reg.groupLast + 1;
      (reg.(groups := [Group(addr, name, [])] + reg.groups, groupLast := addr), addr)
  }

  datatype JoinResult<Q> =
    | Refused                       // bad group address, or the client is not connected
    | NullName                      // would build a group from a null name
    | Joined(reg: Registry<Q>)

  /** Second section of a named join: the client's address goes to the front, unless it is there. */
  function JoinGroup<Q>(reg: Registry<Q>, addr: int, client: int): JoinResult<Q> {
    if addr <= INVALID || client >= INVALID then Refused
    else
      match FindGroup(reg.groups, addr)
      case None => NullName
      case Some(i) =>
        var g := reg.groups[i];
        if client in g.destination then Joined(reg)
        else Joined(reg.(groups := reg.groups[i := g.(destination := [client] + g.destination)]))
  }

  /** Second section of a named leave. */
  function LeaveGroup<Q>(reg: Registry<Q>, addr: int, client: int): Registry<Q> {
    if addr <= INVALID || client >= INVALID then reg
    else
      match FindGroup(reg.groups, addr)
      case None => reg
      case Some(i) =>
        var g := reg.groups[i];
        reg.(groups := reg.groups[i := g.(destination := RemoveIf(g.destination, OtherAddress(client)))])
  }

  /** The snapshot that a message takes: itself for a client, the members for a group. */
  function Destination<Q>(reg: Registry<Q>, addr: int): seq<int> {
    if addr < 0 then [addr]
    else if addr > 0 then
      match FindGroup(reg.groups, addr)
      case Some(i) => reg.groups[i].destination
      case None => []
    else []
  }

  // ----- the registry invariant

  ghost predicate ClientsValid<Q>(reg: Registry<Q>) {
    && reg.addrLast <= 0
    && (forall c | c in reg.clients :: reg.addrLast <= c.addr < 0)
    && (forall c, d | c in reg.clients && d in reg.clients :: c.addr == d.addr <==> c.queue == d.queue)
  }

  ghost predicate GroupsValid<Q>(reg: Registry<Q>) {
    && reg.groupLast >= 0
    && (forall i | 0 <= i < |reg.groups| :: 1 <= reg.groups[i].addr <= reg.groupLast)
    && (forall i, j | 0 <= i < j < |reg.groups| ::
          reg.groups[i].addr != reg.groups[j].addr && reg.groups[i].name != reg.groups[j].name)
  }

  predicate HasGroup<Q>(reg: Registry<Q>, addr: int) {
    FindGroup(reg.groups, addr).Some?
  }

  lemma ConnectKeeps<Q>(reg: Registry<Q>, queue: Q)
    requires ClientsValid(reg)
    ensures ClientsValid(Connect(reg, queue).0)
    ensures Client(Connect(reg, queue).1, queue) in Connect(reg, queue).0.clients
    ensures Connect(reg, queue).0.groups == reg.groups && Connect(reg, queue).0.groupLast == reg.groupLast
    ensures forall c | c in reg.clients :: c in Connect(reg, queue).0.clients
    ensures forall c | c in Connect(reg, queue).0.clients ::
              c in reg.clients || c == Client(Connect(reg, queue).1, queue)
  {
    var (after, addr) := Connect(reg, queue);
    if FindQueue(reg.clients, queue).None? {
      assert after.clients[0] == Client(addr, queue);
      assert forall c :: c in after.clients <==> c == Client(addr, queue) || c in reg.clients;
    }
  }

  lemma DisconnectKeeps<Q>(reg: Registry<Q>, queue: Q)
    requires ClientsValid(reg)
    ensures ClientsValid(Disconnect(reg, queue))
    ensures Disconnect(reg, queue).groups == reg.groups && Disconnect(reg, queue).groupLast == reg.groupLast
  {
    hide RemoveIf;
    var keep := OtherQueue(queue);
    var after := RemoveIf(reg.clients, keep);
    forall c | c in after
      ensures c in reg.clients
    {
      RemoveIfMember(reg.clients, keep, c);
    }
  }

  lemma DisconnectKeepsShape<Q>(reg: Registry<Q>, queue: Q)
    requires ClientsValid(reg) && OnlyOldestRepeats(reg.clients)
    ensures OnlyOldestRepeats(Disconnect(reg, queue).clients)
  {
    hide RemoveIf, OnlyOldestRepeats;
    if c :| c in reg.clients && c.queue == queue {
      RemoveKeepsShape(reg.clients, OtherQueue(queue), c);
    } else {
      hide *;
      NobodyRemoved(reg, queue);
    }
  }

  lemma NobodyRemoved<Q>(reg: Registry<Q>, queue: Q)
    requires forall c | c in reg.clients :: c.queue != queue
    ensures Disconnect(reg, queue).clients == reg.clients
  {
    FilterAll(reg.clients, OtherQueue(queue));
  }

  lemma ConnectKeepsShape<Q>(reg: Registry<Q>, queue: Q)
    requires OnlyOldestRepeats(reg.clients)
    ensures OnlyOldestRepeats(Connect(reg, queue).0.clients)
  {
    hide OnlyOldestRepeats;
    if FindQueue(reg.clients, queue).None? {
      ConsKeepsShape(Client(reg.addrLast - 1, queue), reg.clients);
    }
  }

  /**
    Whether a disconnected client can no longer be reached: exactly when it is not the oldest one.  Then
    the oldest entry is listed once more; otherwise the list does not change at all, and the address still
    resolves to the queue.
    */
  lemma DisconnectForgets<Q>(reg: Registry<Q>, i: nat)
    requires ClientsValid(reg) && OnlyOldestRepeats(reg.clients) && i < |reg.clients|
    ensures var s := reg.clients;
            var after := Disconnect(reg, s[i].queue);
            && (Resolve(after.clients, s[i].addr).None? <==> s[i].queue != s[|s| - 1].queue)
            && after == reg.(clients := if s[i].queue == s[|s| - 1].queue then s
                                        else s[..i] + s[i + 1..] + [s[|s| - 1]])
  {
    hide RemoveIf, OnlyOldestRepeats;
    var s, keep := reg.clients, OtherQueue(reg.clients[i].queue);
    var last := s[|s| - 1];
    assert s[i] == last <==> s[i].queue == last.queue;
    RemoveKeepsShape(s, keep, s[i]);
    var after := RemoveIf(s, keep);
    if s[i] == last {
      RemoveLast(s, keep, s[i]);
    } else {
      RemoveMiddle(s, keep, i);
      forall c | c in after
        ensures c.addr != s[i].addr
      {
        RemoveIfMember(s, keep, c);
      }
    }
  }

  lemma NameGroupKeeps<Q>(reg: Registry<Q>, name: string)
    requires GroupsValid(reg)
    ensures GroupsValid(NameGroup(reg, name).0)
    ensures NameGroup(reg, name).0.clients == reg.clients && NameGroup(reg, name).0.addrLast == reg.addrLast
  {
  }

  /** The first section of a join makes sure that the group exists, and changes no other group. */
  lemma NameGroupFinds<Q>(reg: Registry<Q>, name: string, a: int)
    requires GroupsValid(reg)
    ensures var (after, addr) := NameGroup(reg, name);
            && HasGroup(after, addr)
            && (HasGroup(reg, a) ==> HasGroup(after, a))
            && Destination(after, a) == Destination(reg, a)
  {
    if FindNamed(reg.groups, name).None? {
      var added := Group(reg.groupLast + 1, name, []);
      hide FindNamed, FindGroup, GroupsValid;
      GroupAdded(reg, added, a);
    } else {
      var i := FindNamed(reg.groups, name).value;
      hide FindNamed, FindGroup, GroupsValid;
      GroupAt(reg, reg.groups[i].addr, i);
    }
  }

  /** A group with a new address and no members leaves all snapshots as they were. */
  lemma GroupAdded<Q>(reg: Registry<Q>, added: Group, a: int)
    requires GroupsValid(reg) && added.addr == reg.groupLast + 1 && added.destination == []
    ensures var after := reg.(groups := [added] + reg.groups, groupLast := added.addr);
            && HasGroup(after, added.addr)
            && (HasGroup(reg, a) ==> HasGroup(after, a))
            && Destination(after, a) == Destination(reg, a)
  {
    var groups := [added] + reg.groups;
    assert groups[1..] == reg.groups && groups[0] == added;
    var found := FindGroup(reg.groups, a);
    if found.Some? {
      assert reg.groups[found.value].addr <= reg.groupLast;
    }
  }

  lemma GroupAt<Q>(reg: Registry<Q>, a: int, i: nat)
    requires GroupsValid(reg)
    requires i < |reg.groups| && reg.groups[i].addr == a
    ensures FindGroup(reg.groups, a) == Some(i)
  {
    var j := FindGroup(reg.groups, a);
    assert reg.groups[i] in reg.groups;
  }

  /** Replacing the members of group `i` changes the snapshot of that group only. */
  lemma MembersReplaced<Q>(reg: Registry<Q>, i: nat, members: seq<int>, a: int)
    requires GroupsValid(reg) && i < |reg.groups|
    ensures var after := reg.(groups := reg.groups[i := reg.groups[i].(destination := members)]);
            && GroupsValid(after)
            && (HasGroup(reg, a) <==> HasGroup(after, a))
            && Destination(after, a) == if a == reg.groups[i].addr then members else Destination(reg, a)
  {
    var after := reg.(groups := reg.groups[i := reg.groups[i].(destination := members)]);
    assert forall k | 0 <= k < |reg.groups| :: after.groups[k].addr == reg.groups[k].addr;
    if k :| 0 <= k < |reg.groups| && reg.groups[k].addr == a {
      GroupAt(reg, a, k);
      GroupAt(after, a, k);
    } else {
      assert forall g | g in after.groups :: g.addr != a;
      assert forall g | g in reg.groups :: g.addr != a by {
        forall g | g in reg.groups
          ensures g.addr != a
        {
        }
      }
    }
  }

  /** The second section of a join, on a group that exists, adds the client unless it is a member. */
  lemma JoinGroupKeeps<Q>(reg: Registry<Q>, addr: int, client: int, a: int)
    requires GroupsValid(reg) && HasGroup(reg, addr)
    ensures JoinGroup(reg, addr, client).NullName? == false
    ensures JoinGroup(reg, addr, client).Refused? <==> client >= INVALID
    ensures JoinGroup(reg, addr, client).Joined? ==>
              var after := JoinGroup(reg, addr, client).reg;
              && GroupsValid(after)
              && after.clients == reg.clients && after.addrLast == reg.addrLast && after.groupLast == reg.groupLast
              && (HasGroup(reg, a) <==> HasGroup(after, a))
              && Destination(after, a)
              == if a == addr && client !in Destination(reg, a) then [client] + Destination(reg, a)
                 else Destination(reg, a)
  {
    var i := FindGroup(reg.groups, addr).value;
    MembersReplaced(reg, i, [client] + reg.groups[i].destination, a);
  }

  /** The second section of a leave passes the members through `RemoveIf`. */
  lemma LeaveGroupKeeps<Q>(reg: Registry<Q>, addr: int, client: int, a: int)
    requires GroupsValid(reg)
    ensures var after := LeaveGroup(reg, addr, client);
            && GroupsValid(after)
            && after.clients == reg.clients && after.addrLast == reg.addrLast && after.groupLast == reg.groupLast
            && (HasGroup(reg, a) <==> HasGroup(after, a))
            && Destination(after, a)
            == if a == addr && addr > 0 && client < 0 && HasGroup(reg, addr)
               then RemoveIf(Destination(reg, a), OtherAddress(client))
               else Destination(reg, a)
  {
    if addr > 0 && client < 0 && HasGroup(reg, addr) {
      var i := FindGroup(reg.groups, addr).value;
      MembersReplaced(reg, i, RemoveIf(reg.groups[i].destination, OtherAddress(client)), a);
    }
  }

  lemma LeaveKeepsShape<Q>(reg: Registry<Q>, addr: int, client: int, a: int)
    requires GroupsValid(reg) && OnlyOldestRepeats(Destination(reg, a))
    ensures OnlyOldestRepeats(Destination(LeaveGroup(reg, addr, client), a))
    ensures forall m | m in Destination(LeaveGroup(reg, addr, client), a) :: m in Destination(reg, a)
  {
    LeaveGroupKeeps(reg, addr, client, a);
    hide Destination, LeaveGroup, RemoveIf, OnlyOldestRepeats;
    var keep := OtherAddress(client);
    var s := Destination(reg, a);
    RemoveKeepsShape(s, keep, client);
    forall m | m in RemoveIf(s, keep)
      ensures m in s
    {
      RemoveIfMember(s, keep, m);
    }
  }

  /**
    Whether a leave ends a membership: exactly when the member is not the first that joined.  Then the
    first one is listed once more; otherwise the list does not change at all.
    */
  lemma LeaveForgets<Q>(reg: Registry<Q>, addr: int, i: nat)
    requires GroupsValid(reg) && addr > 0 && HasGroup(reg, addr) && OnlyOldestRepeats(Destination(reg, addr))
    requires i < |Destination(reg, addr)| && Destination(reg, addr)[i] < 0
    ensures var s := Destination(reg, addr);
            var after := Destination(LeaveGroup(reg, addr, s[i]), addr);
            && (s[i] !in after <==> s[i] != s[|s| - 1])
            && after == if s[i] == s[|s| - 1] then s else s[..i] + s[i + 1..] + [s[|s| - 1]]
  {
    hide RemoveIf, OnlyOldestRepeats;
    var s := Destination(reg, addr);
    var keep := OtherAddress(s[i]);
    LeaveGroupKeeps(reg, addr, s[i], addr);
    hide Destination, LeaveGroup;
    RemoveKeepsShape(s, keep, s[i]);
    if s[i] == s[|s| - 1] {
      RemoveLast(s, keep, s[i]);
    } else {
      RemoveMiddle(s, keep, i);
    }
  }

  lemma JoinKeepsShape<Q>(reg: Registry<Q>, addr: int, client: int, a: int)
    requires GroupsValid(reg) && HasGroup(reg, addr) && OnlyOldestRepeats(Destination(reg, a))
    ensures JoinGroup(reg, addr, client).Joined? ==>
              var after := Destination(JoinGroup(reg, addr, client).reg, a);
              OnlyOldestRepeats(after) && forall m | m in after :: m in Destination(reg, a) || m == client < INVALID
  {
    hide OnlyOldestRepeats, JoinGroup, Destination;
    JoinGroupKeeps(reg, addr, client, a);
    if client !in Destination(reg, a) {
      ConsKeepsShape(client, Destination(reg, a));
    }
  }

  /** Every list of the registry has the shape that removal without erasing leaves. */
  ghost predicate ListsShaped<Q>(reg: Registry<Q>) {
    && OnlyOldestRepeats(reg.clients)
    && (forall a :: OnlyOldestRepeats(Destination(reg, a)))
    && (forall a, m | a > 0 && m in Destination(reg, a) :: m < 0)
  }
}
