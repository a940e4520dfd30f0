/**
  A run in which a member that is not the first leaves a group: afterwards the first member receives a
  message twice, and two clients receive two messages in different orders.
  */
module BusExamples {
  import opened Options
  import opened BusRegistry
  import opened BusProtocol
  import opened BusRuns
  import opened BusGroups
  import opened BusDelivery
  import opened BusOrder

  /** The run ends in `s`, and no forward in it met a full queue. */
  ghost predicate Reaches(run: seq<Action>, s: Sys) {
    Final(run) == s && NeverFull(run)
  }

  lemma Next(run: seq<Action>, s: Sys, a: Action, t: Sys)
    requires Reaches(run, s) && Apply(s, a) == t && HasRoom(s, a)
    ensures Reaches(run + [a], t)
  {
    assert (run + [a])[..|run|] == run;
  }

  // ----- a bus with clients 0, 1, .. and one group

  const GROUP := 1
  const NAME := "group"

  /** The entries of `n` clients that connected one after the other. */
  function Entries(n: nat): (entries: seq<Client<nat>>)
    ensures |entries| == n && forall e | e in entries :: e.queue < n
  {
    if n == 0 then [] else [Client(0 - n, n - 1)] + Entries(n - 1)
  }

  lemma {:induction false} EntryResolves(n: nat, c: nat)
    requires c < n
    ensures Resolve(Entries(n), -1 - c) == Some(c)
  {
    assert Entries(n)[1..] == Entries(n - 1);
    if c < n - 1 {
      EntryResolves(n - 1, c);
    }
  }

  function AsMap<T>(s: seq<T>): (m: map<nat, T>)
    ensures forall c: nat :: c in m <==> c < |s|
    ensures forall c: nat | c < |s| :: m[c] == s[c]
  {
    map c: nat | 0 <= c < |s| :: s[c]
  }

  lemma AsMapUpdate<T>(s: seq<T>, c: nat, x: T)
    requires c < |s|
    ensures AsMap(s)[c := x] == AsMap(s[c := x])
  {
  }

  lemma AsMapSnoc<T>(s: seq<T>, x: T)
    ensures AsMap(s)[|s| := x] == AsMap(s + [x])
  {
  }

  /** What tasks and queues hold, and the messages so far. */
  datatype Scene = Scene(tasks: seq<Task>, queues: seq<seq<nat>>, msgs: seq<Msg>, log: seq<Event>)

  function View(groups: seq<Group>, v: Scene): Sys {
    var n := |v.queues|;
    Sys(Registry(Entries(n), groups, 0 - n, |groups|), AsMap(v.tasks), AsMap(v.queues), v.msgs, v.log)
  }

  function TheGroup(members: seq<int>): seq<Group> {
    [Group(GROUP, NAME, members)]
  }

  // ----- single steps

  lemma NewClientView(v: Scene)
    requires |v.tasks| == |v.queues|
    ensures Apply(View([], v), NewClient(|v.tasks|)) == View([], v.(tasks := v.tasks + [Idle(INVALID)]))
  {
    AsMapSnoc(v.tasks, Idle(INVALID));
    hide AsMap, Entries;
  }

  function Idle(addr: int): Task {
    Task(addr, None, None, None, None)
  }

  lemma InitializeView(v: Scene, n: nat)
    requires |v.queues| == n && |v.tasks| == n + 1
    ensures Apply(View([], v), Initialize(n))
         == View([], v.(tasks := v.tasks[n := v.tasks[n].(addr := -1 - n)], queues := v.queues + [[]]))
  {
    AsMapSnoc(v.queues, []);
    AsMapUpdate(v.tasks, n, v.tasks[n].(addr := -1 - n));
    NewEntry(n);
    hide AsMap, Entries, Connect;
  }

  lemma NewEntry(n: nat)
    ensures Connect(Registry(Entries(n), [], 0 - n, 0), n) == (Registry(Entries(n + 1), [], -1 - n, 0), -1 - n)
  {
    assert FindQueue(Entries(n), n).None?;
  }

  lemma FirstJoinFindView(v: Scene, c: nat)
    requires c < |v.tasks|
    ensures Apply(View([], v), JoinFind(c, NAME))
         == View(TheGroup([]), v.(tasks := v.tasks[c := v.tasks[c].(joining := Some(GROUP))]))
  {
    AsMapUpdate(v.tasks, c, v.tasks[c].(joining := Some(GROUP)));
    hide AsMap, Entries;
    assert [Group(GROUP, NAME, [])] + [] == TheGroup([]);
  }

  lemma JoinFindView(members: seq<int>, v: Scene, c: nat)
    requires c < |v.tasks|
    ensures Apply(View(TheGroup(members), v), JoinFind(c, NAME))
         == View(TheGroup(members), v.(tasks := v.tasks[c := v.tasks[c].(joining := Some(GROUP))]))
  {
    AsMapUpdate(v.tasks, c, v.tasks[c].(joining := Some(GROUP)));
    hide AsMap, Entries;
  }

  lemma JoinAddView(members: seq<int>, v: Scene, c: nat)
    requires c < |v.tasks| && v.tasks[c].joining == Some(GROUP) && v.tasks[c].addr < 0 && v.tasks[c].addr !in members
    ensures Apply(View(TheGroup(members), v), JoinAdd(c))
         == View(TheGroup([v.tasks[c].addr] + members), v.(tasks := v.tasks[c := v.tasks[c].(joining := None)]))
  {
    AsMapUpdate(v.tasks, c, v.tasks[c].(joining := None));
    hide AsMap, Entries;
    assert TheGroup(members)[0 := Group(GROUP, NAME, [v.tasks[c].addr] + members)]
        == TheGroup([v.tasks[c].addr] + members);
  }

  lemma LeaveFindView(members: seq<int>, v: Scene, c: nat)
    requires c < |v.tasks|
    ensures Apply(View(TheGroup(members), v), LeaveFind(c, NAME))
         == View(TheGroup(members), v.(tasks := v.tasks[c := v.tasks[c].(leaving := Some(GROUP))]))
  {
    AsMapUpdate(v.tasks, c, v.tasks[c].(leaving := Some(GROUP)));
    hide AsMap, Entries;
  }

  lemma LeaveRemoveView(members: seq<int>, v: Scene, c: nat)
    requires c < |v.tasks| && v.tasks[c].leaving == Some(GROUP) && v.tasks[c].addr < 0
    ensures Apply(View(TheGroup(members), v), LeaveRemove(c))
         == View(TheGroup(RemoveIf(members, OtherAddress(v.tasks[c].addr))),
                 v.(tasks := v.tasks[c := v.tasks[c].(leaving := None)]))
  {
    AsMapUpdate(v.tasks, c, v.tasks[c].(leaving := None));
    hide AsMap, Entries, RemoveIf;
    var left := RemoveIf(members, OtherAddress(v.tasks[c].addr));
    assert TheGroup(members)[0 := Group(GROUP, NAME, left)] == TheGroup(left);
  }

  lemma SendView(members: seq<int>, v: Scene, c: nat)
    requires c < |v.tasks| && v.tasks[c].outgoing.None?
    ensures Apply(View(TheGroup(members), v), Send(c, GROUP))
         == View(TheGroup(members),
                 v.(tasks := v.tasks[c := v.tasks[c].(outgoing := Some(|v.msgs|))],
                    msgs := v.msgs + [Msg(v.tasks[c].addr, GROUP, members, members)]))
  {
    AsMapUpdate(v.tasks, c, v.tasks[c].(outgoing := Some(|v.msgs|)));
    hide AsMap, Entries;
  }

  lemma ReceiveView(members: seq<int>, v: Scene, c: nat)
    requires c < |v.tasks| == |v.queues| && Free(v.tasks[c]) && v.queues[c] != []
    ensures Apply(View(TheGroup(members), v), Receive(c)) == View(TheGroup(members), Received(v, c))
  {
    AsMapUpdate(v.tasks, c, v.tasks[c].(inHand := Some(v.queues[c][0])));
    AsMapUpdate(v.queues, c, v.queues[c][1..]);
    hide AsMap, Entries;
  }

  function Received(v: Scene, c: nat): Scene
    requires c < |v.tasks| == |v.queues| && v.queues[c] != []
  {
    var m := v.queues[c][0];
    v.(tasks := v.tasks[c := v.tasks[c].(inHand := Some(m))], queues := v.queues[c := v.queues[c][1..]],
       log := v.log + [Event(c, m)])
  }

  /** A message that goes on to client `y`. */
  lemma ForwardView(members: seq<int>, v: Scene, c: nat, m: nat, rest: seq<int>, y: nat)
    requires c < |v.tasks| == |v.queues| && y < |v.queues| && Carried(v.tasks[c]) == Some(m) && m < |v.msgs|
    requires v.msgs[m].dest == rest + [-1 - y] && |v.queues[y]| < MESSAGE_QUEUE_LENGTH
    ensures Apply(View(TheGroup(members), v), Forward(c)) == View(TheGroup(members), Forwarded(v, c, m, rest, y))
    ensures HasRoom(View(TheGroup(members), v), Forward(c))
  {
    AsMapUpdate(v.tasks, c, PutDown(v.tasks[c]));
    AsMapUpdate(v.queues, y, v.queues[y] + [m]);
    RouteTo(|v.queues|, rest, y);
    hide AsMap, Entries, Route, Carried, PutDown, HasRoom;
    RoomAt(View(TheGroup(members), v), c, m, y);
  }

  function Forwarded(v: Scene, c: nat, m: nat, rest: seq<int>, y: nat): Scene
    requires c < |v.tasks| && y < |v.queues| && m < |v.msgs|
  {
    v.(tasks := v.tasks[c := PutDown(v.tasks[c])], queues := v.queues[y := v.queues[y] + [m]],
       msgs := v.msgs[m := v.msgs[m].(dest := rest)])
  }

  lemma RouteTo(n: nat, rest: seq<int>, y: nat)
    requires y < n
    ensures Route(Entries(n), rest + [-1 - y]) == (Some(y), rest)
  {
    EntryResolves(n, y);
    hide Resolve, Entries;
    var dest := rest + [-1 - y];
    assert dest[|dest| - 1] == -1 - y && dest[..|dest| - 1] == rest;
  }

  lemma RoomAt(s: Sys, c: nat, m: nat, y: nat)
    requires c in s.tasks && Carried(s.tasks[c]) == Some(m) && m < |s.msgs| && y in s.queues
    requires Route(s.reg.clients, s.msgs[m].dest).0 == Some(y) && |s.queues[y]| < MESSAGE_QUEUE_LENGTH
    ensures HasRoom(s, Forward(c))
  {
    hide Route, Carried;
  }

  /** A message whose list is used up. */
  lemma LastForwardView(members: seq<int>, v: Scene, c: nat, m: nat)
    requires c < |v.tasks| && Carried(v.tasks[c]) == Some(m) && m < |v.msgs| && v.msgs[m].dest == []
    ensures Apply(View(TheGroup(members), v), Forward(c))
         == View(TheGroup(members), v.(tasks := v.tasks[c := PutDown(v.tasks[c])]))
    ensures HasRoom(View(TheGroup(members), v), Forward(c))
  {
    AsMapUpdate(v.tasks, c, PutDown(v.tasks[c]));
    hide AsMap, Entries, Carried, PutDown;
    assert v.msgs[m := v.msgs[m].(dest := [])] == v.msgs;
  }

  // ----- what a client does in two steps, with all tasks idle before and after

  function Idles(n: nat): (tasks: seq<Task>)
    ensures |tasks| == n
  {
    seq(n, c => Idle(-1 - c))
  }

  function Calm(groups: seq<Group>, queues: seq<seq<nat>>, msgs: seq<Msg>, log: seq<Event>): Sys {
    View(groups, Scene(Idles(|queues|), queues, msgs, log))
  }

  lemma TwoSteps(run: seq<Action>, s: Sys, a: Action, t: Sys, b: Action, u: Sys)
    requires Reaches(run, s) && Apply(s, a) == t && HasRoom(s, a) && Apply(t, b) == u && HasRoom(t, b)
    ensures Reaches(run + [a, b], u)
  {
    hide *;
    Next(run, s, a, t);
    Next(run + [a], t, b, u);
    assert run + [a] + [b] == run + [a, b];
  }

  lemma Connects(run: seq<Action>, queues: seq<seq<nat>>)
    requires Reaches(run, Calm([], queues, [], []))
    ensures Reaches(run + [NewClient(|queues|), Initialize(|queues|)], Calm([], queues + [[]], [], []))
  {
    hide Reaches, View, Apply;
    var n := |queues|;
    var v := Scene(Idles(n), queues, [], []);
    var w := v.(tasks := v.tasks + [Idle(INVALID)]);
    NewClientView(v);
    InitializeView(w, n);
    assert w.tasks[n := w.tasks[n].(addr := -1 - n)] == Idles(n + 1);
    TwoSteps(run, View([], v), NewClient(n), View([], w), Initialize(n), Calm([], queues + [[]], [], []));
  }

  lemma FirstJoins(run: seq<Action>, queues: seq<seq<nat>>, c: nat)
    requires c < |queues| && Reaches(run, Calm([], queues, [], []))
    ensures Reaches(run + [JoinFind(c, NAME), JoinAdd(c)], Calm(TheGroup([-1 - c]), queues, [], []))
  {
    hide Reaches, View, Apply, TheGroup;
    var v := Scene(Idles(|queues|), queues, [], []);
    var w := v.(tasks := v.tasks[c := v.tasks[c].(joining := Some(GROUP))]);
    FirstJoinFindView(v, c);
    JoinAddView([], w, c);
    assert w.tasks[c := w.tasks[c].(joining := None)] == v.tasks;
    assert [-1 - c] + [] == [-1 - c];
    TwoSteps(run, View([], v), JoinFind(c, NAME), View(TheGroup([]), w), JoinAdd(c), View(TheGroup([-1 - c]), v));
  }

  lemma Joins(run: seq<Action>, members: seq<int>, queues: seq<seq<nat>>, c: nat)
    requires c < |queues| && -1 - c !in members && Reaches(run, Calm(TheGroup(members), queues, [], []))
    ensures Reaches(run + [JoinFind(c, NAME), JoinAdd(c)], Calm(TheGroup([-1 - c] + members), queues, [], []))
  {
    hide Reaches, View, Apply, TheGroup;
    var v := Scene(Idles(|queues|), queues, [], []);
    var w := v.(tasks := v.tasks[c := v.tasks[c].(joining := Some(GROUP))]);
    JoinFindView(members, v, c);
    JoinAddView(members, w, c);
    assert w.tasks[c := w.tasks[c].(joining := None)] == v.tasks;
    TwoSteps(run, View(TheGroup(members), v), JoinFind(c, NAME), View(TheGroup(members), w), JoinAdd(c),
             View(TheGroup([-1 - c] + members), v));
  }

  lemma Leaves(run: seq<Action>, members: seq<int>, queues: seq<seq<nat>>, msgs: seq<Msg>, log: seq<Event>, c: nat)
    requires c < |queues| && Reaches(run, Calm(TheGroup(members), queues, msgs, log))
    ensures Reaches(run + [LeaveFind(c, NAME), LeaveRemove(c)],
                    Calm(TheGroup(RemoveIf(members, OtherAddress(-1 - c))), queues, msgs, log))
  {
    hide Reaches, View, Apply, TheGroup, RemoveIf;
    var v := Scene(Idles(|queues|), queues, msgs, log);
    var w := v.(tasks := v.tasks[c := v.tasks[c].(leaving := Some(GROUP))]);
    LeaveFindView(members, v, c);
    LeaveRemoveView(members, w, c);
    assert w.tasks[c := w.tasks[c].(leaving := None)] == v.tasks;
    TwoSteps(run, View(TheGroup(members), v), LeaveFind(c, NAME), View(TheGroup(members), w), LeaveRemove(c),
             View(TheGroup(RemoveIf(members, OtherAddress(-1 - c))), v));
  }

  lemma SendsOn(run: seq<Action>, members: seq<int>, queues: seq<seq<nat>>, msgs: seq<Msg>, log: seq<Event>, c: nat,
                rest: seq<int>, y: nat)
    requires c < |queues| && y < |queues| && members == rest + [-1 - y] && |queues[y]| < MESSAGE_QUEUE_LENGTH
    requires Reaches(run, Calm(TheGroup(members), queues, msgs, log))
    ensures Reaches(run + [Send(c, GROUP), Forward(c)],
                    Calm(TheGroup(members), queues[y := queues[y] + [|msgs|]],
                         msgs + [Msg(-1 - c, GROUP, members, rest)], log))
  {
    hide Reaches, View, Apply, TheGroup;
    var v, m := Scene(Idles(|queues|), queues, msgs, log), |msgs|;
    var w := v.(tasks := v.tasks[c := v.tasks[c].(outgoing := Some(m))],
                msgs := msgs + [Msg(-1 - c, GROUP, members, members)]);
    SendView(members, v, c);
    ForwardView(members, w, c, m, rest, y);
    assert w.tasks[c := PutDown(w.tasks[c])] == v.tasks;
    assert w.msgs[m := w.msgs[m].(dest := rest)] == msgs + [Msg(-1 - c, GROUP, members, rest)];
    TwoSteps(run, View(TheGroup(members), v), Send(c, GROUP), View(TheGroup(members), w), Forward(c),
             View(TheGroup(members), Forwarded(w, c, m, rest, y)));
  }

  lemma HandsOn(run: seq<Action>, members: seq<int>, queues: seq<seq<nat>>, msgs: seq<Msg>, log: seq<Event>, c: nat,
                m: nat, tail: seq<nat>, rest: seq<int>, y: nat)
    requires c < |queues| && y < |queues| && queues[c] == [m] + tail && m < |msgs| && msgs[m].dest == rest + [-1 - y]
    requires |queues[c := tail][y]| < MESSAGE_QUEUE_LENGTH
    requires Reaches(run, Calm(TheGroup(members), queues, msgs, log))
    ensures Reaches(run + [Receive(c), Forward(c)],
                    Calm(TheGroup(members), queues[c := tail][y := queues[c := tail][y] + [m]],
                         msgs[m := msgs[m].(dest := rest)], log + [Event(c, m)]))
  {
    hide Reaches, View, Apply, TheGroup;
    var v := Scene(Idles(|queues|), queues, msgs, log);
    var w := Received(v, c);
    assert queues[c][0] == m && queues[c][1..] == tail;
    ReceiveView(members, v, c);
    ForwardView(members, w, c, m, rest, y);
    assert w.tasks[c := PutDown(w.tasks[c])] == v.tasks;
    TwoSteps(run, View(TheGroup(members), v), Receive(c), View(TheGroup(members), w), Forward(c),
             View(TheGroup(members), Forwarded(w, c, m, rest, y)));
  }

  lemma EndsAt(run: seq<Action>, members: seq<int>, queues: seq<seq<nat>>, msgs: seq<Msg>, log: seq<Event>, c: nat,
               m: nat, tail: seq<nat>)
    requires c < |queues| && queues[c] == [m] + tail && m < |msgs| && msgs[m].dest == []
    requires Reaches(run, Calm(TheGroup(members), queues, msgs, log))
    ensures Reaches(run + [Receive(c), Forward(c)],
                    Calm(TheGroup(members), queues[c := tail], msgs, log + [Event(c, m)]))
  {
    hide Reaches, View, Apply, TheGroup;
    var v := Scene(Idles(|queues|), queues, msgs, log);
    var w := Received(v, c);
    assert queues[c][0] == m && queues[c][1..] == tail;
    ReceiveView(members, v, c);
    LastForwardView(members, w, c, m);
    assert w.tasks[c := PutDown(w.tasks[c])] == v.tasks;
    TwoSteps(run, View(TheGroup(members), v), Receive(c), View(TheGroup(members), w), Forward(c),
             View(TheGroup(members), w.(tasks := v.tasks)));
  }

  // ----- the run

  /** Clients 0, 1 and 2 connect and join the group. */
  function JoinedRun(): seq<Action> {
    [NewClient(0), Initialize(0)] + [NewClient(1), Initialize(1)] + [NewClient(2), Initialize(2)]
    + [JoinFind(0, NAME), JoinAdd(0)] + [JoinFind(1, NAME), JoinAdd(1)] + [JoinFind(2, NAME), JoinAdd(2)]
  }

  /** Client 0 sends message 0 to the group, client 1 leaves the group, and client 0 sends message 1. */
  function LeftRun(): seq<Action> {
    JoinedRun() + [Send(0, GROUP), Forward(0)] + [LeaveFind(1, NAME), LeaveRemove(1)] + [Send(0, GROUP), Forward(0)]
  }

  /** Client 0 receives message 0, then message 1, and then message 1 again. */
  function ReceivedTwiceRun(): seq<Action> {
    LeftRun() + [Receive(0), Forward(0)] + [Receive(0), Forward(0)] + [Receive(0), Forward(0)]
  }

  /** Client 2 receives message 1 before client 1, which is slow, passes message 0 on. */
  function OvertakenRun(): seq<Action> {
    ReceivedTwiceRun() + [Receive(2), Forward(2)] + [Receive(1), Forward(1)] + [Receive(2), Forward(2)]
  }

  const NO_MESSAGES: seq<nat> := []
  const ALL_EMPTY: seq<seq<nat>> := [NO_MESSAGES, NO_MESSAGES, NO_MESSAGES]

  lemma JoinedIsReached()
    ensures Reaches(JoinedRun(), Calm(TheGroup([-3, -2, -1]), ALL_EMPTY, [], []))
  {
    NothingIsReached();
    hide Reaches, Calm, TheGroup;
    var none := NO_MESSAGES;
    var r: seq<Action>, q: seq<seq<nat>> := [], [];
    Connects(r, q);
    var r1 := [NewClient(0), Initialize(0)];
    assert q + [[]] == [none] && r + r1 == r1;
    Connects(r1, [none]);
    assert [none] + [[]] == [none, none];
    var r2 := r1 + [NewClient(1), Initialize(1)];
    Connects(r2, [none, none]);
    assert [none, none] + [[]] == ALL_EMPTY;
    var r3 := r2 + [NewClient(2), Initialize(2)];
    FirstJoins(r3, ALL_EMPTY, 0);
    var r4 := r3 + [JoinFind(0, NAME), JoinAdd(0)];
    Joins(r4, [-1], ALL_EMPTY, 1);
    assert [-2] + [-1] == [-2, -1];
    Joins(r4 + [JoinFind(1, NAME), JoinAdd(1)], [-2, -1], ALL_EMPTY, 2);
    assert [-3] + [-2, -1] == [-3, -2, -1];
  }

  lemma NothingIsReached()
    ensures Reaches([], Calm([], [], [], []))
  {
    assert AsMap(Idles(0)) == map[];
  }

  lemma SecondIsRemoved()
    ensures RemoveIf([-3, -2, -1], OtherAddress(-2)) == [-3, -1, -1]
  {
    hide RemoveIf;
    var s := [-3, -2, -1];
    RemoveOne(s, OtherAddress(-2), 1);
    assert s[..1] + s[2..] + [s[2]] == [-3, -1, -1];
  }

  function First(rest: seq<int>): Msg {
    Msg(-1, GROUP, [-3, -2, -1], rest)
  }

  function Second(rest: seq<int>): Msg {
    Msg(-1, GROUP, [-3, -1, -1], rest)
  }

  lemma LeftIsReached()
    ensures Reaches(LeftRun(), Calm(TheGroup([-3, -1, -1]), [[0, 1], NO_MESSAGES, NO_MESSAGES],
                                    [First([-3, -2]), Second([-3, -1])], []))
  {
    JoinedIsReached();
    SecondIsRemoved();
    hide Reaches, Calm, TheGroup, RemoveIf, JoinedRun;
    var none := NO_MESSAGES;
    var all, left := [-3, -2, -1], [-3, -1, -1];
    var r0 := JoinedRun();
    SendsOn(r0, all, ALL_EMPTY, [], [], 0, [-3, -2], 0);
    var r1, q1 := r0 + [Send(0, GROUP), Forward(0)], [[0], none, none];
    assert none + [0] == [0] && ALL_EMPTY[0 := ALL_EMPTY[0] + [0]] == q1;
    assert [] + [Msg(-1, GROUP, all, [-3, -2])] == [First([-3, -2])];
    Leaves(r1, all, q1, [First([-3, -2])], [], 1);
    var r2 := r1 + [LeaveFind(1, NAME), LeaveRemove(1)];
    SendsOn(r2, left, q1, [First([-3, -2])], [], 0, [-3, -1], 0);
    assert [0] + [1] == [0, 1] && q1[0 := q1[0] + [1]] == [[0, 1], none, none];
    assert [First([-3, -2])] + [Msg(-1, GROUP, left, [-3, -1])] == [First([-3, -2]), Second([-3, -1])];
  }

  lemma ReceivedTwiceIsReached()
    ensures Reaches(ReceivedTwiceRun(), Calm(TheGroup([-3, -1, -1]), [NO_MESSAGES, [0], [1]], [First([-3]), Second([])],
                                             [Event(0, 0), Event(0, 1), Event(0, 1)]))
  {
    LeftIsReached();
    hide Reaches, Calm, TheGroup, LeftRun;
    var none, left, r0 := NO_MESSAGES, [-3, -1, -1], LeftRun();
    var q0, m0, l0: seq<Event> := [[0, 1], none, none], [First([-3, -2]), Second([-3, -1])], [];
    HandsOn(r0, left, q0, m0, l0, 0, 0, [1], [-3], 1);
    var r1, q1, m1, l1 := r0 + [Receive(0), Forward(0)], [[1], [0], none], [First([-3]), Second([-3, -1])],
                          [Event(0, 0)];
    assert none + [0] == [0] && none + [1] == [1];
    assert q0[0 := [1]][1 := none + [0]] == q1 && m0[0 := First([-3])] == m1 && l0 + [Event(0, 0)] == l1;
    HandsOn(r1, left, q1, m1, l1, 0, 1, [], [-3], 0);
    var r2, q2, m2, l2 := r1 + [Receive(0), Forward(0)], [[1], [0], none], [First([-3]), Second([-3])],
                          [Event(0, 0), Event(0, 1)];
    assert q1[0 := none][0 := none + [1]] == q2 && m1[1 := Second([-3])] == m2 && l1 + [Event(0, 1)] == l2;
    HandsOn(r2, left, q2, m2, l2, 0, 1, [], [], 2);
    assert q2[0 := none][2 := none + [1]] == [none, [0], [1]] && m2[1 := Second([])] == [First([-3]), Second([])];
    assert l2 + [Event(0, 1)] == [Event(0, 0), Event(0, 1), Event(0, 1)];
  }

  function TheLog(): seq<Event> {
    [Event(0, 0), Event(0, 1), Event(0, 1), Event(2, 1), Event(1, 0), Event(2, 0)]
  }

  lemma OvertakenIsReached()
    ensures Reaches(OvertakenRun(), Calm(TheGroup([-3, -1, -1]), ALL_EMPTY, [First([]), Second([])], TheLog()))
  {
    ReceivedTwiceIsReached();
    hide Reaches, Calm, TheGroup, ReceivedTwiceRun;
    var none, left, r0 := NO_MESSAGES, [-3, -1, -1], ReceivedTwiceRun();
    var q0, m0, l0 := [none, [0], [1]], [First([-3]), Second([])], [Event(0, 0), Event(0, 1), Event(0, 1)];
    EndsAt(r0, left, q0, m0, l0, 2, 1, []);
    var r1, q1, l1 := r0 + [Receive(2), Forward(2)], [none, [0], none], l0 + [Event(2, 1)];
    assert q0[2 := none] == q1;
    HandsOn(r1, left, q1, m0, l1, 1, 0, [], [], 2);
    var r2, q2, m2, l2 := r1 + [Receive(1), Forward(1)], [none, none, [0]], [First([]), Second([])], l1 + [Event(1, 0)];
    assert none + [0] == [0] && q1[1 := none][2 := none + [0]] == q2 && m0[0 := First([])] == m2;
    EndsAt(r2, left, q2, m2, l2, 2, 0, []);
    assert q2[2 := none] == ALL_EMPTY && l2 + [Event(2, 0)] == TheLog();
  }

  // ----- what the run shows

  lemma NothingInFlight(groups: seq<Group>, msgs: seq<Msg>, log: seq<Event>, id: nat)
    ensures !InFlight(Calm(groups, ALL_EMPTY, msgs, log), id)
  {
    hide Entries;
  }

  lemma RepeatedMember(msgs: seq<Msg>, log: seq<Event>)
    ensures !NoDup(Destination(Calm(TheGroup([-3, -1, -1]), ALL_EMPTY, msgs, log).reg, GROUP))
  {
    var d := [-3, -1, -1];
    assert d[1] == d[2];
  }

  /**
    A run without a full queue, at whose end nothing is in flight, in which a member that is not the first
    leaves the group: client 0 has received message 1 twice, and while it received message 0 first, client 2
    received message 1 first.
    */
  lemma MiddleLeaveBreaksDelivery()
    ensures var s := Final(OvertakenRun());
            && NeverFull(OvertakenRun()) && !NoMiddleLeave(OvertakenRun(), GROUP)
            && |s.msgs| == 2 && s.msgs[0].to == s.msgs[1].to == GROUP && !InFlight(s, 0) && !InFlight(s, 1)
            && multiset(Visits(s.log, 1))[0] == 2
            && Event(0, 0) in s.log && Event(0, 1) in s.log && Event(2, 0) in s.log && Event(2, 1) in s.log
            && FirstReceipt(s.log, 0, 0) < FirstReceipt(s.log, 0, 1)
            && FirstReceipt(s.log, 2, 1) < FirstReceipt(s.log, 2, 0)
  {
    OvertakenIsReached();
    var run, s := OvertakenRun(), Final(OvertakenRun());
    hide Final, NeverFull, OvertakenRun;
    DistinctMembers(run, GROUP);
    RepeatedMember(s.msgs, s.log);
    NothingInFlight(TheGroup([-3, -1, -1]), s.msgs, s.log, 0);
    NothingInFlight(TheGroup([-3, -1, -1]), s.msgs, s.log, 1);
    LogOfRun(s.log);
  }

  lemma LogOfRun(log: seq<Event>)
    requires log == TheLog()
    ensures multiset(Visits(log, 1))[0] == 2
    ensures Event(0, 0) in log && Event(0, 1) in log && Event(2, 0) in log && Event(2, 1) in log
    ensures FirstReceipt(log, 0, 0) < FirstReceipt(log, 0, 1) && FirstReceipt(log, 2, 1) < FirstReceipt(log, 2, 0)
  {
    ReceivedTwiceIn(log);
    hide Visits, FirstReceipt;
    FirstIs(log, 0, 0, 0);
    FirstIs(log, 0, 1, 1);
    FirstIs(log, 2, 1, 3);
    FirstIs(log, 2, 0, 5);
  }

  lemma ReceivedTwiceIn(log: seq<Event>)
    requires log == TheLog()
    ensures multiset(Visits(log, 1))[0] == 2
  {
    hide TheLog, Visits;
    EventCount(log, 0, 1);
    TwiceInLog();
  }

  lemma FirstIs(log: seq<Event>, p: nat, m: nat, k: nat)
    requires k < |log| && log[k] == Event(p, m) && forall i | 0 <= i < k :: log[i] != Event(p, m)
    ensures Event(p, m) in log && FirstReceipt(log, p, m) == k
  {
    hide FirstReceipt;
    assert log[k] in log;
  }

  lemma TwiceInLog()
    ensures multiset(TheLog())[Event(0, 1)] == 2
  {
  }
}
