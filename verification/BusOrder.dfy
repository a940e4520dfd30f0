/**
  Order: whenever the snapshots of two messages agree, in that one is the older part of the other, the two
  are received in the same order at every hop that both reach.  This holds in every run, with leaves, full
  queues and late joins; what follows for groups are the last results of this file.
  */
module BusOrder {
  import opened Options
  import opened BusRegistry
  import opened BusProtocol
  import opened BusRuns
  import opened BusGroups
  import opened BusDelivery

  // ----- receipts in the log

  /** The place in the log of receipt number `i` of message `m`. */
  function ReceiptAt(log: seq<Event>, m: nat, i: nat): (r: nat)
    requires i < |Visits(log, m)|
    ensures r < |log| && log[r] == Event(Visits(log, m)[i], m)
  {
    var front, last := log[..|log| - 1], log[|log| - 1];
    if i < |Visits(front, m)| then ReceiptAt(front, m, i) else |log| - 1
  }

  lemma ReceiptStays(log: seq<Event>, e: Event, m: nat, i: nat)
    requires i < |Visits(log, m)|
    ensures i < |Visits(log + [e], m)| && ReceiptAt(log + [e], m, i) == ReceiptAt(log, m, i)
  {
    assert (log + [e])[..|log|] == log;
  }

  lemma ReceiptIsNew(log: seq<Event>, e: Event)
    ensures |Visits(log, e.msg)| < |Visits(log + [e], e.msg)|
    ensures ReceiptAt(log + [e], e.msg, |Visits(log, e.msg)|) == |log|
  {
    assert (log + [e])[..|log|] == log;
  }

  // ----- one message before another

  /** One snapshot is the older part of the other. */
  predicate Agree(a: seq<int>, b: seq<int>) {
    IsSuffix(a, b) || IsSuffix(b, a)
  }

  /** Entry number `i` of a snapshot, in the order of the hops. */
  function Hop(snapshot: seq<int>, i: nat): int
    requires i < |snapshot|
  {
    snapshot[|snapshot| - 1 - i]
  }

  lemma SameHop(a: seq<int>, b: seq<int>, i: nat)
    requires Agree(a, b) && i < |a| && i < |b|
    ensures Hop(a, i) == Hop(b, i)
  {
    if IsSuffix(a, b) {
      assert b[|b| - |a|..][|a| - 1 - i] == b[|b| - 1 - i];
    } else {
      assert a[|a| - |b|..][|b| - 1 - i] == a[|a| - 1 - i];
    }
  }

  function Receipts(s: Sys, m: nat): nat {
    |Visits(s.log, m)|
  }

  ghost predicate QueuedBefore(s: Sys, c: nat, j: nat, m: nat) {
    exists i: nat :: i < j && At(s, Queued(c, i), m)
  }

  /**
    As long as `m` is in flight, `n` has not overtaken it: it has no more receipts, and where both wait for
    the same hop, `m` stands before it in the queue.
    */
  ghost predicate Leads(s: Sys, m: nat, n: nat) {
    InFlight(s, m) ==>
      && Receipts(s, n) <= Receipts(s, m)
      && forall c: nat, j: nat | At(s, Queued(c, j), n) && Receipts(s, n) == Receipts(s, m) :: QueuedBefore(s, c, j, m)
  }

  /** Every hop that both reached was reached by `m` first. */
  ghost predicate Precedes(log: seq<Event>, m: nat, n: nat) {
    forall i | 0 <= i < |Visits(log, m)| && i < |Visits(log, n)| :: ReceiptAt(log, m, i) < ReceiptAt(log, n, i)
  }

  ghost predicate Ordered(s: Sys, m: nat, n: nat) {
    Leads(s, m, n) && Precedes(s.log, m, n)
  }

  // ----- where the client of a place stands in the snapshot

  /** A message waits at the owner of its next hop, is held by the owner of its last, and starts at none. */
  lemma PlaceHop(s: Sys, p: Place, id: nat)
    requires FlowInv(s) && At(s, p, id)
    ensures id < |s.msgs| && (p.Outgoing? <==> Receipts(s, id) == 0 && !p.Queued?)
    ensures var a, snapshot := Receipts(s, id), s.msgs[id].snapshot;
            && (p.Queued? ==> p.client in s.queues && p.client in s.tasks && a < |snapshot|
                              && s.tasks[p.client].addr == Hop(snapshot, a))
            && (p.Held? ==> p.client in s.queues && p.client in s.tasks && 0 < a <= |snapshot|
                            && s.tasks[p.client].addr == Hop(snapshot, a - 1))
  {
    hide RegistryInv, Linear, MsgOk, Visits, VisitsOk, At;
    AtExistsIn(s, p, id);
    assert PlaceOk(s, p, s.msgs[id]);
  }

  lemma AtExistsIn(s: Sys, p: Place, id: nat)
    requires FlowInv(s) && At(s, p, id)
    ensures id < |s.msgs|
  {
    AtExists(s, p, id);
  }

  lemma OneClient(s: Sys, c: nat, d: nat)
    requires FlowInv(s) && c in s.queues && d in s.queues && c in s.tasks && d in s.tasks
    requires s.tasks[c].addr == s.tasks[d].addr
    ensures c == d
  {
    OwnersDistinct(s, c, d);
  }

  lemma OnePlace(s: Sys, p: Place, q: Place, id: nat)
    requires FlowInv(s) && At(s, p, id) && At(s, q, id)
    ensures p == q
  {
  }

  // ----- steps

  /** What changes neither the log nor the places of the two messages keeps their order. */
  lemma UntouchedOrder(s: Sys, t: Sys, m: nat, n: nat)
    requires Ordered(s, m, n) && t.log == s.log
    requires forall p: Place :: (At(t, p, m) <==> At(s, p, m)) && (At(t, p, n) <==> At(s, p, n))
    ensures Ordered(t, m, n)
  {
    hide Visits, ReceiptAt, At;
    if InFlight(t, m) {
      var p :| At(t, p, m);
      StillAt(s, p, m);
      forall c: nat, j: nat | At(t, Queued(c, j), n) && Receipts(t, n) == Receipts(t, m)
        ensures QueuedBefore(t, c, j, m)
      {
        assert QueuedBefore(s, c, j, m);
        var i: nat :| i < j && At(s, Queued(c, i), m);
        assert At(t, Queued(c, i), m);
      }
    }
  }

  lemma QuietOrder(s: Sys, t: Sys, m: nat, n: nat)
    requires Quiet(s, t) && Ordered(s, m, n)
    ensures Ordered(t, m, n)
  {
    hide Ordered;
    UntouchedOrder(s, t, m, n);
  }

  lemma SendOrder(s: Sys, c: nat, to: int, m: nat, n: nat)
    requires c in s.tasks && s.tasks[c].outgoing.None? && m < |s.msgs| && n < |s.msgs| && Ordered(s, m, n)
    ensures Ordered(DoSend(s, c, to), m, n)
  {
    hide Ordered, Destination;
    UntouchedOrder(s, DoSend(s, c, to), m, n);
  }

  // ----- a step that receives

  predicate CanReceive(s: Sys, c: nat) {
    c in s.tasks && c in s.queues && s.queues[c] != [] && Free(s.tasks[c])
  }

  lemma ReceivePrecedes(s: Sys, c: nat, m: nat, n: nat)
    requires FlowInv(s) && CanReceive(s, c) && m != n && Ordered(s, m, n)
    ensures Precedes(DoReceive(s, c).log, m, n)
  {
    hide FlowInv, Visits, ReceiptAt, At;
    var x, log := s.queues[c][0], s.log;
    var e := Event(c, x);
    AtHead(s, c);
    ReceiptIsNew(log, e);
    VisitsSnoc(log, e, m);
    VisitsSnoc(log, e, n);
    forall i | 0 <= i < |Visits(log + [e], m)| && i < |Visits(log + [e], n)|
      ensures ReceiptAt(log + [e], m, i) < ReceiptAt(log + [e], n, i)
    {
      if x == m && i == |Visits(log, m)| {
        StillAt(s, Queued(c, 0), m);
      }
      ReceiptStays(log, e, m, i);
      if i < |Visits(log, n)| {
        ReceiptStays(log, e, n, i);
      }
    }
  }

  lemma ReceiveLeads(s: Sys, c: nat, m: nat, n: nat)
    requires FlowInv(s) && CanReceive(s, c) && m != n && Ordered(s, m, n)
    ensures Leads(DoReceive(s, c), m, n)
  {
    hide FlowInv, Visits, Precedes, At;
    var t, x := DoReceive(s, c), s.queues[c][0];
    AtHead(s, c);
    VisitsSnoc(s.log, Event(c, x), m);
    VisitsSnoc(s.log, Event(c, x), n);
    if InFlight(t, m) {
      var p :| At(t, p, m);
      ReceiveMoves(s, c, p, m);
      StillAt(s, BeforeReceive(c, p), m);
      NobodyBeforeHead(s, c, m);
      forall d: nat, j: nat | At(t, Queued(d, j), n) && Receipts(t, n) == Receipts(t, m)
        ensures QueuedBefore(t, d, j, m)
      {
        ReceiveQueued(s, c, d, j, n);
        var j' := if d == c then j + 1 else j;
        assert x != n;
        assert x != m;
        assert QueuedBefore(s, d, j', m);
        var i: nat :| i < j' && At(s, Queued(d, i), m);
        MovesUp(s, c, d, i, m);
        assert At(t, Queued(d, if d == c then i - 1 else i), m);
      }
    }
  }

  lemma NobodyBeforeHead(s: Sys, c: nat, m: nat)
    ensures !QueuedBefore(s, c, 0, m)
  {
  }

  /** What waits after a receive was waiting one place further back, and was not at the head. */
  lemma ReceiveQueued(s: Sys, c: nat, d: nat, j: nat, id: nat)
    requires FlowInv(s) && CanReceive(s, c) && At(DoReceive(s, c), Queued(d, j), id)
    ensures At(s, Queued(d, if d == c then j + 1 else j), id) && id != s.queues[c][0]
  {
    ReceiveMoves(s, c, Queued(d, j), id);
    AtHead(s, c);
    hide FlowInv, DoReceive, At;
    if id == s.queues[c][0] {
      OnePlace(s, Queued(c, 0), Queued(d, if d == c then j + 1 else j), id);
    }
  }

  lemma MovesUp(s: Sys, c: nat, d: nat, i: nat, id: nat)
    requires CanReceive(s, c) && At(s, Queued(d, i), id) && id != s.queues[c][0]
    ensures d == c ==> i > 0
    ensures At(DoReceive(s, c), Queued(d, if d == c then i - 1 else i), id)
  {
  }

  // ----- a step that forwards

  lemma ForwardOthers(s: Sys, c: nat, x: nat, p: Place, id: nat)
    requires FlowInv(s) && x < |s.msgs| && c in s.tasks && Carried(s.tasks[c]) == Some(x) && id != x
    ensures At(DoForward(s, c), p, id) <==> At(s, p, id)
  {
    CarriedAtPlace(s, c, x);
    if At(DoForward(s, c), p, id) {
      ForwardMoves(s, c, x, p, id);
      hide FlowInv, DoForward, At;
      if BeforeForward(s, c, Landing(s, x), p) != p {
        OnePlaceOneMessage(s, CarriedPlace(s.tasks[c], c), id, x);
      }
    } else if At(s, p, id) {
      OnePlaceOneMessage(s, p, id, x);
      ForwardStays(s, c, x, p, id);
    }
  }

  lemma CarriedAtPlace(s: Sys, c: nat, x: nat)
    requires c in s.tasks && Carried(s.tasks[c]) == Some(x)
    ensures At(s, CarriedPlace(s.tasks[c], c), x)
  {
  }

  /** Where the message that was forwarded can be: at the end of the queue it entered. */
  lemma ForwardedTo(s: Sys, c: nat, x: nat, p: Place)
    requires FlowInv(s) && x < |s.msgs| && c in s.tasks && Carried(s.tasks[c]) == Some(x)
    requires At(DoForward(s, c), p, x)
    ensures Landing(s, x).Some? && p == Queued(Landing(s, x).value, |s.queues[Landing(s, x).value]|)
  {
    ForwardMoves(s, c, x, p, x);
    hide FlowInv, DoForward, At;
    OnePlace(s, CarriedPlace(s.tasks[c], c), BeforeForward(s, c, Landing(s, x), p), x);
  }

  lemma ForwardLog(s: Sys, c: nat, x: nat)
    requires FlowInv(s) && x < |s.msgs| && c in s.tasks && Carried(s.tasks[c]) == Some(x)
    ensures DoForward(s, c).log == s.log
  {
    ForwardMsg(s, c, x, x);
  }

  /** The leader moves on, or gets lost. */
  lemma LeaderForwards(s: Sys, c: nat, m: nat, n: nat)
    requires FlowInv(s) && m < |s.msgs| && c in s.tasks && Carried(s.tasks[c]) == Some(m)
    requires m != n && Ordered(s, m, n)
    ensures Ordered(DoForward(s, c), m, n)
  {
    var t := DoForward(s, c);
    ForwardLog(s, c, m);
    CarriedAtPlace(s, c, m);
    StillAt(s, CarriedPlace(s.tasks[c], c), m);
    hide FlowInv, DoForward, At, Precedes, Carried, InFlight;
    forall d: nat, j: nat
      ensures !QueuedBefore(s, d, j, m)
      ensures At(t, Queued(d, j), n) ==> At(s, Queued(d, j), n)
    {
      CarriedNotQueued(s, c, m, d, j);
      ForwardOthers(s, c, m, Queued(d, j), n);
    }
  }

  lemma CarriedNotQueued(s: Sys, c: nat, m: nat, d: nat, j: nat)
    requires FlowInv(s) && c in s.tasks && Carried(s.tasks[c]) == Some(m)
    ensures !QueuedBefore(s, d, j, m)
  {
    CarriedAtPlace(s, c, m);
    forall i: nat
      ensures !At(s, Queued(d, i), m)
    {
      DifferentPlaces(s, CarriedPlace(s.tasks[c], c), Queued(d, i), m);
    }
  }

  lemma DifferentPlaces(s: Sys, p: Place, q: Place, id: nat)
    requires FlowInv(s) && At(s, p, id) && p != q
    ensures !At(s, q, id)
  {
  }

  /** With as many receipts as the follower, the leader waits in the queue that the follower enters. */
  lemma JoinsQueueBehind(s: Sys, c: nat, m: nat, n: nat, p: Place)
    requires m < |s.msgs| && n < |s.msgs| && m != n && Agree(s.msgs[m].snapshot, s.msgs[n].snapshot)
    requires FlowInv(s) && c in s.tasks && Carried(s.tasks[c]) == Some(n) && Landing(s, n).Some?
    requires At(s, p, m) && Receipts(s, m) == Receipts(s, n) && !(p.Outgoing? && Receipts(s, n) == 0)
    ensures p.Queued? && p.client == Landing(s, n).value && p.pos < |s.queues[p.client]|
  {
    var y, a := Landing(s, n).value, Receipts(s, n);
    var q := CarriedPlace(s.tasks[c], c);
    CarriedAtPlace(s, c, n);
    PlaceHop(s, p, m);
    PlaceHop(s, q, n);
    LandsAtNextHop(s, c, n);
    hide FlowInv, Visits, Landing, Carried, Agree, Hop;
    if p.Held? {
      SameHop(s.msgs[m].snapshot, s.msgs[n].snapshot, a - 1);
      OneClient(s, p.client, c);
      OnePlaceOneMessage(s, p, m, n);
    } else {
      SameHop(s.msgs[m].snapshot, s.msgs[n].snapshot, a);
      OneClient(s, p.client, y);
    }
  }

  lemma LandsAtNextHop(s: Sys, c: nat, n: nat)
    requires FlowInv(s) && n < |s.msgs| && c in s.tasks && Carried(s.tasks[c]) == Some(n) && Landing(s, n).Some?
    ensures var y, a, snapshot := Landing(s, n).value, Receipts(s, n), s.msgs[n].snapshot;
            && y in s.queues && y in s.tasks && a < |snapshot| && s.tasks[y].addr == Hop(snapshot, a)
  {
    hide RegistryInv, Linear, Visits, VisitsOk, At, MsgOk, Landing, Carried, DoForward, PlaceOk;
    var msg := s.msgs[n];
    CarriedAtPlace(s, c, n);
    assert At(s, CarriedPlace(s.tasks[c], c), n);
    assert MsgOk(s, msg);
    MsgDest(s, msg);
    ForwardEffect(s, c, n);
  }

  /** The follower moves on: behind the leader, or first of all. */
  lemma FollowerForwards(s: Sys, c: nat, m: nat, n: nat)
    requires m < |s.msgs| && n < |s.msgs| && Agree(s.msgs[m].snapshot, s.msgs[n].snapshot)
    requires FlowInv(s) && c in s.tasks && Carried(s.tasks[c]) == Some(n)
    requires m != n && Ordered(s, m, n)
    ensures Ordered(DoForward(s, c), m, n) || Ordered(DoForward(s, c), n, m)
  {
    var t := DoForward(s, c);
    ForwardLog(s, c, n);
    CarriedAtPlace(s, c, n);
    hide FlowInv, DoForward, At, Carried, Visits, ReceiptAt;
    if InFlight(t, m) {
      var p :| At(t, p, m);
      ForwardOthers(s, c, n, p, m);
      StillAt(s, p, m);
      if p.Outgoing? && Receipts(s, n) == 0 {
        PlaceHop(s, p, m);
        forall q: Place | At(t, q, m)
          ensures q == p
        {
          ForwardOthers(s, c, n, q, m);
          OnePlace(s, q, p, m);
        }
        FirstOfAll(s, t, m, n, p);
      } else {
        forall d: nat, j: nat | At(t, Queued(d, j), n) && Receipts(t, n) == Receipts(t, m)
          ensures QueuedBefore(t, d, j, m)
        {
          ForwardedTo(s, c, n, Queued(d, j));
          JoinsQueueBehind(s, c, m, n, p);
        }
      }
    }
  }

  /** A leader that has not been forwarded yet is overtaken, before any hop. */
  lemma FirstOfAll(s: Sys, t: Sys, m: nat, n: nat, p: Place)
    requires t.log == s.log && Receipts(s, n) == 0 && Receipts(s, m) == 0 && p.Outgoing?
    requires forall q: Place | At(t, q, m) :: q == p
    ensures Ordered(t, n, m)
  {
  }

  // ----- every run

  lemma StepKeepsOrder(s: Sys, a: Action, m: nat, n: nat)
    requires m < |s.msgs| && n < |s.msgs| && m != n && Agree(s.msgs[m].snapshot, s.msgs[n].snapshot)
    requires FlowInv(s) && Ordered(s, m, n)
    ensures Ordered(Apply(s, a), m, n) || Ordered(Apply(s, a), n, m)
  {
    hide Ordered, RegistryInv, MsgOk, VisitsOk, Visits, PlaceOk, At, Agree;
    match a
    case Send(c, to) =>
      if c in s.tasks && s.tasks[c].outgoing.None? && to != INVALID { SendOrder(s, c, to, m, n); }
    case Forward(c) =>
      if c in s.tasks && Carried(s.tasks[c]).Some? { ForwardOrder(s, c, m, n); }
    case Receive(c) =>
      if CanReceive(s, c) { ReceiveOrder(s, c, m, n); }
    case _ =>
      QuietStep(s, a);
      QuietOrder(s, Apply(s, a), m, n);
  }

  lemma ReceiveOrder(s: Sys, c: nat, m: nat, n: nat)
    requires FlowInv(s) && CanReceive(s, c) && m != n && Ordered(s, m, n)
    ensures Ordered(DoReceive(s, c), m, n)
  {
    ReceiveLeads(s, c, m, n);
    ReceivePrecedes(s, c, m, n);
    hide *;
    BothOrder(DoReceive(s, c), m, n);
  }

  lemma BothOrder(s: Sys, m: nat, n: nat)
    requires Leads(s, m, n) && Precedes(s.log, m, n)
    ensures Ordered(s, m, n)
  {
  }

  lemma ForwardOrder(s: Sys, c: nat, m: nat, n: nat)
    requires m < |s.msgs| && n < |s.msgs| && m != n && Agree(s.msgs[m].snapshot, s.msgs[n].snapshot)
    requires FlowInv(s) && Ordered(s, m, n) && c in s.tasks && Carried(s.tasks[c]).Some?
    ensures Ordered(DoForward(s, c), m, n) || Ordered(DoForward(s, c), n, m)
  {
    var x := Carried(s.tasks[c]).value;
    CarriedAt(s, c);
    hide Agree, FlowInv, DoForward, Visits, ReceiptAt, At;
    if x == m {
      LeaderForwards(s, c, m, n);
    } else if x == n {
      FollowerForwards(s, c, m, n);
    } else {
      BystanderForwards(s, c, x, m, n);
    }
  }

  lemma BystanderForwards(s: Sys, c: nat, x: nat, m: nat, n: nat)
    requires FlowInv(s) && x < |s.msgs| && c in s.tasks && Carried(s.tasks[c]) == Some(x)
    requires x != m && x != n && Ordered(s, m, n)
    ensures Ordered(DoForward(s, c), m, n)
  {
    ForwardLog(s, c, x);
    hide FlowInv, DoForward, At, Carried, Ordered;
    forall p: Place
      ensures At(DoForward(s, c), p, m) <==> At(s, p, m)
      ensures At(DoForward(s, c), p, n) <==> At(s, p, n)
    {
      ForwardOthers(s, c, x, p, m);
      ForwardOthers(s, c, x, p, n);
    }
    UntouchedOrder(s, DoForward(s, c), m, n);
  }

  /** A message that was just made is behind every other. */
  lemma NewestIsLast(s: Sys, c: nat, to: int, m: nat)
    requires FlowInv(s) && LogOk(s) && c in s.tasks && s.tasks[c].outgoing.None? && m < |s.msgs|
    ensures Ordered(DoSend(s, c, to), m, |s.msgs|)
  {
    hide RegistryInv, MsgOk, VisitsOk, PlaceOk, Destination, ReceiptAt;
    var t, n := DoSend(s, c, to), |s.msgs|;
    if Visits(s.log, n) != [] {
      VisitsInLog(s.log, n);
    }
    hide Visits;
    forall d: nat, j: nat
      ensures !At(t, Queued(d, j), n)
    {
      NotYetQueued(s, d, j);
    }
  }

  lemma NotYetQueued(s: Sys, d: nat, j: nat)
    requires FlowInv(s)
    ensures !At(s, Queued(d, j), |s.msgs|)
  {
    hide RegistryInv, MsgOk, VisitsOk, PlaceOk, Visits;
  }

  /** In every run, one of any two messages with agreeing snapshots is ahead of the other. */
  lemma {:induction false} OrderInEveryRun(run: seq<Action>, m: nat, n: nat)
    requires m < |Final(run).msgs| && n < |Final(run).msgs| && m != n
    requires Agree(Final(run).msgs[m].snapshot, Final(run).msgs[n].snapshot)
    ensures Ordered(Final(run), m, n) || Ordered(Final(run), n, m)
  {
    if run != [] {
      var front, a := run[..|run| - 1], run[|run| - 1];
      var s := Final(front);
      EveryRun(front);
      hide FlowInv, LogOk, Apply, Ordered, Agree, Final;
      FinalSnoc(front, a);
      assert run == front + [a];
      if m < |s.msgs| && n < |s.msgs| {
        SnapshotsStay(s, a, m);
        SnapshotsStay(s, a, n);
        OrderInEveryRun(front, m, n);
        if Ordered(s, m, n) {
          StepKeepsOrder(s, a, m, n);
        } else {
          AgreeBoth(s.msgs[m].snapshot, s.msgs[n].snapshot);
          StepKeepsOrder(s, a, n, m);
        }
      } else {
        var newest := if m < |s.msgs| then n else m;
        NewMessage(s, a, newest);
        NewestIsLast(s, a.client, a.to, if m < |s.msgs| then m else n);
      }
    }
  }

  lemma AgreeBoth(a: seq<int>, b: seq<int>)
    requires Agree(a, b)
    ensures Agree(b, a)
  {
  }

  // ----- main results

  /**
    In every run, leaves and full queues included, two messages with agreeing snapshots are received in the
    same order at all hops that both reach.
    */
  lemma SameOrderAtEveryHop(run: seq<Action>, m: nat, n: nat, i: nat, j: nat)
    requires m < |Final(run).msgs| && n < |Final(run).msgs| && m != n
    requires Agree(Final(run).msgs[m].snapshot, Final(run).msgs[n].snapshot)
    requires i < Receipts(Final(run), m) && i < Receipts(Final(run), n)
    requires j < Receipts(Final(run), m) && j < Receipts(Final(run), n)
    ensures ReceiptAt(Final(run).log, m, i) < ReceiptAt(Final(run).log, n, i)
       <==> ReceiptAt(Final(run).log, m, j) < ReceiptAt(Final(run).log, n, j)
  {
    hide Final, Agree, Visits, ReceiptAt, Leads;
    OrderInEveryRun(run, m, n);
  }

  // ----- order at clients

  /** Whether client `p` received `m` and, later, `n`. */
  ghost predicate ReceivedBefore(log: seq<Event>, p: nat, m: nat, n: nat) {
    exists i, j :: 0 <= i < j < |log| && log[i] == Event(p, m) && log[j] == Event(p, n)
  }

  /** Where client `p` first received `m`. */
  function FirstReceipt(log: seq<Event>, p: nat, m: nat): (r: nat)
    requires Event(p, m) in log
    ensures r < |log| && log[r] == Event(p, m)
    ensures forall k | 0 <= k < r :: log[k] != Event(p, m)
  {
    var front := log[..|log| - 1];
    assert log == front + [log[|log| - 1]];
    if Event(p, m) in front then FirstReceipt(front, p, m) else |log| - 1
  }

  /** The first receipt by a client is at the first hop that it owns. */
  lemma {:induction false} FirstReceiptAtHop(log: seq<Event>, p: nat, m: nat) returns (i: nat)
    requires Event(p, m) in log
    ensures i < |Visits(log, m)| && Visits(log, m)[i] == p && p !in Visits(log, m)[..i]
    ensures FirstReceipt(log, p, m) == ReceiptAt(log, m, i)
  {
    var front, last := log[..|log| - 1], log[|log| - 1];
    assert log == front + [last];
    if Event(p, m) in front {
      i := FirstReceiptAtHop(front, p, m);
      ReceiptStays(front, last, m, i);
      VisitsSnoc(front, last, m);
      assert Visits(log, m)[..i] == Visits(front, m)[..i];
    } else {
      i := |Visits(front, m)|;
      ReceiptIsNew(front, last);
      VisitsSnoc(front, last, m);
      if p in Visits(front, m) {
        VisitInLog(front, p, m);
      }
      assert Visits(log, m)[..i] == Visits(front, m);
    }
  }

  lemma {:induction false} VisitInLog(log: seq<Event>, p: nat, m: nat)
    requires p in Visits(log, m)
    ensures Event(p, m) in log
  {
    if log[|log| - 1] != Event(p, m) {
      VisitInLog(log[..|log| - 1], p, m);
    }
  }

  lemma VisitHop(s: Sys, m: nat, i: nat)
    requires FlowInv(s) && m < |s.msgs| && i < Receipts(s, m)
    ensures var v := Visits(s.log, m);
            && i < |s.msgs[m].snapshot| && v[i] in s.queues && v[i] in s.tasks
            && s.tasks[v[i]].addr == Hop(s.msgs[m].snapshot, i)
  {
    hide RegistryInv, Linear, MsgOk, Visits, At;
    assert VisitsOk(s, Visits(s.log, m), s.msgs[m]);
  }

  /** Where both are received, the client's first hop is no later for one message than for the other. */
  lemma FirstHopNoLater(s: Sys, p: nat, m: nat, n: nat, i: nat, j: nat)
    requires FlowInv(s) && m < |s.msgs| && n < |s.msgs| && Agree(s.msgs[m].snapshot, s.msgs[n].snapshot)
    requires i < Receipts(s, m) && j < Receipts(s, n)
    requires Visits(s.log, m)[i] == p && Visits(s.log, n)[j] == p && p !in Visits(s.log, n)[..j]
    ensures j <= i
  {
    VisitHop(s, m, i);
    hide FlowInv, Visits, Agree, Hop;
    if i < j {
      VisitHop(s, n, i);
      SameHop(s.msgs[m].snapshot, s.msgs[n].snapshot, i);
      var q := Visits(s.log, n)[i];
      NotInFront(Visits(s.log, n), p, i, j);
      OneClient(s, p, q);
    }
  }

  lemma NotInFront(v: seq<nat>, p: nat, i: nat, j: nat)
    requires i < j <= |v| && p !in v[..j]
    ensures v[i] != p
  {
    assert v[..j][i] == v[i];
  }

  /**
    In every run, two messages with agreeing snapshots are first received in the same order by any two
    clients that received both.
    */
  lemma FirstReceiptsAgree(run: seq<Action>, p: nat, q: nat, m: nat, n: nat)
    requires m < |Final(run).msgs| && n < |Final(run).msgs| && m != n
    requires Agree(Final(run).msgs[m].snapshot, Final(run).msgs[n].snapshot)
    requires Event(p, m) in Final(run).log && Event(p, n) in Final(run).log
    requires Event(q, m) in Final(run).log && Event(q, n) in Final(run).log
    ensures FirstReceipt(Final(run).log, p, m) < FirstReceipt(Final(run).log, p, n)
       <==> FirstReceipt(Final(run).log, q, m) < FirstReceipt(Final(run).log, q, n)
  {
    hide Final, Agree, Visits, ReceiptAt, FirstReceipt, FlowInv, LogOk;
    EveryRun(run);
    var i := FirstReceiptsAtOneHop(Final(run), p, m, n);
    var j := FirstReceiptsAtOneHop(Final(run), q, m, n);
    SameOrderAtEveryHop(run, m, n, i, j);
  }

  lemma FirstReceiptsAtOneHop(s: Sys, p: nat, m: nat, n: nat) returns (i: nat)
    requires m < |s.msgs| && n < |s.msgs| && Agree(s.msgs[m].snapshot, s.msgs[n].snapshot)
    requires FlowInv(s) && Event(p, m) in s.log && Event(p, n) in s.log
    ensures i < Receipts(s, m) && i < Receipts(s, n)
    ensures FirstReceipt(s.log, p, m) == ReceiptAt(s.log, m, i) && FirstReceipt(s.log, p, n) == ReceiptAt(s.log, n, i)
  {
    hide FlowInv, Agree, Visits, ReceiptAt, FirstReceipt;
    i := FirstReceiptAtHop(s.log, p, m);
    var j := FirstReceiptAtHop(s.log, p, n);
    FirstHopNoLater(s, p, m, n, i, j);
    AgreeBoth(s.msgs[m].snapshot, s.msgs[n].snapshot);
    FirstHopNoLater(s, p, n, m, j, i);
  }

  // ----- messages of one group

  /** From step `k` on, no member but the first that joined completes a leave of group `g`. */
  ghost predicate NoMiddleLeaveSince(run: seq<Action>, k: nat, g: int) {
    |run| > k ==>
      NoMiddleLeaveSince(run[..|run| - 1], k, g) && !MiddleLeave(Final(run[..|run| - 1]), run[|run| - 1], g)
  }

  lemma {:induction false} GrowsSince(run: seq<Action>, k: nat, g: int)
    requires k <= |run| && NoMiddleLeaveSince(run, k, g)
    ensures IsSuffix(Destination(Final(run[..k]).reg, g), Destination(Final(run).reg, g))
  {
    hide Destination, MiddleLeave, IsSuffix, Apply, Grows, NoDup;
    if |run| == k {
      assert run[..k] == run;
      SuffixOfItself(Destination(Final(run).reg, g));
    } else {
      var front, a := run[..|run| - 1], run[|run| - 1];
      assert front[..k] == run[..k] && run == front + [a];
      GrowsSince(front, k, g);
      EveryRun(front);
      ShapedInEveryRun(front);
      assert OnlyOldestRepeats(Destination(Final(front).reg, g));
      hide FlowInv, LogOk, OnlyOldestRepeats, Shaped, Final;
      FinalSnoc(front, a);
      RegistryOf(Final(front));
      GroupsGrow(Final(front), a, g);
      GrowsKeeps(Destination(Final(run[..k]).reg, g), Destination(Final(front).reg, g), Destination(Final(run).reg, g));
    }
  }

  lemma SuffixOfItself(d: seq<int>)
    ensures IsSuffix(d, d)
  {
  }

  lemma RegistryOf(s: Sys)
    requires FlowInv(s)
    ensures RegistryInv(s)
  {
  }

  lemma {:induction false} SnapshotForEver(run: seq<Action>, k: nat, id: nat)
    requires k <= |run| && id < |Final(run[..k]).msgs|
    ensures id < |Final(run).msgs| && Final(run).msgs[id].snapshot == Final(run[..k]).msgs[id].snapshot
  {
    if |run| == k {
      assert run[..k] == run;
    } else {
      var front, a := run[..|run| - 1], run[|run| - 1];
      assert front[..k] == run[..k] && run == front + [a];
      SnapshotForEver(front, k, id);
      hide Apply;
      SnapshotsStay(Final(front), a, id);
    }
  }

  /** Step `k` of the run sends a new message to group `g`. */
  ghost predicate Sends(run: seq<Action>, k: nat, g: int) {
    && k < |run| && run[k].Send? && run[k].to == g
    && |Final(run[..k + 1]).msgs| == |Final(run[..k]).msgs| + 1
  }

  lemma SentSnapshot(run: seq<Action>, k: nat, g: int)
    requires Sends(run, k, g)
    ensures var id := |Final(run[..k]).msgs|;
            id < |Final(run).msgs| && Final(run).msgs[id].snapshot == Destination(Final(run[..k]).reg, g)
  {
    var s := Final(run[..k]);
    assert run[..k + 1] == run[..k] + [run[k]];
    FinalSnoc(run[..k], run[k]);
    hide Destination, Apply;
    NewMessage(s, run[k], |s.msgs|);
    SnapshotForEver(run, k + 1, |s.msgs|);
  }

  /**
    Two messages to a group, with no middle leave of it between their sends, are first received in the same
    order by any two clients that received both, whatever leaves come before or after.
    */
  lemma OrderBetweenLeaves(run: seq<Action>, k: nat, l: nat, g: int, p: nat, q: nat)
    requires k < l && Sends(run, k, g) && Sends(run, l, g) && NoMiddleLeaveSince(run[..l], k, g)
    requires var log, m, n := Final(run).log, |Final(run[..k]).msgs|, |Final(run[..l]).msgs|;
             Event(p, m) in log && Event(p, n) in log && Event(q, m) in log && Event(q, n) in log
    ensures var log, m, n := Final(run).log, |Final(run[..k]).msgs|, |Final(run[..l]).msgs|;
            FirstReceipt(log, p, m) < FirstReceipt(log, p, n) <==> FirstReceipt(log, q, m) < FirstReceipt(log, q, n)
  {
    SentSnapshot(run, k, g);
    SentSnapshot(run, l, g);
    assert run[..l][..k] == run[..k] && run[..l][..k + 1] == run[..k + 1];
    GrowsSince(run[..l], k, g);
    hide Final, Destination, IsSuffix, FirstReceipt, NoMiddleLeaveSince;
    var m, n := |Final(run[..k]).msgs|, |Final(run[..l]).msgs|;
    MessagesGrow(run[..l], k + 1);
    FirstReceiptsAgree(run, p, q, m, n);
  }

  lemma {:induction false} MessagesGrow(run: seq<Action>, k: nat)
    requires k <= |run|
    ensures |Final(run[..k]).msgs| <= |Final(run).msgs|
  {
    if |Final(run[..k]).msgs| > 0 {
      SnapshotForEver(run, k, |Final(run[..k]).msgs| - 1);
    }
  }

  lemma {:induction false} EventCount(log: seq<Event>, p: nat, m: nat)
    ensures multiset(log)[Event(p, m)] == multiset(Visits(log, m))[p]
  {
    if log != [] {
      var front, last := log[..|log| - 1], log[|log| - 1];
      assert log == front + [last];
      EventCount(front, p, m);
      VisitsSnoc(front, last, m);
    }
  }

  /** A client receives a message at most once, unless a member other than the first has left its group. */
  lemma ReceivedOnce(s: Sys, p: nat, m: nat)
    requires m < |s.msgs| && FlowInv(s) && GroupInv(s, s.msgs[m].to)
    ensures multiset(s.log)[Event(p, m)] <= 1
  {
    EventCount(s.log, p, m);
    VisitsDistinct(s, m);
    hide *;
    CountNoDup(Visits(s.log, m), p);
  }

  lemma VisitsDistinct(s: Sys, m: nat)
    requires m < |s.msgs| && FlowInv(s) && GroupInv(s, s.msgs[m].to)
    ensures NoDup(Visits(s.log, m))
  {
    hide RegistryInv, Linear, MsgOk, Visits, Destination, OnlyOldestRepeats;
    SnapshotDistinct(s, m);
    assert VisitsOk(s, Visits(s.log, m), s.msgs[m]);
  }

  lemma BeforeByFirst(log: seq<Event>, p: nat, m: nat, n: nat)
    requires Event(p, m) in log && Event(p, n) in log && multiset(log)[Event(p, n)] <= 1
    ensures ReceivedBefore(log, p, m, n) <==> FirstReceipt(log, p, m) < FirstReceipt(log, p, n)
  {
    hide FirstReceipt;
    if ReceivedBefore(log, p, m, n) {
      var i, j :| 0 <= i < j < |log| && log[i] == Event(p, m) && log[j] == Event(p, n);
      SamePlace(log, j, FirstReceipt(log, p, n));
    }
  }

  lemma SamePlace(log: seq<Event>, i: nat, j: nat)
    requires i < |log| && j < |log| && log[i] == log[j] && multiset(log)[log[i]] <= 1
    ensures i == j
  {
    if i < j {
      CountTwice(log, i, j);
    } else if j < i {
      CountTwice(log, j, i);
    }
  }

  lemma SuffixesAgree(a: seq<int>, b: seq<int>, d: seq<int>)
    requires IsSuffix(a, d) && IsSuffix(b, d)
    ensures Agree(a, b)
  {
    if |a| <= |b| {
      assert b[|b| - |a|..] == d[|d| - |a|..];
    } else {
      assert a[|a| - |b|..] == d[|d| - |b|..];
    }
  }

  /**
    In every run without a middle leave of their group, any two messages to the same group that two clients
    both received were received by both in the same order.
    */
  lemma TotalOrder(run: seq<Action>, p: nat, q: nat, m: nat, n: nat)
    requires var s := Final(run);
             && m < |s.msgs| && n < |s.msgs| && m != n && s.msgs[m].to == s.msgs[n].to > 0
             && Event(p, m) in s.log && Event(p, n) in s.log && Event(q, m) in s.log && Event(q, n) in s.log
             && NoMiddleLeave(run, s.msgs[m].to)
    ensures ReceivedBefore(Final(run).log, p, m, n) <==> ReceivedBefore(Final(run).log, q, m, n)
  {
    var s := Final(run);
    EveryRun(run);
    GroupInEveryRun(run, s.msgs[m].to);
    assert IsSuffix(s.msgs[m].snapshot, Destination(s.reg, s.msgs[m].to));
    assert IsSuffix(s.msgs[n].snapshot, Destination(s.reg, s.msgs[m].to));
    hide *;
    SuffixesAgree(s.msgs[m].snapshot, s.msgs[n].snapshot, Destination(s.reg, s.msgs[m].to));
    ReceivedOnce(s, p, n);
    ReceivedOnce(s, q, n);
    BeforeByFirst(s.log, p, m, n);
    BeforeByFirst(s.log, q, m, n);
    FirstReceiptsAgree(run, p, q, m, n);
  }

  /** The same in every run in which nobody completes a leave. */
  lemma TotalOrderWithoutLeaves(run: seq<Action>, p: nat, q: nat, m: nat, n: nat)
    requires forall i | 0 <= i < |run| :: !run[i].LeaveRemove?
    requires var s := Final(run);
             && m < |s.msgs| && n < |s.msgs| && m != n && s.msgs[m].to == s.msgs[n].to > 0
             && Event(p, m) in s.log && Event(p, n) in s.log && Event(q, m) in s.log && Event(q, n) in s.log
    ensures ReceivedBefore(Final(run).log, p, m, n) <==> ReceivedBefore(Final(run).log, q, m, n)
  {
    hide *;
    NoLeaveNoMiddle(run, Final(run).msgs[m].to);
    TotalOrder(run, p, q, m, n);
  }
}
