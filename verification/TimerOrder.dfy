/** Timers due at the same tick fire newest first, over whole runs. */
module TimerOrder {
  import opened Sequences
  import opened TimerSpec
  import opened TaskSpec
  import opened KernelSpec
  import opened Machine
  import opened KernelRuns
  import opened Shortage
  import opened Waiting
  import opened TimerDeadlines
  import Links
  import TimerProofs

  /** The list holds t, and u behind it. */
  predicate Precedes(list: seq<nat>, t: nat, u: nat) {
    list != [] && if list[0] == t then u in list[1..] else list[0] != u && Precedes(list[1..], t, u)
  }

  lemma {:induction false} BothIn(list: seq<nat>, t: nat, u: nat)
    requires Precedes(list, t, u)
    ensures t in list && u in list
  {
    if list[0] != t {
      BothIn(list[1..], t, u);
    }
  }

  lemma {:induction false} InsertKeepsOrder(list: seq<nat>, k: nat, x: nat, t: nat, u: nat)
    requires Precedes(list, t, u) && k <= |list| && x != t && x != u
    ensures Precedes(Links.InsertAt(list, k, x), t, u)
    decreases k
  {
    var r := Links.InsertAt(list, k, x);
    if k == 0 {
      assert r[1..] == list;
    } else {
      assert r[1..] == Links.InsertAt(list[1..], k - 1, x);
      if list[0] != t {
        InsertKeepsOrder(list[1..], k - 1, x, t, u);
      }
    }
  }

  lemma {:induction false} SuffixKeepsOrder(list: seq<nat>, n: nat, t: nat, u: nat)
    requires Precedes(list, t, u) && NoRepeats(list) && n <= |list| && t in list[n..]
    ensures Precedes(list[n..], t, u)
    decreases n
  {
    if n > 0 {
      assert list[n..] == list[1..][n - 1..];
      var i :| 0 <= i < |list[n..]| && list[n..][i] == t;
      assert list[n + i] == t;
      SuffixKeepsOrder(list[1..], n - 1, t, u);
    } else {
      assert list[0..] == list;
    }
  }

  /** A timer is linked before the timers of the list that are not due sooner. */
  lemma {:induction false} LinkedBefore(list: seq<nat>, timeouts: seq<nat>, t: nat, u: nat)
    requires Links.InRange(list, |timeouts|) && TimerProofs.SortedBy(list, timeouts)
    requires t < |timeouts| && t !in list && u in list
    requires u < |timeouts| && timeouts[t] <= timeouts[u]
    ensures Precedes(Insert(list, timeouts, t), t, u)
  {
    var r := Insert(list, timeouts, t);
    if timeouts[list[0]] >= timeouts[t] {
      assert r[1..] == list;
    } else {
      assert r[1..] == Insert(list[1..], timeouts, t);
      LinkedBefore(list[1..], timeouts, t, u);
    }
  }

  lemma {:induction false} FewerAhead(list: seq<nat>, t: nat, u: nat, switchTimer: nat)
    requires Precedes(list, t, u) && NoRepeats(list) && t != switchTimer
    ensures Ahead(list, t, switchTimer) < Ahead(list, u, switchTimer)
  {
    if list[0] != t {
      FewerAhead(list[1..], t, u, switchTimer);
    } else {
      assert list[0] != u;
    }
  }

  // ---- the order over a run ----

  lemma TickKeepsOrder(m: State, t: nat, u: nat)
    requires Good(m) && Precedes(m.k.timers.list, t, u) && t != m.k.switchTimer && u != m.k.switchTimer
    requires t in Tick(m.k).timers.list
    ensures Precedes(Tick(m.k).timers.list, t, u)
  {
    var k := Ticked(m.k);
    TickedIsOrdered(m);
    ListAfterTick(m.k, t);
    var n := ExpireTakesPrefix(k);
    SuffixKeepsOrder(k.timers.list, n, t, u);
    var x := Expire(k);
    ExpireFrame(k);
    if x.switching {
      var timeouts := x.k.timers.timeouts[k.switchTimer := 1000 + x.k.timers.tick];
      InsertKeepsOrder(x.k.timers.list, Place(x.k.timers.list, timeouts, timeouts[k.switchTimer]), k.switchTimer, t, u);
    }
  }

  lemma LinkKeepsOrder(m: State, t: nat, u: nat)
    requires Good(m) && Enabled(m, EndArm) && Precedes(m.k.timers.list, t, u)
    ensures Precedes(Next(m, EndArm).k.timers.list, t, u)
  {
    var x, ts := m.Pc().timer, m.k.timers;
    BothIn(ts.list, t, u);
    assert m.pcs[m.Running()] == m.Pc();
    PendingHolds(m.pcs, m.Running());
    ArmedIsOff(m, x);
    InsertKeepsOrder(ts.list, Place(ts.list, ts.timeouts, ts.timeouts[x]), x, t, u);
  }

  /** No step takes the second timer off the list before the first. */
  lemma StepKeepsOrder(m: State, a: Action, t: nat, u: nat)
    requires Good(m) && Enabled(m, a) && Precedes(m.k.timers.list, t, u)
    requires t != m.k.switchTimer && u != m.k.switchTimer && t in Next(m, a).k.timers.list
    ensures Precedes(Next(m, a).k.timers.list, t, u)
  {
    match a {
      case TimerTick => TickKeepsOrder(m, t, u);
      case EndArm => LinkKeepsOrder(m, t, u);
      case _ =>
    }
  }

  lemma {:induction false} OrderAlong(m: State, acts: seq<Action>, t: nat, u: nat, n: nat)
    requires Good(m) && Legal(m, acts) && Precedes(m.k.timers.list, t, u)
    requires t < MAX_TIMERS && t != m.k.switchTimer && u != m.k.switchTimer
    requires n <= |acts| && Progress(m, acts, t, n) < FiresIn(m.k, t)
    ensures Precedes(StateAt(m, acts, n).k.timers.list, t, u)
    decreases n
  {
    hide Next, Enabled;
    if n > 0 {
      BothIn(m.k.timers.list, t, u);
      FirstProgress(m, acts, t, n);
      LaterState(m, acts, n);
      TimerAfterStep(m, acts[0], t);
      StepKeepsOrder(m, acts[0], t, u);
      StepKeeps(m, acts[0]);
      OrderAlong(Next(m, acts[0]), acts[1..], t, u, n - 1);
    }
  }

  // ---- the order in the ring ----

  /** The event of t stands before that of u. */
  predicate InOrder(events: seq<Event>, t: nat, u: nat) {
    exists i, j :: 0 <= i < j < |events| && events[i] == Event(TIMER_EVENT, t) && events[j] == Event(TIMER_EVENT, u)
  }

  lemma OneMoreBefore(first: seq<Event>, rest: seq<Event>, t: nat, u: nat)
    requires InOrder(rest, t, u)
    ensures InOrder(first + rest, t, u)
  {
    var i, j :| 0 <= i < j < |rest| && rest[i] == Event(TIMER_EVENT, t) && rest[j] == Event(TIMER_EVENT, u);
    assert (first + rest)[|first| + i] == rest[i] && (first + rest)[|first| + j] == rest[j];
  }

  lemma FirstThenLater(rest: seq<Event>, t: nat, u: nat)
    requires multiset(rest)[Event(TIMER_EVENT, u)] > 0
    ensures InOrder([Event(TIMER_EVENT, t)] + rest, t, u)
  {
    assert Event(TIMER_EVENT, u) in rest;
    var j :| 0 <= j < |rest| && rest[j] == Event(TIMER_EVENT, u);
    var all := [Event(TIMER_EVENT, t)] + rest;
    assert all[0] == Event(TIMER_EVENT, t) && all[j + 1] == Event(TIMER_EVENT, u);
  }

  lemma DeliveredRest(first: Posted, rest: seq<Posted>)
    ensures Delivered([first] + rest) == (if first.outcome.Accepted? then [first.event] else []) + Delivered(rest)
  {
    assert ([first] + rest)[1..] == rest;
  }

  /** In one tick the events arrive in the order of the list. */
  lemma {:induction false} DeliversInOrder(k: Kernel, t: nat, u: nat)
    requires k.Sized() && Ordered(k.timers) && Precedes(k.timers.list, t, u)
    requires t != k.switchTimer && u != k.switchTimer && TimesDelivered(Expire(k).posts, u) > 0
    ensures InOrder(Delivered(Expire(k).posts), t, u)
    decreases |k.timers.list|
  {
    BothIn(k.timers.list, t, u);
    if !HeadExpired(k.timers) {
      assert false;
    } else {
      ExpireRound(k);
      OrderedPop(k.timers);
      var first := k.timers.list[0];
      var popped := k.(timers := Pop(k.timers));
      if first == k.switchTimer {
        DeliversInOrder(popped, t, u);
      } else if Spare(k.heap) == 0 {
        NothingDelivered(first, u);
        assert false;
      } else {
        AfterPostIs(k);
        RestDeliversInOrder(k, t, u);
      }
    }
  }

  lemma {:induction false} RestDeliversInOrder(k: Kernel, t: nat, u: nat)
    requires k.Sized() && Ordered(k.timers) && Precedes(k.timers.list, t, u) && HeadExpired(k.timers)
    requires t != k.switchTimer && u != k.switchTimer && TimesDelivered(Expire(k).posts, u) > 0
    requires k.timers.list[0] != k.switchTimer && Spare(k.heap) > 0
    ensures InOrder(Delivered(Expire(k).posts), t, u)
    decreases |k.timers.list|, 0
  {
    ExpireRound(k);
    OrderedPop(k.timers);
    AfterPostIs(k);
    var first, rest := k.timers.list[0], Expire(AfterPost(k)).posts;
    var post := Posted(Event(TIMER_EVENT, first), PostOutcome(k.(timers := Pop(k.timers)), Event(TIMER_EVENT, first)));
    DeliveredRest(post, rest);
    DeliveredFirst(post, rest, u);
    if first == t {
      assert u != t;
      if post.outcome.Accepted? {
        FirstThenLater(Delivered(rest), t, u);
      } else {
        RefusedRest(AfterPost(k), u);
      }
    } else {
      DeliversInOrder(AfterPost(k), t, u);
      OneMoreBefore(if post.outcome.Accepted? then [post.event] else [], Delivered(rest), t, u);
    }
  }

  /** Once the ring is full nothing more arrives. */
  lemma {:induction false} RefusedRest(k: Kernel, u: nat)
    requires k.Sized() && |Ring(k)| >= 1024
    ensures TimesDelivered(Expire(k).posts, u) == 0
    decreases |k.timers.list|
  {
    if HeadExpired(k.timers) {
      ExpireRound(k);
      var first := k.timers.list[0];
      var popped := k.(timers := Pop(k.timers));
      if first == k.switchTimer {
        RefusedRest(popped, u);
      } else if Spare(k.heap) > 0 {
        AfterPostIs(k);
        RefusedRest(AfterPost(k), u);
        DeliveredFirst(Posted(Event(TIMER_EVENT, first), PostOutcome(popped, Event(TIMER_EVENT, first))),
                       Expire(AfterPost(k)).posts, u);
      } else {
        NothingDelivered(first, u);
      }
    }
  }

  /** When t leaves the list u is still in it, behind t, and the event of u does not come before
      that of t. */
  ghost predicate FiresBefore(k: Kernel, t: nat, u: nat)
    requires k.Sized()
  {
    && FiresNext(k, t) && u in k.timers.list && Before(k, t) < Before(k, u)
    && (multiset(Gained(k))[Event(TIMER_EVENT, u)] > 0 ==> InOrder(Gained(k), t, u))
  }

  lemma DueFiresBefore(m: State, t: nat, u: nat)
    requires Good(m) && Precedes(m.k.timers.list, t, u) && t != m.k.switchTimer && u != m.k.switchTimer
    requires t < MAX_TIMERS && FiresIn(m.k, t) == 1 && !Starves(m.k, t)
    ensures FiresBefore(m.k, t, u)
  {
    BothIn(m.k.timers.list, t, u);
    DueFiresNext(m, t);
    TickedIsOrdered(m);
    FewerAhead(m.k.timers.list, t, u, m.k.switchTimer);
    if multiset(Gained(m.k))[Event(TIMER_EVENT, u)] > 0 {
      DeliversInOrder(Ticked(m.k), t, u);
    }
  }

  /** Over any run the timer that is in front fires first; LinkedBefore says that the one armed
      last is in front of those due at the same tick. */
  lemma NewestFiresFirst(m: State, acts: seq<Action>, t: nat, u: nat) returns (n: nat)
    requires Good(m) && Legal(m, acts) && Precedes(m.k.timers.list, t, u)
    requires t < MAX_TIMERS && t != m.k.switchTimer && u != m.k.switchTimer
    requires Progress(m, acts, t, |acts|) >= FiresIn(m.k, t)
    ensures n < |acts| && acts[n].TimerTick? && FiresBefore(StateAt(m, acts, n).k, t, u)
  {
    BothIn(m.k.timers.list, t, u);
    n := ItsTick(m, acts, t);
    OrderAlong(m, acts, t, u, n);
    DueFiresBefore(StateAt(m, acts, n), t, u);
  }
}
