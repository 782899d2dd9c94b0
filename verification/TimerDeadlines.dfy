/** Every armed timer leaves the list once, on its tick, and its event then reaches the ring of
    the running task exactly when memory and ring have room for it. */
module TimerDeadlines {
  import opened Words
  import opened HeapSpec
  import opened TimerSpec
  import opened TaskSpec
  import opened KernelSpec
  import opened Machine
  import opened KernelRuns
  import opened Shortage
  import opened Waiting
  import EventRing
  import Links
  import Ownership
  import TimerProofs

  // ---- what a tick puts into the ring ----

  lemma {:induction false} RecordedPosts(l: Ledger, task: nat, posts: seq<Posted>)
    requires task < |l.accepted|
    ensures RecordPosts(l, task, posts).accepted[task] == l.accepted[task] + Delivered(posts)
    decreases |posts|
  {
    if posts != [] {
      RecordedPosts(RecordPost(l, task, posts[0]), task, posts[1..]);
    }
  }

  lemma Behind(taken: seq<Event>, was: seq<Event>, gained: seq<Event>, now: seq<Event>)
    requires taken + now == taken + was + gained
    ensures now == was + gained
  {
    assert (taken + now)[|taken|..] == now && (taken + was + gained)[|taken|..] == was + gained;
  }

  /** The events that the next tick sends to the running task. */
  function Gained(k: Kernel): seq<Event>
    requires k.Sized()
  {
    Delivered(Expire(Ticked(k)).posts)
  }

  ghost function RingEvents(k: Kernel, task: nat): seq<Event>
    requires k.Sized() && task < N_TASKS
  {
    Ownership.Events(k.heap, k.rings[task])
  }

  /** The nodes queued for the running task hold, after a tick, what they held before it and the
      gained events behind. */
  lemma TickDelivers(m: State)
    requires Good(m)
    ensures RingEvents(Tick(m.k), m.Running()) == RingEvents(m.k, m.Running()) + Gained(m.k)
  {
    var me := m.Running();
    Ownership.TickKeeps(m);
    LogOfRing(m, me);
    LogOfRing(TickState(m), me);
    RecordedPosts(m.ledger, me, Expire(Ticked(m.k)).posts);
    Behind(m.ledger.taken[me], RingEvents(m.k, me), Gained(m.k), RingEvents(Tick(m.k), me));
  }

  lemma LogOfRing(m: State, task: nat)
    requires Ownership.Inv(m) && task < N_TASKS
    ensures m.ledger.accepted[task] == m.ledger.taken[task] + RingEvents(m.k, task)
  {
  }

  /** The next tick adds the event of t so many times to the ring of the running task. */
  ghost predicate RingGains(k: Kernel, t: nat, times: nat)
    requires k.Sized()
  {
    && RingEvents(Tick(k), k.sched.current) == RingEvents(k, k.sched.current) + Gained(k)
    && multiset(Gained(k))[Event(TIMER_EVENT, t)] == times
  }

  // ---- one timer at one tick ----

  function Before(k: Kernel, t: nat): nat
    requires k.Sized()
  {
    Ahead(k.timers.list, t, k.switchTimer)
  }

  lemma SameAfterClock(k: Kernel, t: nat)
    requires k.Sized()
    ensures Spare(Ticked(k).heap) == Spare(k.heap) && Ring(Ticked(k)) == Ring(k) && Before(Ticked(k), t) == Before(k, t)
  {
  }

  lemma ListAfterTick(k: Kernel, t: nat)
    requires k.Sized() && t != k.switchTimer
    ensures t in Tick(k).timers.list <==> t in Expire(Ticked(k)).k.timers.list
    ensures t < MAX_TIMERS ==> Tick(k).timers.timeouts[t] == k.timers.timeouts[t]
  {
    ExpireFrame(Ticked(k));
  }

  /** A timer leaves the list at a tick exactly when it is due and not starved; the ring gains
      its event exactly when it is due and there is a page and a place for it. */
  lemma TimerAtTick(m: State, t: nat)
    requires Good(m) && t in m.k.timers.list && t != m.k.switchTimer
    ensures t < MAX_TIMERS && Tick(m.k).timers.timeouts[t] == m.k.timers.timeouts[t]
    ensures t in Tick(m.k).timers.list <==> FiresIn(m.k, t) > 1 || Starves(m.k, t)
    ensures RingGains(m.k, t, if FiresIn(m.k, t) == 1 && Fits(m.k, Before(m.k, t)) then 1 else 0)
  {
    TickedIsOrdered(m);
    SameAfterClock(m.k, t);
    ListAfterTick(m.k, t);
    TickDelivers(m);
    if FiresIn(m.k, t) == 1 {
      ExpireServes(Ticked(m.k), t);
    } else {
      ExpireSpares(Ticked(m.k), t);
    }
  }

  // ---- a whole tick ----

  lemma {:induction false} AheadIsLess(list: seq<nat>, timeouts: seq<nat>, tick: nat, switchTimer: nat, t: nat)
    requires Links.InRange(list, |timeouts|) && TimerProofs.SortedBy(list, timeouts)
    requires t in list && t < |timeouts| && t != switchTimer && timeouts[t] <= tick
    ensures Ahead(list, t, switchTimer) < DueEvents(list, timeouts, tick, switchTimer)
  {
    if list[0] != t {
      AheadIsLess(list[1..], timeouts, tick, switchTimer, t);
    }
  }

  /** The events that the next tick should send. */
  function DueNext(k: Kernel): nat
    requires k.Sized()
  {
    Due(Ticked(k))
  }

  /** Everything due at the next tick fits. */
  ghost predicate AllFit(k: Kernel)
    requires k.Sized()
  {
    forall t :: t in k.timers.list && t != k.switchTimer && t < MAX_TIMERS && FiresIn(k, t) == 1 ==>
      Fits(k, Before(k, t))
  }

  /** No event of a tick is lost if and only if the due events find as many pages and places. */
  lemma AllArriveIff(m: State)
    requires Good(m)
    ensures AllFit(m.k) <==> DueNext(m.k) <= Spare(m.k.heap) && |Ring(m.k)| + DueNext(m.k) <= EventRing.RING_SIZE
  {
    TickedIsOrdered(m);
    var ts := Ticked(m.k).timers;
    var places := Min(Spare(m.k.heap), EventRing.RING_SIZE - |Ring(m.k)|);
    if DueNext(m.k) > places {
      var t := OneTooMany(ts.list, ts.timeouts, ts.tick, m.k.switchTimer, places);
      assert !Fits(m.k, Before(m.k, t)) && FiresIn(m.k, t) == 1;
    } else {
      forall t | t in ts.list && t != m.k.switchTimer && t < MAX_TIMERS && FiresIn(m.k, t) == 1
        ensures Fits(m.k, Before(m.k, t))
      {
        AheadIsLess(ts.list, ts.timeouts, ts.tick, m.k.switchTimer, t);
      }
    }
  }

  /** The expiry loop stops early if and only if the due events outnumber the spare pages. */
  lemma TickFailsIff(m: State)
    requires Good(m)
    ensures Expire(Ticked(m.k)).failed <==> DueNext(m.k) > Spare(m.k.heap)
  {
    TickedIsOrdered(m);
    ExpireFails(Ticked(m.k));
  }

  /** A tick that stops early loses an event: a due timer is off the list and no longer flagged,
      and nothing of it came into the ring. */
  lemma FailedTickLosesEvent(m: State) returns (t: nat)
    requires Good(m) && DueNext(m.k) > Spare(m.k.heap)
    ensures t in m.k.timers.list && t < MAX_TIMERS && t != m.k.switchTimer && FiresIn(m.k, t) == 1
    ensures t !in Tick(m.k).timers.list && Tick(m.k).timers.flags[t] != TIMER_USING
    ensures RingGains(m.k, t, 0)
  {
    TickedIsOrdered(m);
    var ts := Ticked(m.k).timers;
    t := OneTooMany(ts.list, ts.timeouts, ts.tick, m.k.switchTimer, Spare(m.k.heap));
    TimerAtTick(m, t);
    TickTimersGood(m);
  }

  // ---- a timer over a run ----

  /** Between ticks a timer of the list stays there with its deadline. */
  lemma TimerBetweenTicks(m: State, a: Action, t: nat)
    requires Good(m) && Enabled(m, a) && !a.TimerTick? && t in m.k.timers.list
    ensures t < MAX_TIMERS && t in Next(m, a).k.timers.list
    ensures Next(m, a).k.timers.timeouts[t] == m.k.timers.timeouts[t]
  {
    assert m.k.timers.flags[t] == TIMER_USING;
  }

  lemma TimerAfterStep(m: State, a: Action, t: nat)
    requires Good(m) && Enabled(m, a)
    requires t in m.k.timers.list && t != m.k.switchTimer && t < MAX_TIMERS
    requires !(Advances(m, a, t) && FiresIn(m.k, t) == 1)
    ensures t in Next(m, a).k.timers.list && Next(m, a).k.switchTimer == m.k.switchTimer
    ensures FiresIn(Next(m, a).k, t) == FiresIn(m.k, t) - if Advances(m, a, t) then 1 else 0
  {
    SwitchTimerStays(m, a);
    if a.TimerTick? {
      TimerAtTick(m, t);
    } else {
      TimerBetweenTicks(m, a, t);
    }
  }

  /** Before its tick the timer is in the list and its time counts down. */
  lemma {:induction false} NotBeforeItsTick(m: State, acts: seq<Action>, t: nat, n: nat)
    requires Good(m) && Legal(m, acts)
    requires t in m.k.timers.list && t != m.k.switchTimer && t < MAX_TIMERS
    requires n <= |acts| && Progress(m, acts, t, n) < FiresIn(m.k, t)
    ensures var s := StateAt(m, acts, n);
            && t in s.k.timers.list && s.k.switchTimer == m.k.switchTimer
            && FiresIn(s.k, t) == FiresIn(m.k, t) - Progress(m, acts, t, n)
    decreases n
  {
    hide Next, Enabled;
    if n > 0 {
      FirstProgress(m, acts, t, n);
      LaterState(m, acts, n);
      TimerAfterStep(m, acts[0], t);
      StepKeeps(m, acts[0]);
      NotBeforeItsTick(Next(m, acts[0]), acts[1..], t, n - 1);
    }
  }

  /** The next tick takes t off the list; its event arrives exactly when it fits. */
  ghost predicate FiresNext(k: Kernel, t: nat)
    requires k.Sized()
  {
    && t in k.timers.list && t !in Tick(k).timers.list
    && RingGains(k, t, if Fits(k, Before(k, t)) then 1 else 0)
  }

  lemma DueFiresNext(m: State, t: nat)
    requires Good(m) && t in m.k.timers.list && t != m.k.switchTimer && t < MAX_TIMERS
    requires FiresIn(m.k, t) == 1 && !Starves(m.k, t)
    ensures FiresNext(m.k, t)
  {
    TimerAtTick(m, t);
  }

  /** The step of the run on which t is due and not starved. */
  lemma ItsTick(m: State, acts: seq<Action>, t: nat) returns (n: nat)
    requires Good(m) && Legal(m, acts)
    requires t in m.k.timers.list && t != m.k.switchTimer && t < MAX_TIMERS
    requires Progress(m, acts, t, |acts|) >= FiresIn(m.k, t)
    ensures n < |acts| && acts[n].TimerTick? && Progress(m, acts, t, n) == FiresIn(m.k, t) - 1
    ensures var s := StateAt(m, acts, n);
            && Good(s) && t in s.k.timers.list && s.k.switchTimer == m.k.switchTimer
            && FiresIn(s.k, t) == 1 && !Starves(s.k, t)
  {
    n := NthProgress(m, acts, t, FiresIn(m.k, t) - 1, |acts|);
    NotBeforeItsTick(m, acts, t, n);
    Along(m, acts, n);
  }

  /** Over any run a timer in the list leaves it on exactly the tick that its deadline names,
      later by the ticks that starved it, and on that tick the ring of the running task gains
      its event exactly once, or not at all when memory or ring have no room for it. */
  lemma FiresOnItsTick(m: State, acts: seq<Action>, t: nat) returns (n: nat)
    requires Good(m) && Legal(m, acts)
    requires t in m.k.timers.list && t != m.k.switchTimer && t < MAX_TIMERS
    requires Progress(m, acts, t, |acts|) >= FiresIn(m.k, t)
    ensures n < |acts| && acts[n].TimerTick?
    ensures Ticks(acts, n) + 1 == FiresIn(m.k, t) + StarvedTicks(m, acts, t, n)
    ensures FiresNext(StateAt(m, acts, n).k, t)
  {
    n := ItsTick(m, acts, t);
    TicksAreCounted(m, acts, t, n);
    DueFiresNext(StateAt(m, acts, n), t);
  }

  // ---- from arming to firing ----

  lemma ArmedIsOff(m: State, t: nat)
    requires Good(m) && t in Armed(m.pcs)
    ensures t < MAX_TIMERS && t !in m.k.timers.list && t != m.k.switchTimer
  {
    var i :| 0 <= i < |m.pcs| && m.pcs[i].Arming? && m.pcs[i].timer == t;
    PendingHolds(m.pcs, i);
  }

  /** While a task is arming t, having stored its deadline, no step changes it. */
  lemma ArmedKeepsDeadline(m: State, a: Action, t: nat)
    requires Good(m) && Enabled(m, a) && t in Armed(m.pcs)
    ensures t < MAX_TIMERS && Next(m, a).k.timers.timeouts[t] == m.k.timers.timeouts[t]
  {
    ArmedIsOff(m, t);
    if a.TimerTick? {
      ListAfterTick(m.k, t);
    }
  }

  ghost predicate ArmedAlong(m: State, acts: seq<Action>, t: nat)
    requires m.Sized() && Legal(m, acts)
    decreases |acts|
  {
    t in Armed(m.pcs) && (acts == [] || ArmedAlong(Next(m, acts[0]), acts[1..], t))
  }

  lemma {:induction false} DeadlineStays(m: State, acts: seq<Action>, t: nat)
    requires Good(m) && Legal(m, acts) && ArmedAlong(m, acts, t)
    ensures t < MAX_TIMERS && Exec(m, acts).k.timers.timeouts[t] == m.k.timers.timeouts[t]
    decreases |acts|
  {
    hide Next, Enabled;
    ArmedIsOff(m, t);
    if acts != [] {
      ArmedKeepsDeadline(m, acts[0], t);
      StepKeeps(m, acts[0]);
      DeadlineStays(Next(m, acts[0]), acts[1..], t);
    }
  }

  lemma {:induction false} ClockAlong(m: State, acts: seq<Action>)
    requires Good(m) && Legal(m, acts)
    ensures Exec(m, acts).k.timers.tick == m.k.timers.tick + Ticks(acts, |acts|)
    decreases |acts|
  {
    hide Next, Enabled;
    if acts != [] {
      SwitchTimerStays(m, acts[0]);
      StepKeeps(m, acts[0]);
      ClockAlong(Next(m, acts[0]), acts[1..]);
    }
  }

  lemma Linked(m: State, t: nat)
    requires Good(m) && Enabled(m, EndArm) && m.Pc().timer == t
    ensures var m' := Next(m, EndArm);
            && Good(m') && t in m'.k.timers.list && t < MAX_TIMERS && t != m'.k.switchTimer
            && m'.k.timers.timeouts == m.k.timers.timeouts && m'.k.timers.tick == m.k.timers.tick
  {
    StepKeeps(m, EndArm);
    assert m.pcs[m.Running()] == m.Pc();
    ArmedIsOff(m, t);
  }

  /** Arming t with this delay, whatever else happens between its first store and its splice,
      leads from m to m'. */
  ghost predicate Arms(m: State, t: nat, delay: nat, between: seq<Action>, m': State) {
    && Good(m) && Enabled(m, BeginArm(t, delay))
    && var m1 := Next(m, BeginArm(t, delay));
       && Legal(m1, between) && ArmedAlong(m1, between, t)
       && var m2 := Exec(m1, between);
          Enabled(m2, EndArm) && m2.Pc().timer == t && m' == Next(m2, EndArm)
  }

  lemma ArmedTimer(m: State, t: nat, delay: nat, between: seq<Action>, m': State)
    requires Arms(m, t, delay, between, m')
    ensures Good(m') && t in m'.k.timers.list && t < MAX_TIMERS && t != m'.k.switchTimer
    ensures m'.k.timers.timeouts[t] == m.k.timers.tick + delay
    ensures m'.k.timers.tick == m.k.timers.tick + Ticks(between, |between|)
  {
    var m1 := Next(m, BeginArm(t, delay));
    StepKeeps(m, BeginArm(t, delay));
    DeadlineStays(m1, between, t);
    ClockAlong(m1, between);
    RunKeeps(m1, between);
    Linked(Exec(m1, between), t);
  }

  /** A timer armed with delay d leaves the list on the tick d after arming began, or on the
      first tick after it was linked if that is later, and later still by the ticks that starve
      it; and its event arrives then, if it fits. */
  lemma ArmedTimerFires(m: State, t: nat, delay: nat, between: seq<Action>, m': State, acts: seq<Action>)
    returns (n: nat)
    requires Arms(m, t, delay, between, m') && m'.Sized() && t < MAX_TIMERS
    requires Legal(m', acts) && Progress(m', acts, t, |acts|) >= FiresIn(m'.k, t)
    ensures n < |acts| && acts[n].TimerTick? && FiresNext(StateAt(m', acts, n).k, t)
    ensures var late := Ticks(between, |between|);
            late + Ticks(acts, n) + 1 == (if delay > late then delay else late + 1) + StarvedTicks(m', acts, t, n)
  {
    ArmedTimer(m, t, delay, between, m');
    n := FiresOnItsTick(m', acts, t);
  }

  // ---- not again until armed again ----

  predicate Off(m: State, t: nat)
    requires m.Sized()
  {
    t < MAX_TIMERS && t !in m.k.timers.list && t !in Armed(m.pcs) && t != m.k.switchTimer
  }

  lemma TickStaysOff(m: State, t: nat)
    requires Good(m) && Off(m, t)
    ensures RingGains(m.k, t, 0) && Off(TickState(m), t)
  {
    ExpireIgnores(Ticked(m.k), t);
    ListAfterTick(m.k, t);
    TickDelivers(m);
    TickSwitches(m);
  }

  /** A step of the running task that does not begin to arm t. */
  lemma TaskStaysOff(m: State, pc: Pc, t: nat)
    requires Good(m) && Off(m, t) && (pc.Arming? ==> pc.timer != t)
    ensures t !in Armed(m.pcs[m.Running() := pc])
  {
    PendingAfter(m.pcs, m.Running(), pc);
  }

  lemma ArmStaysOff(m: State, a: Action, t: nat)
    requires Good(m) && Enabled(m, a) && Off(m, t)
    requires a.FlagTimer? || a.EndArm? || (a.BeginArm? && a.timer != t)
    ensures Off(Next(m, a), t)
  {
    assert m.Pc().Arming? ==> m.Pc().timer in Armed(m.pcs) by {
      if m.Pc().Arming? { PendingHolds(m.pcs, m.Running()); }
    }
    TaskStaysOff(m, Next(m, a).Pc(), t);
  }

  lemma StaysOff(m: State, a: Action, t: nat)
    requires Good(m) && Enabled(m, a) && Off(m, t) && !(a.BeginArm? && a.timer == t)
    ensures Off(Next(m, a), t)
  {
    match a {
      case TimerTick => TickStaysOff(m, t);
      case BeginArm(_, _) => ArmStaysOff(m, a, t);
      case FlagTimer => ArmStaysOff(m, a, t);
      case EndArm => ArmStaysOff(m, a, t);
      case TakeEvent => TaskStaysOff(m, Next(m, a).Pc(), t);
      case FinishEvent => TaskStaysOff(m, Next(m, a).Pc(), t);
      case ClearOne => TaskStaysOff(m, Next(m, a).Pc(), t);
      case DropBlock(_) => TaskStaysOff(m, Next(m, a).Pc(), t);
      case _ =>
    }
  }

  predicate NeverArmed(acts: seq<Action>, t: nat) {
    acts == [] || (!(acts[0].BeginArm? && acts[0].timer == t) && NeverArmed(acts[1..], t))
  }

  lemma {:induction false} OffAlong(m: State, acts: seq<Action>, t: nat, n: nat)
    requires Good(m) && Legal(m, acts) && Off(m, t) && NeverArmed(acts, t) && n <= |acts|
    ensures Good(StateAt(m, acts, n)) && Off(StateAt(m, acts, n), t)
    decreases n
  {
    hide Next, Enabled, Off;
    if n > 0 {
      StaysOff(m, acts[0], t);
      StepKeeps(m, acts[0]);
      LaterState(m, acts, n);
      OffAlong(Next(m, acts[0]), acts[1..], t, n - 1);
    }
  }

  /** A timer that is off stays off, and no tick adds its event to a ring, until it is armed. */
  lemma OffUntilArmed(m: State, acts: seq<Action>, t: nat, n: nat)
    requires Good(m) && Legal(m, acts) && Off(m, t) && NeverArmed(acts, t) && n <= |acts|
    ensures Off(StateAt(m, acts, n), t) && RingGains(StateAt(m, acts, n).k, t, 0)
  {
    OffAlong(m, acts, t, n);
    TickStaysOff(StateAt(m, acts, n), t);
  }
}
