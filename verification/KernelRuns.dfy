/** The invariant of the whole kernel and that every run keeps it. */
module KernelRuns {
  import opened OptionType
  import opened HeapSpec
  import opened TimerSpec
  import opened TaskSpec
  import opened KernelSpec
  import opened Machine
  import TimerProofs
  import TaskProofs
  import Ownership

  /** The timers that some task is arming, and those of them that it has flagged. */
  function Armed(pcs: seq<Pc>): set<nat> {
    set t | 0 <= t < |pcs| && pcs[t].Arming? :: pcs[t].timer
  }

  function Pending(pcs: seq<Pc>): set<nat> {
    set t | 0 <= t < |pcs| && pcs[t].Arming? && pcs[t].flagged :: pcs[t].timer
  }

  /** No timer is being armed twice. */
  predicate OneCallEach(pcs: seq<Pc>) {
    forall i, j :: 0 <= i < j < |pcs| && pcs[i].Arming? && pcs[j].Arming? ==> pcs[i].timer != pcs[j].timer
  }

  /** A timer is not flagged before the task that arms it does so. */
  predicate NoneFlaggedEarly(ts: Timers, pcs: seq<Pc>)
    requires ts.Sized()
  {
    forall i :: 0 <= i < |pcs| && pcs[i].Arming? && !pcs[i].flagged ==>
                  pcs[i].timer < MAX_TIMERS && ts.flags[pcs[i].timer] != TIMER_USING
  }

  /** The list and the flags agree, and the switch timer is always armed. */
  ghost predicate TimersGood(ts: Timers, pcs: seq<Pc>, switchTimer: nat) {
    && TimerProofs.Inv(ts, Pending(pcs))
    && switchTimer in ts.list
    && OneCallEach(pcs) && NoneFlaggedEarly(ts, pcs)
  }

  /** Events are only sent to tasks that run. */
  ghost predicate UnusedIsEmpty(k: Kernel)
    requires k.Sized()
  {
    forall t :: 0 <= t < N_TASKS && k.sched.status[t] == Unused ==> k.rings[t] == []
  }

  ghost predicate Good(m: State) {
    && Ownership.Inv(m)
    && TaskProofs.Inv(m.k.sched)
    && TimersGood(m.k.timers, m.pcs, m.k.switchTimer)
    && UnusedIsEmpty(m.k)
  }

  // ---- the timer interrupt ----

  /** The expiry loop touches neither the scheduler nor the rings of other tasks. */
  lemma {:induction false} ExpireFrame(k: Kernel)
    requires k.Sized()
    ensures var x := Expire(k);
            && x.k.sched == k.sched && x.k.switchTimer == k.switchTimer
            && x.k.timers.tick == k.timers.tick && x.k.timers.timeouts == k.timers.timeouts
            && forall t :: 0 <= t < N_TASKS && t != k.sched.current ==> x.k.rings[t] == k.rings[t]
    decreases |k.timers.list|
  {
    if HeadExpired(k.timers) {
      var t := k.timers.list[0];
      var k1 := k.(timers := Pop(k.timers));
      var e := Event(TIMER_EVENT, t);
      if t == k.switchTimer {
        ExpireFrame(k1);
      } else if !PostOutcome(k1, e).NoMemory? {
        ExpireFrame(Post(k1, e));
      }
    }
  }

  /** What one iteration of the expiry loop leaves. */
  function AfterFirst(k: Kernel): (r: Kernel)
    requires k.Sized() && k.timers.list != []
    ensures r.Sized() && r.timers == Pop(k.timers) && r.switchTimer == k.switchTimer
  {
    var k1 := k.(timers := Pop(k.timers));
    if k.timers.list[0] == k.switchTimer then k1 else Post(k1, Event(TIMER_EVENT, k.timers.list[0]))
  }

  lemma {:induction false} ExpireKeepsTimers(k: Kernel, pending: set<nat>)
    requires k.Sized() && TimerProofs.Inv(k.timers, pending)
    ensures TimerProofs.Inv(Expire(k).k.timers, pending)
    ensures !Expire(k).failed ==> !HeadExpired(Expire(k).k.timers)
    decreases |k.timers.list|
  {
    if HeadExpired(k.timers) {
      TimerProofs.PopKeeps(k.timers, pending);
      ExpireKeepsTimers(AfterFirst(k), pending);
    }
  }

  /** The loop stops early after its first timer. */
  predicate StopsAtFirst(k: Kernel)
    requires k.Sized() && k.timers.list != []
  {
    var t := k.timers.list[0];
    t != k.switchTimer && PostOutcome(k.(timers := Pop(k.timers)), Event(TIMER_EVENT, t)).NoMemory?
  }

  lemma ExpireUnfolds(k: Kernel)
    requires k.Sized() && HeadExpired(k.timers)
    ensures var x := Expire(k);
            if StopsAtFirst(k) then x.k == AfterFirst(k) && !x.switching && x.failed
            else
              && x.k == Expire(AfterFirst(k)).k && x.failed == Expire(AfterFirst(k)).failed
              && x.switching == (k.timers.list[0] == k.switchTimer || Expire(AfterFirst(k)).switching)
  {
  }

  lemma NothingExpires(k: Kernel)
    requires k.Sized() && !HeadExpired(k.timers)
    ensures Expire(k).k == k && !Expire(k).switching
  {
  }

  lemma PrefixGrows(list: seq<nat>, m: nat, x: nat)
    requires m < |list|
    ensures list[1..][m..] == list[m + 1..]
    ensures x in list[..m + 1] <==> x == list[0] || x in list[1..][..m]
    ensures forall i :: 1 <= i < |list| ==> list[i] == list[1..][i - 1]
  {
    assert list[..m + 1] == [list[0]] + list[1..][..m];
  }

  /** The timers that the loop took off the list were its first n, all of them due, and
      the loop says whether the switch timer was among them. */
  lemma {:induction false} ExpireTakesPrefix(k: Kernel) returns (n: nat)
    requires k.Sized()
    ensures n <= |k.timers.list| && Expire(k).k.timers.list == k.timers.list[n..]
    ensures forall i :: 0 <= i < n ==> k.timers.timeouts[k.timers.list[i]] <= k.timers.tick
    ensures Expire(k).switching <==> k.switchTimer in k.timers.list[..n]
    decreases |k.timers.list|
  {
    hide Expire, AfterFirst;
    n := 0;
    if !HeadExpired(k.timers) {
      NothingExpires(k);
    } else {
      ExpireUnfolds(k);
      var m := 0;
      if !StopsAtFirst(k) {
        m := ExpireTakesPrefix(AfterFirst(k));
      }
      n := m + 1;
      PrefixGrows(k.timers.list, m, k.switchTimer);
    }
  }

  lemma TickTimersGood(m: State)
    requires Good(m)
    ensures TimersGood(Tick(m.k).timers, m.pcs, m.k.switchTimer)
  {
    var k := Ticked(m.k);
    var pending := Pending(m.pcs);
    assert TimerProofs.Inv(k.timers, pending);
    ExpireFrame(k);
    ExpireKeepsTimers(k, pending);
    var n := ExpireTakesPrefix(k);
    var x := Expire(k);
    assert k.timers.list == k.timers.list[..n] + k.timers.list[n..];
    if x.switching {
      TimerProofs.ArmKeeps(x.k.timers, pending, k.switchTimer, SWITCH_PERIOD);
    }
  }

  lemma TickKeeps(m: State)
    requires Good(m)
    ensures Good(TickState(m))
  {
    Ownership.TickKeeps(m);
    TickTimersGood(m);
    ExpireFrame(Ticked(m.k));
    TaskProofs.SwitchKeeps(m.k.sched);
  }

  // ---- arming a timer ----

  lemma PendingHolds(pcs: seq<Pc>, i: nat)
    requires i < |pcs| && pcs[i].Arming?
    ensures pcs[i].timer in Armed(pcs) && (pcs[i].flagged ==> pcs[i].timer in Pending(pcs))
  {
  }

  /** The timers that a task adds to a set, being where it is. */
  function ArmedBy(pc: Pc): set<nat> {
    if pc.Arming? then {pc.timer} else {}
  }

  function PendingBy(pc: Pc): set<nat> {
    if pc.Arming? && pc.flagged then {pc.timer} else {}
  }

  /** What a task does changes the two sets by its own timer. */
  lemma PendingAfter(pcs: seq<Pc>, me: nat, pc: Pc)
    requires me < |pcs| && OneCallEach(pcs)
    ensures Armed(pcs[me := pc]) == Armed(pcs) - ArmedBy(pcs[me]) + ArmedBy(pc)
    ensures Pending(pcs[me := pc]) == Pending(pcs) - PendingBy(pcs[me]) + PendingBy(pc)
  {
    var pcs' := pcs[me := pc];
    forall u | u in Armed(pcs) && u !in ArmedBy(pcs[me]) ensures u in Armed(pcs') {
      var i :| 0 <= i < |pcs| && pcs[i].Arming? && pcs[i].timer == u;
      assert pcs'[i] == pcs[i];
    }
    forall u | u in Pending(pcs) && u !in PendingBy(pcs[me]) ensures u in Pending(pcs') {
      var i :| 0 <= i < |pcs| && pcs[i].Arming? && pcs[i].flagged && pcs[i].timer == u;
      assert pcs'[i] == pcs[i];
    }
    assert pcs'[me] == pc;
  }

  lemma BeginArmTimers(ts: Timers, pcs: seq<Pc>, switchTimer: nat, me: nat, node: int, t: nat, delay: nat)
    requires TimersGood(ts, pcs, switchTimer) && me < |pcs| && !pcs[me].Arming?
    requires t < MAX_TIMERS && ts.flags[t] != TIMER_USING
    requires forall i :: 0 <= i < |pcs| && pcs[i].Arming? ==> pcs[i].timer != t
    ensures TimersGood(StoreTimeout(ts, t, delay), pcs[me := Arming(node, t, false)], switchTimer)
  {
    TimerProofs.StoreTimeoutKeeps(ts, Pending(pcs), t, delay);
    PendingAfter(pcs, me, Arming(node, t, false));
    assert Pending(pcs[me := Arming(node, t, false)]) == Pending(pcs);
  }

  lemma FlagTimerTimers(ts: Timers, pcs: seq<Pc>, switchTimer: nat, me: nat)
    requires TimersGood(ts, pcs, switchTimer) && me < |pcs| && pcs[me].Arming? && !pcs[me].flagged
    ensures pcs[me].timer < MAX_TIMERS
    ensures TimersGood(StoreFlag(ts, pcs[me].timer), pcs[me := pcs[me].(flagged := true)], switchTimer)
  {
    TimerProofs.StoreFlagKeeps(ts, Pending(pcs), pcs[me].timer);
    PendingAfter(pcs, me, pcs[me].(flagged := true));
    assert Pending(pcs[me := pcs[me].(flagged := true)]) == Pending(pcs) + {pcs[me].timer};
  }

  lemma EndArmTimers(ts: Timers, pcs: seq<Pc>, switchTimer: nat, me: nat, pc: Pc)
    requires TimersGood(ts, pcs, switchTimer) && me < |pcs| && pcs[me].Arming? && pcs[me].flagged && !pc.Arming?
    ensures pcs[me].timer < MAX_TIMERS && TimersGood(Link(ts, pcs[me].timer), pcs[me := pc], switchTimer)
  {
    PendingHolds(pcs, me);
    TimerProofs.LinkKeeps(ts, Pending(pcs), pcs[me].timer);
    PendingAfter(pcs, me, pc);
    assert Pending(pcs[me := pc]) == Pending(pcs) - {pcs[me].timer};
  }

  lemma BeginArmKeeps(m: State, t: nat, delay: nat)
    requires Good(m) && Enabled(m, BeginArm(t, delay))
    ensures Good(Next(m, BeginArm(t, delay)))
  {
    Ownership.ArmingKeeps(m, StoreTimeout(m.k.timers, t, delay), Arming(m.Pc().node, t, false));
    BeginArmTimers(m.k.timers, m.pcs, m.k.switchTimer, m.Running(), m.Pc().node, t, delay);
  }

  lemma FlagTimerKeeps(m: State)
    requires Good(m) && Enabled(m, FlagTimer)
    ensures Good(Next(m, FlagTimer))
  {
    Ownership.ArmingKeeps(m, StoreFlag(m.k.timers, m.Pc().timer), m.Pc().(flagged := true));
    FlagTimerTimers(m.k.timers, m.pcs, m.k.switchTimer, m.Running());
  }

  lemma EndArmKeeps(m: State)
    requires Good(m) && Enabled(m, EndArm)
    ensures Good(Next(m, EndArm))
  {
    Ownership.ArmingKeeps(m, Link(m.k.timers, m.Pc().timer), Handling(m.Pc().node));
    EndArmTimers(m.k.timers, m.pcs, m.k.switchTimer, m.Running(), Handling(m.Pc().node));
  }

  // ---- every step, every run ----

  /** A task that is not arming goes on to something else that is not. */
  lemma TimersStayGood(m: State, pc: Pc)
    requires Good(m) && !m.Pc().Arming? && !pc.Arming?
    ensures TimersGood(m.k.timers, m.pcs[m.Running() := pc], m.k.switchTimer)
  {
    PendingAfter(m.pcs, m.Running(), pc);
    assert Pending(m.pcs[m.Running() := pc]) == Pending(m.pcs);
  }

  lemma TakeEventKeeps(m: State)
    requires Good(m) && Enabled(m, TakeEvent)
    ensures Good(Next(m, TakeEvent))
  {
    Ownership.TakeKeeps(m);
    if m.k.rings[m.Running()] != [] {
      TimersStayGood(m, Handling(m.k.rings[m.Running()][0]));
    }
  }

  lemma BeginFreeKeeps(m: State, ptr: int)
    requires Good(m) && ptr in m.ledger.roles
    requires (m.Pc().AtLoop? && m.ledger.roles[ptr] == Private) || Ownership.HeldNode(m.Pc()) == Some(ptr)
    requires !m.Pc().Arming?
    ensures Good(BeginFree(m, ptr))
  {
    Ownership.BeginFreeOwns(m, ptr);
    TimersStayGood(m, BeginFree(m, ptr).Pc());
  }

  lemma FinishEventKeeps(m: State)
    requires Good(m) && Enabled(m, FinishEvent)
    ensures Good(Next(m, FinishEvent))
  {
    assert Ownership.HeldNode(m.Pc()) == Some(m.Pc().node);
    BeginFreeKeeps(m, m.Pc().node);
  }

  lemma ClearOneKeeps(m: State)
    requires Good(m) && Enabled(m, ClearOne)
    ensures Good(Next(m, ClearOne))
  {
    Ownership.ClearStepKeeps(m);
    TimersStayGood(m, ClearStep(m).Pc());
  }

  lemma InputKeeps(m: State, e: Event)
    requires Good(m)
    ensures Good(PostEvent(m, e))
  {
    Ownership.PostKeeps(m, e);
  }

  lemma HeapStepKeeps(m: State, a: Action)
    requires Good(m) && Enabled(m, a) && (a.StoreInto? || a.NewBlock?)
    ensures Good(Next(m, a))
  {
    match a {
      case StoreInto(ptr, addr, v) => Ownership.StoreIntoKeeps(m, ptr, addr, v);
      case NewBlock(size) => Ownership.AllocateKeeps(m, size);
    }
  }

  lemma NewTaskKeeps(m: State, size: nat)
    requires Good(m) && ValidSize(size)
    ensures Good(MakeTask(m, size))
  {
    Ownership.MakeTaskKeeps(m, size);
  }

  lemma TableStepKeeps(m: State, a: Action)
    requires Good(m) && Enabled(m, a) && (a.StartTask? || a.NewTimer?)
    ensures Good(Next(m, a))
  {
    match a {
      case StartTask(t, start) => TaskProofs.StartTaskKeeps(m.k.sched, t, start);
      case NewTimer =>
    }
  }

  lemma StepKeeps(m: State, a: Action)
    requires Good(m) && Enabled(m, a)
    ensures Good(Next(m, a))
  {
    match a {
      case TimerTick => TickKeeps(m);
      case Key(ch) => InputKeeps(m, Event(KEYBOARD_EVENT, ch));
      case Mouse(data) => InputKeeps(m, Event(MOUSE_EVENT, data));
      case BeginArm(t, delay) => BeginArmKeeps(m, t, delay);
      case FlagTimer => FlagTimerKeeps(m);
      case EndArm => EndArmKeeps(m);
      case TakeEvent => TakeEventKeeps(m);
      case FinishEvent => FinishEventKeeps(m);
      case ClearOne => ClearOneKeeps(m);
      case DropBlock(ptr) => BeginFreeKeeps(m, ptr);
      case StoreInto(_, _, _) => HeapStepKeeps(m, a);
      case NewBlock(_) => HeapStepKeeps(m, a);
      case NewTask(size) => NewTaskKeeps(m, size);
      case StartTask(_, _) => TableStepKeeps(m, a);
      case NewTimer => TableStepKeeps(m, a);
    }
  }

  lemma {:induction false} RunKeeps(m: State, acts: seq<Action>)
    requires Good(m) && Legal(m, acts)
    ensures Good(Exec(m, acts))
    decreases acts
  {
    hide Next, Enabled;
    if acts != [] {
      StepKeeps(m, acts[0]);
      RunKeeps(Next(m, acts[0]), acts[1..]);
    }
  }
}
