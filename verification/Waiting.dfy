/**
 Time.  A timer interrupt serves a timer that is due unless the timers ahead of it use up the
 memory; then the timer starves and waits for the next tick.  Over any run, a queued task runs
 on exactly the tick that its place implies, later by the ticks that starved the switch timer.
 */
module Waiting {
  import opened Sequences
  import opened TimerSpec
  import opened TaskSpec
  import opened KernelSpec
  import opened Machine
  import opened KernelRuns
  import opened Shortage

  // ---- runs, state by state ----

  function StateAt(m: State, acts: seq<Action>, n: nat): (r: State)
    requires m.Sized() && Legal(m, acts) && n <= |acts|
    ensures r.Sized()
    decreases n
  {
    if n == 0 then m else StateAt(Next(m, acts[0]), acts[1..], n - 1)
  }

  lemma LaterState(m: State, acts: seq<Action>, n: nat)
    requires m.Sized() && Legal(m, acts) && 0 < n <= |acts|
    ensures StateAt(m, acts, n) == StateAt(Next(m, acts[0]), acts[1..], n - 1)
  {
  }

  /** The timer interrupts among the first n steps. */
  function Ticks(acts: seq<Action>, n: nat): nat
    requires n <= |acts|
    decreases n
  {
    if n == 0 then 0 else (if acts[0].TimerTick? then 1 else 0) + Ticks(acts[1..], n - 1)
  }

  // ---- one timer ----

  /** Ticks until timer t is due: its deadline, or the next tick if that has passed. */
  function FiresIn(k: Kernel, t: nat): nat
    requires k.Sized() && t < MAX_TIMERS
  {
    if k.timers.timeouts[t] <= k.timers.tick then 1 else k.timers.timeouts[t] - k.timers.tick
  }

  /** The next tick finds t due but no page for one of the timers ahead of it. */
  predicate Starves(k: Kernel, t: nat)
    requires k.Sized() && t < MAX_TIMERS
  {
    FiresIn(k, t) == 1 && Ahead(k.timers.list, t, k.switchTimer) > Spare(k.heap)
  }

  /** The ticks among the first n steps that starve t, and those that do not. */
  function StarvedTicks(m: State, acts: seq<Action>, t: nat, n: nat): nat
    requires m.Sized() && Legal(m, acts) && t < MAX_TIMERS && n <= |acts|
    decreases n
  {
    if n == 0 then 0
    else (if acts[0].TimerTick? && Starves(m.k, t) then 1 else 0) + StarvedTicks(Next(m, acts[0]), acts[1..], t, n - 1)
  }

  function Progress(m: State, acts: seq<Action>, t: nat, n: nat): nat
    requires m.Sized() && Legal(m, acts) && t < MAX_TIMERS && n <= |acts|
    decreases n
  {
    if n == 0 then 0
    else (if acts[0].TimerTick? && !Starves(m.k, t) then 1 else 0) + Progress(Next(m, acts[0]), acts[1..], t, n - 1)
  }

  /** A step of the run: does it make progress? */
  predicate Advances(m: State, a: Action, t: nat)
    requires m.Sized() && t < MAX_TIMERS
  {
    a.TimerTick? && !Starves(m.k, t)
  }

  lemma FirstProgress(m: State, acts: seq<Action>, t: nat, n: nat)
    requires m.Sized() && Legal(m, acts) && t < MAX_TIMERS && 0 < n <= |acts|
    ensures Progress(m, acts, t, n)
            == Progress(Next(m, acts[0]), acts[1..], t, n - 1) + if Advances(m, acts[0], t) then 1 else 0
  {
  }

  lemma NoProgress(m: State, acts: seq<Action>, t: nat)
    requires m.Sized() && Legal(m, acts) && t < MAX_TIMERS
    ensures Progress(m, acts, t, 0) == 0 && StateAt(m, acts, 0) == m
  {
  }

  lemma {:induction false} TicksAreCounted(m: State, acts: seq<Action>, t: nat, n: nat)
    requires m.Sized() && Legal(m, acts) && t < MAX_TIMERS && n <= |acts|
    ensures Ticks(acts, n) == Progress(m, acts, t, n) + StarvedTicks(m, acts, t, n)
    decreases n
  {
    hide Next, Enabled;
    if n > 0 {
      TicksAreCounted(Next(m, acts[0]), acts[1..], t, n - 1);
    }
  }

  lemma {:induction false} ProgressStep(m: State, acts: seq<Action>, t: nat, n: nat)
    requires m.Sized() && Legal(m, acts) && t < MAX_TIMERS && n < |acts|
    ensures Progress(m, acts, t, n + 1)
            == Progress(m, acts, t, n) + if Advances(StateAt(m, acts, n), acts[n], t) then 1 else 0
    decreases n
  {
    hide Next, Enabled;
    FirstProgress(m, acts, t, n + 1);
    if n == 0 {
      NoProgress(m, acts, t);
      NoProgress(Next(m, acts[0]), acts[1..], t);
    } else {
      FirstProgress(m, acts, t, n);
      LaterState(m, acts, n);
      ProgressStep(Next(m, acts[0]), acts[1..], t, n - 1);
    }
  }

  /** The tick that makes progress after count others did. */
  lemma {:induction false} NthProgress(m: State, acts: seq<Action>, t: nat, count: nat, until: nat) returns (n: nat)
    requires m.Sized() && Legal(m, acts) && t < MAX_TIMERS && until <= |acts|
    requires Progress(m, acts, t, until) > count
    ensures n < until && Advances(StateAt(m, acts, n), acts[n], t)
    ensures Progress(m, acts, t, n) == count && Progress(m, acts, t, n + 1) == count + 1
    decreases until
  {
    hide Next, Enabled;
    n := until - 1;
    ProgressStep(m, acts, t, n);
    if Progress(m, acts, t, n) > count {
      n := NthProgress(m, acts, t, count, n);
    }
  }

  lemma {:induction false} StateIsNext(m: State, acts: seq<Action>, n: nat)
    requires m.Sized() && Legal(m, acts) && n < |acts|
    ensures var s := StateAt(m, acts, n); Enabled(s, acts[n]) && StateAt(m, acts, n + 1) == Next(s, acts[n])
    decreases n
  {
    hide Next, Enabled;
    var m' := Next(m, acts[0]);
    if n > 0 {
      StateIsNext(m', acts[1..], n - 1);
    } else {
      assert StateAt(m', acts[1..], 0) == m';
    }
  }

  /** The first n steps are a run of their own. */
  lemma {:induction false} PrefixRun(m: State, acts: seq<Action>, n: nat)
    requires m.Sized() && Legal(m, acts) && n <= |acts|
    ensures Legal(m, acts[..n]) && Exec(m, acts[..n]) == StateAt(m, acts, n)
    decreases n
  {
    hide Next, Enabled;
    if n > 0 {
      assert acts[..n][1..] == acts[1..][..n - 1];
      LaterState(m, acts, n);
      PrefixRun(Next(m, acts[0]), acts[1..], n - 1);
    }
  }

  /** The n-th step of a run is a step of a good state. */
  lemma Along(m: State, acts: seq<Action>, n: nat)
    requires Good(m) && Legal(m, acts) && n < |acts|
    ensures var s := StateAt(m, acts, n);
            Good(s) && Enabled(s, acts[n]) && StateAt(m, acts, n + 1) == Next(s, acts[n])
  {
    StateIsNext(m, acts, n);
    PrefixRun(m, acts, n);
    RunKeeps(m, acts[..n]);
  }

  // ---- the switch timer ----

  function SwitchDeadline(k: Kernel): nat
    requires k.Sized()
  {
    k.timers.timeouts[k.switchTimer]
  }

  /** The switch timer is due within the next 1000 ticks. */
  predicate OnTime(k: Kernel)
    requires k.Sized()
  {
    k.timers.tick < SwitchDeadline(k) <= k.timers.tick + SWITCH_PERIOD
  }

  /** Ticks until the next switch. */
  function Remaining(k: Kernel): nat
    requires k.Sized()
  {
    FiresIn(k, k.switchTimer)
  }

  lemma TickedIsOrdered(m: State)
    requires Good(m)
    ensures Ordered(Ticked(m.k).timers) && Ticked(m.k).heap == m.k.heap && m.k.switchTimer in m.k.timers.list
    ensures Ring(Ticked(m.k)) == Ring(m.k) && |Ring(m.k)| <= 1024
  {
  }

  lemma SplitMember(list: seq<nat>, n: nat, t: nat)
    requires NoRepeats(list) && n <= |list| && t in list
    ensures t in list[..n] <==> t !in list[n..]
  {
    var i :| 0 <= i < |list| && list[i] == t;
    if i < n {
      assert list[..n][i] == t;
    } else {
      assert list[n..][i - n] == t;
    }
  }

  lemma SwitchingMeansGone(k: Kernel)
    requires k.Sized() && Ordered(k.timers) && k.switchTimer in k.timers.list
    ensures Expire(k).switching <==> k.switchTimer !in Expire(k).k.timers.list
  {
    var n := ExpireTakesPrefix(k);
    SplitMember(k.timers.list, n, k.switchTimer);
  }

  /** A tick switches exactly when the switch timer is due and not starved; the next deadline
      is then 1000 ticks away, and otherwise nothing moves but the clock. */
  lemma TickSwitches(m: State)
    requires Good(m)
    ensures var k' := Tick(m.k);
            && k'.timers.tick == m.k.timers.tick + 1 && k'.switchTimer == m.k.switchTimer
            && if Remaining(m.k) == 1 && !Starves(m.k, m.k.switchTimer)
               then k'.sched == Switch(m.k.sched) && SwitchDeadline(k') == k'.timers.tick + SWITCH_PERIOD
               else k'.sched == m.k.sched && SwitchDeadline(k') == SwitchDeadline(m.k)
  {
    var k := Ticked(m.k);
    TickedIsOrdered(m);
    SwitchingMeansGone(k);
    ExpireFrame(k);
    if Remaining(m.k) == 1 {
      ExpireServes(k, k.switchTimer);
    } else {
      ExpireSpares(k, k.switchTimer);
    }
  }

  /** No other step moves the clock or the switch timer. */
  lemma OtherStepsKeepTime(m: State, a: Action)
    requires Good(m) && Enabled(m, a) && !a.TimerTick?
    ensures var k' := Next(m, a).k;
            && k'.timers.tick == m.k.timers.tick && k'.switchTimer == m.k.switchTimer
            && SwitchDeadline(k') == SwitchDeadline(m.k)
            && m.k.sched.queue <= k'.sched.queue && k'.sched.current == m.k.sched.current
  {
  }

  lemma SwitchTimerStays(m: State, a: Action)
    requires Good(m) && Enabled(m, a)
    ensures Next(m, a).k.switchTimer == m.k.switchTimer
    ensures Next(m, a).k.timers.tick == m.k.timers.tick + if a.TimerTick? then 1 else 0
  {
    if a.TimerTick? {
      TickSwitches(m);
    } else {
      OtherStepsKeepTime(m, a);
    }
  }

  // ---- how long a queued task waits ----

  /** Ticks until the task at place pos of the ready queue runs. */
  function WaitFor(k: Kernel, pos: nat): nat
    requires k.Sized()
  {
    pos * 1000 + Remaining(k)
  }

  lemma WaitIsBounded(k: Kernel, pos: nat)
    requires k.Sized() && OnTime(k)
    ensures 1 <= WaitFor(k, pos) <= (pos + 1) * 1000
  {
  }

  predicate WaitsAt(k: Kernel, task: nat, pos: nat) {
    pos < |k.sched.queue| && k.sched.queue[pos] == task
  }

  lemma WaitAfterTick(m: State, task: nat, pos: nat)
    requires Good(m) && WaitsAt(m.k, task, pos)
    ensures var k' := Tick(m.k);
            if Starves(m.k, m.k.switchTimer) then WaitsAt(k', task, pos) && WaitFor(k', pos) == WaitFor(m.k, pos)
            else if WaitFor(m.k, pos) == 1 then k'.sched.current == task
            else if Remaining(m.k) == 1 then
              pos > 0 && WaitsAt(k', task, pos - 1) && WaitFor(k', pos - 1) == WaitFor(m.k, pos) - 1
            else WaitsAt(k', task, pos) && WaitFor(k', pos) == WaitFor(m.k, pos) - 1
  {
    TickSwitches(m);
  }

  lemma WaitsOn(m: State, a: Action, task: nat, pos: nat)
    requires Good(m) && Enabled(m, a) && !a.TimerTick? && WaitsAt(m.k, task, pos)
    ensures WaitsAt(Next(m, a).k, task, pos) && WaitFor(Next(m, a).k, pos) == WaitFor(m.k, pos)
  {
    OtherStepsKeepTime(m, a);
  }

  /** Any step of the run. */
  lemma WaitAfterStep(m: State, a: Action, task: nat, pos: nat) returns (pos': nat)
    requires Good(m) && Enabled(m, a) && WaitsAt(m.k, task, pos)
    ensures var k' := Next(m, a).k;
            var progress := if a.TimerTick? && !Starves(m.k, m.k.switchTimer) then 1 else 0;
            if WaitFor(m.k, pos) == progress then k'.sched.current == task
            else WaitsAt(k', task, pos') && WaitFor(k', pos') == WaitFor(m.k, pos) - progress
  {
    pos' := pos;
    if a.TimerTick? {
      WaitAfterTick(m, task, pos);
      if Remaining(m.k) == 1 && !Starves(m.k, m.k.switchTimer) && pos > 0 { pos' := pos - 1; }
    } else {
      WaitsOn(m, a, task, pos);
    }
  }

  /** Until its tick comes the task is queued, and its wait counts down. */
  lemma {:induction false} StillWaiting(m: State, acts: seq<Action>, task: nat, pos: nat, n: nat) returns (pos': nat)
    requires Good(m) && Legal(m, acts) && WaitsAt(m.k, task, pos)
    requires n <= |acts| && Progress(m, acts, m.k.switchTimer, n) < WaitFor(m.k, pos)
    ensures WaitsAt(StateAt(m, acts, n).k, task, pos')
    ensures StateAt(m, acts, n).k.switchTimer == m.k.switchTimer
    ensures WaitFor(StateAt(m, acts, n).k, pos') == WaitFor(m.k, pos) - Progress(m, acts, m.k.switchTimer, n)
    decreases n
  {
    hide Next, Enabled;
    pos' := pos;
    if n > 0 {
      var pos1 := WaitAfterStep(m, acts[0], task, pos);
      StepKeeps(m, acts[0]);
      SwitchTimerStays(m, acts[0]);
      pos' := StillWaiting(Next(m, acts[0]), acts[1..], task, pos1, n - 1);
    }
  }

  /** Waiting, exactly, over any run: whatever other tasks start, whatever timers are armed and
      however little memory there is, the task at place pos becomes the running task on tick
      number WaitFor, later by the ticks that starved the switch timer; when the switch timer is on
      time that is at most pos + 1 periods of 1000 ticks.  StillWaiting says that it is queued
      until then. */
  lemma BoundedWaiting(m: State, acts: seq<Action>, task: nat, pos: nat) returns (n: nat)
    requires Good(m) && Legal(m, acts) && WaitsAt(m.k, task, pos)
    requires Progress(m, acts, m.k.switchTimer, |acts|) >= WaitFor(m.k, pos)
    ensures 0 < n <= |acts| && acts[n - 1].TimerTick? && StateAt(m, acts, n).k.sched.current == task
    ensures Ticks(acts, n) == WaitFor(m.k, pos) + StarvedTicks(m, acts, m.k.switchTimer, n)
    ensures OnTime(m.k) ==> 1 <= WaitFor(m.k, pos) <= (pos + 1) * 1000
    ensures Progress(m, acts, m.k.switchTimer, n - 1) < WaitFor(m.k, pos)
  {
    var sw := m.k.switchTimer;
    n := NthProgress(m, acts, sw, WaitFor(m.k, pos) - 1, |acts|);
    var pos' := StillWaiting(m, acts, task, pos, n);
    Along(m, acts, n);
    WaitAfterTick(StateAt(m, acts, n), task, pos');
    n := n + 1;
    TicksAreCounted(m, acts, sw, n);
    if OnTime(m.k) { WaitIsBounded(m.k, pos); }
  }

  // ---- the grid of switches ----

  /** No step of the run is a tick that starves the switch timer. */
  predicate NeverStarves(m: State, acts: seq<Action>)
    requires m.Sized() && Legal(m, acts)
    decreases |acts|
  {
    acts == [] ||
    (!(acts[0].TimerTick? && Starves(m.k, m.k.switchTimer)) && NeverStarves(Next(m, acts[0]), acts[1..]))
  }

  predicate AlwaysOnTime(m: State, acts: seq<Action>)
    requires m.Sized() && Legal(m, acts)
    decreases |acts|
  {
    OnTime(m.k) && (acts == [] || AlwaysOnTime(Next(m, acts[0]), acts[1..]))
  }

  /** A step keeps the switch timer on time exactly when it does not starve it, and moves its
      deadline by nothing or by 1000. */
  lemma StepKeepsGrid(m: State, a: Action)
    requires Good(m) && OnTime(m.k) && Enabled(m, a)
    ensures OnTime(Next(m, a).k) <==> !(a.TimerTick? && Starves(m.k, m.k.switchTimer))
    ensures OnTime(Next(m, a).k) ==>
      var d := SwitchDeadline(Next(m, a).k) - SwitchDeadline(m.k); d == 0 || d == SWITCH_PERIOD
  {
    if a.TimerTick? {
      TickSwitches(m);
    } else {
      OtherStepsKeepTime(m, a);
    }
  }

  /** The switch timer is on time throughout a run if and only if no tick starves it. */
  lemma {:induction false} OnTimeUnlessStarved(m: State, acts: seq<Action>)
    requires Good(m) && OnTime(m.k) && Legal(m, acts)
    ensures AlwaysOnTime(m, acts) <==> NeverStarves(m, acts)
    decreases |acts|
  {
    hide Next, Enabled;
    if acts != [] {
      StepKeepsGrid(m, acts[0]);
      StepKeeps(m, acts[0]);
      if OnTime(Next(m, acts[0]).k) {
        OnTimeUnlessStarved(Next(m, acts[0]), acts[1..]);
      } else {
        assert !AlwaysOnTime(Next(m, acts[0]), acts[1..]);
      }
    }
  }

  /** Then there is a switch every 1000 ticks, for ever: the deadlines stay on one grid. */
  lemma {:induction false} SwitchEveryPeriod(m: State, acts: seq<Action>) returns (switches: nat)
    requires Good(m) && OnTime(m.k) && Legal(m, acts) && NeverStarves(m, acts)
    ensures var k' := Exec(m, acts).k;
            && OnTime(k') && k'.timers.tick == m.k.timers.tick + Ticks(acts, |acts|)
            && SwitchDeadline(k') == SwitchDeadline(m.k) + switches * 1000
    decreases |acts|
  {
    hide Next, Enabled;
    switches := 0;
    if acts != [] {
      StepKeepsGrid(m, acts[0]);
      StepKeeps(m, acts[0]);
      SwitchTimerStays(m, acts[0]);
      var later := SwitchEveryPeriod(Next(m, acts[0]), acts[1..]);
      switches := later + if SwitchDeadline(Next(m, acts[0]).k) == SwitchDeadline(m.k) then 0 else 1;
    }
  }
}
