/**
 The slots of the two tables over whole runs: what an allocation hands out it hands out once, and a
 task that is made and started gets to run.
 */
module SlotLife {
  import opened HeapSpec
  import opened TimerSpec
  import opened TaskSpec
  import opened KernelSpec
  import opened Machine
  import opened KernelRuns
  import opened Waiting
  import Boot
  import Links
  import TaskProofs
  import TimerProofs

  // ---- timers ----

  /** The expiry loop takes no timer away from whoever allocated it. */
  lemma {:induction false} ExpireKeepsAllocated(k: Kernel, t: nat)
    requires k.Sized() && t < MAX_TIMERS && k.timers.flags[t] != 0
    ensures Expire(k).k.timers.flags[t] != 0
    decreases |k.timers.list|
  {
    if HeadExpired(k.timers) {
      ExpireUnfolds(k);
      ExpireKeepsAllocated(AfterFirst(k), t);
    }
  }

  lemma TickKeepsAllocated(k: Kernel, t: nat)
    requires k.Sized() && t < MAX_TIMERS && k.timers.flags[t] != 0
    ensures Tick(k).timers.flags[t] != 0
  {
    ExpireKeepsAllocated(Ticked(k), t);
  }

  lemma StepKeepsAllocated(m: State, a: Action, t: nat)
    requires m.Sized() && Enabled(m, a) && t < MAX_TIMERS && m.k.timers.flags[t] != 0
    ensures Next(m, a).k.timers.flags[t] != 0
  {
    if a.TimerTick? {
      TickKeepsAllocated(m.k, t);
    }
  }

  lemma {:induction false} RunKeepsAllocated(m: State, acts: seq<Action>, t: nat)
    requires m.Sized() && Legal(m, acts) && t < MAX_TIMERS && m.k.timers.flags[t] != 0
    ensures Exec(m, acts).k.timers.flags[t] != 0
    decreases |acts|
  {
    hide Next, Enabled;
    if acts != [] {
      StepKeepsAllocated(m, acts[0], t);
      RunKeepsAllocated(Next(m, acts[0]), acts[1..], t);
    }
  }

  /** The timer that k_timer_alloc hands out was free, and over any run afterwards, armed and expired
      as it may be, it is not handed out again. */
  lemma TimerIsHandedOutOnce(m: State, acts: seq<Action>)
    requires m.Sized() && Legal(Next(m, NewTimer), acts)
    requires TimerSpec.FirstUnused(m.k.timers.flags, 0) != Links.NULL
    ensures var t := TimerSpec.FirstUnused(m.k.timers.flags, 0);
            && m.k.timers.flags[t] == 0
            && Next(m, NewTimer).k.timers == m.k.timers.(flags := m.k.timers.flags[t := 1])
            && TimerSpec.FirstUnused(Exec(Next(m, NewTimer), acts).k.timers.flags, 0) != t
  {
    RunKeepsAllocated(Next(m, NewTimer), acts, TimerSpec.FirstUnused(m.k.timers.flags, 0));
  }

  // ---- tasks ----

  lemma StepKeepsTask(m: State, a: Action, t: nat)
    requires Good(m) && Enabled(m, a) && t < N_TASKS && m.k.sched.status[t] != Unused
    ensures Next(m, a).k.sched.status[t] != Unused
  {
    if a.TimerTick? {
      TickKeepsTask(m, t);
    } else {
      OthersKeepTask(m, a, t);
    }
  }

  lemma OthersKeepTask(m: State, a: Action, t: nat)
    requires m.Sized() && Enabled(m, a) && !a.TimerTick? && t < N_TASKS && m.k.sched.status[t] != Unused
    ensures Next(m, a).k.sched.status[t] != Unused
  {
  }

  lemma TickKeepsTask(m: State, t: nat)
    requires Good(m) && t < N_TASKS && m.k.sched.status[t] != Unused
    ensures Tick(m.k).sched.status[t] != Unused
  {
    TickSwitches(m);
  }

  lemma {:induction false} RunKeepsTask(m: State, acts: seq<Action>, t: nat)
    requires Good(m) && Legal(m, acts) && t < N_TASKS && m.k.sched.status[t] != Unused
    ensures Exec(m, acts).k.sched.status[t] != Unused
    decreases |acts|
  {
    hide Next, Enabled;
    if acts != [] {
      StepKeepsTask(m, acts[0], t);
      StepKeeps(m, acts[0]);
      RunKeepsTask(Next(m, acts[0]), acts[1..], t);
    }
  }

  /** A new task takes a slot that was unused, is initialised with an empty ring and not queued, and
      over any run afterwards no other task gets the slot. */
  lemma TaskIsMadeOnce(m: State, size: nat, acts: seq<Action>)
    requires Good(m) && ValidSize(size) && Legal(Next(m, NewTask(size)), acts)
    requires TaskSpec.FirstUnused(m.k.sched.status, 0) != Links.NULL
    ensures var t := TaskSpec.FirstUnused(m.k.sched.status, 0);
            var m' := Next(m, NewTask(size));
            && m.k.sched.status[t] == Unused && m'.k.sched.status[t] == Init
            && m'.k.rings[t] == [] && t !in m'.k.sched.queue
            && TaskSpec.FirstUnused(Exec(m', acts).k.sched.status, 0) != t
  {
    StepKeeps(m, NewTask(size));
    RunKeepsTask(Next(m, NewTask(size)), acts, TaskSpec.FirstUnused(m.k.sched.status, 0));
  }

  /** start_task of an initialised task with an address puts it behind all that are queued. */
  lemma StartedWaits(m: State, t: nat, start: int)
    requires Good(m) && t < N_TASKS && m.k.sched.status[t] == Init && start != 0
    ensures var m' := Next(m, StartTask(t, start));
            && Good(m') && WaitsAt(m'.k, t, |m.k.sched.queue|) && m'.k.switchTimer == m.k.switchTimer
            && m'.k.timers == m.k.timers && m'.k.heap == m.k.heap
  {
    StepKeeps(m, StartTask(t, start));
    TaskProofs.StartedIff(m.k.sched, t, start);
  }

  /** So it runs: over any run it becomes the running task on the tick that its place names, later by
      the ticks that starve the switch timer, and at most as many periods of 1000 ticks after it was
      started as tasks were queued before it, and one more. */
  lemma StartedTaskRuns(m: State, t: nat, start: int, acts: seq<Action>) returns (n: nat)
    requires Good(m) && t < N_TASKS && m.k.sched.status[t] == Init && start != 0
    requires Legal(Next(m, StartTask(t, start)), acts)
    requires var m' := Next(m, StartTask(t, start));
             Progress(m', acts, m.k.switchTimer, |acts|) >= WaitFor(m'.k, |m.k.sched.queue|)
    ensures var m' := Next(m, StartTask(t, start));
            && 0 < n <= |acts| && acts[n - 1].TimerTick? && StateAt(m', acts, n).k.sched.current == t
            && Ticks(acts, n) == WaitFor(m'.k, |m.k.sched.queue|) + StarvedTicks(m', acts, m.k.switchTimer, n)
    ensures OnTime(m.k) ==> 1 <= WaitFor(Next(m, StartTask(t, start)).k, |m.k.sched.queue|)
                              <= (|m.k.sched.queue| + 1) * 1000
  {
    StartedWaits(m, t, start);
    n := BoundedWaiting(Next(m, StartTask(t, start)), acts, t, |m.k.sched.queue|);
  }

  /** Without an address, or before it is initialised, start_task does nothing. */
  lemma NotStarted(m: State, t: nat, start: int)
    requires m.Sized() && t < N_TASKS && (m.k.sched.status[t] != Init || start == 0)
    ensures Next(m, StartTask(t, start)) == m
  {
  }
}
