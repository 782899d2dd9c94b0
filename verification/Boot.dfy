/** The kernel when initial_tasks returns, and every state it can reach from there. */
module Boot {
  import opened HeapSpec
  import opened TimerSpec
  import opened TaskSpec
  import opened KernelSpec
  import opened Machine
  import opened KernelRuns
  import opened Waiting
  import Ownership
  import Links

  const IDLE_STACK: nat := 0x1_0000
  const DEFAULT_STACK: nat := 8192

  /** Slot 0 is the idle task, slot 1 the default task, timer 0 the switch timer. */
  function BootSched(): (s: Sched)
    ensures s.Sized()
  {
    Sched(seq(N_TASKS, i => if i == 0 then Ready else if i == 1 then Running else Unused), [], 1, 0)
  }

  function BootTimers(): (ts: Timers)
    ensures ts.Sized()
  {
    Timers(0,
           seq(MAX_TIMERS, i => if i == 0 then SWITCH_PERIOD else 0),
           seq(MAX_TIMERS, i => if i == 0 then TIMER_USING else 0),
           [0])
  }

  // What there is before initial_tasks, and after its first step.

  function FreshSched(): (s: Sched)
    ensures s.Sized()
  {
    Sched(seq(N_TASKS, _ => Unused), [], Links.NULL, Links.NULL)
  }

  function IdleSched(): (s: Sched)
    ensures s.Sized()
  {
    FreshSched().(status := FreshSched().status[0 := Ready], idle := 0)
  }

  function FreshTimers(): (ts: Timers)
    ensures ts.Sized()
  {
    Timers(0, seq(MAX_TIMERS, _ => 0), seq(MAX_TIMERS, _ => 0), [])
  }

  function FreshRings(): (r: seq<seq<int>>)
    ensures |r| == N_TASKS
  {
    seq(N_TASKS, _ => [])
  }

  lemma FirstSlots()
    ensures TaskSpec.FirstUnused(FreshSched().status, 0) == 0
    ensures TaskSpec.FirstUnused(IdleSched().status, 0) == 1
    ensures TimerSpec.FirstUnused(FreshTimers().flags, 0) == 0
  {
    assert TaskSpec.FirstUnused(IdleSched().status, 0) == TaskSpec.FirstUnused(IdleSched().status, 1);
  }

  lemma StartedIdle()
    ensures FreshSched().status[0 := Init][0 := Ready] == IdleSched().status
    ensures FreshRings()[0 := []] == FreshRings()
  {
  }

  lemma StartedDefault()
    ensures IdleSched().status[1 := Alloc][1 := Running] == BootSched().status
    ensures FreshRings()[1 := []] == FreshRings()
  {
  }

  lemma ArmedSwitchTimer()
    ensures Arm(FreshTimers().(flags := FreshTimers().flags[0 := TIMER_ALLOC]), 0, SWITCH_PERIOD) == BootTimers()
  {
    var ts := Arm(FreshTimers().(flags := FreshTimers().flags[0 := TIMER_ALLOC]), 0, SWITCH_PERIOD);
    assert ts.timeouts == BootTimers().timeouts && ts.flags == BootTimers().flags;
  }

  function EmptyHeap(): (h: Heap)
    ensures h.Sized()
  {
    Heap(seq(BITMAP_SIZE, _ => 0), seq(HEAP_WORDS, _ => 0))
  }

  function BeforeStacks(): (m: State)
    ensures m.Sized()
  {
    State(Kernel(EmptyHeap(), BootTimers(), BootSched(), FreshRings(), 0),
          seq(N_TASKS, _ => AtLoop),
          Ledger(map[], map[], seq(N_TASKS, _ => []), seq(N_TASKS, _ => [])))
  }

  /** The two kernel stacks are the first blocks of the heap. */
  function BootState(): (m: State)
    ensures m.Sized()
  {
    AllocatePrivate(AllocatePrivate(BeforeStacks(), IDLE_STACK), DEFAULT_STACK)
  }

  /** The kernel part of the boot state, as initial_tasks builds it. */
  function BootKernel(): (k: Kernel)
    ensures k.Sized()
  {
    var h := Malloc(Malloc(EmptyHeap(), IDLE_STACK).0, DEFAULT_STACK).0;
    Kernel(h, BootTimers(), BootSched(), FreshRings(), 0)
  }

  /** The first task runs, the idle task waits outside the queue, all other slots are unused; the
      switch timer alone is armed, for tick 1000. */
  lemma BootTables()
    ensures var k := BootKernel();
            && k.sched.current == 1 && k.sched.idle == 0 && k.sched.queue == []
            && k.sched.status[0] == Ready && k.sched.status[1] == Running
            && (forall t :: 2 <= t < 64 ==> k.sched.status[t] == Unused)
            && (forall t :: 0 <= t < 64 ==> k.rings[t] == [])
            && k.switchTimer == 0 && k.timers.tick == 0 && k.timers.list == [0] && k.timers.timeouts[0] == 1000
            && k.timers.flags[0] == TIMER_USING && (forall t :: 1 <= t < 0x256 ==> k.timers.flags[t] == 0)
  {
  }

  lemma BootKernelIsBootState()
    ensures BootKernel() == BootState().k
  {
    var m := AllocatePrivate(BeforeStacks(), IDLE_STACK);
    AllocateKernel(BeforeStacks(), IDLE_STACK);
    AllocateKernel(m, DEFAULT_STACK);
  }

  lemma AllocateKernel(m: State, size: nat)
    requires m.Sized() && ValidSize(size)
    ensures AllocatePrivate(m, size).k == m.k.(heap := Malloc(m.k.heap, size).0)
  {
  }

  lemma EmptyHeapGood()
    ensures HeapSpec.Inv(EmptyHeap(), map[])
  {
    assert forall k :: 0 <= k < BITMAP_SIZE ==> !Claimed(map[], k);
  }

  lemma BootTimersGood(pcs: seq<Pc>)
    requires forall i :: 0 <= i < |pcs| ==> pcs[i].AtLoop?
    ensures TimersGood(BootTimers(), pcs, 0)
  {
    assert Pending(pcs) == {};
  }

  lemma BootOwnership()
    ensures Ownership.Inv(BeforeStacks())
  {
    EmptyHeapGood();
    var m := BeforeStacks();
    forall t | 0 <= t < N_TASKS
      ensures m.ledger.accepted[t] == m.ledger.taken[t] + Ownership.Events(m.k.heap, m.k.rings[t])
    {
      assert m.k.rings[t] == [];
    }
  }

  lemma StackKeeps(m: State, size: nat)
    requires Good(m) && ValidSize(size)
    ensures Good(AllocatePrivate(m, size)) && AllocatePrivate(m, size).k.timers == m.k.timers
    ensures AllocatePrivate(m, size).k.switchTimer == m.k.switchTimer
  {
    HeapStepKeeps(m, NewBlock(size));
  }

  lemma StacksKeep(m: State)
    requires Good(m)
    ensures var m' := AllocatePrivate(AllocatePrivate(m, IDLE_STACK), DEFAULT_STACK);
            Good(m') && m'.k.timers == m.k.timers && m'.k.switchTimer == m.k.switchTimer
  {
    StackKeeps(m, IDLE_STACK);
    StackKeeps(AllocatePrivate(m, IDLE_STACK), DEFAULT_STACK);
  }

  lemma BeforeStacksGood()
    ensures Good(BeforeStacks())
  {
    BootOwnership();
    BootTimersGood(BeforeStacks().pcs);
  }

  lemma BootIsGood()
    ensures Good(BootState())
    ensures BootState().k.timers == BootTimers() && BootState().k.switchTimer == 0
    ensures OnTime(BootState().k)
  {
    BeforeStacksGood();
    StacksKeep(BeforeStacks());
  }

  /** Every state that the kernel can reach. */
  ghost predicate Reachable(m: State) {
    exists acts: seq<Action> :: Legal(BootState(), acts) && m == Exec(BootState(), acts)
  }

  lemma EveryReachableStateIsGood(m: State)
    requires Reachable(m)
    ensures Good(m)
  {
    var acts: seq<Action> :| Legal(BootState(), acts) && m == Exec(BootState(), acts);
    BootIsGood();
    RunKeeps(BootState(), acts);
  }

  lemma GridHit(tick: nat, deadline: nat, switches: nat)
    requires deadline == 1000 + switches * 1000 && tick < deadline <= tick + 1000
    ensures deadline == tick + 1 <==> (tick + 1) % 1000 == 0
  {
  }

  predicate Thousands(n: nat) {
    n % 1000 == 0
  }

  /** After so many ticks, the next one switches tasks exactly when it completes a thousand and
      does not starve the switch timer. */
  predicate SwitchesByTheThousand(k: Kernel, ticks: nat)
    requires k.Sized()
  {
    && k.timers.tick == ticks
    && Tick(k).sched == if Thousands(ticks + 1) && !Starves(k, k.switchTimer) then Switch(k.sched) else k.sched
  }

  lemma SwitchOnGrid(m: State, ticks: nat, switches: nat)
    requires Good(m) && OnTime(m.k) && m.k.timers.tick == ticks && SwitchDeadline(m.k) == 1000 + switches * 1000
    ensures SwitchesByTheThousand(m.k, ticks)
  {
    TickSwitches(m);
    GridHit(m.k.timers.tick, SwitchDeadline(m.k), switches);
  }

  lemma SwitchAfterRun(m: State, acts: seq<Action>)
    requires Good(m) && OnTime(m.k) && m.k.timers.tick == 0 && SwitchDeadline(m.k) == 1000
    requires Legal(m, acts) && NeverStarves(m, acts)
    ensures SwitchesByTheThousand(Exec(m, acts).k, Ticks(acts, |acts|))
  {
    var switches := SwitchEveryPeriod(m, acts);
    RunKeeps(m, acts);
    SwitchOnGrid(Exec(m, acts), Ticks(acts, |acts|), switches);
  }

  lemma BootDeadline()
    ensures SwitchDeadline(BootState().k) == 1000 && BootState().k.timers.tick == 0
  {
    BootIsGood();
  }

  /** From boot on, as long as no tick has starved the switch timer, tasks are switched by the
      thousand ticks. */
  lemma SwitchesOnTheThousands(acts: seq<Action>)
    requires Legal(BootState(), acts) && NeverStarves(BootState(), acts)
    ensures SwitchesByTheThousand(Exec(BootState(), acts).k, Ticks(acts, |acts|))
  {
    BootIsGood();
    BootDeadline();
    SwitchAfterRun(BootState(), acts);
  }
}
