/**
 A run from boot to a state whose next tick neither switches tasks nor delivers the event of
 the timer that it takes off the list: one block has taken all the memory, and a timer is due
 together with the switch timer.
 */
module Starvation {
  import opened OptionType
  import opened HeapSpec
  import opened TimerSpec
  import opened TaskSpec
  import opened KernelSpec
  import opened Machine
  import opened KernelRuns
  import opened Shortage
  import opened Waiting
  import opened TimerDeadlines
  import opened Boot
  import opened HeapProofs
  import Links
  import Ownership

  // ---- a heap filled from its start ----

  lemma FullHasNoSpare(h: Heap)
    requires FilledTo(h, BITMAP_SIZE - 1)
    ensures Spare(h) == 0
  {
    NoFreePages(h.bits[..BITMAP_SIZE - 1]);
  }

  lemma SizeOfPages(pages: nat)
    requires 0 < pages < BITMAP_SIZE
    ensures ValidSize(512 * pages - 4) && RealSize(512 * pages - 4) < HEAP_SIZE && Pages(512 * pages - 4) == pages
  {
  }

  // ---- one more step ----

  lemma {:induction false} OneMore(m: State, acts: seq<Action>, a: Action)
    requires m.Sized() && Legal(m, acts) && Enabled(Exec(m, acts), a)
    ensures Legal(m, acts + [a]) && Exec(m, acts + [a]) == Next(Exec(m, acts), a)
    decreases |acts|
  {
    hide Next, Enabled;
    if acts == [] {
      assert [] + [a] == [a] && [a][1..] == [];
      assert Exec(Next(m, a), []) == Next(m, a);
    } else {
      assert (acts + [a])[1..] == acts[1..] + [a];
      OneMore(Next(m, acts[0]), acts[1..], a);
    }
  }

  // ---- the stages of the run ----

  /** Before the first tick, with the switch timer alone in the list. */
  ghost predicate Calm(m: State, n: nat) {
    && Good(m) && FilledTo(m.k.heap, n) && m.k.switchTimer == 0
    && m.k.timers.tick == 0 && m.k.timers.list == [0] && m.k.timers.timeouts[0] == 1000
    && Idle(m, 1)
  }

  lemma StacksFill(m: State)
    requires m.Sized() && FilledTo(m.k.heap, 0)
    ensures FilledTo(AllocatePrivate(AllocatePrivate(m, IDLE_STACK), DEFAULT_STACK).k.heap, 146)
  {
    var m1 := AllocatePrivate(m, IDLE_STACK);
    FillsOn(m.k.heap, 0, IDLE_STACK);
    AllocateKernel(m, IDLE_STACK);
    FillsOn(m1.k.heap, 129, DEFAULT_STACK);
    AllocateKernel(m1, DEFAULT_STACK);
  }

  lemma BootRing()
    ensures BootState().Pc().AtLoop? && Ring(BootState().k) == []
  {
    AllocateKernel(BeforeStacks(), IDLE_STACK);
    AllocateKernel(AllocatePrivate(BeforeStacks(), IDLE_STACK), DEFAULT_STACK);
  }

  lemma BootIsCalm()
    ensures Calm(BootState(), 146)
  {
    BootIsGood();
    StacksFill(BeforeStacks());
  }

  lemma AllocatesNewTimer(m: State, n: nat)
    requires Calm(m, n)
    ensures Enabled(m, NewTimer) && Calm(Next(m, NewTimer), n)
    ensures Next(m, NewTimer).Pc() == m.Pc() && Ring(Next(m, NewTimer).k) == Ring(m.k)
  {
    StepKeeps(m, NewTimer);
  }

  /** A key arrives at the running task as long as its ring has a place; its node takes a page
      in any case. */
  lemma KeyArrives(m: State, n: nat)
    requires Calm(m, n) && n + 1 < BITMAP_SIZE
    ensures Enabled(m, Key(0)) && Calm(Next(m, Key(0)), n + 1) && Next(m, Key(0)).Pc() == m.Pc()
    ensures |Ring(m.k)| < 1024 ==> |Ring(Next(m, Key(0)).k)| == |Ring(m.k)| + 1
  {
    NodeIsOnePage();
    NodeFits(m.k.heap);
    FillsOn(m.k.heap, n, NODE_SIZE);
    StepKeeps(m, Key(0));
  }

  lemma EventIsTaken(m: State, n: nat)
    requires Calm(m, n) && m.Pc().AtLoop? && Ring(m.k) != []
    ensures Enabled(m, TakeEvent) && Calm(Next(m, TakeEvent), n) && Next(m, TakeEvent).Pc().Handling?
  {
    Ownership.QueuedIsNotNull(m, m.Running());
    StepKeeps(m, TakeEvent);
  }

  /** The timer 1 is due with the switch timer, and stands before it. */
  ghost predicate BothDue(m: State, n: nat) {
    && Good(m) && FilledTo(m.k.heap, n) && m.k.switchTimer == 0
    && m.k.timers.tick < 1000 && m.k.timers.list == [1, 0]
    && m.k.timers.timeouts[0] == 1000 && m.k.timers.timeouts[1] == 1000
  }

  /** A task is arming timer 1 with the deadline of the switch timer. */
  ghost predicate ArmsBoth(m: State, n: nat, flagged: bool) {
    && Good(m) && FilledTo(m.k.heap, n) && m.k.switchTimer == 0
    && m.Pc().Arming? && m.Pc().timer == 1 && m.Pc().flagged == flagged
    && m.k.timers.tick == 0 && m.k.timers.list == [0]
    && m.k.timers.timeouts[0] == 1000 && m.k.timers.timeouts[1] == 1000
  }

  lemma TimeoutIsStored(m: State, n: nat)
    requires Calm(m, n) && m.Pc().Handling?
    ensures Enabled(m, BeginArm(1, 1000)) && ArmsBoth(Next(m, BeginArm(1, 1000)), n, false)
  {
    StepKeeps(m, BeginArm(1, 1000));
  }

  lemma FlagIsStored(m: State, n: nat)
    requires ArmsBoth(m, n, false)
    ensures Enabled(m, FlagTimer) && ArmsBoth(Next(m, FlagTimer), n, true)
  {
    StepKeeps(m, FlagTimer);
  }

  lemma TimerIsLinked(m: State, n: nat)
    requires ArmsBoth(m, n, true)
    ensures Enabled(m, EndArm) && BothDue(Next(m, EndArm), n) && Next(m, EndArm).k.timers.tick == 0
  {
    StepKeeps(m, EndArm);
    assert Place([0], m.k.timers.timeouts, 1000) == 0;
    assert Links.InsertAt([0], 0, 1) == [1, 0];
  }

  lemma MemoryIsTaken(m: State, n: nat, size: nat)
    requires BothDue(m, n) && ValidSize(size) && RealSize(size) < HEAP_SIZE && n + Pages(size) == BITMAP_SIZE - 1
    ensures Enabled(m, NewBlock(size)) && BothDue(Next(m, NewBlock(size)), BITMAP_SIZE - 1)
    ensures Next(m, NewBlock(size)).k.timers.tick == m.k.timers.tick
  {
    FillsOn(m.k.heap, n, size);
    AllocateKernel(m, size);
    StepKeeps(m, NewBlock(size));
  }

  /** A tick with nothing due moves only the clock. */
  lemma ClockRuns(m: State)
    requires BothDue(m, BITMAP_SIZE - 1) && m.k.timers.tick < 999
    ensures Enabled(m, TimerTick) && BothDue(Next(m, TimerTick), BITMAP_SIZE - 1)
    ensures Next(m, TimerTick).k.timers.tick == m.k.timers.tick + 1
  {
    StepKeeps(m, TimerTick);
    assert !HeadExpired(Ticked(m.k).timers);
  }

  lemma {:induction false} ManyTicks(m: State, acts: seq<Action>, ticks: nat) returns (r: seq<Action>)
    requires m.Sized() && Legal(m, acts) && ticks <= 999
    requires BothDue(Exec(m, acts), BITMAP_SIZE - 1) && Exec(m, acts).k.timers.tick == 999 - ticks
    ensures Legal(m, r) && BothDue(Exec(m, r), BITMAP_SIZE - 1) && Exec(m, r).k.timers.tick == 999
    decreases ticks
  {
    hide Next, Enabled;
    r := acts;
    if ticks > 0 {
      ClockRuns(Exec(m, acts));
      OneMore(m, acts, TimerTick);
      r := ManyTicks(m, acts + [TimerTick], ticks - 1);
    }
  }

  lemma Handles(m: State, n: nat) returns (acts: seq<Action>)
    requires Calm(m, n) && m.Pc().AtLoop? && Ring(m.k) == [] && n + 1 < BITMAP_SIZE
    ensures Legal(m, acts) && Calm(Exec(m, acts), n + 1) && Exec(m, acts).Pc().Handling?
  {
    acts := [];
    AllocatesNewTimer(m, n);
    OneMore(m, acts, NewTimer);
    acts := acts + [NewTimer];
    KeyArrives(Exec(m, acts), n);
    OneMore(m, acts, Key(0));
    acts := acts + [Key(0)];
    EventIsTaken(Exec(m, acts), n + 1);
    OneMore(m, acts, TakeEvent);
    acts := acts + [TakeEvent];
  }

  lemma ArmsTimer(m: State, before: seq<Action>, n: nat) returns (acts: seq<Action>)
    requires m.Sized() && Legal(m, before) && Calm(Exec(m, before), n) && Exec(m, before).Pc().Handling?
    ensures Legal(m, acts) && BothDue(Exec(m, acts), n) && Exec(m, acts).k.timers.tick == 0
  {
    acts := before;
    TimeoutIsStored(Exec(m, acts), n);
    OneMore(m, acts, BeginArm(1, 1000));
    acts := acts + [BeginArm(1, 1000)];
    FlagIsStored(Exec(m, acts), n);
    OneMore(m, acts, FlagTimer);
    acts := acts + [FlagTimer];
    TimerIsLinked(Exec(m, acts), n);
    OneMore(m, acts, EndArm);
    acts := acts + [EndArm];
  }

  lemma TakesMemory(m: State, before: seq<Action>, n: nat, size: nat) returns (acts: seq<Action>)
    requires m.Sized() && Legal(m, before) && BothDue(Exec(m, before), n) && Exec(m, before).k.timers.tick == 0
    requires ValidSize(size) && RealSize(size) < HEAP_SIZE && n + Pages(size) == BITMAP_SIZE - 1
    ensures Legal(m, acts) && BothDue(Exec(m, acts), BITMAP_SIZE - 1) && Exec(m, acts).k.timers.tick == 0
  {
    MemoryIsTaken(Exec(m, before), n, size);
    OneMore(m, before, NewBlock(size));
    acts := before + [NewBlock(size)];
  }

  /** What the thousandth tick does there. */
  ghost predicate LosesBoth(k: Kernel)
    requires k.Sized()
  {
    && Starves(k, k.switchTimer) && Expire(Ticked(k)).failed
    && 1 in k.timers.list && 1 !in Tick(k).timers.list && RingGains(k, 1, 0)
  }

  lemma LastTickLosesBoth(m: State)
    requires BothDue(m, BITMAP_SIZE - 1) && m.k.timers.tick == 999
    ensures LosesBoth(m.k)
  {
    FullHasNoSpare(m.k.heap);
    var list := m.k.timers.list;
    assert list[1..] == [0];
    assert Ahead(list, 1, 0) == 0 && Ahead([0], 0, 0) == 0 && Ahead(list, 0, 0) == 1;
    TimerAtTick(m, 1);
    TickFailsIff(m);
    TickedIsOrdered(m);
    AheadIsLess(list, m.k.timers.timeouts, 1000, 0, 1);
  }

  lemma FromCalm(m: State, n: nat, size: nat) returns (acts: seq<Action>)
    requires Calm(m, n) && m.Pc().AtLoop? && Ring(m.k) == []
    requires ValidSize(size) && RealSize(size) < HEAP_SIZE && n + 1 + Pages(size) == BITMAP_SIZE - 1
    ensures Legal(m, acts) && LosesBoth(Exec(m, acts).k)
  {
    acts := Handles(m, n);
    acts := ArmsTimer(m, acts, n + 1);
    acts := TakesMemory(m, acts, n + 1, size);
    acts := ManyTicks(m, acts, 999);
    LastTickLosesBoth(Exec(m, acts));
  }

  /** Such a state can be reached. */
  lemma TicksCanStarve()
    ensures exists m :: Reachable(m) && m.Sized() && LosesBoth(m.k)
  {
    BootIsCalm();
    BootRing();
    SizeOfPages(BITMAP_SIZE - 148);
    var acts := FromCalm(BootState(), 146, 512 * (BITMAP_SIZE - 148) - 4);
    assert Reachable(Exec(BootState(), acts));
  }
}
