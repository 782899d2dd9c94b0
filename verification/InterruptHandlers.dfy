/** interrupt_handlers.c, switch_task and the event loop's dequeue, over the objects they share. */
module InterruptHandlers {
  import opened HeapSpec
  import opened TimerSpec
  import opened TaskSpec
  import opened KernelSpec
  import opened KHeap
  import opened KTimer
  import opened ReadyQueue
  import opened EventRing
  import opened Boot
  import Links

  /** k_malloc of an event node and the two stores that fill it. */
  method MakeNode(heap: HeapArea, e: Event) returns (node: int)
    requires heap.Valid()
    modifies heap.heapAlloc, heap.words
    ensures heap.Valid() && (heap.View(), node) == Allocated(old(heap.View()), e)
  {
    ghost var h := heap.View();
    node := heap.KMalloc(NODE_SIZE);
    NodeFits(h);
    if node != NULL {
      heap.Store(node, e.kind);
      heap.Store(node + 4, e.data);
    }
  }

  class System {
    const heap: HeapArea
    const timers: TimerControl
    const sched: Scheduler
    const queues: seq<EventQueue>
    var switchTimer: int

    /** The event queues with their rings. */
    ghost const queueObjects: set<object>

    ghost function Tables(): set<object>
      reads this
    {
      {this, heap, heap.heapAlloc, heap.words, timers, timers.timers, sched, sched.processes}
    }

    ghost function Repr(): set<object>
      reads this
    {
      Tables() + queueObjects
    }

    /** No two of the tables overlap. */
    ghost predicate Separate()
      reads this
    {
      && |queues| == N_TASKS && Tables() !! queueObjects
      && (forall i :: 0 <= i < N_TASKS ==> queues[i] in queueObjects && queues[i].nodes in queueObjects)
      && (forall i, j :: 0 <= i < j < N_TASKS ==> queues[i] != queues[j] && queues[i].nodes != queues[j].nodes)
    }

    ghost predicate QueuesValid()
      requires Separate()
      reads this, queueObjects
    {
      forall i :: 0 <= i < N_TASKS ==> queues[i].Valid()
    }

    /** The tables are well formed; before initial_tasks nothing runs yet. */
    ghost predicate Consistent()
      reads Repr()
    {
      Separate() && heap.Valid() && timers.Valid() && sched.Valid() && QueuesValid()
    }

    /** All but the timers. */
    ghost predicate TablesReady()
      reads Repr()
    {
      Separate() && heap.Valid() && sched.Valid() && QueuesValid()
    }

    ghost predicate Valid()
      reads Repr()
    {
      && Consistent()
      && 0 <= switchTimer < MAX_TIMERS && 0 <= sched.current < N_TASKS
      && sched.current !in sched.queue
    }

    ghost function Rings(): (r: seq<seq<int>>)
      requires Separate() && QueuesValid()
      reads this, queueObjects
      ensures |r| == N_TASKS
    {
      seq(N_TASKS, i requires 0 <= i < N_TASKS && Separate() && queues[i].Valid() reads this, queueObjects =>
        queues[i].Contents())
    }

    ghost function View(): (k: Kernel)
      requires Valid()
      reads Repr()
      ensures k.Sized()
    {
      Kernel(heap.View(), timers.View(), sched.View(), Rings(), switchTimer)
    }

    static method MakeQueues() returns (qs: seq<EventQueue>, ghost objects: set<object>)
      ensures |qs| == N_TASKS && fresh(objects)
      ensures forall i :: 0 <= i < N_TASKS ==> qs[i] in objects && qs[i].nodes in objects
      ensures forall i :: 0 <= i < N_TASKS ==> qs[i].Valid() && qs[i].Contents() == []
      ensures forall i, j :: 0 <= i < j < N_TASKS ==> qs[i] != qs[j] && qs[i].nodes != qs[j].nodes
    {
      qs, objects := [], {};
      for n := 0 to N_TASKS
        invariant |qs| == n && fresh(objects)
        invariant forall i :: 0 <= i < n ==> qs[i] in objects && qs[i].nodes in objects
        invariant forall i :: 0 <= i < n ==> qs[i].Valid() && qs[i].Contents() == []
        invariant forall i, j :: 0 <= i < j < n ==> qs[i] != qs[j] && qs[i].nodes != qs[j].nodes
      {
        var q := new EventQueue();
        qs := qs + [q];
        objects := objects + {q, q.nodes};
      }
    }

    /** The tables at power-on, around 64 empty event queues. */
    constructor (queues: seq<EventQueue>, ghost objects: set<object>)
      requires |queues| == N_TASKS
      requires forall i :: 0 <= i < N_TASKS ==> queues[i] in objects && queues[i].nodes in objects
      requires forall i :: 0 <= i < N_TASKS ==> queues[i].Valid() && queues[i].Contents() == []
      requires forall i, j :: 0 <= i < j < N_TASKS ==> queues[i] != queues[j] && queues[i].nodes != queues[j].nodes
      ensures fresh(Tables()) && queueObjects == objects && Consistent()
      ensures heap.View() == EmptyHeap()
      ensures timers.View() == FreshTimers()
      ensures sched.View() == FreshSched()
      ensures Rings() == FreshRings()
    {
      heap := new HeapArea();
      timers := new TimerControl();
      sched := new Scheduler();
      this.queues := queues;
      queueObjects := objects;
      switchTimer := Links.NULL;
    }

    static method PowerOn() returns (system: System)
      ensures fresh(system.Repr()) && system.Consistent()
      ensures system.heap.View() == EmptyHeap() && system.timers.View() == FreshTimers()
      ensures system.sched.View() == FreshSched() && system.Rings() == FreshRings()
    {
      var queues, objects := MakeQueues();
      system := new System(queues, objects);
    }

    /** enqueue_event_queue on the ring of task i. */
    method EnqueueAt(i: nat, node: int)
      requires Separate() && QueuesValid() && i < N_TASKS && node != NULL
      modifies queueObjects
      ensures Separate() && QueuesValid()
      ensures Rings() == if |old(Rings())[i]| >= RING_SIZE then old(Rings())
                         else old(Rings())[i := old(Rings())[i] + [node]]
    {
      ghost var rings := Rings();
      var ret := queues[i].Enqueue(node);
      assert Rings() == rings[i := if ret == 0 then rings[i] + [node] else rings[i]];
    }

    /** Put a pointer into the ring of the running task. */
    method EnqueueCurrent(node: int)
      requires Valid() && node != NULL
      modifies queueObjects
      ensures Valid()
      ensures var ring := old(View()).rings[sched.current];
              View() == if |ring| >= RING_SIZE then old(View())
                        else old(View()).(rings := old(View()).rings[sched.current := ring + [node]])
    {
      EnqueueAt(sched.current, node);
    }

    /** The common part of the handlers: false when there is no memory for the node. */
    method PostEvent(e: Event) returns (ok: bool)
      requires Valid()
      modifies heap.heapAlloc, heap.words, queueObjects
      ensures Valid() && View() == Post(old(View()), e)
      ensures ok == !PostOutcome(old(View()), e).NoMemory?
    {
      var node := MakeNode(heap, e);
      if node == NULL { return false; }
      EnqueueCurrent(node);
      return true;
    }

    /** Keyboard interrupt, the scan code already translated. */
    method Int21hHandler(ch: nat)
      requires Valid()
      modifies heap.heapAlloc, heap.words, queueObjects
      ensures Valid() && View() == Post(old(View()), Event(KEYBOARD_EVENT, ch))
    {
      var ok := PostEvent(Event(KEYBOARD_EVENT, ch));
    }

    /** Mouse interrupt. */
    method Int2chHandler(data: nat)
      requires Valid()
      modifies heap.heapAlloc, heap.words, queueObjects
      ensures Valid() && View() == Post(old(View()), Event(MOUSE_EVENT, data))
    {
      var ok := PostEvent(Event(MOUSE_EVENT, data));
    }

    /** The queue part of switch_task. */
    method RotateTasks()
      requires Valid()
      modifies sched`head, sched`tail, sched`queue, sched`current, sched.processes
      ensures Valid() && View() == old(View()).(sched := Switch(old(sched.View())))
    {
      var switched := sched.SwitchTask();
    }

    method ArmTimer(t: nat, delay: nat)
      requires Valid() && t < MAX_TIMERS && t !in timers.list
      modifies timers`next, timers`list, timers.timers
      ensures Valid() && View() == old(View()).(timers := Arm(old(timers.View()), t, delay))
    {
      timers.KSetTimerTime(t, delay);
    }

    method SwitchTask(t: nat)
      requires Valid() && t == switchTimer && t !in timers.list
      modifies timers`next, timers`list, timers.timers
      modifies sched`head, sched`tail, sched`queue, sched`current, sched.processes
      ensures Valid() && View() == KernelSpec.SwitchTask(old(View()))
    {
      RotateTasks();
      ArmTimer(t, SWITCH_PERIOD);
    }

    method PopTimer() returns (t: nat)
      requires Valid() && timers.list != []
      modifies timers`next, timers`list, timers.timers
      ensures Valid() && View() == old(View()).(timers := Pop(old(View()).timers))
      ensures t == old(timers.list)[0] && timers.list == old(timers.list)[1..] && t !in timers.list
    {
      t := timers.PopFirst();
    }

    /** One iteration of the expiry loop: false when it has to stop. */
    method ExpireFirst() returns (t: nat, ok: bool)
      requires Valid() && HeadExpired(View().timers)
      modifies heap.heapAlloc, heap.words, queueObjects
      modifies timers`next, timers`list, timers.timers
      ensures Valid() && t == old(timers.list)[0]
      ensures timers.list == old(timers.list)[1..] && t !in timers.list
      ensures var k := old(View()).(timers := Pop(old(View()).timers));
              var e := Event(TIMER_EVENT, t);
              if t == switchTimer then ok && View() == k
              else View() == Post(k, e) && ok == !PostOutcome(k, e).NoMemory?
    {
      t := PopTimer();
      ok := true;
      if t != switchTimer {
        ok := PostEvent(Event(TIMER_EVENT, t));
      }
    }

    predicate Expired()
      requires timers.timers.Length == MAX_TIMERS && (timers.next == Links.NULL || 0 <= timers.next < MAX_TIMERS)
      reads timers, timers.timers
    {
      timers.next != Links.NULL && timers.timers[timers.next].timeout <= timers.tick
    }

    /** The expiry loop of the timer interrupt. */
    method ExpireTimers() returns (timeToSwitch: bool)
      requires Valid()
      modifies heap.heapAlloc, heap.words, queueObjects
      modifies timers`next, timers`list, timers.timers
      ensures Valid() && View() == Expire(old(View())).k
      ensures timeToSwitch == Expire(old(View())).switching
      ensures timeToSwitch ==> switchTimer !in timers.list
    {
      timeToSwitch := false;
      while Expired()
        invariant Valid()
        invariant Expire(old(View())).k == Expire(View()).k
        invariant Expire(old(View())).switching == (timeToSwitch || Expire(View()).switching)
        invariant timeToSwitch ==> switchTimer !in timers.list
        decreases |timers.list|
      {
        var t, ok := ExpireFirst();
        if t == switchTimer { timeToSwitch := true; }
        if !ok { return; }
      }
    }

    method AdvanceTick()
      requires Valid()
      modifies timers`tick
      ensures Valid() && View() == Ticked(old(View()))
    {
      timers.Advance();
    }

    /** Timer interrupt. */
    method Int20hHandler()
      requires Valid()
      modifies heap.heapAlloc, heap.words, queueObjects
      modifies timers`tick, timers`next, timers`list, timers.timers
      modifies sched`head, sched`tail, sched`queue, sched`current, sched.processes
      ensures Valid() && View() == Tick(old(View()))
    {
      AdvanceTick();
      if !Expired() { return; }
      var timeToSwitch := ExpireTimers();
      if timeToSwitch {
        SwitchTask(switchTimer);
      }
    }

    /** The first statement of the event loop, under cli. */
    method DequeueEvent() returns (node: int)
      requires Valid()
      modifies queueObjects
      ensures Valid() && (View(), node) == Dequeue(old(View()))
    {
      ghost var k := View();
      node := queues[sched.current].Dequeue();
      assert Rings() == Dequeue(k).0.rings;
    }

    // ---- starting up ----

    /** A kernel stack and an empty event ring for a new task. */
    method StackAndRing(t: nat, stackSize: nat) returns (stack: int)
      requires TablesReady() && t < N_TASKS && ValidSize(stackSize)
      modifies heap.heapAlloc, heap.words, queueObjects
      ensures TablesReady()
      ensures (heap.View(), stack) == Malloc(old(heap.View()), stackSize)
      ensures Rings() == old(Rings())[t := []]
    {
      stack := heap.KMalloc(stackSize);
      queues[t].Reset();
    }

    /** task_alloc, and a stack and a ring for what it finds. */
    method TaskWithStack(stackSize: nat) returns (t: int)
      requires TablesReady() && ValidSize(stackSize)
      modifies heap.heapAlloc, heap.words, sched.processes, queueObjects
      ensures TablesReady() && t == TaskSpec.FirstUnused(old(sched.View()).status, 0)
      ensures heap.View() == if t == Links.NULL then old(heap.View()) else Malloc(old(heap.View()), stackSize).0
      ensures sched.View() == if t == Links.NULL then old(sched.View())
                              else old(sched.View()).(status := old(sched.View()).status[t := Alloc])
      ensures Rings() == if t == Links.NULL then old(Rings()) else old(Rings())[t := []]
    {
      t := sched.TaskAlloc();
      if t != Links.NULL {
        var stack := StackAndRing(t, stackSize);
      }
    }

    method StoreStatus(t: nat, status: Status)
      requires TablesReady() && t < N_TASKS
      modifies sched.processes
      ensures TablesReady() && heap.View() == old(heap.View()) && Rings() == old(Rings())
      ensures sched.View() == old(sched.View()).(status := old(sched.View()).status[t := status])
    {
      sched.SetStatus(t, status);
    }

    /** task_alloc followed by task_init, as kernel_main does for every new task. */
    method NewTask(stackSize: nat) returns (t: int)
      requires TablesReady() && ValidSize(stackSize)
      modifies heap.heapAlloc, heap.words, sched.processes, queueObjects
      ensures TablesReady() && t == TaskSpec.FirstUnused(old(sched.View()).status, 0)
      ensures heap.View() == if t == Links.NULL then old(heap.View()) else Malloc(old(heap.View()), stackSize).0
      ensures sched.View() == if t == Links.NULL then old(sched.View())
                              else old(sched.View()).(status := old(sched.View()).status[t := Init])
      ensures Rings() == if t == Links.NULL then old(Rings()) else old(Rings())[t := []]
    {
      t := TaskWithStack(stackSize);
      if t != Links.NULL {
        StoreStatus(t, Init);
      }
    }

    method InitialIdleTask()
      requires TablesReady() && heap.View() == EmptyHeap()
      requires sched.View() == FreshSched() && Rings() == FreshRings()
      modifies heap.heapAlloc, heap.words, sched.processes, sched`idle, queueObjects
      ensures TablesReady() && heap.View() == Malloc(EmptyHeap(), IDLE_STACK).0
      ensures sched.View() == IdleSched() && Rings() == FreshRings()
    {
      FirstSlots();
      StartedIdle();
      var t := NewTask(IDLE_STACK);
      sched.SetIdle(t);
      StoreStatus(t, Ready);
    }

    method InitialDefaultTask()
      requires TablesReady() && heap.View() == Malloc(EmptyHeap(), IDLE_STACK).0
      requires sched.View() == IdleSched() && Rings() == FreshRings()
      modifies heap.heapAlloc, heap.words, sched.processes, sched`current, queueObjects
      ensures TablesReady() && heap.View() == Malloc(Malloc(EmptyHeap(), IDLE_STACK).0, DEFAULT_STACK).0
      ensures sched.View() == BootSched() && Rings() == FreshRings()
    {
      FirstSlots();
      StartedDefault();
      var t := TaskWithStack(DEFAULT_STACK);
      StoreStatus(t, Running);
      sched.SetCurrent(t);
    }

    method InitialSwitchTimer()
      requires timers.Valid() && timers.View() == FreshTimers()
      modifies this`switchTimer, timers`next, timers`list, timers.timers
      ensures timers.Valid() && timers.View() == BootTimers() && switchTimer == 0
    {
      FirstSlots();
      ArmedSwitchTimer();
      switchTimer := timers.KTimerAlloc();
      timers.KSetTimerTime(switchTimer, SWITCH_PERIOD);
    }

    method InitialTables()
      requires Consistent() && heap.View() == EmptyHeap()
      requires timers.View() == FreshTimers() && sched.View() == FreshSched() && Rings() == FreshRings()
      modifies Repr()
      ensures Consistent() && switchTimer == 0
      ensures heap.View() == BootKernel().heap && timers.View() == BootTimers()
      ensures sched.View() == BootSched() && Rings() == FreshRings()
    {
      InitialIdleTask();
      InitialDefaultTask();
      InitialSwitchTimer();
    }

    method InitialTasks()
      requires Consistent() && heap.View() == EmptyHeap()
      requires timers.View() == FreshTimers() && sched.View() == FreshSched() && Rings() == FreshRings()
      modifies Repr()
      ensures Valid() && View() == BootState().k
    {
      InitialTables();
      assert View() == BootKernel();
      BootKernelIsBootState();
    }

    /** The kernel from power-on until initial_tasks returns. */
    static method StartUp() returns (system: System)
      ensures fresh(system.Repr()) && system.Valid() && system.View() == BootState().k
    {
      system := PowerOn();
      system.InitialTasks();
    }
  }
}
