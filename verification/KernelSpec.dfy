/**
 The kernel as one value, and what each interrupt handler does to it
 (interrupt_handlers.c and switch_task).
 */
module KernelSpec {
  import opened OptionType
  import opened HeapSpec
  import opened TimerSpec
  import opened TaskSpec
  import EventRing

  const NODE_SIZE := 8
  const SWITCH_PERIOD := 1000
  const KEYBOARD_EVENT := 1
  const MOUSE_EVENT := 2
  const TIMER_EVENT := 3

  /** The two words of an event node.  A timer event carries the number of its timer. */
  datatype Event = Event(kind: nat, data: nat)

  datatype Kernel = Kernel(heap: Heap, timers: Timers, sched: Sched, rings: seq<seq<int>>, switchTimer: nat) {
    predicate Sized() {
      && heap.Sized() && timers.Sized() && sched.Sized()
      && 0 <= sched.current < N_TASKS && switchTimer < MAX_TIMERS
      && |rings| == N_TASKS
    }
  }

  // ---- posting an event ----

  /** A null allocation; a full ring, which leaks the node; or a queued node. */
  datatype Outcome = NoMemory | Refused(ptr: int) | Accepted(ptr: int)

  datatype Posted = Posted(event: Event, outcome: Outcome)

  /** k_malloc leaves room for the two words of a node. */
  lemma NodeFits(h: Heap)
    requires h.Sized()
    ensures var (h', ptr) := Malloc(h, NODE_SIZE);
            ptr != NULL ==> 0 <= WordIndex(ptr) && WordIndex(ptr) + 1 < HEAP_WORDS
  {
    match FirstFit(h.bits, Pages(NODE_SIZE), 0) {
      case None =>
      case Some(i) => BlockAddresses(i);
    }
  }

  function StoreEvent(h: Heap, ptr: int, e: Event): (r: Heap)
    requires h.Sized() && 0 <= WordIndex(ptr) && WordIndex(ptr) + 1 < HEAP_WORDS
    ensures r.Sized()
  {
    StoreWord(StoreWord(h, ptr, e.kind), ptr + 4, e.data)
  }

  function Allocated(h: Heap, e: Event): (r: (Heap, int))
    requires h.Sized()
    ensures r.0.Sized()
  {
    NodeFits(h);
    var (h', ptr) := Malloc(h, NODE_SIZE);
    if ptr == NULL then (h', ptr) else (StoreEvent(h', ptr, e), ptr)
  }

  function PostOutcome(k: Kernel, e: Event): Outcome
    requires k.Sized()
  {
    var ptr := Allocated(k.heap, e).1;
    if ptr == NULL then NoMemory
    else if |k.rings[k.sched.current]| >= EventRing.RING_SIZE then Refused(ptr)
    else Accepted(ptr)
  }

  /** Allocate a node, fill it and queue it for the running task. */
  function Post(k: Kernel, e: Event): (r: Kernel)
    requires k.Sized()
    ensures r.Sized()
  {
    var k' := k.(heap := Allocated(k.heap, e).0);
    match PostOutcome(k, e)
    case Accepted(ptr) =>
      k'.(rings := k.rings[k.sched.current := k.rings[k.sched.current] + [ptr]])
    case _ => k'
  }

  // ---- the timer interrupt ----

  /** What the expiry loop leaves, the events it posted, whether the switch timer was
      among the expired ones, and whether the loop stopped for lack of memory. */
  datatype Expiry = Expiry(k: Kernel, posts: seq<Posted>, switching: bool, failed: bool)

  function Expire(k: Kernel): (r: Expiry)
    requires k.Sized()
    ensures r.k.Sized()
    decreases |k.timers.list|
  {
    if !HeadExpired(k.timers) then Expiry(k, [], false, false)
    else
      var t := k.timers.list[0];
      var k1 := k.(timers := Pop(k.timers));
      if t == k.switchTimer then Expire(k1).(switching := true)
      else
        var e := Event(TIMER_EVENT, t);
        var post := Posted(e, PostOutcome(k1, e));
        if post.outcome.NoMemory? then Expiry(Post(k1, e), [post], false, true)
        else
          var rest := Expire(Post(k1, e));
          rest.(posts := [post] + rest.posts)
  }

  /** switch_task: rotate the ready queue and arm the switch timer again. */
  function SwitchTask(k: Kernel): (r: Kernel)
    requires k.Sized()
    ensures r.Sized()
  {
    k.(sched := Switch(k.sched), timers := Arm(k.timers, k.switchTimer, SWITCH_PERIOD))
  }

  function Ticked(k: Kernel): (r: Kernel)
    requires k.Sized()
    ensures r.Sized()
  {
    k.(timers := k.timers.(tick := k.timers.tick + 1))
  }

  /** int20h_handler. */
  function Tick(k: Kernel): (r: Kernel)
    requires k.Sized()
    ensures r.Sized()
  {
    var x := Expire(Ticked(k));
    if x.switching then SwitchTask(x.k) else x.k
  }

  // ---- task_main ----

  /** dequeue_event_queue on the queue of the running task. */
  function Dequeue(k: Kernel): (r: (Kernel, int))
    requires k.Sized()
    ensures r.0.Sized()
  {
    var ring := k.rings[k.sched.current];
    if ring == [] then (k, NULL) else (k.(rings := k.rings[k.sched.current := ring[1..]]), ring[0])
  }

  /** The event that a node holds. */
  function EventAt(h: Heap, ptr: int): Event {
    Event(WordAt(h, WordIndex(ptr)), WordAt(h, WordIndex(ptr + 4)))
  }

  /** The kind is the first word of a node and the data the second. */
  lemma NodeLayout(h: Heap, e: Event)
    requires h.Sized() && Allocated(h, e).1 != NULL
    ensures var (h', ptr) := Allocated(h, e);
            var i := WordIndex(ptr);
            ptr % 4 == 0 && 0 <= i && i + 1 < |h'.words| && h'.words[i] == e.kind && h'.words[i + 1] == e.data
  {
    NodeFits(h);
    match FirstFit(h.bits, Pages(NODE_SIZE), 0) {
      case Some(i) => BlockAddresses(i);
    }
  }

  /** A task can tell what an event comes from. */
  lemma KindsDiffer(keyboard: nat, mouse: nat, timer: nat)
    ensures Event(KEYBOARD_EVENT, keyboard) != Event(MOUSE_EVENT, mouse)
    ensures Event(MOUSE_EVENT, mouse) != Event(TIMER_EVENT, timer)
    ensures Event(TIMER_EVENT, timer) != Event(KEYBOARD_EVENT, keyboard)
    ensures {KEYBOARD_EVENT, MOUSE_EVENT, TIMER_EVENT} == {1, 2, 3}
  {
  }
}
