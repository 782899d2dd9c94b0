/**
 The kernel as a step system.  Interrupt handlers run through interrupt gates, so
 each is one step; task code runs with interrupts on, so k_free is one step per
 iteration of its loop and k_set_timer_time one step per store and one for its splice.
 */
module Machine {
  import opened OptionType
  import opened HeapSpec
  import opened HeapProofs
  import opened TimerSpec
  import opened TaskSpec
  import opened KernelSpec
  import Links

  /** Where a task is in its event loop. */
  datatype Pc =
    | AtLoop
    | Handling(node: int)
    | Arming(node: int, timer: nat, flagged: bool)
    | Freeing(next: nat, end: nat)

  /** What a live block is for. */
  datatype Role = Queued(task: nat) | Held(task: nat) | Leaked | Private

  /** History that no code reads: who claims which pages, what each block is for, and the
      events that each task was sent and has taken. */
  datatype Ledger = Ledger(
    claims: Claims,
    roles: map<int, Role>,
    accepted: seq<seq<Event>>,
    taken: seq<seq<Event>>)

  datatype State = State(k: Kernel, pcs: seq<Pc>, ledger: Ledger) {
    predicate Sized() {
      && k.Sized() && |pcs| == N_TASKS
      && |ledger.accepted| == N_TASKS && |ledger.taken| == N_TASKS
    }

    function Running(): nat
      requires Sized()
    {
      k.sched.current
    }

    function Pc(): Pc
      requires Sized()
    {
      pcs[k.sched.current]
    }
  }

  datatype Action =
    // interrupts
    | TimerTick
    | Key(ch: nat)
    | Mouse(data: nat)
    // the running task
    | TakeEvent
    | BeginArm(timer: nat, delay: nat)
    | FlagTimer
    | EndArm
    | FinishEvent
    | ClearOne
    | DropBlock(ptr: int)
    | StoreInto(ptr: int, addr: int, value: nat)
    // kernel code that runs with interrupts off
    | NewBlock(size: nat)
    | NewTask(stackSize: nat)
    | StartTask(task: nat, start: int)
    | NewTimer

  /** Timer t is not flagged TIMER_USING, and no task is arming it. */
  predicate Idle(m: State, t: nat)
    requires m.Sized() && t < MAX_TIMERS
  {
    m.k.timers.flags[t] != TIMER_USING && forall i :: 0 <= i < N_TASKS && m.pcs[i].Arming? ==> m.pcs[i].timer != t
  }

  /** A task arms idle timers only: with another one the list need not stay a list, as module
      Arming shows. */
  predicate Enabled(m: State, a: Action)
    requires m.Sized()
  {
    match a
    case TakeEvent => m.Pc().AtLoop?
    case BeginArm(t, _) => m.Pc().Handling? && t < MAX_TIMERS && Idle(m, t)
    case FlagTimer => m.Pc().Arming? && !m.Pc().flagged && m.Pc().timer < MAX_TIMERS
    case EndArm => m.Pc().Arming? && m.Pc().flagged && m.Pc().timer < MAX_TIMERS
    case FinishEvent => m.Pc().Handling?
    case ClearOne => m.Pc().Freeing? && m.Pc().next < BITMAP_SIZE
    case DropBlock(ptr) => m.Pc().AtLoop? && ptr in m.ledger.roles && m.ledger.roles[ptr] == Private
    case StoreInto(ptr, addr, _) =>
      && ptr in m.ledger.roles && m.ledger.roles[ptr] == Private && Block(ptr) in m.ledger.claims
      && InPayload(m.ledger.claims[Block(ptr)], addr) && 0 <= WordIndex(addr) < HEAP_WORDS
    case NewBlock(size) => ValidSize(size)
    case NewTask(size) => ValidSize(size)
    case StartTask(t, _) => t < N_TASKS
    case _ => true
  }

  // ---- steps that allocate ----

  function RecordPost(l: Ledger, task: nat, p: Posted): (r: Ledger)
    requires task < |l.accepted|
    ensures |r.accepted| == |l.accepted| && r.taken == l.taken
  {
    match p.outcome
    case NoMemory => l
    case Refused(ptr) => l.(claims := TookNode(l.claims, ptr), roles := l.roles[ptr := Leaked])
    case Accepted(ptr) =>
      l.(claims := TookNode(l.claims, ptr), roles := l.roles[ptr := Queued(task)],
         accepted := l.accepted[task := l.accepted[task] + [p.event]])
  }

  function TookBlock(claims: Claims, ptr: int, size: nat): Claims {
    if BelowHeap(ptr) then claims else Took(claims, ptr, Pages(size))
  }

  function TookNode(claims: Claims, ptr: int): Claims {
    TookBlock(claims, ptr, NODE_SIZE)
  }

  function RecordPosts(l: Ledger, task: nat, posts: seq<Posted>): (r: Ledger)
    requires task < |l.accepted|
    ensures |r.accepted| == |l.accepted| && r.taken == l.taken
    decreases posts
  {
    if posts == [] then l else RecordPosts(RecordPost(l, task, posts[0]), task, posts[1..])
  }

  function PostEvent(m: State, e: Event): (r: State)
    requires m.Sized()
    ensures r.Sized()
  {
    m.(k := Post(m.k, e), ledger := RecordPost(m.ledger, m.Running(), Posted(e, PostOutcome(m.k, e))))
  }

  function TickState(m: State): (r: State)
    requires m.Sized()
    ensures r.Sized()
  {
    m.(k := Tick(m.k), ledger := RecordPosts(m.ledger, m.Running(), Expire(Ticked(m.k)).posts))
  }

  function AllocatePrivate(m: State, size: nat): (r: State)
    requires m.Sized() && ValidSize(size)
    ensures r.Sized()
  {
    var (h, ptr) := Malloc(m.k.heap, size);
    if ptr == NULL then m.(k := m.k.(heap := h))
    else
      m.(k := m.k.(heap := h),
         ledger := m.ledger.(claims := TookBlock(m.ledger.claims, ptr, size), roles := m.ledger.roles[ptr := Private]))
  }

  /** task_alloc, then task_init with its kernel stack. */
  function MakeTask(m: State, stackSize: nat): (r: State)
    requires m.Sized() && ValidSize(stackSize)
    ensures r.Sized()
  {
    var t := TaskSpec.FirstUnused(m.k.sched.status, 0);
    if t == Links.NULL then m
    else
      var m' := AllocatePrivate(m, stackSize);
      m'.(k := m'.k.(sched := m.k.sched.(status := m.k.sched.status[t := Init]), rings := m.k.rings[t := []]))
  }

  // ---- steps of the running task ----

  function SetPc(m: State, pc: Pc): (r: State)
    requires m.Sized()
    ensures r.Sized()
  {
    m.(pcs := m.pcs[m.Running() := pc])
  }

  function TakeNext(m: State): (r: State)
    requires m.Sized()
    ensures r.Sized()
  {
    var (k, node) := Dequeue(m.k);
    var me := m.Running();
    if node == NULL then m.(k := k)
    else
      SetPc(m.(k := k, ledger := m.ledger.(
                 roles := m.ledger.roles[node := Held(me)],
                 taken := m.ledger.taken[me := m.ledger.taken[me] + [EventAt(m.k.heap, node)]])),
            Handling(node))
  }

  /** The range k_free(ptr) will clear; None when it returns before its loop, or would
      run outside the heap. */
  function FreeRange(h: Heap, ptr: int): Option<Run>
    requires h.Sized()
  {
    if BelowHeap(ptr) || !SafeToFree(h, ptr) then None
    else if h.words[WordIndex(ptr - 4)] > BITMAP_SIZE then None
    else Some(HeaderRun(h, ptr))
  }

  function BeginFree(m: State, ptr: int): (r: State)
    requires m.Sized()
    ensures r.Sized()
  {
    var me := m.Running();
    match FreeRange(m.k.heap, ptr)
    case None => SetPc(m, AtLoop)
    case Some(run) =>
      SetPc(m.(ledger := m.ledger.(
                 claims := (m.ledger.claims - {Block(ptr)})[Clearing(me) := run],
                 roles := m.ledger.roles - {ptr})),
            AfterClear(run.lo, run.hi))
  }

  /** The loop test of k_free. */
  function AfterClear(next: nat, end: nat): Pc {
    if next < end then Freeing(next, end) else AtLoop
  }

  function ClearStep(m: State): (r: State)
    requires m.Sized() && m.Pc().Freeing? && m.Pc().next < BITMAP_SIZE
    ensures r.Sized()
  {
    var pc := m.Pc();
    var me := Clearing(m.Running());
    SetPc(m.(k := m.k.(heap := ClearPage(m.k.heap, pc.next)),
             ledger := m.ledger.(claims := if me in m.ledger.claims then Cleared(m.ledger.claims, m.Running())
                                           else m.ledger.claims)),
          AfterClear(pc.next + 1, pc.end))
  }

  function Next(m: State, a: Action): (r: State)
    requires m.Sized() && Enabled(m, a)
    ensures r.Sized()
  {
    match a
    case TimerTick => TickState(m)
    case Key(ch) => PostEvent(m, Event(KEYBOARD_EVENT, ch))
    case Mouse(data) => PostEvent(m, Event(MOUSE_EVENT, data))
    case TakeEvent => TakeNext(m)
    case BeginArm(t, delay) =>
      SetPc(m.(k := m.k.(timers := StoreTimeout(m.k.timers, t, delay))), Arming(m.Pc().node, t, false))
    case FlagTimer =>
      SetPc(m.(k := m.k.(timers := StoreFlag(m.k.timers, m.Pc().timer))), m.Pc().(flagged := true))
    case EndArm =>
      SetPc(m.(k := m.k.(timers := Link(m.k.timers, m.Pc().timer))), Handling(m.Pc().node))
    case FinishEvent => BeginFree(m, m.Pc().node)
    case ClearOne => ClearStep(m)
    case DropBlock(ptr) => BeginFree(m, ptr)
    case StoreInto(_, addr, v) => m.(k := m.k.(heap := StoreWord(m.k.heap, addr, v)))
    case NewBlock(size) => AllocatePrivate(m, size)
    case NewTask(size) => MakeTask(m, size)
    case StartTask(t, start) => m.(k := m.k.(sched := TaskSpec.StartTask(m.k.sched, t, start)))
    case NewTimer =>
      var t := TimerSpec.FirstUnused(m.k.timers.flags, 0);
      if t == Links.NULL then m
      else m.(k := m.k.(timers := m.k.timers.(flags := m.k.timers.flags[t := TIMER_ALLOC])))
  }

  // ---- runs ----

  predicate Legal(m: State, acts: seq<Action>)
    requires m.Sized()
    decreases acts
  {
    acts == [] || (Enabled(m, acts[0]) && Legal(Next(m, acts[0]), acts[1..]))
  }

  function Exec(m: State, acts: seq<Action>): (r: State)
    requires m.Sized() && Legal(m, acts)
    ensures r.Sized()
    decreases acts
  {
    if acts == [] then m else Exec(Next(m, acts[0]), acts[1..])
  }
}
