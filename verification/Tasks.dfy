/** The scheduler state of tasks.c: task states, the ready queue and who runs. */
module TaskSpec {
  import opened Links

  const N_TASKS: nat := 64

  datatype Status = Unused | Alloc | Init | Ready | Running | Blocked | Zombie

  datatype Sched = Sched(status: seq<Status>, queue: seq<nat>, current: int, idle: int) {
    predicate Sized() {
      |status| == N_TASKS && InRange(queue, N_TASKS)
    }
  }

  function PutReady(s: Sched, t: nat): (r: Sched)
    requires s.Sized() && t < N_TASKS
    ensures r.Sized()
  {
    s.(status := s.status[t := Ready], queue := s.queue + [t])
  }

  /** start_task ignores a null address and a task that is not initialised. */
  function StartTask(s: Sched, t: nat, start: int): (r: Sched)
    requires s.Sized() && t < N_TASKS
    ensures r.Sized()
  {
    if start == 0 || s.status[t] != Init then s else PutReady(s, t)
  }

  /** What switch_task does to the queue: the first ready task runs, and the task that
      ran queues up behind the others unless it is the idle task. */
  function Switch(s: Sched): (r: Sched)
    requires s.Sized() && 0 <= s.current < N_TASKS
    ensures r.Sized()
  {
    if s.queue == [] then s
    else
      var chosen := s.queue[0];
      var queue := if s.current != s.idle then s.queue[1..] + [s.current] else s.queue[1..];
      s.(status := s.status[s.current := Ready][chosen := Running], queue := queue, current := chosen)
  }

  function FirstUnused(status: seq<Status>, from: nat): (r: int)
    requires from <= |status|
    ensures -1 <= r < |status|
    ensures r >= 0 ==> status[r] == Unused
    decreases |status| - from
  {
    if from == |status| then -1 else if status[from] == Unused then from else FirstUnused(status, from + 1)
  }
}

/** The ready queue of tasks.c, threaded through the process table. */
module ReadyQueue {
  import opened Links
  import opened TaskSpec

  /** The fields of process_t that the scheduler uses. */
  datatype Process = Process(status: Status, next: int)

  class Scheduler {
    const processes: array<Process>
    var head: int
    var tail: Cell
    var current: int
    var idle: int
    ghost var queue: seq<nat>

    ghost predicate Shaped()
      reads this
    {
      processes.Length == N_TASKS && InRange(queue, N_TASKS)
    }

    ghost function Nexts(): (r: seq<int>)
      requires processes.Length == N_TASKS
      reads this, processes
      ensures |r| == N_TASKS
    {
      seq(N_TASKS, i requires 0 <= i < N_TASKS reads this, processes => processes[i].next)
    }

    /** The chain from the head is the queue, the tail pointer addresses its last cell,
        and a task outside the queue links nowhere. */
    ghost predicate Valid()
      reads this, processes
    {
      ValidBut(NULL)
    }

    /** Valid, except that the task loose may still have an old next field. */
    ghost predicate ValidBut(loose: int)
      reads this, processes
    {
      && Shaped()
      && Chain(head, Nexts(), queue)
      && tail == CellAt(queue, |queue|)
      && forall t :: 0 <= t < N_TASKS && t !in queue && t != loose ==> processes[t].next == NULL
    }

    ghost function View(): (s: Sched)
      requires Shaped()
      reads this, processes
      ensures s.Sized()
    {
      Sched(seq(N_TASKS, i requires 0 <= i < N_TASKS reads this, processes => processes[i].status),
            queue, current, idle)
    }

    constructor ()
      ensures Valid() && fresh(processes)
      ensures View() == Sched(seq(N_TASKS, _ => Unused), [], NULL, NULL)
    {
      processes := new Process[N_TASKS](_ => Process(Unused, NULL));
      head, tail, queue := NULL, HeadCell, [];
      current, idle := NULL, NULL;
    }

    method AssignTail(t: nat)
      requires t < processes.Length && (tail.NextCell? ==> tail.slot < processes.Length)
      modifies this`head, processes
      ensures head == if tail == HeadCell then t else old(head)
      ensures forall i :: 0 <= i < processes.Length ==>
        processes[i] == if tail == NextCell(i) then old(processes[i]).(next := t) else old(processes[i])
    {
      match tail {
        case HeadCell => head := t;
        case NextCell(last) => processes[last] := processes[last].(next := t);
      }
    }

    /** *tail = task, as a splice behind the last task of the chain. */
    method LinkLast(t: nat)
      requires Shaped() && t < N_TASKS && tail == CellAt(queue, |queue|) && processes[t].next == NULL
      modifies this`head, processes
      ensures head == SplicedHead(old(head), |queue|, t)
      ensures Nexts() == SplicedNexts(old(Nexts()), queue, |queue|, t)
      ensures forall i :: 0 <= i < N_TASKS && i !in queue ==> processes[i].next == old(processes[i].next)
      ensures View() == old(View())
    {
      AssignTail(t);
    }

    /** The two statements that queue a task: *tail = task; tail = &task->next. */
    method Append(t: nat, ghost loose: int)
      requires ValidBut(loose) && t < N_TASKS && t !in queue && t != loose
      modifies this`head, this`tail, this`queue, processes
      ensures ValidBut(loose) && View() == old(View()).(queue := old(queue) + [t])
    {
      ghost var oldHead, nexts, list := head, Nexts(), queue;
      LinkLast(t);
      ghost var nexts' := Nexts();
      ChainInRange(oldHead, nexts, list);
      SpliceInserts(oldHead, nexts, list, |list|, t);
      InsertAtEnd(list, t);
      assert Chain(head, nexts', list + [t]);
      tail := NextCell(t);
      queue := list + [t];
      assert Nexts() == nexts';
    }

    method PutTaskToReady(t: int)
      requires Valid() && (t == NULL || (0 <= t < N_TASKS && t !in queue))
      modifies this`head, this`tail, this`queue, processes
      ensures Valid() && View() == if t == NULL then old(View()) else PutReady(old(View()), t)
    {
      if t == NULL { return; }
      SetStatus(t, Ready);
      Append(t, NULL);
    }

    method SetStatus(t: nat, status: Status, ghost loose: int := NULL)
      requires ValidBut(loose) && t < N_TASKS
      modifies processes
      ensures ValidBut(loose) && View() == old(View()).(status := old(View()).status[t := status])
      ensures Nexts() == old(Nexts())
    {
      ghost var nexts := Nexts();
      processes[t] := processes[t].(status := status);
      assert Nexts() == nexts;
    }

    method SetIdle(t: nat)
      requires Valid()
      modifies this`idle
      ensures Valid() && View() == old(View()).(idle := t)
    {
      ghost var nexts := Nexts();
      idle := t;
      assert Nexts() == nexts;
    }

    method SetCurrent(t: nat)
      requires Valid()
      modifies this`current
      ensures Valid() && View() == old(View()).(current := t)
    {
      ghost var nexts := Nexts();
      current := t;
      assert Nexts() == nexts;
    }

    method StartTask(t: int, start: int)
      requires Valid() && (t == NULL || 0 <= t < N_TASKS)
      requires t != NULL && View().status[t] == Init ==> t !in queue
      modifies this`head, this`tail, this`queue, processes
      ensures Valid() && View() == if t == NULL then old(View()) else TaskSpec.StartTask(old(View()), t, start)
      ensures t != NULL && start != 0 && old(View()).status[t] == Init ==>
                queue == old(queue) + [t] && View().status[t] == Ready
    {
      if t == NULL || start == 0 { return; }
      if processes[t].status != Init { return; }
      PutTaskToReady(t);
    }

    /** Take the first ready task off the queue. */
    method TakeFirst() returns (chosen: nat)
      requires Valid() && head != NULL
      modifies this`head, this`tail, this`queue
      ensures old(queue) != [] && chosen == old(queue)[0]
      ensures ValidBut(chosen) && chosen !in queue && View() == old(View()).(queue := old(queue)[1..])
    {
      chosen := head;
      ghost var nexts := Nexts();
      head := processes[chosen].next;
      if head == NULL {
        tail := HeadCell;
      }
      queue := queue[1..];
      assert Nexts() == nexts;
    }

    method ClearNext(t: nat)
      requires ValidBut(t) && t < N_TASKS && t !in queue
      modifies processes
      ensures Valid() && View() == old(View())
    {
      ghost var nexts := Nexts();
      processes[t] := processes[t].(next := NULL);
      ChainFrame(head, nexts, Nexts(), queue);
    }

    /** switch_task without its timer: false means that no other task is ready. */
    method SwitchTask() returns (switched: bool)
      requires Valid() && 0 <= current < N_TASKS && current !in queue
      modifies this`head, this`tail, this`queue, this`current, processes
      ensures switched == (old(queue) != [])
      ensures Valid() && View() == Switch(old(View()))
    {
      if head == NULL { return false; }
      var chosen := TakeFirst();
      SetStatus(current, Ready, chosen);
      if current != idle {
        Append(current, chosen);
      }
      SetStatus(chosen, Running, chosen);
      ClearNext(chosen);
      SetCurrent(chosen);
      return true;
    }

    /** task_alloc: the first unused slot, or NULL. */
    method TaskAlloc() returns (t: int)
      requires Valid()
      modifies processes
      ensures Valid() && t == FirstUnused(old(View()).status, 0)
      ensures View() == if t == NULL then old(View())
                        else old(View()).(status := old(View()).status[t := Alloc])
    {
      for i := 0 to N_TASKS
        invariant Valid() && View() == old(View())
        invariant FirstUnused(View().status, 0) == FirstUnused(View().status, i)
      {
        if processes[i].status == Unused {
          SetStatus(i, Alloc);
          return i;
        }
      }
      return NULL;
    }
  }

  lemma {:induction false} InsertAtEnd(list: seq<nat>, t: nat)
    ensures InsertAt(list, |list|, t) == list + [t]
  {
    if list != [] {
      InsertAtEnd(list[1..], t);
    }
  }
}

/** The ring of waiting events in a task: a FIFO of at most 1024 event pointers. */
module EventRing {
  const RING_SIZE: nat := 1024

  /** The first length entries of a ring, from head on, wrapping around. */
  function Window(nodes: seq<int>, head: nat, length: nat): (r: seq<int>)
    requires |nodes| == RING_SIZE && head < RING_SIZE && length <= RING_SIZE
    ensures |r| == length
  {
    seq(length, k requires 0 <= k < length =>
      if head + k < RING_SIZE then nodes[head + k] else nodes[head + k - RING_SIZE])
  }

  class EventQueue {
    var head: nat
    var tail: nat
    var full: bool
    const nodes: array<int>

    ghost predicate Valid()
      reads this
    {
      nodes.Length == RING_SIZE && head < RING_SIZE && tail < RING_SIZE && (full ==> head == tail)
    }

    ghost function Length(): nat
      requires Valid()
      reads this
    {
      if full then RING_SIZE else if head <= tail then tail - head else RING_SIZE + tail - head
    }

    /** The queued pointers, oldest first. */
    ghost function Contents(): seq<int>
      requires Valid()
      reads this, nodes
    {
      Window(nodes[..], head, Length())
    }

    constructor ()
      ensures Valid() && fresh(nodes) && Contents() == []
    {
      nodes := new int[RING_SIZE](_ => 0);
      head, tail, full := 0, 0, false;
    }

    /** initial_task_event_queue on a queue in use. */
    method Reset()
      requires Valid()
      modifies this
      ensures Valid() && Contents() == []
    {
      head, tail, full := 0, 0, false;
    }

    /** Refused, with -1, exactly when the ring holds 1024 pointers or the pointer is null. */
    method Enqueue(node: int) returns (ret: int)
      requires Valid()
      modifies this`tail, this`full, nodes
      ensures Valid()
      ensures ret == if node == 0 || |old(Contents())| == RING_SIZE then -1 else 0
      ensures Contents() == if ret == 0 then old(Contents()) + [node] else old(Contents())
    {
      if node == 0 { return -1; }
      if full { return -1; }
      nodes[tail] := node;
      tail := tail + 1;
      if tail >= RING_SIZE { tail := 0; }
      if head == tail { full := true; }
      return 0;
    }

    /** Null exactly when the ring is empty. */
    method Dequeue() returns (node: int)
      requires Valid()
      modifies this`head, this`full
      ensures Valid()
      ensures if old(Contents()) == [] then node == 0 && Contents() == []
              else node == old(Contents())[0] && Contents() == old(Contents())[1..]
    {
      if head == tail && !full { return 0; }
      node := nodes[head];
      head := head + 1;
      if head >= RING_SIZE { head := 0; }
      full := false;
    }
  }
}
