/** The timer list of k_timer.c as a sequence of timer numbers, soonest first. */
module TimerSpec {
  import opened Links

  const MAX_TIMERS: nat := 0x256
  const TIMER_ALLOC := 1
  const TIMER_USING := 2

  datatype Timers = Timers(tick: nat, timeouts: seq<nat>, flags: seq<int>, list: seq<nat>) {
    predicate Sized() {
      && |timeouts| == |flags| == MAX_TIMERS
      && InRange(list, MAX_TIMERS)
    }
  }

  /** The place of timer t: before the first timer whose deadline is not sooner. */
  function Place(list: seq<nat>, timeouts: seq<nat>, deadline: nat): (k: nat)
    requires InRange(list, |timeouts|)
    ensures k <= |list|
  {
    if list == [] || timeouts[list[0]] >= deadline then 0 else 1 + Place(list[1..], timeouts, deadline)
  }

  function Insert(list: seq<nat>, timeouts: seq<nat>, t: nat): seq<nat>
    requires t < |timeouts| && InRange(list, |timeouts|)
  {
    InsertAt(list, Place(list, timeouts, timeouts[t]), t)
  }

  /** The two stores that k_set_timer_time makes before it turns interrupts off. */
  function StoreTimeout(ts: Timers, t: nat, delay: nat): Timers
    requires ts.Sized() && t < MAX_TIMERS
  {
    ts.(timeouts := ts.timeouts[t := delay + ts.tick])
  }

  function StoreFlag(ts: Timers, t: nat): Timers
    requires ts.Sized() && t < MAX_TIMERS
  {
    ts.(flags := ts.flags[t := TIMER_USING])
  }

  /** What it does while they are off. */
  function Link(ts: Timers, t: nat): (r: Timers)
    requires ts.Sized() && t < MAX_TIMERS
    ensures r.Sized()
  {
    InsertInRange(ts.list, Place(ts.list, ts.timeouts, ts.timeouts[t]), t, MAX_TIMERS);
    ts.(list := Insert(ts.list, ts.timeouts, t))
  }

  function Arm(ts: Timers, t: nat, delay: nat): Timers
    requires ts.Sized() && t < MAX_TIMERS
  {
    Link(StoreFlag(StoreTimeout(ts, t, delay), t), t)
  }

  predicate HeadExpired(ts: Timers)
    requires ts.Sized()
  {
    ts.list != [] && ts.timeouts[ts.list[0]] <= ts.tick
  }

  /** The timer interrupt takes the first timer off the list. */
  function Pop(ts: Timers): Timers
    requires ts.Sized() && ts.list != []
  {
    ts.(flags := ts.flags[ts.list[0] := TIMER_ALLOC], list := ts.list[1..])
  }

  function FirstUnused(flags: seq<int>, from: nat): (r: int)
    requires from <= |flags|
    ensures -1 <= r < |flags| && (r >= 0 ==> flags[r] == 0)
    decreases |flags| - from
  {
    if from == |flags| then -1 else if flags[from] == 0 then from else FirstUnused(flags, from + 1)
  }
}

/** k_timer.c itself: records linked through their next fields. */
module KTimer {
  import opened Links
  import opened TimerSpec

  /** A pointer to a timer is its number, or NULL. */
  datatype TimerRecord = TimerRecord(timeout: nat, flags: int, next: int)

  /** One step of the search along the list. */
  lemma PlaceStep(list: seq<nat>, timeouts: seq<nat>, deadline: nat, k: nat)
    requires InRange(list, |timeouts|) && k < |list| && timeouts[list[k]] < deadline
    ensures Place(list[k..], timeouts, deadline) == 1 + Place(list[k + 1..], timeouts, deadline)
    ensures forall t :: t in list[k..] && t != list[k] ==> t in list[k + 1..]
  {
    assert list[k..] == [list[k]] + list[k + 1..];
    assert list[k..][1..] == list[k + 1..];
  }

  class TimerControl {
    var tick: nat
    var next: int
    const timers: array<TimerRecord>
    ghost var list: seq<nat>

    ghost predicate Shaped()
      reads this
    {
      timers.Length == MAX_TIMERS && InRange(list, MAX_TIMERS)
    }

    ghost function Nexts(): (r: seq<int>)
      requires timers.Length == MAX_TIMERS
      reads this, timers
      ensures |r| == MAX_TIMERS
    {
      seq(MAX_TIMERS, i requires 0 <= i < MAX_TIMERS reads this, timers => timers[i].next)
    }

    ghost predicate Valid()
      reads this, timers
    {
      Shaped() && Chain(next, Nexts(), list)
    }

    ghost function View(): (ts: Timers)
      requires Shaped()
      reads this, timers
      ensures ts.Sized()
    {
      Timers(tick,
             seq(MAX_TIMERS, i requires 0 <= i < MAX_TIMERS reads this, timers => timers[i].timeout),
             seq(MAX_TIMERS, i requires 0 <= i < MAX_TIMERS reads this, timers => timers[i].flags),
             list)
    }

    constructor ()
      ensures Valid() && fresh(timers)
      ensures View() == Timers(0, seq(MAX_TIMERS, _ => 0), seq(MAX_TIMERS, _ => 0), [])
    {
      tick := 0;
      next := NULL;
      timers := new TimerRecord[MAX_TIMERS](_ => TimerRecord(0, 0, NULL));
      list := [];
    }

    method KTimerAlloc() returns (t: int)
      requires Valid()
      modifies timers
      ensures Valid() && t == FirstUnused(old(View()).flags, 0)
      ensures View() == if t == NULL then old(View())
                        else old(View()).(flags := old(View()).flags[t := TIMER_ALLOC])
    {
      for i := 0 to MAX_TIMERS
        invariant Valid() && View() == old(View())
        invariant FirstUnused(View().flags, 0) == FirstUnused(View().flags, i)
      {
        if timers[i].flags == 0 {
          ghost var nexts := Nexts();
          timers[i] := timers[i].(flags := TIMER_ALLOC);
          assert Nexts() == nexts;
          return i;
        }
      }
      return NULL;
    }

    function Deref(cell: Cell): int
      requires cell.NextCell? ==> cell.slot < timers.Length
      reads this, timers
    {
      match cell
      case HeadCell => next
      case NextCell(t) => timers[t].next
    }

    method Assign(cell: Cell, value: int)
      requires cell.NextCell? ==> cell.slot < timers.Length
      modifies this`next, timers
      ensures next == if cell == HeadCell then value else old(next)
      ensures forall i :: 0 <= i < timers.Length ==>
        timers[i] == if cell == NextCell(i) then old(timers[i]).(next := value) else old(timers[i])
    {
      match cell {
        case HeadCell => next := value;
        case NextCell(t) => timers[t] := timers[t].(next := value);
      }
    }

    /** The next field of the k-th timer leads to the one behind it. */
    lemma NextInChain(k: nat)
      requires Valid() && k < |list|
      ensures list[k] < MAX_TIMERS && timers[list[k]].next == LinkAt(list, k + 1)
    {
      ChainNext(next, Nexts(), list, k);
    }

    /** The search of k_set_timer_time, its pp_next moving along the list. */
    method FindCell(t: nat) returns (cell: Cell, ghost k: nat)
      requires Valid() && t < MAX_TIMERS
      ensures k == Place(list, View().timeouts, View().timeouts[t])
      ensures cell == CellAt(list, k) && Deref(cell) == LinkAt(list, k) && (t in list ==> t in list[k..])
    {
      ghost var timeouts := View().timeouts;
      cell, k := HeadCell, 0;
      while Deref(cell) != NULL && timers[Deref(cell)].timeout < timers[t].timeout
        invariant k <= |list| && cell == CellAt(list, k) && Deref(cell) == LinkAt(list, k)
        invariant Place(list, timeouts, timeouts[t]) == k + Place(list[k..], timeouts, timeouts[t])
        invariant t in list ==> t in list[k..]
        decreases |list| - k
      {
        NextInChain(k);
        PlaceStep(list, timeouts, timeouts[t], k);
        cell := NextCell(Deref(cell));
        k := k + 1;
      }
    }

    /** The two stores that put t where cell points. */
    method Splice(t: nat, cell: Cell, ghost k: nat)
      requires Shaped() && t < MAX_TIMERS
      requires k <= |list| && cell == CellAt(list, k) && Deref(cell) == LinkAt(list, k)
      modifies this`next, timers
      ensures next == SplicedHead(old(next), k, t)
      ensures Nexts() == SplicedNexts(old(Nexts()), list, k, t)
      ensures View() == old(View())
    {
      timers[t] := timers[t].(next := Deref(cell));
      Assign(cell, t);
    }

    /** The two stores of k_set_timer_time, with interrupts still as the caller had them. */
    method StoreTimeout(t: nat, delay: nat)
      requires Valid() && t < MAX_TIMERS
      modifies timers
      ensures Valid() && View() == TimerSpec.StoreTimeout(old(View()), t, delay)
    {
      ghost var nexts := Nexts();
      timers[t] := timers[t].(timeout := delay + tick);
      assert Nexts() == nexts;
    }

    method StoreFlag(t: nat)
      requires Valid() && t < MAX_TIMERS
      modifies timers
      ensures Valid() && View() == TimerSpec.StoreFlag(old(View()), t)
    {
      ghost var nexts := Nexts();
      timers[t] := timers[t].(flags := TIMER_USING);
      assert Nexts() == nexts;
    }

    /** The rest of it, between cli and the restoring of eflags. */
    method LinkTimer(t: nat)
      requires Valid() && t < MAX_TIMERS
      modifies this`next, this`list, timers
      ensures t !in old(list) ==> Valid() && View() == Link(old(View()), t)
      ensures t in old(list) ==> Loops(next, Nexts(), t)
    {
      ghost var head, nexts := next, Nexts();
      var cell, k := FindCell(t);
      Splice(t, cell, k);
      if t in list {
        SpliceTies(head, nexts, list, k, t);
      } else {
        SpliceInserts(head, nexts, list, k, t);
        InsertInRange(list, k, t, MAX_TIMERS);
        ghost var nexts' := Nexts();
        list := InsertAt(list, k, t);
        assert Nexts() == nexts';
      }
    }

    /** Arming a timer that is not in the list inserts it at its place.  Arming one that
        is in the list ties the list into a loop. */
    method KSetTimerTime(t: int, delay: nat)
      requires Valid() && (t == NULL || 0 <= t < MAX_TIMERS)
      modifies this`next, this`list, timers
      ensures t == NULL ==> Valid() && View() == old(View())
      ensures t != NULL && t !in old(list) ==> Valid() && View() == Arm(old(View()), t, delay)
      ensures t != NULL && t in old(list) ==> Loops(next, Nexts(), t)
    {
      if t == NULL { return; }
      StoreTimeout(t, delay);
      StoreFlag(t);
      LinkTimer(t);
    }

    /** A second call for t that runs between the two stores of the first.  Neither finds t flagged
        TIMER_USING when it begins, and still the list ends as a loop. */
    method InterruptedCall(t: nat, delay: nat, otherDelay: nat)
      requires Valid() && t < MAX_TIMERS && t !in list && timers[t].flags != TIMER_USING
      modifies this`next, this`list, timers
      ensures Loops(next, Nexts(), t)
    {
      StoreTimeout(t, delay);
      KSetTimerTime(t, otherDelay);
      assert t in list;
      StoreFlag(t);
      LinkTimer(t);
    }

    method Advance()
      requires Valid()
      modifies this`tick
      ensures Valid() && View() == old(View()).(tick := old(tick) + 1)
    {
      ghost var nexts := Nexts();
      tick := tick + 1;
      assert Nexts() == nexts;
    }

    /** The timer interrupt unlinks the first timer of the list. */
    method PopFirst() returns (t: nat)
      requires Valid() && next != NULL
      modifies this`next, this`list, timers
      ensures old(list) != [] && t == old(list)[0]
      ensures Valid() && View() == Pop(old(View()))
    {
      t := next;
      ghost var nexts := Nexts();
      next := timers[t].next;
      timers[t] := timers[t].(next := NULL, flags := TIMER_ALLOC);
      list := list[1..];
      ChainFrame(next, nexts, Nexts(), list);
    }
  }
}
