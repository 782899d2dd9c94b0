/** What the timer list keeps: sorted by deadline, newest first among equals, and in
    step with the TIMER_USING flags. */
module TimerProofs {
  import opened Sequences
  import opened Links
  import opened TimerSpec

  ghost predicate SortedBy(list: seq<nat>, timeouts: seq<nat>)
    requires InRange(list, |timeouts|)
  {
    forall i, j :: 0 <= i < j < |list| ==> timeouts[list[i]] <= timeouts[list[j]]
  }

  /** A timer is flagged TIMER_USING exactly when it is in the list or pending: some task has
      flagged it and not linked it yet. */
  ghost predicate Inv(ts: Timers, pending: set<nat>) {
    && ts.Sized()
    && NoRepeats(ts.list) && SortedBy(ts.list, ts.timeouts)
    && (forall t :: 0 <= t < MAX_TIMERS ==> (ts.flags[t] == TIMER_USING <==> t in ts.list || t in pending))
    && (forall t :: t in pending ==> t < MAX_TIMERS && t !in ts.list)
  }

  /** The timer that k_timer_alloc finds is the first unused one, and there is none when it finds
      none. */
  lemma {:induction false} FirstUnusedIsLeast(flags: seq<int>, from: nat)
    requires from <= |flags|
    ensures var r := FirstUnused(flags, from);
            if r >= 0 then from <= r && flags[r] == 0 && forall i :: from <= i < r ==> flags[i] != 0
            else forall i :: from <= i < |flags| ==> flags[i] != 0
    decreases |flags| - from
  {
    if from < |flags| && flags[from] != 0 {
      FirstUnusedIsLeast(flags, from + 1);
    }
  }

  lemma {:induction false} PlaceIsLeast(list: seq<nat>, timeouts: seq<nat>, deadline: nat)
    requires InRange(list, |timeouts|)
    ensures var k := Place(list, timeouts, deadline);
            && (forall i :: 0 <= i < k ==> timeouts[list[i]] < deadline)
            && (k < |list| ==> timeouts[list[k]] >= deadline)
  {
    if list != [] && timeouts[list[0]] < deadline {
      PlaceIsLeast(list[1..], timeouts, deadline);
    }
  }

  lemma {:induction false} InsertAtIsSplice(list: seq<nat>, k: nat, t: nat)
    requires k <= |list|
    ensures InsertAt(list, k, t) == list[..k] + [t] + list[k..]
    decreases k
  {
    if k > 0 {
      InsertAtIsSplice(list[1..], k - 1, t);
    }
  }

  /** Sooner timers stay before the new one; timers due at the same tick come after it. */
  lemma NewestFirst(list: seq<nat>, timeouts: seq<nat>, t: nat)
    requires InRange(list, |timeouts|) && t < |timeouts| && SortedBy(list, timeouts)
    ensures exists k :: (&& 0 <= k <= |list|
                         && Insert(list, timeouts, t) == list[..k] + [t] + list[k..]
                         && forall i :: 0 <= i < |list| ==> (timeouts[list[i]] < timeouts[t] <==> i < k))
  {
    var k := Place(list, timeouts, timeouts[t]);
    PlaceIsLeast(list, timeouts, timeouts[t]);
    InsertAtIsSplice(list, k, t);
  }

  lemma InsertKeepsSorted(list: seq<nat>, timeouts: seq<nat>, t: nat)
    requires InRange(list, |timeouts|) && t < |timeouts| && SortedBy(list, timeouts)
    ensures InRange(Insert(list, timeouts, t), |timeouts|) && SortedBy(Insert(list, timeouts, t), timeouts)
  {
    NewestFirst(list, timeouts, t);
  }

  lemma InsertKeepsNoRepeats(list: seq<nat>, k: nat, t: nat)
    requires k <= |list| && NoRepeats(list) && t !in list
    ensures NoRepeats(InsertAt(list, k, t))
  {
    InsertAtIsSplice(list, k, t);
  }

  /** The list does not look at the deadline of a timer that it does not hold. */
  lemma StoreTimeoutKeeps(ts: Timers, pending: set<nat>, t: nat, delay: nat)
    requires Inv(ts, pending) && t < MAX_TIMERS && ts.flags[t] != TIMER_USING
    ensures Inv(StoreTimeout(ts, t, delay), pending)
  {
    assert t !in ts.list;
  }

  lemma StoreFlagKeeps(ts: Timers, pending: set<nat>, t: nat)
    requires Inv(ts, pending) && t < MAX_TIMERS && ts.flags[t] != TIMER_USING
    ensures Inv(StoreFlag(ts, t), pending + {t})
  {
    assert t !in ts.list;
  }

  lemma LinkKeeps(ts: Timers, pending: set<nat>, t: nat)
    requires Inv(ts, pending) && t in pending
    ensures Inv(Link(ts, t), pending - {t})
  {
    InsertKeepsSorted(ts.list, ts.timeouts, t);
    InsertKeepsNoRepeats(ts.list, Place(ts.list, ts.timeouts, ts.timeouts[t]), t);
  }

  lemma ArmKeeps(ts: Timers, pending: set<nat>, t: nat, delay: nat)
    requires Inv(ts, pending) && t < MAX_TIMERS && ts.flags[t] != TIMER_USING
    ensures Inv(Arm(ts, t, delay), pending)
  {
    StoreTimeoutKeeps(ts, pending, t, delay);
    StoreFlagKeeps(StoreTimeout(ts, t, delay), pending, t);
    LinkKeeps(StoreFlag(StoreTimeout(ts, t, delay), t), pending + {t}, t);
    assert pending + {t} - {t} == pending;
  }

  lemma PopKeeps(ts: Timers, pending: set<nat>)
    requires Inv(ts, pending) && ts.list != []
    ensures Inv(Pop(ts), pending)
  {
    assert ts.list == [ts.list[0]] + ts.list[1..];
  }
}
