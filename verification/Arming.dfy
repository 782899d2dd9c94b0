/**
 k_set_timer_time called by several tasks at once.  It stores the timeout and then the flag with
 interrupts on and splices with interrupts off, so between any two of these three anything may
 happen: other calls, for any timer, and the timer interrupt.  The three are the methods
 StoreTimeout, StoreFlag and LinkTimer of the timer list, the interrupt's steps its methods
 PopFirst and Advance.
 */
module Arming {
  import opened TimerSpec
  import opened TimerProofs

  /** A call under way: its timer, and whether it has stored the flag. */
  datatype Call = Call(timer: nat, flagged: bool)

  /** The timers, whether a splice has tied the list into a loop, and the call that each caller
      is in.  The timer interrupt counts as a caller too. */
  datatype Callers = Callers(ts: Timers, knotted: bool, calls: map<nat, Call>) {
    predicate Sized() {
      ts.Sized() && forall c :: c in calls ==> calls[c].timer < MAX_TIMERS
    }
  }

  datatype Step =
    | Begin(caller: nat, timer: nat, delay: nat)
    | Flag(caller: nat)
    | Splice(caller: nat)
    | TakeFirst
    | Clock

  /** Once the list is a loop, the search and the interrupt need not come to an end. */
  predicate Enabled(s: Callers, a: Step)
    requires s.Sized()
  {
    !s.knotted &&
    match a
    case Begin(caller, t, _) => caller !in s.calls && t < MAX_TIMERS
    case Flag(caller) => caller in s.calls && !s.calls[caller].flagged
    case Splice(caller) => caller in s.calls && s.calls[caller].flagged
    case TakeFirst => HeadExpired(s.ts)
    case Clock => true
  }

  /** A splice of a timer that the list holds already makes a loop, as LinkTimer says. */
  function Next(s: Callers, a: Step): (r: Callers)
    requires s.Sized() && Enabled(s, a)
    ensures r.Sized()
  {
    match a
    case Begin(caller, t, delay) =>
      s.(ts := StoreTimeout(s.ts, t, delay), calls := s.calls[caller := Call(t, false)])
    case Flag(caller) =>
      var t := s.calls[caller].timer;
      s.(ts := StoreFlag(s.ts, t), calls := s.calls[caller := Call(t, true)])
    case Splice(caller) =>
      var t := s.calls[caller].timer;
      if t in s.ts.list then s.(knotted := true, calls := s.calls - {caller})
      else s.(ts := Link(s.ts, t), calls := s.calls - {caller})
    case TakeFirst => s.(ts := Pop(s.ts))
    case Clock => s.(ts := s.ts.(tick := s.ts.tick + 1))
  }

  predicate Legal(s: Callers, acts: seq<Step>)
    requires s.Sized()
    decreases |acts|
  {
    acts == [] || (Enabled(s, acts[0]) && Legal(Next(s, acts[0]), acts[1..]))
  }

  function Exec(s: Callers, acts: seq<Step>): (r: Callers)
    requires s.Sized() && Legal(s, acts)
    ensures r.Sized()
    decreases |acts|
  {
    if acts == [] then s else Exec(Next(s, acts[0]), acts[1..])
  }

  /** Timer t is not flagged TIMER_USING, and no call for it is under way. */
  predicate Idle(s: Callers, t: nat)
    requires s.Sized() && t < MAX_TIMERS
  {
    s.ts.flags[t] != TIMER_USING && forall c :: c in s.calls ==> s.calls[c].timer != t
  }

  /** A call is careful when its timer is idle as it begins. */
  predicate CarefulStep(s: Callers, a: Step)
    requires s.Sized() && Enabled(s, a)
  {
    a.Begin? ==> Idle(s, a.timer)
  }

  predicate Careful(s: Callers, acts: seq<Step>)
    requires s.Sized() && Legal(s, acts)
    decreases |acts|
  {
    acts == [] || (CarefulStep(s, acts[0]) && Careful(Next(s, acts[0]), acts[1..]))
  }

  /** The timers flagged by a call and not spliced yet. */
  function Pending(calls: map<nat, Call>): set<nat> {
    set c | c in calls && calls[c].flagged :: calls[c].timer
  }

  /** The list is a proper one, its timers and the pending ones are those flagged TIMER_USING,
      and no timer is in two calls. */
  ghost predicate Sound(s: Callers) {
    && s.Sized() && !s.knotted
    && Inv(s.ts, Pending(s.calls))
    && (forall c, d :: c in s.calls && d in s.calls && c != d ==> s.calls[c].timer != s.calls[d].timer)
    && (forall c :: c in s.calls && !s.calls[c].flagged ==> s.ts.flags[s.calls[c].timer] != TIMER_USING)
  }

  lemma PendingHolds(calls: map<nat, Call>, c: nat)
    requires c in calls && calls[c].flagged
    ensures calls[c].timer in Pending(calls)
  {
  }

  /** The pending timers when one caller begins, flags or ends its call. */
  lemma PendingAfter(calls: map<nat, Call>, calls': map<nat, Call>, caller: nat)
    requires calls' - {caller} == calls - {caller}
    requires forall c :: c in calls && caller in calls && c != caller ==> calls[c].timer != calls[caller].timer
    ensures Pending(calls') ==
            (if caller in calls then Pending(calls) - {calls[caller].timer} else Pending(calls))
            + (if caller in calls' && calls'[caller].flagged then {calls'[caller].timer} else {})
  {
    assert forall c :: c != caller ==> (c in calls <==> c in calls - {caller});
    assert forall c :: c != caller ==> (c in calls' <==> c in calls' - {caller});
    forall c | c in calls && c != caller ensures c in calls' && calls'[c] == calls[c] {
      assert (calls - {caller})[c] == (calls' - {caller})[c];
    }
  }

  lemma BeginKeeps(s: Callers, caller: nat, t: nat, delay: nat)
    requires Sound(s) && Enabled(s, Begin(caller, t, delay)) && Idle(s, t)
    ensures Sound(Next(s, Begin(caller, t, delay)))
  {
    var s' := Next(s, Begin(caller, t, delay));
    StoreTimeoutKeeps(s.ts, Pending(s.calls), t, delay);
    assert s'.calls - {caller} == s.calls - {caller};
    PendingAfter(s.calls, s'.calls, caller);
  }

  lemma FlagKeeps(s: Callers, caller: nat)
    requires Sound(s) && Enabled(s, Flag(caller))
    ensures Sound(Next(s, Flag(caller)))
  {
    var s' := Next(s, Flag(caller));
    var t := s.calls[caller].timer;
    StoreFlagKeeps(s.ts, Pending(s.calls), t);
    assert s'.calls - {caller} == s.calls - {caller};
    PendingAfter(s.calls, s'.calls, caller);
    assert t !in Pending(s.calls);
  }

  lemma SpliceKeeps(s: Callers, caller: nat)
    requires Sound(s) && Enabled(s, Splice(caller))
    ensures Sound(Next(s, Splice(caller))) && s.calls[caller].timer in Next(s, Splice(caller)).ts.list
  {
    var s' := Next(s, Splice(caller));
    PendingHolds(s.calls, caller);
    LinkKeeps(s.ts, Pending(s.calls), s.calls[caller].timer);
    assert s'.calls - {caller} == s.calls - {caller};
    PendingAfter(s.calls, s'.calls, caller);
  }

  lemma StepKeeps(s: Callers, a: Step)
    requires Sound(s) && Enabled(s, a) && CarefulStep(s, a)
    ensures Sound(Next(s, a))
  {
    match a {
      case Begin(caller, t, delay) => BeginKeeps(s, caller, t, delay);
      case Flag(caller) => FlagKeeps(s, caller);
      case Splice(caller) => SpliceKeeps(s, caller);
      case TakeFirst => PopKeeps(s.ts, Pending(s.calls));
      case Clock =>
    }
  }

  lemma {:induction false} RunKeeps(s: Callers, acts: seq<Step>)
    requires Sound(s) && Legal(s, acts) && Careful(s, acts)
    ensures Sound(Exec(s, acts))
    decreases |acts|
  {
    if acts != [] {
      StepKeeps(s, acts[0]);
      RunKeeps(Next(s, acts[0]), acts[1..]);
    }
  }

  // ---- what careless calls do ----

  /** A run in which no call begins makes a loop. */
  ghost predicate Knots(s: Callers, acts: seq<Step>) {
    && s.Sized() && Legal(s, acts) && Exec(s, acts).knotted
    && forall i :: 0 <= i < |acts| ==> !acts[i].Begin?
  }

  lemma {:induction false} KnotsCarefully(s: Callers, acts: seq<Step>)
    requires Knots(s, acts)
    ensures Careful(s, acts)
    decreases |acts|
  {
    if acts != [] {
      KnotsCarefully(Next(s, acts[0]), acts[1..]);
    }
  }

  lemma KnotsAfter(s: Callers, a: Step, acts: seq<Step>)
    requires s.Sized() && Enabled(s, a) && !a.Begin? && Knots(Next(s, a), acts)
    ensures Knots(s, [a] + acts)
  {
    assert ([a] + acts)[1..] == acts;
  }

  /** A flagged call for a timer of the list. */
  lemma SpliceKnots(s: Callers, caller: nat)
    requires s.Sized() && Enabled(s, Splice(caller)) && s.calls[caller].timer in s.ts.list
    ensures Knots(s, [Splice(caller)])
  {
    assert Knots(Next(s, Splice(caller)), []);
    KnotsAfter(s, Splice(caller), []);
    assert [Splice(caller)] + [] == [Splice(caller)];
  }

  /** Any call for a timer of the list. */
  lemma ListedKnots(s: Callers, caller: nat) returns (acts: seq<Step>)
    requires s.Sized() && !s.knotted && caller in s.calls && s.calls[caller].timer in s.ts.list
    ensures Knots(s, acts)
  {
    acts := [Splice(caller)];
    if s.calls[caller].flagged {
      SpliceKnots(s, caller);
    } else {
      SpliceKnots(Next(s, Flag(caller)), caller);
      KnotsAfter(s, Flag(caller), acts);
      acts := [Flag(caller)] + acts;
    }
  }

  /** Two calls for one timer, the first of them without its flag yet. */
  lemma TwoCallsKnot(s: Callers, caller: nat, other: nat) returns (acts: seq<Step>)
    requires s.Sized() && !s.knotted && caller in s.calls && other in s.calls && caller != other
    requires s.calls[caller].timer == s.calls[other].timer && s.calls[caller].timer !in s.ts.list
    requires !s.calls[caller].flagged
    ensures Knots(s, acts)
  {
    var s1 := Next(s, Flag(caller));
    var s2 := Next(s1, Splice(caller));
    acts := ListedKnots(s2, other);
    KnotsAfter(s1, Splice(caller), acts);
    acts := [Splice(caller)] + acts;
    KnotsAfter(s, Flag(caller), acts);
    acts := [Flag(caller)] + acts;
  }

  /** Arming a timer that is not idle makes a loop when the calls under way are completed and
      nothing else happens: this call alone when the list holds the timer, or this one and the other that
      arms it. */
  lemma CarelessKnots(s: Callers, caller: nat, t: nat, delay: nat) returns (acts: seq<Step>)
    requires Sound(s) && Enabled(s, Begin(caller, t, delay)) && !Idle(s, t)
    ensures var s1 := Next(s, Begin(caller, t, delay));
            Legal(s1, acts) && Careful(s1, acts) && Exec(s1, acts).knotted
  {
    var s1 := Next(s, Begin(caller, t, delay));
    if t in s.ts.list {
      acts := ListedKnots(s1, caller);
    } else {
      var other :| other in s.calls && s.calls[other].timer == t;
      acts := TwoCallsKnot(s1, caller, other);
    }
    KnotsCarefully(s1, acts);
  }

  /** Whatever the callers and the interrupt do afterwards, as long as they arm no timer that is
      not idle, the list stays free of loops: this holds after a call for t began if and only if t
      was not flagged TIMER_USING then and no other call for it was under way. */
  lemma SafeIffIdle(s: Callers, caller: nat, t: nat, delay: nat)
    requires Sound(s) && Enabled(s, Begin(caller, t, delay))
    ensures s.ts.flags[t] != TIMER_USING && (forall c :: c in s.calls ==> s.calls[c].timer != t) <==>
            (forall acts: seq<Step> ::
               Legal(Next(s, Begin(caller, t, delay)), acts) && Careful(Next(s, Begin(caller, t, delay)), acts) ==>
                 !Exec(Next(s, Begin(caller, t, delay)), acts).knotted)
  {
    var s1 := Next(s, Begin(caller, t, delay));
    if Idle(s, t) {
      BeginKeeps(s, caller, t, delay);
      forall acts: seq<Step> | Legal(s1, acts) && Careful(s1, acts) ensures !Exec(s1, acts).knotted {
        RunKeeps(s1, acts);
      }
    } else {
      var acts := CarelessKnots(s, caller, t, delay);
      assert Legal(s1, acts) && Careful(s1, acts) && Exec(s1, acts).knotted;
    }
  }
}
