/** What the scheduler keeps, and that it is round robin. */
module TaskProofs {
  import opened Sequences
  import opened Links
  import opened TaskSpec

  /** Neither the running nor the idle task is queued, and the state of a task says
      where it is. */
  ghost predicate Inv(s: Sched) {
    && s.Sized()
    && NoRepeats(s.queue)
    && 0 <= s.current < N_TASKS && 0 <= s.idle < N_TASKS && s.current != s.idle
    && s.idle !in s.queue && s.current !in s.queue
    && forall t :: 0 <= t < N_TASKS ==>
      && (s.status[t] == Ready <==> t in s.queue || t == s.idle)
      && (s.status[t] == Running <==> t == s.current)
  }

  lemma StartTaskKeeps(s: Sched, t: nat, start: int)
    requires Inv(s) && t < N_TASKS
    ensures Inv(StartTask(s, t, start))
    ensures s.queue <= StartTask(s, t, start).queue && StartTask(s, t, start).current == s.current
  {
  }

  /** A task comes into the queue, behind all others and READY, if and only if it is initialised and
      has an address; otherwise nothing changes. */
  lemma StartedIff(s: Sched, t: nat, start: int)
    requires Inv(s) && t < N_TASKS
    ensures var s' := StartTask(s, t, start);
            && (t !in s.queue && t in s'.queue <==> s.status[t] == Init && start != 0)
            && if s.status[t] == Init && start != 0
               then s' == s.(queue := s.queue + [t], status := s.status[t := Ready])
               else s' == s
  {
  }

  /** The slot that task_alloc finds is the first unused one, and there is none when it finds none. */
  lemma {:induction false} FirstUnusedIsLeast(status: seq<Status>, from: nat)
    requires from <= |status|
    ensures var r := FirstUnused(status, from);
            if r >= 0 then from <= r && status[r] == Unused && forall i :: from <= i < r ==> status[i] != Unused
            else forall i :: from <= i < |status| ==> status[i] != Unused
    decreases |status| - from
  {
    if from < |status| && status[from] != Unused {
      FirstUnusedIsLeast(status, from + 1);
    }
  }

  /** The idle task does not queue up when another takes over from it. */
  lemma SwitchFromIdle(s: Sched)
    requires s.Sized() && 0 <= s.current < N_TASKS && s.idle !in s.queue && s.queue != []
    ensures s.idle !in Switch(s).queue && Switch(s).current == s.queue[0]
    ensures s.current == s.idle ==> Switch(s).queue == s.queue[1..]
  {
    assert s.queue == [s.queue[0]] + s.queue[1..];
  }

  /** A switch rotates the running task and the queue by one place to the left. */
  function Line(s: Sched): seq<int> {
    [s.current] + seq(|s.queue|, i requires 0 <= i < |s.queue| => s.queue[i])
  }

  function Rotate<T>(s: seq<T>, n: nat): seq<T>
    requires n <= |s|
  {
    s[n..] + s[..n]
  }

  lemma SwitchKeeps(s: Sched)
    requires Inv(s)
    ensures Inv(Switch(s)) && Switch(s).idle == s.idle
    ensures Line(Switch(s)) == Rotate(Line(s), 1)
  {
    var s' := Switch(s);
    if s.queue != [] {
      forall t | 0 <= t < N_TASKS
        ensures t in s'.queue <==> (t in s.queue && t != s.queue[0]) || t == s.current
      {
        assert s.queue == [s.queue[0]] + s.queue[1..];
      }
    }
  }

  lemma RotateOnce<T>(s: seq<T>, n: nat)
    requires n < |s|
    ensures Rotate(Rotate(s, n), 1) == Rotate(s, n + 1)
  {
  }

  function Switches(s: Sched, n: nat): (r: Sched)
    requires s.Sized() && 0 <= s.current < N_TASKS
    ensures r.Sized() && 0 <= r.current < N_TASKS
  {
    if n == 0 then s else Switch(Switches(s, n - 1))
  }

  lemma {:induction false} SwitchesRotate(s: Sched, n: nat)
    requires Inv(s) && n <= |s.queue| + 1
    ensures Inv(Switches(s, n)) && Switches(s, n).idle == s.idle
    ensures Line(Switches(s, n)) == Rotate(Line(s), n)
  {
    if n > 0 {
      SwitchesRotate(s, n - 1);
      SwitchKeeps(Switches(s, n - 1));
      RotateOnce(Line(s), n - 1);
    }
  }

  /** As many switches as there are tasks to run bring everything back. */
  lemma RoundRobin(s: Sched)
    requires Inv(s)
    ensures Switches(s, |s.queue| + 1) == s
  {
    hide Switches;
    var n := |s.queue| + 1;
    var s' := Switches(s, n);
    SwitchesRotate(s, n);
    assert Line(s') == Line(s);
    LineDetermines(s, s');
    OtherStatuses(s, n);
    SameStatuses(s, s');
  }

  lemma SameStatuses(s: Sched, s': Sched)
    requires Inv(s) && Inv(s')
    requires s'.queue == s.queue && s'.current == s.current && s'.idle == s.idle
    requires forall t :: 0 <= t < N_TASKS && s.status[t] != Ready && s.status[t] != Running ==>
               s'.status[t] == s.status[t]
    ensures s' == s
  {
    forall t | 0 <= t < N_TASKS ensures s'.status[t] == s.status[t] {
      SameStatus(s, s', t);
    }
  }

  lemma SameStatus(s: Sched, s': Sched, t: nat)
    requires Inv(s) && Inv(s') && t < N_TASKS
    requires s'.queue == s.queue && s'.current == s.current && s'.idle == s.idle
    requires s.status[t] != Ready && s.status[t] != Running ==> s'.status[t] == s.status[t]
    ensures s'.status[t] == s.status[t]
  {
  }

  lemma LineDetermines(s: Sched, s': Sched)
    requires Line(s) == Line(s')
    ensures s.current == s'.current && s.queue == s'.queue
  {
    assert Line(s)[0] == s.current && Line(s')[0] == s'.current;
    assert |Line(s)| == |s.queue| + 1;
    forall i | 0 <= i < |s.queue| ensures s.queue[i] == s'.queue[i] {
      assert Line(s)[i + 1] == s.queue[i] && Line(s')[i + 1] == s'.queue[i];
    }
  }

  /** Switching changes no state but those of ready and running tasks. */
  lemma {:induction false} OtherStatuses(s: Sched, n: nat)
    requires Inv(s) && n <= |s.queue| + 1
    ensures forall t :: 0 <= t < N_TASKS && s.status[t] != Ready && s.status[t] != Running ==>
      Switches(s, n).status[t] == s.status[t]
  {
    if n > 0 {
      OtherStatuses(s, n - 1);
      SwitchesRotate(s, n - 1);
    }
  }
}
