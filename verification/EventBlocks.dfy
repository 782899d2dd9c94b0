/** The heap blocks that carry events: none is lost, none is freed twice, and one leaks
    only when a ring refuses it. */
module EventBlocks {
  import opened OptionType
  import opened Sequences
  import opened Words
  import opened HeapSpec
  import opened TimerSpec
  import opened TaskSpec
  import opened KernelSpec
  import opened Machine
  import opened KernelRuns
  import opened Shortage
  import EventRing
  import Ownership
  import Waiting

  /** The events that a step should send: one for a key or the mouse, one for every due timer. */
  function Posting(m: State, a: Action): nat
    requires m.Sized()
  {
    match a
    case TimerTick => Due(Ticked(m.k))
    case Key(_) => 1
    case Mouse(_) => 1
    case _ => 0
  }

  /** The ring of the running task has no place for all the events that find a page. */
  predicate Refuses(m: State, a: Action)
    requires m.Sized()
  {
    |Ring(m.k)| + Min(Posting(m, a), Spare(m.k.heap)) > EventRing.RING_SIZE
  }

  /** A key press reaches the running task as an event of kind 1 with the character, a mouse interrupt as
      one of kind 2 with the byte, behind all that wait, if there is a page and a place in the ring. */
  lemma InterruptReaches(m: State, data: nat)
    requires m.Sized() && Spare(m.k.heap) > 0 && |m.k.rings[m.Running()]| < 1024
    ensures var me, ring := m.Running(), m.k.rings[m.Running()];
            var key, mouse := Next(m, Key(data)).k, Next(m, Mouse(data)).k;
            && |key.rings[me]| == |mouse.rings[me]| == |ring| + 1 && ring < key.rings[me] && ring < mouse.rings[me]
            && EventAt(key.heap, key.rings[me][|ring|]) == Event(1, data)
            && EventAt(mouse.heap, mouse.rings[me][|ring|]) == Event(2, data)
  {
    hide Post;
    PostReaches(m.k, Event(KEYBOARD_EVENT, data));
    PostReaches(m.k, Event(MOUSE_EVENT, data));
  }

  predicate NeverRefuses(m: State, acts: seq<Action>)
    requires m.Sized() && Legal(m, acts)
    decreases |acts|
  {
    acts == [] || (!Refuses(m, acts[0]) && NeverRefuses(Next(m, acts[0]), acts[1..]))
  }

  lemma OnePost(k: Kernel, e: Event)
    requires k.Sized() && |Ring(k)| <= EventRing.RING_SIZE
    ensures PostOutcome(k, e).Refused? <==> |Ring(k)| + Min(1, Spare(k.heap)) > EventRing.RING_SIZE
  {
    PostTakesPage(k, e);
  }

  function LeakedBlocks(roles: map<int, Role>): set<int> {
    set p | p in roles && roles[p] == Leaked
  }

  /** No leaked block is forgotten, and one is added exactly when something was refused. */
  ghost predicate LeaksGrow(before: map<int, Role>, after: map<int, Role>, noneRefused: bool) {
    && LeakedBlocks(before) <= LeakedBlocks(after)
    && (LeakedBlocks(before) == LeakedBlocks(after) <==> noneRefused)
  }

  lemma LeaksGrowOn(a: map<int, Role>, b: map<int, Role>, c: map<int, Role>, first: bool, rest: bool)
    requires LeaksGrow(a, b, first) && LeaksGrow(b, c, rest)
    ensures LeaksGrow(a, c, first && rest)
  {
  }

  lemma PostLeaks(m: State, e: Event)
    requires Ownership.Inv(m)
    ensures LeaksGrow(m.ledger.roles, PostEvent(m, e).ledger.roles, !PostOutcome(m.k, e).Refused?)
  {
    Ownership.AllocatedNode(m.k.heap, m.ledger.claims, e);
    var outcome, after := PostOutcome(m.k, e), PostEvent(m, e).ledger.roles;
    if outcome.Refused? {
      assert outcome.ptr !in m.ledger.roles;
      assert outcome.ptr in LeakedBlocks(after);
      assert forall p :: p in LeakedBlocks(m.ledger.roles) ==> p in LeakedBlocks(after);
    } else {
      assert LeakedBlocks(after) == LeakedBlocks(m.ledger.roles);
    }
  }

  lemma FirstOfPosts(k: Kernel)
    requires k.Sized() && HeadExpired(k.timers) && k.timers.list[0] != k.switchTimer
    ensures var e := Event(TIMER_EVENT, k.timers.list[0]);
            var popped := k.(timers := Pop(k.timers));
            var rest := if PostOutcome(popped, e).NoMemory? then [] else Expire(Post(popped, e)).posts;
            Expire(k).posts == [Posted(e, PostOutcome(popped, e))] + rest
  {
  }

  lemma {:induction false} ExpireLeaks(m: State)
    requires Ownership.Inv(m)
    ensures LeaksGrow(m.ledger.roles, RecordPosts(m.ledger, m.Running(), Expire(m.k).posts).roles,
                      NoneRefused(Expire(m.k).posts))
    decreases |m.k.timers.list|
  {
    if HeadExpired(m.k.timers) {
      var t := m.k.timers.list[0];
      var m1 := m.(k := m.k.(timers := Pop(m.k.timers)));
      if t == m.k.switchTimer {
        ExpireLeaks(m1);
      } else {
        var e := Event(TIMER_EVENT, t);
        var m2 := PostEvent(m1, e);
        var posts := Expire(m.k).posts;
        PostLeaks(m1, e);
        Ownership.PostKeeps(m1, e);
        FirstOfPosts(m.k);
        FirstRefused(posts);
        if PostOutcome(m1.k, e).NoMemory? {
          assert posts[1..] == [] && m2.ledger == m.ledger;
        } else {
          assert posts[1..] == Expire(m2.k).posts;
          ExpireLeaks(m2);
          LeaksGrowOn(m.ledger.roles, m2.ledger.roles, RecordPosts(m2.ledger, m.Running(), posts[1..]).roles,
                      !posts[0].outcome.Refused?, NoneRefused(posts[1..]));
        }
      }
    }
  }

  lemma FreeingLeaks(m: State, ptr: int)
    requires Ownership.Inv(m) && ptr in m.ledger.roles
    requires (m.Pc().AtLoop? && m.ledger.roles[ptr] == Private) || Ownership.HeldNode(m.Pc()) == Some(ptr)
    ensures LeakedBlocks(BeginFree(m, ptr).ledger.roles) == LeakedBlocks(m.ledger.roles)
  {
    Ownership.BeginFreeOwns(m, ptr);
    assert Ownership.HeldNode(m.Pc()) == Some(ptr) ==> m.ledger.roles[ptr].Held?;
  }

  lemma AllocatingLeaks(m: State, size: nat)
    requires Ownership.Inv(m) && ValidSize(size)
    ensures LeakedBlocks(AllocatePrivate(m, size).ledger.roles) == LeakedBlocks(m.ledger.roles)
  {
    Ownership.MallocTouchesOnlyItsRun(m.k.heap, m.ledger.claims, size);
  }

  lemma TakingLeaks(m: State)
    requires Ownership.Inv(m)
    ensures LeakedBlocks(TakeNext(m).ledger.roles) == LeakedBlocks(m.ledger.roles)
  {
    if m.k.rings[m.Running()] != [] {
      Ownership.QueuedIsNotNull(m, m.Running());
    }
  }

  lemma OtherStepsLeakNothing(m: State, a: Action)
    requires Ownership.Inv(m) && Enabled(m, a) && !a.TimerTick? && !a.Key? && !a.Mouse?
    ensures LeakedBlocks(Next(m, a).ledger.roles) == LeakedBlocks(m.ledger.roles) && !Refuses(m, a)
  {
    match a {
      case TakeEvent => TakingLeaks(m);
      case FinishEvent =>
        assert Ownership.HeldNode(m.Pc()) == Some(m.Pc().node);
        FreeingLeaks(m, m.Pc().node);
      case DropBlock(ptr) => FreeingLeaks(m, ptr);
      case NewBlock(size) => AllocatingLeaks(m, size);
      case NewTask(size) => AllocatingLeaks(m, size);
      case _ =>
    }
  }

  lemma TickLeaks(m: State)
    requires Good(m)
    ensures LeaksGrow(m.ledger.roles, TickState(m).ledger.roles, !Refuses(m, TimerTick))
  {
    Waiting.TickedIsOrdered(m);
    ExpireFails(Ticked(m.k));
    ExpireLeaks(m.(k := Ticked(m.k)));
  }

  lemma InputLeaks(m: State, e: Event)
    requires Good(m)
    ensures LeaksGrow(m.ledger.roles, PostEvent(m, e).ledger.roles,
                      |Ring(m.k)| + Min(1, Spare(m.k.heap)) <= EventRing.RING_SIZE)
  {
    Waiting.TickedIsOrdered(m);
    OnePost(m.k, e);
    PostLeaks(m, e);
  }

  lemma StepLeaks(m: State, a: Action)
    requires Good(m) && Enabled(m, a)
    ensures LeaksGrow(m.ledger.roles, Next(m, a).ledger.roles, !Refuses(m, a))
  {
    match a {
      case TimerTick => TickLeaks(m);
      case Key(ch) => InputLeaks(m, Event(KEYBOARD_EVENT, ch));
      case Mouse(data) => InputLeaks(m, Event(MOUSE_EVENT, data));
      case _ => OtherStepsLeakNothing(m, a);
    }
  }

  /** Over any run no leaked block is forgotten, and none is added if and only if no step sends
      more events than the ring of the running task has places and the heap has pages. */
  lemma {:induction false} LeaksNeedRefusals(m: State, acts: seq<Action>)
    requires Good(m) && Legal(m, acts)
    ensures LeaksGrow(m.ledger.roles, Exec(m, acts).ledger.roles, NeverRefuses(m, acts))
    decreases |acts|
  {
    hide Next, Enabled;
    if acts != [] {
      var m' := Next(m, acts[0]);
      StepLeaks(m, acts[0]);
      StepKeeps(m, acts[0]);
      LeaksNeedRefusals(m', acts[1..]);
      LeaksGrowOn(m.ledger.roles, m'.ledger.roles, Exec(m', acts[1..]).ledger.roles,
                  !Refuses(m, acts[0]), NeverRefuses(m', acts[1..]));
    }
  }

  /** The nodes queued for t are live blocks that nobody else queues or holds, and the
      node that t holds is live. */
  ghost predicate NodesAreLive(m: State, t: nat)
    requires m.Sized() && t < N_TASKS
  {
    && NoRepeats(m.k.rings[t])
    && (forall p :: p in m.k.rings[t] ==>
          && Block(p) in m.ledger.claims
          && (forall u :: 0 <= u < N_TASKS && u != t ==> p !in m.k.rings[u])
          && (forall u :: 0 <= u < N_TASKS ==> Ownership.HeldNode(m.pcs[u]) != Some(p)))
    && (Ownership.HeldNode(m.pcs[t]).Some? ==> Block(Ownership.HeldNode(m.pcs[t]).value) in m.ledger.claims)
  }

  lemma OwnedNodesAreLive(m: State, t: nat)
    requires Ownership.Inv(m) && t < N_TASKS
    ensures NodesAreLive(m, t)
  {
    forall p | p in m.k.rings[t]
      ensures Block(p) in m.ledger.claims
      ensures forall u :: 0 <= u < N_TASKS && u != t ==> p !in m.k.rings[u]
      ensures forall u :: 0 <= u < N_TASKS ==> Ownership.HeldNode(m.pcs[u]) != Some(p)
    {
      assert p in m.ledger.roles && m.ledger.roles[p] == Queued(t);
    }
  }

  /** At every moment, for every task: what it was sent is what it took followed by what
      its queued nodes hold in heap memory, and its nodes are nobody else's. */
  lemma EventsAreConserved(m: State, acts: seq<Action>, t: nat)
    requires Good(m) && Legal(m, acts) && t < N_TASKS
    ensures var m' := Exec(m, acts);
            && m'.ledger.accepted[t] == m'.ledger.taken[t] + Ownership.Events(m'.k.heap, m'.k.rings[t])
            && NodesAreLive(m', t)
  {
    RunKeeps(m, acts);
    OwnedNodesAreLive(Exec(m, acts), t);
  }

  /** While no ring refuses a node, a live block that is not private is queued or held:
      event memory is exactly the queued nodes and the nodes in the hands of tasks. */
  lemma EventBlocksAreQueuedOrHeld(m: State, acts: seq<Action>, p: int)
    requires Good(m) && Legal(m, acts) && NeverRefuses(m, acts) && LeakedBlocks(m.ledger.roles) == {}
    requires Block(p) in Exec(m, acts).ledger.claims
    ensures var m' := Exec(m, acts);
            p in m'.ledger.roles &&
            (m'.ledger.roles[p] == Private ||
             (exists t :: 0 <= t < N_TASKS && p in m'.k.rings[t]) ||
             (exists t :: 0 <= t < N_TASKS && Ownership.HeldNode(m'.pcs[t]) == Some(p)))
  {
    RunKeeps(m, acts);
    LeaksNeedRefusals(m, acts);
    var m' := Exec(m, acts);
    assert m'.ledger.roles[p] == Leaked ==> p in LeakedBlocks(m'.ledger.roles);
    assert m'.ledger.roles[p].Queued? ==> p in m'.k.rings[m'.ledger.roles[p].task];
    assert m'.ledger.roles[p].Held? ==> Ownership.HeldNode(m'.pcs[m'.ledger.roles[p].task]) == Some(p);
  }
}
