/**
 Which timers a timer interrupt can serve.  Every event node takes one page, so the memory
 that is left and the place of a timer in the list decide what becomes of it.
 */
module Shortage {
  import opened OptionType
  import opened Sequences
  import opened Words
  import opened HeapSpec
  import opened TimerSpec
  import opened KernelSpec
  import HeapProofs
  import TimerProofs
  import Links
  import EventRing

  // ---- pages that an event node can take ----

  function FreePages(bits: seq<int>): nat {
    if bits == [] then 0 else FreePages(bits[..|bits| - 1]) + if bits[|bits| - 1] == 0 then 1 else 0
  }

  /** The last page of the heap is never handed out. */
  function Spare(h: Heap): nat
    requires h.Sized()
  {
    FreePages(h.bits[..BITMAP_SIZE - 1])
  }

  lemma {:induction false} TakenPage(bits: seq<int>, i: nat)
    requires i < |bits| && bits[i] == 0
    ensures FreePages(bits) > 0 && FreePages(bits[i := 1]) == FreePages(bits) - 1
    decreases |bits|
  {
    var n := |bits| - 1;
    if i < n {
      TakenPage(bits[..n], i);
      assert bits[i := 1][..n] == bits[..n][i := 1];
    } else {
      assert bits[i := 1][..n] == bits[..n];
    }
  }

  lemma {:induction false} NoFreePages(bits: seq<int>)
    requires forall k :: 0 <= k < |bits| ==> bits[k] != 0
    ensures FreePages(bits) == 0
  {
    if bits != [] {
      NoFreePages(bits[..|bits| - 1]);
    }
  }

  /** First fit for one page fails exactly when no page is spare. */
  lemma OnePage(h: Heap)
    requires h.Sized()
    ensures var r := FirstFit(h.bits, 1, 0);
            if r.None? then Spare(h) == 0
            else Spare(h) > 0 && Spare(Heap(SetRange(h.bits, r.value, r.value + 1, 1), h.words)) == Spare(h) - 1
  {
    HeapProofs.FirstFitIsLeast(h.bits, 1, 0);
    var low := h.bits[..BITMAP_SIZE - 1];
    match FirstFit(h.bits, 1, 0) {
      case None =>
        forall k | 0 <= k < |low| ensures low[k] != 0 {
          assert !HeapProofs.Fits(h.bits, 1, k);
        }
        NoFreePages(low);
      case Some(i) =>
        TakenPage(low, i);
        assert SetRange(h.bits, i, i + 1, 1)[..BITMAP_SIZE - 1] == low[i := 1];
    }
  }

  lemma NodeIsOnePage()
    ensures RealSize(NODE_SIZE) < HEAP_SIZE && Pages(NODE_SIZE) == 1
  {
  }

  lemma SpareIsOfBits(h: Heap, h': Heap)
    requires h.Sized() && h'.Sized() && h.bits == h'.bits
    ensures Spare(h) == Spare(h')
  {
  }

  lemma AllocatedTakesPage(h: Heap, e: Event)
    requires h.Sized()
    ensures var (h', ptr) := Allocated(h, e);
            if ptr == NULL then Spare(h) == 0 && h' == h else Spare(h) > 0 && Spare(h') == Spare(h) - 1
  {
    OnePage(h);
    NodeIsOnePage();
    NodeFits(h);
    match FirstFit(h.bits, 1, 0) {
      case None =>
      case Some(i) =>
        HeapProofs.MallocIsFirstFit(h, NODE_SIZE);
        SpareIsOfBits(Heap(SetRange(h.bits, i, i + 1, 1), h.words), Allocated(h, e).0);
    }
  }

  function Ring(k: Kernel): seq<int>
    requires k.Sized()
  {
    k.rings[k.sched.current]
  }

  /** The outcome of a post, by the memory and the ring before it. */
  lemma PostTakesPage(k: Kernel, e: Event)
    requires k.Sized()
    ensures PostOutcome(k, e).NoMemory? <==> Spare(k.heap) == 0
    ensures PostOutcome(k, e).Refused? <==> Spare(k.heap) > 0 && |Ring(k)| >= EventRing.RING_SIZE
    ensures Spare(k.heap) > 0 ==> Spare(Post(k, e).heap) == Spare(k.heap) - 1
    ensures |Ring(Post(k, e))| == |Ring(k)| + if PostOutcome(k, e).Accepted? then 1 else 0
    ensures Post(k, e).timers == k.timers && Post(k, e).switchTimer == k.switchTimer
  {
    AllocatedTakesPage(k.heap, e);
  }

  /** The event reaches the ring of the running task, behind all that wait there, if and only if there
      is a page for its node and a place in the ring; no other ring changes. */
  lemma PostReaches(k: Kernel, e: Event)
    requires k.Sized()
    ensures var me, k' := k.sched.current, Post(k, e);
            && (forall t :: 0 <= t < 64 && t != me ==> k'.rings[t] == k.rings[t])
            && if Spare(k.heap) > 0 && |k.rings[me]| < 1024
               then |k'.rings[me]| == |k.rings[me]| + 1 && k.rings[me] < k'.rings[me]
                    && EventAt(k'.heap, k'.rings[me][|k.rings[me]|]) == e
               else k'.rings[me] == k.rings[me]
  {
    PostTakesPage(k, e);
    if PostOutcome(k, e).Accepted? {
      var (h', ptr) := Allocated(k.heap, e);
      NodeIsRead(k.heap, e);
      assert EventAt(h', ptr) == e;
    }
  }

  lemma NodeIsRead(h: Heap, e: Event)
    requires h.Sized() && Allocated(h, e).1 != NULL
    ensures EventAt(Allocated(h, e).0, Allocated(h, e).1) == e
  {
    NodeLayout(h, e);
    NodeFits(h);
    match FirstFit(h.bits, Pages(NODE_SIZE), 0) {
      case Some(i) => BlockAddresses(i);
    }
  }

  // ---- timers in their order ----

  /** The timers before t, the switch timer apart: those that take a page before it. */
  function Ahead(list: seq<nat>, t: nat, switchTimer: nat): nat {
    if list == [] || list[0] == t then 0
    else (if list[0] == switchTimer then 0 else 1) + Ahead(list[1..], t, switchTimer)
  }

  /** The events that the timers due at a tick stand for. */
  function DueEvents(list: seq<nat>, timeouts: seq<nat>, tick: nat, switchTimer: nat): nat
    requires Links.InRange(list, |timeouts|)
  {
    if list == [] then 0
    else
      (if list[0] != switchTimer && timeouts[list[0]] <= tick then 1 else 0)
      + DueEvents(list[1..], timeouts, tick, switchTimer)
  }

  /** The list as the interrupt finds it. */
  ghost predicate Ordered(ts: Timers) {
    ts.Sized() && NoRepeats(ts.list) && TimerProofs.SortedBy(ts.list, ts.timeouts)
  }

  lemma OrderedPop(ts: Timers)
    requires Ordered(ts) && ts.list != []
    ensures Ordered(Pop(ts)) && ts.list[0] !in Pop(ts).list
    ensures Pop(ts).timeouts == ts.timeouts && Pop(ts).tick == ts.tick && Pop(ts).list == ts.list[1..]
  {
  }

  /** The events that reach the ring. */
  function Delivered(posts: seq<Posted>): seq<Event> {
    if posts == [] then []
    else (if posts[0].outcome.Accepted? then [posts[0].event] else []) + Delivered(posts[1..])
  }

  function TimesDelivered(posts: seq<Posted>, t: nat): nat {
    multiset(Delivered(posts))[Event(TIMER_EVENT, t)]
  }

  lemma DeliveredFirst(first: Posted, rest: seq<Posted>, t: nat)
    ensures TimesDelivered([first] + rest, t)
            == TimesDelivered(rest, t)
               + if first.outcome.Accepted? && first.event == Event(TIMER_EVENT, t) then 1 else 0
  {
    assert ([first] + rest)[1..] == rest;
  }

  lemma NothingDelivered(first: nat, t: nat)
    ensures TimesDelivered([Posted(Event(TIMER_EVENT, first), NoMemory)], t) == 0
  {
    assert Delivered([Posted(Event(TIMER_EVENT, first), NoMemory)]) == [];
  }

  /** One round of the expiry loop for a timer that carries an event. */
  function AfterPost(k: Kernel): (r: Kernel)
    requires k.Sized() && k.timers.list != []
    ensures r.Sized()
  {
    Post(k.(timers := Pop(k.timers)), Event(TIMER_EVENT, k.timers.list[0]))
  }

  /** The loop, one timer at a time: the switch timer costs nothing, any other a page, and
      without a page it is taken off all the same and the loop stops. */
  lemma ExpireRound(k: Kernel)
    requires k.Sized() && HeadExpired(k.timers)
    ensures var x := Expire(k);
            var first := k.timers.list[0];
            var popped := k.(timers := Pop(k.timers));
            if first == k.switchTimer then
              && x.k == Expire(popped).k && x.posts == Expire(popped).posts
              && x.failed == Expire(popped).failed && x.switching
            else if Spare(k.heap) == 0 then
              && x.k.timers == popped.timers && x.failed && !x.switching
              && x.posts == [Posted(Event(TIMER_EVENT, first), NoMemory)]
            else
              && x.k == Expire(AfterPost(k)).k && x.failed == Expire(AfterPost(k)).failed
              && x.switching == Expire(AfterPost(k)).switching
              && x.posts == [Posted(Event(TIMER_EVENT, first), PostOutcome(popped, Event(TIMER_EVENT, first)))]
                            + Expire(AfterPost(k)).posts
  {
    var popped := k.(timers := Pop(k.timers));
    PostTakesPage(popped, Event(TIMER_EVENT, k.timers.list[0]));
  }

  lemma AfterPostIs(k: Kernel)
    requires k.Sized() && k.timers.list != [] && Spare(k.heap) > 0
    ensures var k' := AfterPost(k);
            && k'.timers == Pop(k.timers) && k'.switchTimer == k.switchTimer
            && Spare(k'.heap) == Spare(k.heap) - 1
            && |Ring(k')| == |Ring(k)| + if |Ring(k)| < EventRing.RING_SIZE then 1 else 0
    ensures PostOutcome(k.(timers := Pop(k.timers)), Event(TIMER_EVENT, k.timers.list[0])).Accepted?
            <==> |Ring(k)| < EventRing.RING_SIZE
  {
    PostTakesPage(k.(timers := Pop(k.timers)), Event(TIMER_EVENT, k.timers.list[0]));
  }

  /** A timer that is not in the list is not served. */
  lemma {:induction false} ExpireIgnores(k: Kernel, t: nat)
    requires k.Sized() && t !in k.timers.list
    ensures t !in Expire(k).k.timers.list && TimesDelivered(Expire(k).posts, t) == 0
    decreases |k.timers.list|
  {
    if HeadExpired(k.timers) {
      ExpireRound(k);
      var first := k.timers.list[0];
      var popped := k.(timers := Pop(k.timers));
      if first == k.switchTimer {
        ExpireIgnores(popped, t);
      } else if Spare(k.heap) > 0 {
        AfterPostIs(k);
        ExpireIgnores(AfterPost(k), t);
        DeliveredFirst(Posted(Event(TIMER_EVENT, first), PostOutcome(popped, Event(TIMER_EVENT, first))),
                       Expire(AfterPost(k)).posts, t);
      } else {
        NothingDelivered(first, t);
      }
    }
  }

  /** There is a page and a place in the ring for an event with so many events ahead of it. */
  predicate Fits(k: Kernel, ahead: nat)
    requires k.Sized()
  {
    ahead < Spare(k.heap) && |Ring(k)| + ahead < EventRing.RING_SIZE
  }

  /** What the loop does with a timer that is due: it leaves the list exactly when there are
      pages for the timers ahead of it, and its event reaches the ring exactly when there is a
      page for itself too and the ring has room behind the events ahead of it. */
  lemma {:induction false} ExpireServes(k: Kernel, t: nat)
    requires k.Sized() && Ordered(k.timers) && t in k.timers.list && k.timers.timeouts[t] <= k.timers.tick
    ensures var ahead := Ahead(k.timers.list, t, k.switchTimer);
            && (t in Expire(k).k.timers.list <==> ahead > Spare(k.heap))
            && (t != k.switchTimer ==> TimesDelivered(Expire(k).posts, t) == if Fits(k, ahead) then 1 else 0)
    decreases |k.timers.list|
  {
    var first := k.timers.list[0];
    assert HeadExpired(k.timers);
    ExpireRound(k);
    OrderedPop(k.timers);
    var popped := k.(timers := Pop(k.timers));
    if first == k.switchTimer {
      if t == first { ExpireIgnores(popped, t); } else { ExpireServes(popped, t); }
    } else if Spare(k.heap) > 0 {
      AfterPostIs(k);
      if t == first { ExpireIgnores(AfterPost(k), t); } else { ExpireServes(AfterPost(k), t); }
      DeliveredFirst(Posted(Event(TIMER_EVENT, first), PostOutcome(popped, Event(TIMER_EVENT, first))),
                     Expire(AfterPost(k)).posts, t);
    } else {
      NothingDelivered(first, t);
    }
  }

  /** A timer that is not due stays. */
  lemma {:induction false} ExpireSpares(k: Kernel, t: nat)
    requires k.Sized() && Ordered(k.timers) && t in k.timers.list && k.timers.timeouts[t] > k.timers.tick
    ensures t in Expire(k).k.timers.list && TimesDelivered(Expire(k).posts, t) == 0
    decreases |k.timers.list|
  {
    if HeadExpired(k.timers) {
      ExpireRound(k);
      OrderedPop(k.timers);
      var first := k.timers.list[0];
      var popped := k.(timers := Pop(k.timers));
      if first == k.switchTimer {
        ExpireSpares(popped, t);
      } else if Spare(k.heap) > 0 {
        AfterPostIs(k);
        ExpireSpares(AfterPost(k), t);
        DeliveredFirst(Posted(Event(TIMER_EVENT, first), PostOutcome(popped, Event(TIMER_EVENT, first))),
                       Expire(AfterPost(k)).posts, t);
      } else {
        NothingDelivered(first, t);
      }
    }
  }

  // ---- the whole loop ----

  lemma {:induction false} NothingDue(list: seq<nat>, timeouts: seq<nat>, tick: nat, switchTimer: nat)
    requires Links.InRange(list, |timeouts|) && forall i :: 0 <= i < |list| ==> timeouts[list[i]] > tick
    ensures DueEvents(list, timeouts, tick, switchTimer) == 0
  {
    if list != [] {
      NothingDue(list[1..], timeouts, tick, switchTimer);
    }
  }

  function Due(k: Kernel): nat
    requires k.Sized()
  {
    DueEvents(k.timers.list, k.timers.timeouts, k.timers.tick, k.switchTimer)
  }

  predicate NoneRefused(posts: seq<Posted>) {
    forall i :: 0 <= i < |posts| ==> !posts[i].outcome.Refused?
  }

  /** The loop stops early exactly when the due events outnumber the spare pages, and a ring
      refuses a node exactly when it has no room for the events that do get a page. */
  lemma {:induction false} ExpireFails(k: Kernel)
    requires k.Sized() && Ordered(k.timers) && |Ring(k)| <= EventRing.RING_SIZE
    ensures Expire(k).failed <==> Due(k) > Spare(k.heap)
    ensures NoneRefused(Expire(k).posts) <==> |Ring(k)| + Min(Due(k), Spare(k.heap)) <= EventRing.RING_SIZE
    decreases |k.timers.list|
  {
    if !HeadExpired(k.timers) {
      NothingDue(k.timers.list, k.timers.timeouts, k.timers.tick, k.switchTimer);
    } else {
      ExpireRound(k);
      OrderedPop(k.timers);
      if k.timers.list[0] == k.switchTimer {
        ExpireFails(k.(timers := Pop(k.timers)));
      } else if Spare(k.heap) > 0 {
        AfterPostIs(k);
        ExpireFails(AfterPost(k));
        FirstRefused(Expire(k).posts);
      }
    }
  }

  lemma FirstRefused(posts: seq<Posted>)
    requires posts != []
    ensures NoneRefused(posts) <==> !posts[0].outcome.Refused? && NoneRefused(posts[1..])
  {
    assert posts == [posts[0]] + posts[1..];
  }

  /** When the due events outnumber the pages, one of the due timers finds none left. */
  lemma {:induction false} OneTooMany(list: seq<nat>, timeouts: seq<nat>, tick: nat, switchTimer: nat, pages: nat)
    returns (t: nat)
    requires Links.InRange(list, |timeouts|) && NoRepeats(list) && TimerProofs.SortedBy(list, timeouts)
    requires DueEvents(list, timeouts, tick, switchTimer) > pages
    ensures t in list && t < |timeouts| && t != switchTimer && timeouts[t] <= tick
    ensures Ahead(list, t, switchTimer) == pages
  {
    if list[0] != switchTimer && timeouts[list[0]] > tick {
      NothingDue(list, timeouts, tick, switchTimer);
      assert false;
    } else if list[0] == switchTimer {
      t := OneTooMany(list[1..], timeouts, tick, switchTimer, pages);
    } else if pages == 0 {
      t := list[0];
    } else {
      t := OneTooMany(list[1..], timeouts, tick, switchTimer, pages - 1);
    }
  }
}
