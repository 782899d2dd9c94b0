/**
 Who owns each heap block while handlers interrupt tasks at any point: every step
 keeps the heap, the rings and the tasks in agreement, and no event is lost or
 damaged on its way through the heap.
 */
module Ownership {
  import opened OptionType
  import opened HeapSpec
  import opened HeapProofs
  import opened TimerSpec
  import opened TaskSpec
  import opened KernelSpec
  import opened Machine
  import opened Sequences
  import EventRing

  function HeldNode(pc: Pc): Option<int> {
    match pc
    case Handling(node) => Some(node)
    case Arming(node, _, _) => Some(node)
    case _ => None
  }

  /** The live blocks are those with a role; the pages a task has still to clear are
      those its loop variables say. */
  ghost predicate ClaimsMatch(l: Ledger, pcs: seq<Pc>) {
    && (forall p :: Block(p) in l.claims <==> p in l.roles)
    && (forall t: nat :: Clearing(t) in l.claims <==> t < |pcs| && pcs[t].Freeing?)
    && (forall t :: 0 <= t < |pcs| && pcs[t].Freeing? ==> l.claims[Clearing(t)] == Run(pcs[t].next, pcs[t].end))
  }

  ghost predicate RingsMatch(roles: map<int, Role>, rings: seq<seq<int>>) {
    && (forall t :: 0 <= t < |rings| ==> NoRepeats(rings[t]) && |rings[t]| <= EventRing.RING_SIZE)
    && (forall t, p :: 0 <= t < |rings| ==> (p in rings[t] <==> p in roles && roles[p] == Queued(t)))
    && (forall p :: p in roles && roles[p].Queued? ==> roles[p].task < |rings|)
  }

  ghost predicate HeldMatch(roles: map<int, Role>, pcs: seq<Pc>) {
    && (forall t :: 0 <= t < |pcs| && HeldNode(pcs[t]).Some? ==>
          HeldNode(pcs[t]).value in roles && roles[HeldNode(pcs[t]).value] == Held(t))
    && (forall p :: p in roles && roles[p].Held? ==>
          roles[p].task < |pcs| && HeldNode(pcs[roles[p].task]) == Some(p))
  }

  function Events(h: Heap, ring: seq<int>): (r: seq<Event>)
    ensures |r| == |ring|
  {
    seq(|ring|, i requires 0 <= i < |ring| => EventAt(h, ring[i]))
  }

  /** What a task was sent is what it has taken followed by what its queued nodes hold. */
  ghost predicate NothingLost(m: State)
    requires m.Sized()
  {
    forall t :: 0 <= t < N_TASKS ==> m.ledger.accepted[t] == m.ledger.taken[t] + Events(m.k.heap, m.k.rings[t])
  }

  ghost predicate Inv(m: State) {
    && m.Sized()
    && HeapSpec.Inv(m.k.heap, m.ledger.claims)
    && ClaimsMatch(m.ledger, m.pcs)
    && RingsMatch(m.ledger.roles, m.k.rings)
    && HeldMatch(m.ledger.roles, m.pcs)
    && NothingLost(m)
  }

  /** A step that arms a timer touches no block. */
  lemma ArmingKeeps(m: State, ts: Timers, pc: Pc)
    requires Inv(m) && ts.Sized() && HeldNode(pc) == HeldNode(m.Pc())
    requires !pc.Freeing? && !m.Pc().Freeing?
    ensures Inv(SetPc(m.(k := m.k.(timers := ts)), pc))
  {
  }

  // ---- events in memory ----

  ghost predicate AgreeOutside(h: Heap, h': Heap, r: Run) {
    && |h.words| == |h'.words|
    && forall i :: 0 <= i < |h.words| && !(r.lo * 128 <= i < r.hi * 128) ==> h'.words[i] == h.words[i]
  }

  lemma EventKept(h: Heap, h': Heap, claims: Claims, r: Run, p: int)
    requires HeapSpec.Inv(h, claims) && Block(p) in claims && Disjoint(claims[Block(p)], r)
    requires AgreeOutside(h, h', r)
    ensures EventAt(h', p) == EventAt(h, p)
  {
    var b := claims[Block(p)];
    assert WellPlaced(h, p, b);
    BlockAddresses(b.lo);
  }

  lemma EventsKept(h: Heap, h': Heap, claims: Claims, r: Run, ring: seq<int>)
    requires HeapSpec.Inv(h, claims) && AgreeOutside(h, h', r)
    requires forall p :: p in ring ==> Block(p) in claims && Disjoint(claims[Block(p)], r)
    ensures Events(h', ring) == Events(h, ring)
  {
    forall i | 0 <= i < |ring| ensures EventAt(h', ring[i]) == EventAt(h, ring[i]) {
      EventKept(h, h', claims, r, ring[i]);
    }
  }

  // ---- posting ----

  lemma MallocTouchesOnlyItsRun(h: Heap, claims: Claims, size: nat)
    requires HeapSpec.Inv(h, claims) && ValidSize(size)
    ensures var (h', ptr) := Malloc(h, size);
            ptr != NULL ==>
              && !BelowHeap(ptr) && Block(ptr) !in claims
              && HeapSpec.Inv(h', TookBlock(claims, ptr, size))
              && AgreeOutside(h, h', TookBlock(claims, ptr, size)[Block(ptr)])
              && forall a :: a in claims ==> Disjoint(claims[a], TookBlock(claims, ptr, size)[Block(ptr)])
  {
    var (h', ptr) := Malloc(h, size);
    MallocKeeps(h, claims, size);
    if ptr != NULL {
      var claims' := TookBlock(claims, ptr, size);
      forall a | a in claims ensures Disjoint(claims[a], claims'[Block(ptr)]) {
        assert claims'[a] == claims[a];
      }
    }
  }

  lemma StoredEvent(h: Heap, claims: Claims, ptr: int, e: Event)
    requires HeapSpec.Inv(h, claims) && Block(ptr) in claims
    requires 0 <= WordIndex(ptr) && WordIndex(ptr) + 1 < HEAP_WORDS
    ensures var h' := StoreEvent(h, ptr, e);
            && HeapSpec.Inv(h', claims) && EventAt(h', ptr) == e
            && AgreeOutside(h, h', claims[Block(ptr)])
  {
    var run := claims[Block(ptr)];
    assert WellPlaced(h, ptr, run);
    BlockAddresses(run.lo);
    StoreKeeps(h, claims, Block(ptr), ptr, e.kind);
    StoreKeeps(StoreWord(h, ptr, e.kind), claims, Block(ptr), ptr + 4, e.data);
  }

  /** Allocating and filling a node keeps the heap, touches no other block and leaves the
      event in the node. */
  lemma AllocatedNode(h: Heap, claims: Claims, e: Event)
    requires HeapSpec.Inv(h, claims)
    ensures var (h', ptr) := Allocated(h, e);
            if ptr == NULL then h' == h
            else
              && !BelowHeap(ptr) && Block(ptr) !in claims
              && HeapSpec.Inv(h', TookNode(claims, ptr))
              && EventAt(h', ptr) == e
              && AgreeOutside(h, h', TookNode(claims, ptr)[Block(ptr)])
              && forall a :: a in claims ==> Disjoint(claims[a], TookNode(claims, ptr)[Block(ptr)])
  {
    var (h0, ptr) := Malloc(h, NODE_SIZE);
    MallocTouchesOnlyItsRun(h, claims, NODE_SIZE);
    if ptr != NULL {
      NodeFits(h);
      StoredEvent(h0, TookNode(claims, ptr), ptr, e);
    }
  }

  lemma RolesAfterPost(l: Ledger, pcs: seq<Pc>, rings: seq<seq<int>>, task: nat, ptr: int, e: Event, outcome: Outcome)
    requires ClaimsMatch(l, pcs) && RingsMatch(l.roles, rings) && HeldMatch(l.roles, pcs)
    requires task < |rings| == |l.accepted| && !BelowHeap(ptr) && Block(ptr) !in l.claims
    requires outcome == if |rings[task]| >= EventRing.RING_SIZE then Refused(ptr) else Accepted(ptr)
    ensures var l' := RecordPost(l, task, Posted(e, outcome));
            var rings' := if outcome.Accepted? then rings[task := rings[task] + [ptr]] else rings;
            ClaimsMatch(l', pcs) && RingsMatch(l'.roles, rings') && HeldMatch(l'.roles, pcs)
  {
  }

  lemma EventsOfLonger(h: Heap, ring: seq<int>, ptr: int)
    ensures Events(h, ring + [ptr]) == Events(h, ring) + [EventAt(h, ptr)]
  {
  }

  lemma LogAfterPost(m: State, e: Event)
    requires Inv(m)
    ensures NothingLost(PostEvent(m, e))
  {
    var m' := PostEvent(m, e);
    AllocatedNode(m.k.heap, m.ledger.claims, e);
    var ptr := Allocated(m.k.heap, e).1;
    if ptr != NULL {
      var run := TookNode(m.ledger.claims, ptr)[Block(ptr)];
      forall t | 0 <= t < N_TASKS
        ensures m'.ledger.accepted[t] == m'.ledger.taken[t] + Events(m'.k.heap, m'.k.rings[t])
      {
        EventsKept(m.k.heap, m'.k.heap, m.ledger.claims, run, m.k.rings[t]);
        EventsOfLonger(m'.k.heap, m.k.rings[t], ptr);
      }
    }
  }

  lemma PostKeeps(m: State, e: Event)
    requires Inv(m)
    ensures Inv(PostEvent(m, e))
  {
    AllocatedNode(m.k.heap, m.ledger.claims, e);
    LogAfterPost(m, e);
    var ptr := Allocated(m.k.heap, e).1;
    if ptr != NULL {
      RolesAfterPost(m.ledger, m.pcs, m.k.rings, m.Running(), ptr, e, PostOutcome(m.k, e));
    }
  }

  /** The expiry loop, whatever number of events it posts. */
  lemma {:induction false} ExpireKeeps(m: State)
    requires Inv(m)
    ensures var x := Expire(m.k);
            Inv(m.(k := x.k, ledger := RecordPosts(m.ledger, m.Running(), x.posts)))
    decreases |m.k.timers.list|
  {
    if HeadExpired(m.k.timers) {
      var t := m.k.timers.list[0];
      var m1 := m.(k := m.k.(timers := Pop(m.k.timers)));
      if t == m.k.switchTimer {
        ExpireKeeps(m1);
      } else {
        var e := Event(TIMER_EVENT, t);
        PostKeeps(m1, e);
        if !PostOutcome(m1.k, e).NoMemory? {
          ExpireKeeps(PostEvent(m1, e));
        }
      }
    }
  }

  lemma TickKeeps(m: State)
    requires Inv(m)
    ensures Inv(TickState(m))
  {
    ExpireKeeps(m.(k := Ticked(m.k)));
  }

  // ---- the running task ----

  /** The oldest node of a ring is not null. */
  lemma QueuedIsNotNull(m: State, t: nat)
    requires Inv(m) && t < N_TASKS && m.k.rings[t] != []
    ensures m.k.rings[t][0] != NULL && m.ledger.roles[m.k.rings[t][0]] == Queued(t)
  {
    var node := m.k.rings[t][0];
    assert node in m.k.rings[t];
    assert WellPlaced(m.k.heap, node, m.ledger.claims[Block(node)]);
  }

  lemma WithoutFirst(ring: seq<int>, p: int)
    requires ring != [] && NoRepeats(ring)
    ensures p in ring[1..] <==> p in ring && p != ring[0]
  {
    assert ring == [ring[0]] + ring[1..];
    if p in ring[1..] {
      var i :| 0 <= i < |ring[1..]| && ring[1..][i] == p;
      assert ring[i + 1] == p;
    }
  }

  lemma RolesAfterTake(roles: map<int, Role>, pcs: seq<Pc>, rings: seq<seq<int>>, t: nat)
    requires RingsMatch(roles, rings) && HeldMatch(roles, pcs)
    requires t < |rings| == |pcs| && pcs[t].AtLoop? && rings[t] != []
    ensures var node := rings[t][0];
            && RingsMatch(roles[node := Held(t)], rings[t := rings[t][1..]])
            && HeldMatch(roles[node := Held(t)], pcs[t := Handling(node)])
  {
    var node := rings[t][0];
    assert node in rings[t];
    var roles' := roles[node := Held(t)];
    var rings' := rings[t := rings[t][1..]];
    forall u, p | 0 <= u < |rings|
      ensures p in rings'[u] <==> p in roles' && roles'[p] == Queued(u)
    {
      assert p in rings[u] <==> p in roles && roles[p] == Queued(u);
      if u == t {
        WithoutFirst(rings[t], p);
      } else {
        assert rings'[u] == rings[u];
      }
    }
  }

  /** A task takes exactly the oldest event it was sent and has not taken yet. */
  lemma TakesOldest(m: State)
    requires Inv(m) && m.Pc().AtLoop? && m.k.rings[m.Running()] != []
    ensures var me := m.Running();
            var taken := m.ledger.taken[me];
            && |taken| < |m.ledger.accepted[me]|
            && TakeNext(m).ledger.taken[me] == taken + [m.ledger.accepted[me][|taken|]]
            && NothingLost(TakeNext(m))
  {
    var me := m.Running();
    var ring := m.k.rings[me];
    QueuedIsNotNull(m, me);
    assert Events(m.k.heap, ring) == [EventAt(m.k.heap, ring[0])] + Events(m.k.heap, ring[1..]);
  }

  lemma TakeKeeps(m: State)
    requires Inv(m) && m.Pc().AtLoop?
    ensures Inv(TakeNext(m))
  {
    var me := m.Running();
    if m.k.rings[me] != [] {
      QueuedIsNotNull(m, me);
      TakesOldest(m);
      RolesAfterTake(m.ledger.roles, m.pcs, m.k.rings, me);
    }
  }

  /** Entering k_free with a live block reaches the loop, with the block's own pages to
      clear; the two early returns of k_free are dead. */
  lemma FreeReachesLoop(h: Heap, claims: Claims, ptr: int)
    requires HeapSpec.Inv(h, claims) && Block(ptr) in claims
    ensures FreeRange(h, ptr) == Some(claims[Block(ptr)])
  {
    LiveBlockHeader(h, claims, ptr);
  }

  lemma RolesAfterBeginFree(l: Ledger, pcs: seq<Pc>, rings: seq<seq<int>>, me: nat, ptr: int)
    requires ClaimsMatch(l, pcs) && RingsMatch(l.roles, rings) && HeldMatch(l.roles, pcs)
    requires me < |pcs| && ptr in l.roles && Block(ptr) in l.claims && !pcs[me].Freeing?
    requires (l.roles[ptr] == Private && pcs[me].AtLoop?) || HeldNode(pcs[me]) == Some(ptr)
    ensures var run := l.claims[Block(ptr)];
            var l' := l.(claims := BeganFree(l.claims, ptr, me), roles := l.roles - {ptr});
            var pcs' := pcs[me := Freeing(run.lo, run.hi)];
            ClaimsMatch(l', pcs') && RingsMatch(l'.roles, rings) && HeldMatch(l'.roles, pcs')
  {
    assert HeldNode(pcs[me]) == Some(ptr) ==> l.roles[ptr] == Held(me);
  }

  lemma BeginFreeOwns(m: State, ptr: int)
    requires Inv(m) && ptr in m.ledger.roles
    requires (m.Pc().AtLoop? && m.ledger.roles[ptr] == Private) || HeldNode(m.Pc()) == Some(ptr)
    ensures Block(ptr) in m.ledger.claims
    ensures var run := m.ledger.claims[Block(ptr)];
            && BeginFree(m, ptr) == SetPc(m.(ledger := m.ledger.(
                                               claims := BeganFree(m.ledger.claims, ptr, m.Running()),
                                               roles := m.ledger.roles - {ptr})),
                                          Freeing(run.lo, run.hi))
            && Inv(BeginFree(m, ptr))
  {
    assert Block(ptr) in m.ledger.claims;
    FreeReachesLoop(m.k.heap, m.ledger.claims, ptr);
    BeginFreeKeeps(m.k.heap, m.ledger.claims, ptr, m.Running());
    RolesAfterBeginFree(m.ledger, m.pcs, m.k.rings, m.Running(), ptr);
  }

  lemma ClaimsAfterClear(l: Ledger, pcs: seq<Pc>, me: nat)
    requires ClaimsMatch(l, pcs) && HeldMatch(l.roles, pcs)
    requires me < |pcs| && pcs[me].Freeing? && Clearing(me) in l.claims && pcs[me].next < pcs[me].end
    ensures var pcs' := pcs[me := AfterClear(pcs[me].next + 1, pcs[me].end)];
            ClaimsMatch(l.(claims := Cleared(l.claims, me)), pcs') && HeldMatch(l.roles, pcs')
  {
  }

  /** One iteration of an interrupted k_free. */
  lemma ClearStepKeeps(m: State)
    requires Inv(m) && m.Pc().Freeing?
    ensures m.Pc().next < BITMAP_SIZE && Inv(ClearStep(m))
  {
    assert Clearing(m.Running()) in m.ledger.claims;
    ClearKeeps(m.k.heap, m.ledger.claims, m.Running());
    ClaimsAfterClear(m.ledger, m.pcs, m.Running());
  }

  // ---- the other steps ----

  lemma AllocateKeeps(m: State, size: nat)
    requires Inv(m) && ValidSize(size)
    ensures Inv(AllocatePrivate(m, size))
  {
    var m' := AllocatePrivate(m, size);
    MallocTouchesOnlyItsRun(m.k.heap, m.ledger.claims, size);
    var (h, ptr) := Malloc(m.k.heap, size);
    if ptr != NULL {
      var run := m'.ledger.claims[Block(ptr)];
      forall t | 0 <= t < N_TASKS
        ensures Events(m'.k.heap, m.k.rings[t]) == Events(m.k.heap, m.k.rings[t])
      {
        EventsKept(m.k.heap, h, m.ledger.claims, run, m.k.rings[t]);
      }
    }
  }

  lemma StoreIntoKeeps(m: State, ptr: int, addr: int, v: nat)
    requires Inv(m) && Enabled(m, StoreInto(ptr, addr, v))
    ensures Inv(Next(m, StoreInto(ptr, addr, v)))
  {
    var claims := m.ledger.claims;
    StoreKeeps(m.k.heap, claims, Block(ptr), addr, v);
    forall t | 0 <= t < N_TASKS
      ensures Events(StoreWord(m.k.heap, addr, v), m.k.rings[t]) == Events(m.k.heap, m.k.rings[t])
    {
      EventsKept(m.k.heap, StoreWord(m.k.heap, addr, v), claims, claims[Block(ptr)], m.k.rings[t]);
    }
  }

  lemma MakeTaskKeeps(m: State, size: nat)
    requires Inv(m) && ValidSize(size)
    requires forall t :: 0 <= t < N_TASKS && m.k.sched.status[t] == Unused ==> m.k.rings[t] == []
    ensures Inv(MakeTask(m, size))
  {
    AllocateKeeps(m, size);
    var t := TaskSpec.FirstUnused(m.k.sched.status, 0);
    if t >= 0 {
      assert m.k.rings[t := []] == m.k.rings;
    }
  }
}
