/** A live block keeps its pages and its contents until somebody frees it. */
module BlockSafety {
  import opened OptionType
  import opened HeapSpec
  import opened TimerSpec
  import opened TaskSpec
  import opened KernelSpec
  import opened Machine
  import opened KernelRuns
  import HeapProofs
  import Ownership

  /** The words of the run, header included, are the same in both heaps. */
  ghost predicate SameWords(h: Heap, h': Heap, r: Run) {
    && |h.words| == |h'.words|
    && forall i :: r.lo * 128 <= i < r.hi * 128 && 0 <= i < |h.words| ==> h'.words[i] == h.words[i]
  }

  /** The block is there in both states, with the same pages and the same contents. */
  ghost predicate Survives(m: State, m': State, ptr: int) {
    && Block(ptr) in m.ledger.claims && Block(ptr) in m'.ledger.claims
    && m'.ledger.claims[Block(ptr)] == m.ledger.claims[Block(ptr)]
    && SameWords(m.k.heap, m'.k.heap, m.ledger.claims[Block(ptr)])
  }

  lemma OutsideIsSame(h: Heap, h': Heap, r: Run, s: Run)
    requires Ownership.AgreeOutside(h, h', r) && Disjoint(s, r)
    ensures SameWords(h, h', s)
  {
  }

  lemma SurvivesPost(m: State, e: Event, ptr: int)
    requires Ownership.Inv(m) && Block(ptr) in m.ledger.claims
    ensures Survives(m, PostEvent(m, e), ptr)
  {
    Ownership.AllocatedNode(m.k.heap, m.ledger.claims, e);
    var (h', node) := Allocated(m.k.heap, e);
    if node != NULL {
      OutsideIsSame(m.k.heap, h', TookNode(m.ledger.claims, node)[Block(node)], m.ledger.claims[Block(ptr)]);
    }
  }

  lemma {:induction false} SurvivesExpire(m: State, ptr: int)
    requires Ownership.Inv(m) && Block(ptr) in m.ledger.claims
    ensures var x := Expire(m.k);
            Survives(m, m.(k := x.k, ledger := RecordPosts(m.ledger, m.Running(), x.posts)), ptr)
    decreases |m.k.timers.list|
  {
    if HeadExpired(m.k.timers) {
      var m1 := m.(k := m.k.(timers := Pop(m.k.timers)));
      if m.k.timers.list[0] == m.k.switchTimer {
        SurvivesExpire(m1, ptr);
      } else {
        var e := Event(TIMER_EVENT, m.k.timers.list[0]);
        SurvivesPost(m1, e, ptr);
        Ownership.PostKeeps(m1, e);
        if !PostOutcome(m1.k, e).NoMemory? {
          SurvivesExpire(PostEvent(m1, e), ptr);
        }
      }
    }
  }

  lemma SurvivesAllocate(m: State, size: nat, ptr: int)
    requires Ownership.Inv(m) && ValidSize(size) && Block(ptr) in m.ledger.claims
    ensures Survives(m, AllocatePrivate(m, size), ptr)
  {
    Ownership.MallocTouchesOnlyItsRun(m.k.heap, m.ledger.claims, size);
    var (h', p) := Malloc(m.k.heap, size);
    if p != NULL {
      OutsideIsSame(m.k.heap, h', TookBlock(m.ledger.claims, p, size)[Block(p)], m.ledger.claims[Block(ptr)]);
    }
  }

  lemma SurvivesStore(m: State, owner: int, addr: int, v: nat, ptr: int)
    requires Ownership.Inv(m) && Enabled(m, StoreInto(owner, addr, v))
    requires Block(ptr) in m.ledger.claims && ptr != owner
    ensures Survives(m, Next(m, StoreInto(owner, addr, v)), ptr)
  {
    var r := m.ledger.claims[Block(owner)];
    assert Disjoint(m.ledger.claims[Block(ptr)], r);
  }

  lemma SurvivesFreeing(m: State, other: int, ptr: int)
    requires Ownership.Inv(m) && other in m.ledger.roles && ptr != other && Block(ptr) in m.ledger.claims
    requires (m.Pc().AtLoop? && m.ledger.roles[other] == Private) || Ownership.HeldNode(m.Pc()) == Some(other)
    ensures Survives(m, BeginFree(m, other), ptr)
  {
    Ownership.BeginFreeOwns(m, other);
  }

  predicate Frees(m: State, a: Action, ptr: int)
    requires m.Sized()
  {
    a == DropBlock(ptr) || (a == FinishEvent && m.Pc().Handling? && m.Pc().node == ptr)
  }

  predicate Writes(a: Action, ptr: int) {
    a.StoreInto? && a.ptr == ptr
  }

  /** One step of anybody, an iteration of somebody's k_free included. */
  lemma SurvivesStep(m: State, a: Action, ptr: int)
    requires Ownership.Inv(m) && Enabled(m, a) && Block(ptr) in m.ledger.claims
    requires !Frees(m, a, ptr) && !Writes(a, ptr)
    ensures Survives(m, Next(m, a), ptr)
  {
    match a {
      case TimerTick => SurvivesExpire(m.(k := Ticked(m.k)), ptr);
      case Key(ch) => SurvivesPost(m, Event(KEYBOARD_EVENT, ch), ptr);
      case Mouse(data) => SurvivesPost(m, Event(MOUSE_EVENT, data), ptr);
      case FinishEvent =>
        assert Ownership.HeldNode(m.Pc()) == Some(m.Pc().node);
        SurvivesFreeing(m, m.Pc().node, ptr);
      case DropBlock(other) => SurvivesFreeing(m, other, ptr);
      case StoreInto(owner, addr, v) => SurvivesStore(m, owner, addr, v, ptr);
      case NewBlock(size) => SurvivesAllocate(m, size, ptr);
      case NewTask(size) => SurvivesAllocate(m, size, ptr);
      case _ =>
    }
  }

  /** No step of the run frees the block or stores into it. */
  predicate LeavesAlone(m: State, acts: seq<Action>, ptr: int)
    requires m.Sized() && Legal(m, acts)
    decreases acts
  {
    acts == [] ||
    (!Frees(m, acts[0], ptr) && !Writes(acts[0], ptr) && LeavesAlone(Next(m, acts[0]), acts[1..], ptr))
  }

  /** Over any run, whatever is allocated, freed or half freed meanwhile, a block that
      nobody frees or writes keeps all its pages marked and all its words. */
  lemma {:induction false} BlockIsSafe(m: State, acts: seq<Action>, ptr: int)
    requires Good(m) && Legal(m, acts) && Block(ptr) in m.ledger.claims && LeavesAlone(m, acts, ptr)
    ensures Survives(m, Exec(m, acts), ptr)
    ensures var r := m.ledger.claims[Block(ptr)];
            forall k :: r.lo <= k < r.hi ==> 0 <= k < BITMAP_SIZE && Exec(m, acts).k.heap.bits[k] == 1
    decreases acts
  {
    var r := m.ledger.claims[Block(ptr)];
    if acts == [] {
      forall k | r.lo <= k < r.hi ensures k < BITMAP_SIZE && m.k.heap.bits[k] == 1 {
        assert In(k, m.ledger.claims[Block(ptr)]);
      }
    } else {
      SurvivesStep(m, acts[0], ptr);
      StepKeeps(m, acts[0]);
      BlockIsSafe(Next(m, acts[0]), acts[1..], ptr);
    }
  }

  /** At every moment of every run: live blocks and half-freed rests are pairwise
      disjoint, the bitmap marks exactly their pages, and the count of marked pages is
      the sum of their sizes. */
  lemma BitmapIsExact(m: State, acts: seq<Action>)
    requires Good(m) && Legal(m, acts)
    ensures var m' := Exec(m, acts);
            && (forall a, b :: a in m'.ledger.claims && b in m'.ledger.claims && a != b ==>
                  Disjoint(m'.ledger.claims[a], m'.ledger.claims[b]))
            && (forall k :: 0 <= k < BITMAP_SIZE ==>
                  (m'.k.heap.bits[k] != 0 <==> exists a :: a in m'.ledger.claims && In(k, m'.ledger.claims[a])))
            && HeapProofs.Marked(m'.k.heap.bits) == HeapProofs.TotalPages(m'.ledger.claims)
  {
    RunKeeps(m, acts);
    var m' := Exec(m, acts);
    HeapProofs.MarkedPagesAreClaims(m'.k.heap, m'.ledger.claims);
    forall k | 0 <= k < BITMAP_SIZE
      ensures m'.k.heap.bits[k] != 0 <==> exists a :: a in m'.ledger.claims && In(k, m'.ledger.claims[a])
    {
      assert m'.k.heap.bits[k] == if Claimed(m'.ledger.claims, k) then 1 else 0;
    }
  }
}
