/**
 A run from boot on which an event node leaks: nobody takes the keys that arrive, the ring of the
 running task fills up, and the next node is refused.
 */
module UnreadKeys {
  import opened HeapSpec
  import opened HeapProofs
  import opened TimerSpec
  import opened KernelSpec
  import opened Machine
  import opened KernelRuns
  import opened Shortage
  import opened Boot
  import opened EventBlocks
  import opened Starvation
  import EventRing

  /** The pages that the two stacks of the first tasks take. */
  const STACK_PAGES: nat := 146

  /** After so many keys that nobody took, the ring holds them all and nothing has leaked. */
  ghost predicate Unread(m: State, keys: nat) {
    Calm(m, STACK_PAGES + keys) && |Ring(m.k)| == keys && LeakedBlocks(m.ledger.roles) == {}
  }

  lemma BootIsUnread()
    ensures Unread(BootState(), 0)
  {
    BootIsCalm();
    BootRing();
    BootLeaksNothing();
  }

  lemma BootLeaksNothing()
    ensures LeakedBlocks(BootState().ledger.roles) == {}
  {
    BootIsGood();
    assert forall p :: p in BootState().ledger.roles ==> BootState().ledger.roles[p] == Private;
  }

  lemma KeyStays(m: State, keys: nat)
    requires Unread(m, keys) && keys < EventRing.RING_SIZE
    ensures Enabled(m, Key(0)) && Unread(Next(m, Key(0)), keys + 1)
  {
    KeyArrives(m, STACK_PAGES + keys);
    StepLeaks(m, Key(0));
  }

  lemma {:induction false} ManyKeys(m: State, acts: seq<Action>, keys: nat, more: nat) returns (r: seq<Action>)
    requires m.Sized() && Legal(m, acts) && Unread(Exec(m, acts), keys) && keys + more <= EventRing.RING_SIZE
    ensures Legal(m, r) && Unread(Exec(m, r), keys + more)
    decreases more
  {
    hide Next, Enabled, Unread;
    r := acts;
    if more > 0 {
      KeyStays(Exec(m, acts), keys);
      OneMore(m, acts, Key(0));
      r := ManyKeys(m, acts + [Key(0)], keys + 1, more - 1);
    }
  }

  lemma SomeSpare(h: Heap, n: nat)
    requires FilledTo(h, n) && n + 1 < BITMAP_SIZE
    ensures Spare(h) > 0
  {
    TakenPage(h.bits[..BITMAP_SIZE - 1], n);
  }

  /** A state whose ring is full: nothing has leaked yet, and the next key leaks its node. */
  ghost predicate LeaksNext(m: State)
    requires m.Sized()
  {
    && LeakedBlocks(m.ledger.roles) == {} && Enabled(m, Key(0))
    && LeakedBlocks(Next(m, Key(0)).ledger.roles) != {}
  }

  lemma FullRingLeaks(m: State)
    requires Unread(m, EventRing.RING_SIZE)
    ensures LeaksNext(m)
  {
    SomeSpare(m.k.heap, STACK_PAGES + EventRing.RING_SIZE);
    StepLeaks(m, Key(0));
  }

  lemma FromUnread(m: State) returns (acts: seq<Action>)
    requires Unread(m, 0)
    ensures Legal(m, acts) && LeaksNext(Exec(m, acts))
  {
    acts := ManyKeys(m, [], 0, EventRing.RING_SIZE);
    FullRingLeaks(Exec(m, acts));
  }

  /** Such a state can be reached: 1024 keys that no task takes, and the next one leaks. */
  lemma UnreadKeysLeak()
    ensures exists m :: Reachable(m) && m.Sized() && LeaksNext(m)
  {
    BootIsUnread();
    var acts := FromUnread(BootState());
    assert Reachable(Exec(BootState(), acts));
  }
}
