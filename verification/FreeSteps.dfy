/** The iterations of k_free, one machine step each, add up to an uninterrupted k_free. */
module FreeSteps {
  import opened OptionType
  import opened HeapSpec
  import opened HeapProofs
  import opened KernelSpec
  import opened Machine
  import BlockSafety
  import Ownership

  function Clears(n: nat): seq<Action> {
    if n == 0 then [] else [ClearOne] + Clears(n - 1)
  }

  /** The steps can be taken, leave the kernel k and the running task at its event loop. */
  ghost predicate RunsTo(m: State, acts: seq<Action>, k: Kernel) {
    m.Sized() && Legal(m, acts) && Exec(m, acts).k == k && Exec(m, acts).Pc() == AtLoop
  }

  lemma RunsOn(m: State, n: nat, k: Kernel)
    requires m.Sized() && Enabled(m, ClearOne) && RunsTo(Next(m, ClearOne), Clears(n), k)
    ensures RunsTo(m, Clears(n + 1), k)
  {
    assert Clears(n + 1)[1..] == Clears(n);
  }

  lemma RunsNowhere(m: State)
    requires m.Sized() && m.Pc() == AtLoop
    ensures RunsTo(m, Clears(0), m.k)
  {
  }

  function Clean(k: Kernel, lo: nat, hi: nat): Kernel
    requires hi <= |k.heap.bits|
  {
    k.(heap := k.heap.(bits := ClearFrom(k.heap.bits, lo, hi)))
  }

  /** One step clears the page and goes on behind it. */
  lemma OneClear(m: State, lo: nat, hi: nat)
    requires m.Sized() && lo < hi <= BITMAP_SIZE && m.Pc() == Freeing(lo, hi)
    ensures Enabled(m, ClearOne) && Next(m, ClearOne).Pc() == AfterClear(lo + 1, hi)
    ensures Clean(Next(m, ClearOne).k, lo + 1, hi) == Clean(m.k, lo, hi)
  {
  }

  lemma LastClear(m: State, lo: nat)
    requires m.Sized() && lo < BITMAP_SIZE && m.Pc() == Freeing(lo, lo + 1)
    ensures RunsTo(m, Clears(1), Clean(m.k, lo, lo + 1))
  {
    OneClear(m, lo, lo + 1);
    RunsNowhere(Next(m, ClearOne));
    RunsOn(m, 0, Next(m, ClearOne).k);
  }

  /** From any point of the loop, the rest of its n steps clears the rest of its pages. */
  lemma {:induction false} ClearRun(m: State, lo: nat, n: nat)
    requires m.Sized() && n > 0 && lo + n <= BITMAP_SIZE && m.Pc() == Freeing(lo, lo + n)
    ensures RunsTo(m, Clears(n), Clean(m.k, lo, lo + n))
    decreases n
  {
    if n == 1 {
      LastClear(m, lo);
    } else {
      OneClear(m, lo, lo + n);
      ClearRun(Next(m, ClearOne), lo + 1, n - 1);
      RunsOn(m, n - 1, Clean(Next(m, ClearOne).k, lo + 1, lo + n));
    }
  }

  lemma CleanIsFree(k: Kernel, lo: nat, hi: nat)
    requires lo <= hi <= |k.heap.bits|
    ensures Clean(k, lo, hi) == k.(heap := k.heap.(bits := SetRange(k.heap.bits, lo, hi, 0)))
  {
    StepsOfFree(k.heap.bits, lo, hi);
  }

  lemma BeginsFree(m: State, a: Action, ptr: int)
    requires Ownership.Inv(m) && Enabled(m, a) && BlockSafety.Frees(m, a, ptr)
    ensures Next(m, a) == BeginFree(m, ptr) && ptr in m.ledger.roles
    ensures (m.Pc().AtLoop? && m.ledger.roles[ptr] == Private) || Ownership.HeldNode(m.Pc()) == Some(ptr)
  {
    assert a == FinishEvent ==> Ownership.HeldNode(m.Pc()) == Some(ptr);
  }

  lemma HeapAfterFree(h: Heap, claims: Claims, ptr: int)
    requires HeapSpec.Inv(h, claims) && Block(ptr) in claims
    ensures SafeToFree(h, ptr) && claims[Block(ptr)].lo < claims[Block(ptr)].hi <= BITMAP_SIZE
    ensures Free(h, ptr) == h.(bits := SetRange(h.bits, claims[Block(ptr)].lo, claims[Block(ptr)].hi, 0))
  {
    LiveBlockHeader(h, claims, ptr);
  }

  lemma LoopFrees(m: State, run: Run, h: Heap)
    requires m.Sized() && run.lo < run.hi <= BITMAP_SIZE && m.Pc() == Freeing(run.lo, run.hi)
    requires h == m.k.heap.(bits := SetRange(m.k.heap.bits, run.lo, run.hi, 0))
    ensures RunsTo(m, Clears(run.hi - run.lo), m.k.(heap := h))
  {
    ClearRun(m, run.lo, run.hi - run.lo);
    CleanIsFree(m.k, run.lo, run.hi);
  }

  /** A step that enters k_free with a live block stands at the first of its pages. */
  lemma Entered(m: State, a: Action, ptr: int)
    requires Ownership.Inv(m) && Enabled(m, a) && BlockSafety.Frees(m, a, ptr)
    ensures Block(ptr) in m.ledger.claims && SafeToFree(m.k.heap, ptr)
    ensures Next(m, a).k == m.k && EntersLoop(Next(m, a), m.ledger.claims[Block(ptr)], ptr)
  {
    BeginsFree(m, a, ptr);
    Ownership.BeginFreeOwns(m, ptr);
    HeapAfterFree(m.k.heap, m.ledger.claims, ptr);
  }

  ghost predicate EntersLoop(m: State, run: Run, ptr: int) {
    && m.Sized() && run.lo < run.hi <= BITMAP_SIZE && m.Pc() == Freeing(run.lo, run.hi)
    && SafeToFree(m.k.heap, ptr)
    && Free(m.k.heap, ptr) == m.k.heap.(bits := SetRange(m.k.heap.bits, run.lo, run.hi, 0))
  }

  /** From there the steps of the loop leave the heap of an uninterrupted k_free and the task at
      its event loop. */
  lemma FreeIsItsSteps(m: State, run: Run, ptr: int)
    requires EntersLoop(m, run, ptr)
    ensures RunsTo(m, Clears(run.hi - run.lo), m.k.(heap := Free(m.k.heap, ptr)))
  {
    LoopFrees(m, run, Free(m.k.heap, ptr));
  }
}
