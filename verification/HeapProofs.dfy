/**
 What the heap promises: first fit, disjoint blocks, an exact bitmap, and that
 all of this survives when k_free is interrupted between any two of its stores.
 */
module HeapProofs {
  import opened Words
  import opened OptionType
  import opened HeapSpec

  // ---- first fit ----

  predicate Fits(bits: seq<int>, pages: nat, i: nat) {
    i + pages < BITMAP_SIZE && IsFree(bits, i, pages)
  }

  lemma {:induction false} FirstFitIsLeast(bits: seq<int>, pages: nat, from: nat)
    requires |bits| == BITMAP_SIZE
    ensures match FirstFit(bits, pages, from)
            case Some(i) =>
              from <= i && Fits(bits, pages, i) && forall j: nat :: from <= j < i ==> !Fits(bits, pages, j)
            case None => forall j: nat :: from <= j ==> !Fits(bits, pages, j)
    decreases BITMAP_SIZE - from
  {
    if from + pages < BITMAP_SIZE && !IsFree(bits, from, pages) {
      FirstFitIsLeast(bits, pages, from + 1);
    }
  }

  /** k_malloc returns the lowest run that fits, and NULL exactly when the request is
      rejected or nothing fits. */
  lemma MallocIsFirstFit(h: Heap, size: nat)
    requires h.Sized() && ValidSize(size)
    ensures var (h', ptr) := Malloc(h, size);
            if ptr == NULL then
              h' == h && (RealSize(size) >= HEAP_SIZE || forall i: nat :: !Fits(h.bits, Pages(size), i))
            else
              && RealSize(size) < HEAP_SIZE
              && ptr == PointerTo(BlockIndex(ptr)) && Fits(h.bits, Pages(size), BlockIndex(ptr))
              && forall i: nat :: i < BlockIndex(ptr) ==> !Fits(h.bits, Pages(size), i)
  {
    FirstFitIsLeast(h.bits, Pages(size), 0);
  }

  /** Every block lies behind the bitmap, which is four bytes for every page from 0x80C00000 on, and
      ends inside the heap; a request that would fill the heap is refused. */
  lemma BlocksLieBehindBitmap(h: Heap, size: nat)
    requires h.Sized() && ValidSize(size)
    ensures var ptr := Malloc(h, size).1;
            ptr != 0 ==>
              && 0x80C0_0000 + 4 * 0x10_0000 + 4 <= ptr
              && ptr - 4 + 512 * Pages(size) <= 0x80C0_0000 + 4 * 0x10_0000 + 512 * 0x10_0000
    ensures 512 * 0x10_0000 <= size + 4 < 0x1_0000_0000 ==> Malloc(h, size).1 == 0
  {
    hide Pages;
    if size + 4 < 0x1_0000_0000 {
      assert RealSize(size) == size + 4;
    }
    if RealSize(size) < HEAP_SIZE {
      match FirstFit(h.bits, Pages(size), 0) {
        case None =>
        case Some(i) =>
          assert Malloc(h, size).1 == PointerTo(i) && i + Pages(size) < BITMAP_SIZE;
      }
    }
  }

  /** The first n pages are taken and no others. */
  ghost predicate FilledTo(h: Heap, n: nat) {
    h.Sized() && forall k :: 0 <= k < BITMAP_SIZE ==> h.bits[k] == if k < n then 1 else 0
  }

  lemma FillsOn(h: Heap, n: nat, size: nat)
    requires FilledTo(h, n) && ValidSize(size) && RealSize(size) < HEAP_SIZE && n + Pages(size) < BITMAP_SIZE
    ensures Malloc(h, size).1 == PointerTo(n) && FilledTo(Malloc(h, size).0, n + Pages(size))
  {
    FirstFitIsLeast(h.bits, Pages(size), 0);
    assert Fits(h.bits, Pages(size), n);
    match FirstFit(h.bits, Pages(size), 0) {
      case Some(i) =>
        assert h.bits[i] == 0;
        assert i == n;
    }
  }

  /** A block of Pages(size) pages has room for the header and the payload exactly
      when the size computation did not wrap around. */
  lemma PayloadFitsUnlessWrapped(size: nat)
    requires ValidSize(size) && RealSize(size) < HEAP_SIZE
    ensures 4 + size <= Pages(size) * 512 <==> size + 4 < WORD_MODULUS
    ensures Pages(size) * 512 < RealSize(size) + PAGE_SIZE
  {
  }

  /** Three sizes do wrap: almost four gigabytes are granted as the one page that a request for a
      single byte gets. */
  lemma WrappedSizeGetsOnePage(h: Heap, size: nat)
    requires h.Sized() && WORD_MODULUS - 4 < size < WORD_MODULUS
    ensures Malloc(h, size) == Malloc(h, 1) && Pages(size) == 1
    ensures FirstFit(h.bits, 1, 0).Some? ==> Malloc(h, size).1 == PointerTo(FirstFit(h.bits, 1, 0).value)
  {
    assert RealSize(size) == size + 4 - 0x1_0000_0000;
    assert Pages(1) == 1;
  }

  /** The one excluded size needs no page.  When the uninitialised flag happens to be 1, k_malloc
      reserves no pages at page 0, as HeapArea.KMallocNoPages says: the block that begins there loses
      its page count, and k_free gives back none of its pages. */
  lemma HeaderIsLost(h: Heap, claims: Claims, ptr: int)
    requires Inv(h, claims) && Block(ptr) in claims && claims[Block(ptr)].lo == 0
    ensures RealSize(WORD_MODULUS - 4) == 0 && Pages(WORD_MODULUS - 4) == 0
    ensures var h' := Reserve(h, 0, 0);
            && h'.bits == h.bits && !Inv(h', claims)
            && SafeToFree(h', ptr) && Free(h', ptr) == h'
  {
    var h' := Reserve(h, 0, 0);
    assert WellPlaced(h, ptr, claims[Block(ptr)]);
    BlockAddresses(0);
    assert !WellPlaced(h', ptr, claims[Block(ptr)]);
    assert h'.bits == h.bits;
    assert SetRange(h'.bits, 0, 0, 0) == h'.bits;
  }

  /** k_free of any pointer: below the first payload, or with more pages than there are before it, it
      does nothing; otherwise it unmarks as many pages as the header word counts, from the
      page of that word on. */
  lemma FreesByHeader(h: Heap, ptr: int)
    requires h.Sized() && SafeToFree(h, ptr)
    ensures ptr < 0x8100_0004 ==> Free(h, ptr) == h
    ensures ptr >= 0x8100_0004 ==>
              var at := ptr - 4 - 0x8100_0000;
              && at / 4 < |h.words| && Free(h, ptr).words == h.words
              && var pages, first := h.words[at / 4], at / 512;
                 if pages > 0x10_0000 then Free(h, ptr) == h
                 else forall k :: 0 <= k < BITMAP_SIZE ==>
                   Free(h, ptr).bits[k] == if first <= k < first + pages then 0 else h.bits[k]
  {
  }

  // ---- the steps, and what they do to the claims ----

  /** The pages that k_free(ptr) sets out to clear: read once, before its loop. */
  function HeaderRun(h: Heap, ptr: int): Run
    requires h.Sized() && !BelowHeap(ptr) && WordIndex(ptr - 4) < HEAP_WORDS
  {
    Run(BlockIndex(ptr), BlockIndex(ptr) + h.words[WordIndex(ptr - 4)])
  }

  function Took(claims: Claims, ptr: int, pages: nat): Claims
    requires !BelowHeap(ptr)
  {
    claims[Block(ptr) := Run(BlockIndex(ptr), BlockIndex(ptr) + pages)]
  }

  function BeganFree(claims: Claims, ptr: int, task: nat): Claims
    requires Block(ptr) in claims
  {
    (claims - {Block(ptr)})[Clearing(task) := claims[Block(ptr)]]
  }

  function Cleared(claims: Claims, task: nat): Claims
    requires Clearing(task) in claims
  {
    var r := claims[Clearing(task)];
    if r.lo + 1 < r.hi then claims[Clearing(task) := Run(r.lo + 1, r.hi)] else claims - {Clearing(task)}
  }

  /** A run of free pages overlaps nothing that anybody claims. */
  lemma FreeRunIsApart(h: Heap, claims: Claims, i: nat, pages: nat)
    requires Inv(h, claims) && pages > 0 && Fits(h.bits, pages, i)
    ensures Block(PointerTo(i)) !in claims
    ensures forall a :: a in claims ==> Disjoint(claims[a], Run(i, i + pages))
  {
    forall a | a in claims ensures Disjoint(claims[a], Run(i, i + pages)) && a != Block(PointerTo(i)) {
      NotClaimedIsDisjoint(h, claims, a, Run(i, i + pages));
    }
  }

  lemma ReserveKeeps(h: Heap, claims: Claims, i: nat, pages: nat)
    requires Inv(h, claims) && pages > 0 && Fits(h.bits, pages, i)
    ensures !BelowHeap(PointerTo(i)) && Block(PointerTo(i)) !in claims
    ensures Inv(Reserve(h, i, pages), Took(claims, PointerTo(i), pages))
  {
    BlockAddresses(i);
    FreeRunIsApart(h, claims, i, pages);
    BitsAfterTaking(h, claims, i, pages);
    BlocksAfterTaking(h, claims, i, pages);
  }

  lemma BlocksAfterTaking(h: Heap, claims: Claims, i: nat, pages: nat)
    requires Inv(h, claims) && pages > 0 && i + pages < BITMAP_SIZE
    requires forall a :: a in claims ==> Disjoint(claims[a], Run(i, i + pages))
    requires !BelowHeap(PointerTo(i)) && BlockIndex(PointerTo(i)) == i
    ensures var claims' := Took(claims, PointerTo(i), pages);
            forall a :: a in claims' && a.Block? ==>
              claims'[a].lo < BITMAP_SIZE && WellPlaced(Reserve(h, i, pages), a.ptr, claims'[a])
  {
    var claims' := Took(claims, PointerTo(i), pages);
    forall a | a in claims' && a.Block?
      ensures claims'[a].lo < BITMAP_SIZE && WellPlaced(Reserve(h, i, pages), a.ptr, claims'[a])
    {
      if a != Block(PointerTo(i)) {
        assert WellPlaced(h, a.ptr, claims[a]);
        assert Disjoint(claims[a], Run(i, i + pages));
      }
    }
  }

  /** Allocation, at any moment whatever the interrupted tasks were doing: the new
      block takes no page that anybody claims. */
  lemma MallocKeeps(h: Heap, claims: Claims, size: nat)
    requires Inv(h, claims) && ValidSize(size)
    ensures var (h', ptr) := Malloc(h, size);
            ptr != NULL ==> !BelowHeap(ptr) && Block(ptr) !in claims && Inv(h', Took(claims, ptr, Pages(size)))
  {
    if RealSize(size) < HEAP_SIZE {
      FirstFitIsLeast(h.bits, Pages(size), 0);
      match FirstFit(h.bits, Pages(size), 0) {
        case None =>
        case Some(i) => ReserveKeeps(h, claims, i, Pages(size));
      }
    }
  }

  /** The bitmap after a run was taken for a block that nobody held. */
  lemma BitsAfterTaking(h: Heap, claims: Claims, i: nat, pages: nat)
    requires Inv(h, claims) && i < BITMAP_SIZE && Block(PointerTo(i)) !in claims
    requires !BelowHeap(PointerTo(i)) && BlockIndex(PointerTo(i)) == i
    ensures forall k :: 0 <= k < BITMAP_SIZE ==>
      Reserve(h, i, pages).bits[k] == if Claimed(Took(claims, PointerTo(i), pages), k) then 1 else 0
  {
    var claims' := Took(claims, PointerTo(i), pages);
    forall k | 0 <= k < BITMAP_SIZE
      ensures Reserve(h, i, pages).bits[k] == if Claimed(claims', k) then 1 else 0
    {
      if In(k, Run(i, i + pages)) {
        assert claims'[Block(PointerTo(i))] == Run(i, i + pages);
      } else {
        ClaimedElsewhere(claims, claims', Block(PointerTo(i)), k);
      }
    }
  }

  lemma NotClaimedIsDisjoint(h: Heap, claims: Claims, a: Holder, taken: Run)
    requires Inv(h, claims) && a in claims
    requires taken.lo < taken.hi <= BITMAP_SIZE && forall k :: taken.lo <= k < taken.hi ==> h.bits[k] == 0
    ensures Disjoint(claims[a], taken)
    ensures a.Block? ==> a.ptr != PointerTo(taken.lo)
  {
    var k := if claims[a].lo <= taken.lo then taken.lo else claims[a].lo;
    assert In(k, claims[a]) ==> Claimed(claims, k);
    assert a.Block? ==> WellPlaced(h, a.ptr, claims[a]);
  }

  lemma ClaimedElsewhere(claims: Claims, claims': Claims, changed: Holder, k: int)
    requires forall a :: a != changed ==> (a in claims <==> a in claims') && (a in claims ==> claims[a] == claims'[a])
    requires changed in claims ==> !In(k, claims[changed])
    requires changed in claims' ==> !In(k, claims'[changed])
    ensures Claimed(claims, k) <==> Claimed(claims', k)
  {
    if Claimed(claims, k) {
      var a :| a in claims && In(k, claims[a]);
      assert a in claims' && In(k, claims'[a]);
    }
    if Claimed(claims', k) {
      var a :| a in claims' && In(k, claims'[a]);
      assert a in claims && In(k, claims[a]);
    }
  }

  /** k_free finds a live block's own run in its header. */
  lemma LiveBlockHeader(h: Heap, claims: Claims, ptr: int)
    requires Inv(h, claims) && Block(ptr) in claims
    ensures SafeToFree(h, ptr) && !BelowHeap(ptr) && h.words[WordIndex(ptr - 4)] <= BITMAP_SIZE
    ensures HeaderRun(h, ptr) == claims[Block(ptr)]
  {
    var r := claims[Block(ptr)];
    assert WellPlaced(h, ptr, r);
    BlockAddresses(r.lo);
  }

  /** Entering k_free: both early returns are dead for a live block, the range to
      clear is the block's own run, and the pages pass from the block to the task. */
  lemma BeginFreeKeeps(h: Heap, claims: Claims, ptr: int, task: nat)
    requires Inv(h, claims) && Block(ptr) in claims && Clearing(task) !in claims
    ensures SafeToFree(h, ptr) && !BelowHeap(ptr) && h.words[WordIndex(ptr - 4)] <= BITMAP_SIZE
    ensures HeaderRun(h, ptr) == claims[Block(ptr)]
    ensures Inv(h, BeganFree(claims, ptr, task))
  {
    var r := claims[Block(ptr)];
    LiveBlockHeader(h, claims, ptr);
    var claims' := BeganFree(claims, ptr, task);
    forall k | 0 <= k < BITMAP_SIZE
      ensures Claimed(claims', k) == Claimed(claims, k)
    {
      if In(k, r) {
        assert In(k, claims[Block(ptr)]) && In(k, claims'[Clearing(task)]);
      } else {
        var without := claims - {Block(ptr)};
        ClaimedElsewhere(claims, without, Block(ptr), k);
        ClaimedElsewhere(without, claims', Clearing(task), k);
      }
    }
  }

  /** One iteration of k_free's loop clears a page that only this task claims. */
  lemma ClearKeeps(h: Heap, claims: Claims, task: nat)
    requires Inv(h, claims) && Clearing(task) in claims
    ensures Inv(ClearPage(h, claims[Clearing(task)].lo), Cleared(claims, task))
  {
    var me := Clearing(task);
    var lo := claims[me].lo;
    var h' := ClearPage(h, lo);
    var claims' := Cleared(claims, task);
    forall k | 0 <= k < BITMAP_SIZE
      ensures h'.bits[k] == if Claimed(claims', k) then 1 else 0
    {
      if k == lo {
        forall a | a in claims' ensures !In(k, claims'[a]) {
          if a != me {
            assert Disjoint(claims[a], claims[me]);
          }
        }
      } else if In(k, claims[me]) {
        assert In(k, claims'[me]);
      } else {
        ClaimedElsewhere(claims, claims', me, k);
      }
    }
    forall a | a in claims' && a.Block? ensures WellPlaced(h', a.ptr, claims'[a]) {
      assert WellPlaced(h, a.ptr, claims[a]);
    }
  }

  /** The payload of a block: every word of its run but the first. */
  predicate InPayload(r: Run, addr: int) {
    addr % 4 == 0 && PointerTo(r.lo) <= addr < HEAP_BASE + r.hi * 512
  }

  lemma StoreKeeps(h: Heap, claims: Claims, owner: Holder, addr: int, v: nat)
    requires Inv(h, claims) && owner in claims && InPayload(claims[owner], addr)
    ensures 0 <= WordIndex(addr) < HEAP_WORDS && Inv(StoreWord(h, addr, v), claims)
    ensures forall other, a :: other in claims && other != owner && InPayload(claims[other], a) ==>
              WordIndex(a) != WordIndex(addr)
  {
    var h' := StoreWord(h, addr, v);
    forall a | a in claims && a.Block? ensures WellPlaced(h', a.ptr, claims[a]) {
      assert WellPlaced(h, a.ptr, claims[a]);
      assert a != owner ==> Disjoint(claims[a], claims[owner]);
    }
    forall other, a | other in claims && other != owner && InPayload(claims[other], a)
      ensures WordIndex(a) != WordIndex(addr)
    {
      assert Disjoint(claims[other], claims[owner]);
    }
  }

  // ---- an uninterrupted k_free is the run of its iterations ----

  function ClearFrom(bits: seq<int>, lo: nat, hi: nat): seq<int>
    requires hi <= |bits|
    decreases hi - lo
  {
    if lo >= hi then bits else ClearFrom(bits[lo := 0], lo + 1, hi)
  }

  lemma {:induction false} StepsOfFree(bits: seq<int>, lo: nat, hi: nat)
    requires lo <= hi <= |bits|
    ensures ClearFrom(bits, lo, hi) == SetRange(bits, lo, hi, 0)
    decreases hi - lo
  {
    if lo < hi {
      StepsOfFree(bits[lo := 0], lo + 1, hi);
    }
  }

  lemma DropClaim(h: Heap, claims: Claims, a: Holder)
    requires Inv(h, claims) && a in claims
    ensures Inv(h.(bits := SetRange(h.bits, claims[a].lo, claims[a].hi, 0)), claims - {a})
  {
    var r := claims[a];
    var claims' := claims - {a};
    var h' := h.(bits := SetRange(h.bits, r.lo, r.hi, 0));
    forall k | 0 <= k < BITMAP_SIZE
      ensures h'.bits[k] == if Claimed(claims', k) then 1 else 0
    {
      if In(k, r) {
        forall b | b in claims' ensures !In(k, claims'[b]) {
          assert Disjoint(claims[b], r);
        }
      } else {
        ClaimedElsewhere(claims, claims', a, k);
      }
    }
    forall b | b in claims' && b.Block? ensures WellPlaced(h', b.ptr, claims'[b]) {
      assert WellPlaced(h, b.ptr, claims[b]);
    }
  }

  /** k_free of a live block, run to completion, gives back exactly that block. */
  lemma FreeKeeps(h: Heap, claims: Claims, ptr: int)
    requires Inv(h, claims) && Block(ptr) in claims
    ensures SafeToFree(h, ptr) && Inv(Free(h, ptr), claims - {Block(ptr)})
  {
    LiveBlockHeader(h, claims, ptr);
    DropClaim(h, claims, Block(ptr));
  }

  // ---- accounting ----

  function Marked(bits: seq<int>): nat {
    if bits == [] then 0 else Marked(bits[..|bits| - 1]) + if bits[|bits| - 1] != 0 then 1 else 0
  }

  ghost function TotalPages(claims: Claims): int {
    if claims == map[] then 0
    else
      var a :| a in claims;
      claims[a].hi - claims[a].lo + TotalPages(claims - {a})
  }

  lemma {:induction false} MarkedAfterClear(bits: seq<int>, lo: nat, hi: nat)
    requires lo <= hi <= |bits| && forall k :: lo <= k < hi ==> bits[k] != 0
    ensures Marked(SetRange(bits, lo, hi, 0)) == Marked(bits) - (hi - lo)
    decreases |bits|
  {
    if bits != [] {
      var n := |bits| - 1;
      var rest := bits[..n];
      var hi' := if hi <= n then hi else n;
      var lo' := if lo <= n then lo else n;
      MarkedAfterClear(rest, lo', hi');
      assert SetRange(bits, lo, hi, 0)[..n] == SetRange(rest, lo', hi', 0);
    }
  }

  lemma {:induction false} NothingMarked(bits: seq<int>)
    requires forall k :: 0 <= k < |bits| ==> bits[k] == 0
    ensures Marked(bits) == 0
  {
    if bits != [] {
      NothingMarked(bits[..|bits| - 1]);
    }
  }

  /** The number of marked pages is the sum of the sizes of the claimed runs. */
  lemma {:induction false} MarkedPagesAreClaims(h: Heap, claims: Claims)
    requires Inv(h, claims)
    ensures Marked(h.bits) == TotalPages(claims)
    decreases |claims|
  {
    if claims == map[] {
      NothingMarked(h.bits);
    } else {
      var a :| a in claims && TotalPages(claims) == claims[a].hi - claims[a].lo + TotalPages(claims - {a});
      var r := claims[a];
      forall k | r.lo <= k < r.hi ensures h.bits[k] != 0 {
        assert In(k, claims[a]);
      }
      MarkedAfterClear(h.bits, r.lo, r.hi);
      DropClaim(h, claims, a);
      MarkedPagesAreClaims(h.(bits := SetRange(h.bits, r.lo, r.hi, 0)), claims - {a});
    }
  }

  /** When every block is freed and every k_free has finished, the bitmap is as at boot. */
  lemma EverythingFreed(h: Heap)
    requires Inv(h, map[])
    ensures h.bits == seq(BITMAP_SIZE, _ => 0)
  {
    assert forall k :: 0 <= k < BITMAP_SIZE ==> !Claimed(map[], k);
  }
}
