/** k_heap.c itself: the two loops over the bitmap, in place. */
module KHeap {
  import opened OptionType
  import opened HeapSpec

  /** Starting at any candidate before a marked page can be skipped: every run that
      begins there and is long enough to reach the page contains it. */
  lemma {:induction false} SkipToAfter(bits: seq<int>, pages: nat, from: nat, marked: nat)
    requires |bits| == BITMAP_SIZE
    requires from <= marked < from + pages && marked < BITMAP_SIZE && bits[marked] != 0
    ensures FirstFit(bits, pages, from) == FirstFit(bits, pages, marked + 1)
    decreases marked - from
  {
    if from + pages < BITMAP_SIZE {
      assert !IsFree(bits, from, pages);
      if from < marked {
        SkipToAfter(bits, pages, from + 1, marked);
      }
    }
  }

  class HeapArea {
    const heapAlloc: array<int>
    const words: array<nat>

    ghost predicate Valid()
      reads this, heapAlloc, words
    {
      heapAlloc.Length == BITMAP_SIZE && words.Length == HEAP_WORDS && heapAlloc as object != words
    }

    ghost function View(): Heap
      reads this, heapAlloc, words
    {
      Heap(heapAlloc[..], words[..])
    }

    /** The heap at boot: memory the boot loader left zero. */
    constructor ()
      ensures Valid() && fresh(heapAlloc) && fresh(words)
      ensures View() == Heap(seq(BITMAP_SIZE, _ => 0), seq(HEAP_WORDS, _ => 0))
    {
      heapAlloc := new int[BITMAP_SIZE](_ => 0);
      words := new nat[HEAP_WORDS](_ => 0);
    }

    /** The scan of k_malloc: on a marked page at offset j the search resumes j + 1
        pages further, not one. */
    method FindRun(pages: nat) returns (r: Option<nat>)
      requires Valid() && 0 < pages <= BITMAP_SIZE
      ensures r == FirstFit(heapAlloc[..], pages, 0)
    {
      var found: bool := *;
      var i: nat := 0;
      while i < BITMAP_SIZE - pages
        invariant FirstFit(heapAlloc[..], pages, 0) == FirstFit(heapAlloc[..], pages, i)
      {
        i, found := TryRun(pages, i, found);
        if found { return Some(i); }
      }
      return None;
    }

    /** The inner loop: whether the pages from i on are free, and where to go on if not.  With no
        pages to look at, position and flag stay what they were. */
    method TryRun(pages: nat, i: nat, flag: bool) returns (i': nat, found: bool)
      requires Valid() && i + pages <= BITMAP_SIZE
      ensures pages == 0 ==> i' == i && found == flag
      ensures pages > 0 && found ==> i' == i && IsFree(heapAlloc[..], i, pages)
      ensures pages > 0 && !found ==> i < i' <= BITMAP_SIZE
      ensures pages > 0 && !found ==> FirstFit(heapAlloc[..], pages, i) == FirstFit(heapAlloc[..], pages, i')
    {
      i', found := i, flag;
      var j := 0;
      while j < pages
        invariant j <= pages && i' == i
        invariant if j > 0 then found else found == flag
        invariant forall k :: i <= k < i + j ==> heapAlloc[k] == 0
      {
        found := true;
        if heapAlloc[i + j] != 0 {
          found := false;
          SkipToAfter(heapAlloc[..], pages, i, i + j);
          i' := i + (j + 1);
          break;
        }
        j := j + 1;
      }
    }

    /** k_malloc of 2^32 - 4, which needs no page, stopped after so many rounds of its outer loop;
        flag says whether the uninitialised variable found happens to be 1.  If it does, the header 0
        is stored into page 0 and no page is marked.  If not, k_malloc has changed nothing and not
        come to an end, however many rounds it has made. */
    method KMallocNoPages(flag: bool, rounds: nat) returns (ptr: Option<int>)
      requires Valid()
      modifies heapAlloc, words
      ensures Valid()
      ensures ptr == if flag && rounds > 0 then Some(PointerTo(0)) else None
      ensures View() == if flag && rounds > 0 then Reserve(old(View()), 0, 0) else old(View())
    {
      var realSize := (0xFFFF_FFFC + 4) % 0x1_0000_0000;
      var pages: nat := realSize / 512;
      var i, found, n := 0, flag, 0;
      while i < BITMAP_SIZE - pages && n < rounds
        invariant i == 0 && found == flag && n <= rounds
        invariant View() == old(View()) && (n > 0 ==> !flag)
        decreases rounds - n
      {
        i, found := TryRun(pages, i, found);
        if found {
          var p := TakeRun(i, pages);
          return Some(p);
        }
        n := n + 1;
      }
      return None;
    }

    method KMalloc(size: nat) returns (ptr: int)
      requires Valid() && ValidSize(size)
      modifies heapAlloc, words
      ensures Valid() && (View(), ptr) == Malloc(old(View()), size)
    {
      var realSize := (size + 4) % 0x1_0000_0000;
      if realSize >= HEAP_SIZE { return NULL; }
      var pages: nat := realSize / 512;
      pages := pages + if realSize % 512 == 0 then 0 else 1;

      assert realSize == RealSize(size) && pages == Pages(size);
      var run := FindRun(pages);
      if run.None? { return NULL; }
      ptr := TakeRun(run.value, pages);
    }

    /** The end of k_malloc: write the header word, mark the pages. */
    method TakeRun(i: nat, pages: nat) returns (ptr: int)
      requires Valid() && i < BITMAP_SIZE && i + pages <= BITMAP_SIZE
      modifies heapAlloc, words
      ensures Valid() && ptr == PointerTo(i) && View() == Reserve(old(View()), i, pages)
    {
      ptr := HEAP_BASE + i * 512;
      words[(ptr - HEAP_BASE) / 4] := pages;
      ptr := ptr + 4;
      for j := 0 to pages
        invariant heapAlloc[..] == SetRange(old(heapAlloc[..]), i, i + j, 1)
        invariant words[..] == old(words[..])[i * 128 := pages]
      {
        heapAlloc[i + j] := 1;
      }
    }

    /** A store through a pointer into the heap. */
    method Store(addr: int, v: nat)
      requires Valid() && 0 <= WordIndex(addr) < HEAP_WORDS
      modifies words
      ensures Valid() && View() == StoreWord(old(View()), addr, v)
    {
      words[(addr - HEAP_BASE) / 4] := v;
    }

    method KFree(ptr: int)
      requires Valid() && SafeToFree(View(), ptr)
      modifies heapAlloc
      ensures Valid() && View() == Free(old(View()), ptr)
    {
      var p := ptr - 4;
      if p < HEAP_BASE { return; }
      var pages := words[(p - HEAP_BASE) / 4];
      if pages > BITMAP_SIZE { return; }
      var allocIndex := (p - HEAP_BASE) / 512;
      for i := allocIndex to allocIndex + pages
        invariant heapAlloc[..] == SetRange(old(heapAlloc[..]), allocIndex, i, 0)
      {
        heapAlloc[i] := 0;
      }
    }
  }
}
