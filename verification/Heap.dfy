/**
 The page-run heap of k_heap.c.  A bitmap holds one int per 512-byte page; a
 block is a run of pages whose first word is the number of pages in the run.
 All stores that the kernel makes into the heap are aligned 32-bit words, so
 heap memory is an array of words, 128 to a page.
 */
module HeapSpec {
  import opened Words
  import opened OptionType

  const PAGE_SIZE := 512
  const BITMAP_SIZE: nat := 0x10_0000
  const HEAP_SIZE: nat := 0x2000_0000
  const HEAP_WORDS: nat := 0x800_0000
  // KERNEL_HEAP_START_ADDR (0x80C00000) plus the four megabytes of the bitmap
  const HEAP_BASE := 0x8100_0000
  const NULL := 0

  /** What the heap is at one moment: the bitmap and the words behind it. */
  datatype Heap = Heap(bits: seq<int>, words: seq<nat>) {
    predicate Sized() {
      |bits| == BITMAP_SIZE && |words| == HEAP_WORDS
    }
  }

  // ---- k_malloc ----

  /** A size the caller can pass: an unsigned int, except the one value whose
      block would have no pages, for which k_malloc reads an uninitialised flag. */
  predicate ValidSize(size: nat) {
    size < WORD_MODULUS && size != WORD_MODULUS - 4
  }

  /** The request plus its header word, in 32-bit arithmetic. */
  function RealSize(size: nat): nat {
    (size + 4) % 0x1_0000_0000
  }

  function Pages(size: nat): nat {
    RealSize(size) / 512 + if RealSize(size) % 512 == 0 then 0 else 1
  }

  predicate IsFree(bits: seq<int>, lo: nat, pages: nat) {
    lo + pages <= |bits| && forall k :: lo <= k < lo + pages ==> bits[k] == 0
  }

  /** Naive first fit: try every index in turn. */
  function FirstFit(bits: seq<int>, pages: nat, from: nat): (r: Option<nat>)
    requires |bits| == BITMAP_SIZE
    ensures r.Some? ==> r.value + pages < BITMAP_SIZE
    decreases BITMAP_SIZE - from
  {
    if from + pages >= BITMAP_SIZE then None
    else if IsFree(bits, from, pages) then Some(from)
    else FirstFit(bits, pages, from + 1)
  }

  function SetRange(bits: seq<int>, lo: nat, hi: nat, v: int): (r: seq<int>)
    ensures |r| == |bits|
    ensures forall k :: 0 <= k < |bits| ==> r[k] == if lo <= k < hi then v else bits[k]
  {
    seq(|bits|, k requires 0 <= k < |bits| => if lo <= k < hi then v else bits[k])
  }

  function PointerTo(index: nat): int {
    HEAP_BASE + index * 512 + 4
  }

  /** Take a run of free pages: mark them and write the header. */
  function Reserve(h: Heap, i: nat, pages: nat): (r: Heap)
    requires h.Sized() && i < BITMAP_SIZE
    ensures r.Sized()
  {
    Heap(SetRange(h.bits, i, i + pages, 1), h.words[i * 128 := pages])
  }

  function Malloc(h: Heap, size: nat): (r: (Heap, int))
    requires h.Sized() && ValidSize(size)
    ensures r.0.Sized()
  {
    if RealSize(size) >= HEAP_SIZE then (h, NULL)
    else
      match FirstFit(h.bits, Pages(size), 0)
      case None => (h, NULL)
      case Some(i) => (Reserve(h, i, Pages(size)), PointerTo(i))
  }

  // ---- k_free ----

  function WordIndex(addr: int): int {
    (addr - HEAP_BASE) / 4
  }

  /** The address k_free takes the page count from is below the heap. */
  predicate BelowHeap(ptr: int) {
    ptr - 4 < HEAP_BASE
  }

  /** k_free(ptr) reads and writes only where the heap is. */
  predicate SafeToFree(h: Heap, ptr: int)
    requires h.Sized()
  {
    BelowHeap(ptr) ||
    (&& ptr % 4 == 0
     && WordIndex(ptr - 4) < HEAP_WORDS
     && var pages := h.words[WordIndex(ptr - 4)];
        pages > BITMAP_SIZE || BlockIndex(ptr) + pages <= BITMAP_SIZE)
  }

  function BlockIndex(ptr: int): int {
    (ptr - 4 - HEAP_BASE) / 512
  }

  function Free(h: Heap, ptr: int): (r: Heap)
    requires h.Sized() && SafeToFree(h, ptr)
    ensures r.Sized()
  {
    if BelowHeap(ptr) then h
    else
      var pages := h.words[WordIndex(ptr - 4)];
      if pages > BITMAP_SIZE then h
      else h.(bits := SetRange(h.bits, BlockIndex(ptr), BlockIndex(ptr) + pages, 0))
  }

  lemma Quotient(x: int, q: int, r: int)
    requires x == 4 * q + r && 0 <= r < 4
    ensures x / 4 == q && x % 4 == r
  {
  }

  lemma PageQuotient(x: int, q: int)
    requires x == 512 * q
    ensures x / 512 == q
  {
  }

  /** Where the words of a block lie. */
  lemma BlockAddresses(lo: nat)
    requires lo < BITMAP_SIZE
    ensures !BelowHeap(PointerTo(lo)) && PointerTo(lo) % 4 == 0 && BlockIndex(PointerTo(lo)) == lo
    ensures WordIndex(PointerTo(lo) - 4) == lo * 128
    ensures WordIndex(PointerTo(lo)) == lo * 128 + 1
    ensures WordIndex(PointerTo(lo) + 4) == lo * 128 + 2
    ensures lo * 128 + 127 < HEAP_WORDS
  {
    Quotient(PointerTo(lo), 0x2040_0000 + lo * 128 + 1, 0);
    Quotient(PointerTo(lo) - 4 - HEAP_BASE, lo * 128, 0);
    Quotient(PointerTo(lo) - HEAP_BASE, lo * 128 + 1, 0);
    Quotient(PointerTo(lo) + 4 - HEAP_BASE, lo * 128 + 2, 0);
    PageQuotient(PointerTo(lo) - 4 - HEAP_BASE, lo);
  }

  // ---- single stores ----

  function ClearPage(h: Heap, i: nat): Heap
    requires i < |h.bits|
  {
    h.(bits := h.bits[i := 0])
  }

  function StoreWord(h: Heap, addr: int, v: nat): Heap
    requires 0 <= WordIndex(addr) < |h.words|
  {
    h.(words := h.words[WordIndex(addr) := v])
  }

  /** A word of the heap; 0 stands for whatever lies outside. */
  function WordAt(h: Heap, i: int): nat {
    if 0 <= i < |h.words| then h.words[i] else 0
  }

  // ---- who holds which pages ----

  /** Pages lo, ..., hi - 1. */
  datatype Run = Run(lo: nat, hi: nat)

  /** A block that was allocated and not yet given to k_free, or the pages that a
      task inside k_free's loop has still to clear. */
  datatype Holder = Block(ptr: int) | Clearing(task: nat)

  type Claims = map<Holder, Run>

  predicate Disjoint(a: Run, b: Run) {
    a.hi <= b.lo || b.hi <= a.lo
  }

  predicate In(k: int, r: Run) {
    r.lo <= k < r.hi
  }

  ghost predicate Claimed(claims: Claims, k: int) {
    exists a :: a in claims && In(k, claims[a])
  }

  /** Runs are disjoint, the bitmap marks exactly the pages of the runs, and every
      block starts with its page count. */
  ghost predicate Inv(h: Heap, claims: Claims) {
    && h.Sized()
    && (forall a :: a in claims ==> claims[a].lo < claims[a].hi < BITMAP_SIZE)
    && (forall a, b :: a in claims && b in claims && a != b ==> Disjoint(claims[a], claims[b]))
    && (forall k :: 0 <= k < BITMAP_SIZE ==> h.bits[k] == if Claimed(claims, k) then 1 else 0)
    && (forall a :: a in claims && a.Block? ==> WellPlaced(h, a.ptr, claims[a]))
  }

  predicate WellPlaced(h: Heap, ptr: int, r: Run)
    requires h.Sized() && r.lo < BITMAP_SIZE
  {
    ptr == PointerTo(r.lo) && h.words[r.lo * 128] == r.hi - r.lo
  }
}
