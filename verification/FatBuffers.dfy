/**
 The buffers that get_next_cluster never frees: every cluster that read_file goes on to takes
 another buffer for the first FAT, until k_malloc has no run of pages for it.
 */
module FatBuffers {
  import opened Words
  import opened HeapSpec
  import opened HeapProofs
  import opened Fat16Spec
  import Fat16Proofs
  import opened OptionType

  /** The size that get_next_cluster asks for. */
  function BufferSize(b: BootSector): nat
    requires b.bytesPerSector > 0 && b.fatCopies > 0
  {
    FirstFatSize(b) * 512
  }

  /** The heap after so many calls of get_next_cluster. */
  function AfterCalls(h: Heap, size: nat, calls: nat): (r: Heap)
    requires h.Sized() && ValidSize(size)
    ensures r.Sized()
    decreases calls
  {
    if calls == 0 then h else AfterCalls(Malloc(h, size).0, size, calls - 1)
  }

  /** The call after so many others gets a buffer. */
  predicate Granted(h: Heap, size: nat, calls: nat)
    requires h.Sized() && ValidSize(size)
  {
    Malloc(AfterCalls(h, size, calls), size).1 != NULL
  }

  // ---- how many runs of pages a heap has room for ----

  /** Taking from page from on every run of free pages as soon as there is one. */
  function Room(bits: seq<int>, pages: nat, from: nat): nat
    requires |bits| == BITMAP_SIZE && pages > 0
    decreases BITMAP_SIZE - from
  {
    if from + pages >= BITMAP_SIZE then 0
    else if IsFree(bits, from, pages) then 1 + Room(bits, pages, from + pages)
    else Room(bits, pages, from + 1)
  }

  /** Runs of free pages, none of them overlapping another. */
  ghost predicate Apart(bits: seq<int>, pages: nat, starts: seq<nat>) {
    && (forall k :: 0 <= k < |starts| ==> Fits(bits, pages, starts[k]))
    && (forall j, k :: 0 <= j < k < |starts| ==> starts[j] + pages <= starts[k])
  }

  /** No choice of runs is larger than that. */
  lemma {:induction false} RoomIsMost(bits: seq<int>, pages: nat, from: nat, starts: seq<nat>)
    requires |bits| == BITMAP_SIZE && pages > 0 && Apart(bits, pages, starts)
    requires starts != [] ==> from <= starts[0]
    ensures |starts| <= Room(bits, pages, from)
    decreases BITMAP_SIZE - from
  {
    if starts != [] && from + pages < BITMAP_SIZE {
      if IsFree(bits, from, pages) {
        RoomIsMost(bits, pages, from + pages, starts[1..]);
      } else {
        RoomIsMost(bits, pages, from + 1, starts);
      }
    }
  }

  /** And one is as large. */
  lemma {:induction false} RoomIsReached(bits: seq<int>, pages: nat, from: nat) returns (starts: seq<nat>)
    requires |bits| == BITMAP_SIZE && pages > 0
    ensures Apart(bits, pages, starts) && |starts| == Room(bits, pages, from)
    ensures starts != [] ==> from <= starts[0]
    decreases BITMAP_SIZE - from
  {
    starts := [];
    if from + pages < BITMAP_SIZE {
      if IsFree(bits, from, pages) {
        var rest := RoomIsReached(bits, pages, from + pages);
        starts := [from] + rest;
      } else {
        starts := RoomIsReached(bits, pages, from + 1);
      }
    }
  }

  // ---- one buffer ----

  lemma {:induction false} FirstOfRoom(bits: seq<int>, pages: nat, from: nat)
    requires |bits| == BITMAP_SIZE && pages > 0
    ensures match FirstFit(bits, pages, from)
            case None => Room(bits, pages, from) == 0
            case Some(i) => Room(bits, pages, from) == 1 + Room(bits, pages, i + pages)
    decreases BITMAP_SIZE - from
  {
    if from + pages < BITMAP_SIZE && !IsFree(bits, from, pages) {
      FirstOfRoom(bits, pages, from + 1);
    }
  }

  lemma {:induction false} NothingBetween(bits: seq<int>, pages: nat, from: nat, to: nat)
    requires |bits| == BITMAP_SIZE && pages > 0 && from <= to
    requires forall i: nat :: from <= i < to ==> !Fits(bits, pages, i)
    ensures Room(bits, pages, from) == Room(bits, pages, to)
    decreases BITMAP_SIZE - from
  {
    if from < to && from + pages < BITMAP_SIZE {
      assert !Fits(bits, pages, from);
      NothingBetween(bits, pages, from + 1, to);
    }
  }

  lemma {:induction false} SameBehind(bits: seq<int>, bits': seq<int>, pages: nat, from: nat)
    requires |bits| == |bits'| == BITMAP_SIZE && pages > 0
    requires forall k :: from <= k < BITMAP_SIZE ==> bits[k] == bits'[k]
    ensures Room(bits, pages, from) == Room(bits', pages, from)
    decreases BITMAP_SIZE - from
  {
    if from + pages < BITMAP_SIZE {
      if IsFree(bits, from, pages) {
        SameBehind(bits, bits', pages, from + pages);
      } else {
        SameBehind(bits, bits', pages, from + 1);
      }
    }
  }

  lemma StillTaken(bits: seq<int>, pages: nat, i: nat, f: nat)
    requires |bits| == BITMAP_SIZE && f < i + pages && (f < i ==> !Fits(bits, pages, f))
    ensures !Fits(SetRange(bits, i, i + pages, 1), pages, f)
  {
    var bits' := SetRange(bits, i, i + pages, 1);
    if f + pages < BITMAP_SIZE {
      if f < i {
        var k :| f <= k < f + pages && bits[k] != 0;
        assert bits'[k] != 0;
      } else {
        assert bits'[f] == 1;
      }
    }
  }

  /** Taking the first run leaves room for one less. */
  lemma TakenFromRoom(bits: seq<int>, pages: nat, i: nat)
    requires |bits| == BITMAP_SIZE && pages > 0 && FirstFit(bits, pages, 0) == Some(i)
    ensures Room(bits, pages, 0) == 1 + Room(SetRange(bits, i, i + pages, 1), pages, 0)
  {
    hide Room, FirstFit, IsFree;
    var bits' := SetRange(bits, i, i + pages, 1);
    FirstFitIsLeast(bits, pages, 0);
    forall f: nat | f < i + pages ensures !Fits(bits', pages, f) {
      StillTaken(bits, pages, i, f);
    }
    NothingBetween(bits', pages, 0, i + pages);
    SameBehind(bits, bits', pages, i + pages);
    FirstOfRoom(bits, pages, 0);
  }

  lemma PagesAreSome(size: nat)
    requires ValidSize(size)
    ensures Pages(size) > 0
  {
  }

  /** What k_malloc makes of the bitmap. */
  lemma BitsAfterMalloc(h: Heap, size: nat)
    requires h.Sized() && ValidSize(size) && RealSize(size) < HEAP_SIZE
    ensures match FirstFit(h.bits, Pages(size), 0)
            case None => Malloc(h, size) == (h, NULL)
            case Some(i) =>
              && Malloc(h, size).1 != NULL
              && Malloc(h, size).0.bits == SetRange(h.bits, i, i + Pages(size), 1)
  {
    hide Pages, RealSize, FirstFit;
  }

  /** A call takes the first run of the room, if there is one. */
  lemma OneCall(h: Heap, size: nat, pages: nat)
    requires h.Sized() && ValidSize(size) && RealSize(size) < HEAP_SIZE && pages == Pages(size) && pages > 0
    ensures if Malloc(h, size).1 == NULL then Malloc(h, size).0 == h && Room(h.bits, pages, 0) == 0
            else Room(h.bits, pages, 0) == 1 + Room(Malloc(h, size).0.bits, pages, 0)
  {
    hide Pages, RealSize, Room, FirstFit, Malloc, SetRange;
    BitsAfterMalloc(h, size);
    FirstOfRoom(h.bits, pages, 0);
    var run := FirstFit(h.bits, pages, 0);
    if run.Some? {
      TakenFromRoom(h.bits, pages, run.value);
    }
  }

  // ---- reading a file ----

  lemma {:induction false} GrantedWhileRoom(h: Heap, size: nat, pages: nat, calls: nat)
    requires h.Sized() && ValidSize(size) && RealSize(size) < HEAP_SIZE && pages == Pages(size) && pages > 0
    ensures Granted(h, size, calls) <==> calls < Room(h.bits, pages, 0)
    decreases calls
  {
    hide Pages, RealSize, Room, Malloc;
    OneCall(h, size, pages);
    if calls > 0 {
      GrantedWhileRoom(Malloc(h, size).0, size, pages, calls - 1);
    }
  }

  /** Every heap, however many gaps it has, grants exactly as many buffers as it has room for. */
  lemma GrantedIff(h: Heap, size: nat, calls: nat)
    requires h.Sized() && ValidSize(size) && RealSize(size) < HEAP_SIZE
    ensures Pages(size) > 0 && (Granted(h, size, calls) <==> calls < Room(h.bits, Pages(size), 0))
  {
    PagesAreSome(size);
    GrantedWhileRoom(h, size, Pages(size), calls);
  }

  lemma BufferIsValid(v: Volume)
    requires v.Mountable()
    ensures ValidSize(BufferSize(v.boot)) && RealSize(BufferSize(v.boot)) < HEAP_SIZE && Pages(BufferSize(v.boot)) > 0
    ensures BufferSize(v.boot) == 512 * v.boot.sectorsPerFat
  {
    FatIsShort(v.Read(0, 1));
    DividesOut(v.boot.fatCopies, v.boot.sectorsPerFat);
    SmallRequest(BufferSize(v.boot));
  }

  lemma FatIsShort(sector: seq<Byte>)
    requires |sector| == 512
    ensures ParseBootSector(sector).sectorsPerFat < 0x1_0000
  {
  }

  lemma DividesOut(a: nat, b: nat)
    requires a > 0
    ensures a * b / a == b
  {
    Fat16Proofs.Quotient(a * b, a, b, 0);
  }

  lemma SmallRequest(size: nat)
    requires size < 0x200_0000
    ensures ValidSize(size) && RealSize(size) < HEAP_SIZE && Pages(size) > 0
  {
  }

  /** Reading a file gets a buffer for the link of cluster number calls if and only if there are
      more runs of free pages, none overlapping another, than that. */
  lemma ClustersUntilFull(v: Volume, h: Heap, calls: nat)
    requires v.Mountable() && h.Sized()
    ensures var size := BufferSize(v.boot);
            size == 512 * v.boot.sectorsPerFat && ValidSize(size) &&
            (Granted(h, size, calls) <==> exists starts :: Apart(h.bits, Pages(size), starts) && |starts| > calls)
  {
    BufferIsValid(v);
    var size := BufferSize(v.boot);
    GrantedIff(h, size, calls);
    if calls < Room(h.bits, Pages(size), 0) {
      var starts := RoomIsReached(h.bits, Pages(size), 0);
    }
    forall starts | Apart(h.bits, Pages(size), starts) && |starts| > calls ensures Granted(h, size, calls) {
      RoomIsMost(h.bits, Pages(size), 0, starts);
    }
  }

  /** In a heap filled up to page n that is the number of times the pages fit behind page n, the last
      page of the heap aside. */
  lemma RoomBehind(h: Heap, n: nat, pages: nat)
    requires FilledTo(h, n) && n < BITMAP_SIZE && pages > 0
    ensures Room(h.bits, pages, 0) == (BITMAP_SIZE - 1 - n) / pages
  {
    forall i: nat | i < n ensures !Fits(h.bits, pages, i) {
      assert h.bits[i] == 1;
    }
    NothingBetween(h.bits, pages, 0, n);
    RoomInFree(h.bits, pages, n);
  }

  lemma {:induction false} RoomInFree(bits: seq<int>, pages: nat, from: nat)
    requires |bits| == BITMAP_SIZE && pages > 0 && from < BITMAP_SIZE
    requires forall k :: from <= k < BITMAP_SIZE ==> bits[k] == 0
    ensures Room(bits, pages, from) == (BITMAP_SIZE - 1 - from) / pages
    decreases BITMAP_SIZE - from
  {
    var rest := BITMAP_SIZE - 1 - from;
    if rest < pages {
      Fat16Proofs.Quotient(rest, pages, 0, rest);
    } else {
      RoomInFree(bits, pages, from + pages);
      var q, r := (rest - pages) / pages, (rest - pages) % pages;
      assert rest == pages * (q + 1) + r by { assert pages * (q + 1) == pages * q + pages; }
      Fat16Proofs.Quotient(rest, pages, q + 1, r);
    }
  }
}
