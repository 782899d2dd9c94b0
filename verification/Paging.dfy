/** 32-bit paging as the processor reads it (Intel SDM volume 3A, section 4.3), and the
    tables that kernel_bootstrap.nas means to build. */
module PagingSpec {
  const PAGE_DIR := 0x0840_0000

  /** Access rights are those that both the directory entry and the table entry grant. */
  datatype Walk = Fault | Mapped(physical: int, writable: bool, user: bool) | Outside

  predicate Present(entry: nat) {
    entry % 2 == 1
  }

  predicate Writable(entry: nat) {
    entry / 2 % 2 == 1
  }

  predicate User(entry: nat) {
    entry / 4 % 2 == 1
  }

  function Frame(entry: nat): nat {
    entry / 0x1000 * 0x1000
  }

  /** The page walk for a linear address, with the directory at PAGE_DIR.  Memory is given as
      double words from PAGE_DIR on; a walk that leaves them is Outside. */
  function Translate(memory: seq<nat>, linear: nat): Walk
    requires |memory| >= 1024 && linear < 0x1_0000_0000
  {
    var pde := memory[linear / 0x40_0000];
    var table := (Frame(pde) - PAGE_DIR) / 4;
    if !Present(pde) then Fault
    else if table < 0 || table + 1024 > |memory| then Outside
    else
      var pte := memory[table + linear / 0x1000 % 1024];
      if !Present(pte) then Fault
      else Mapped(Frame(pte) + linear % 0x1000, Writable(pde) && Writable(pte), User(pde) && User(pte))
  }

  /** Where linear addresses lead once paging is on.  The last 4 MB of the identity range share
      their table with the first 4 MB of the kernel. */
  function Mapping(linear: nat): Walk {
    if linear < 0x0FC0_0000 then Mapped(linear, true, true)
    else if linear < 0x1000_0000 then Mapped(0x0800_0000 + (linear - 0x0FC0_0000), true, false)
    else if 0x8000_0000 <= linear < 0x8800_0000 then Mapped(0x0800_0000 + (linear - 0x8000_0000), true, false)
    else Fault
  }

  // ---- the contents of the tables, as far as the bootstrap fills them ----

  predicate IdentityDirectory(memory: seq<nat>)
    requires |memory| >= 0x2_0000
  {
    forall i :: 0 <= i < 0x40 ==> memory[i] == PAGE_DIR + 0x1000 + 0x1000 * i + 0xF
  }

  predicate KernelDirectory(memory: seq<nat>)
    requires |memory| >= 0x2_0000
  {
    forall i :: 0x200 <= i < 0x220 ==> memory[i] == PAGE_DIR + 0x4_0000 + 0x1000 * (i - 0x200) + 0x3
  }

  ghost predicate RestOfDirectory(memory: seq<nat>)
    requires |memory| >= 0x2_0000
  {
    forall i :: 0x40 <= i < 0x200 || 0x220 <= i < 0x400 ==> memory[i] == 0
  }

  /** Page i of the identity tables, in the tables before number 63. */
  predicate IdentityTables(memory: seq<nat>)
    requires |memory| >= 0x2_0000
  {
    forall i :: 0x400 <= i < 0x1_0000 ==> memory[i] == 0x1000 * (i - 0x400) + 0xF
  }

  predicate KernelTables(memory: seq<nat>)
    requires |memory| >= 0x2_0000
  {
    forall i :: 0x1_0000 <= i < 0x2_0000 ==> memory[i] == 0x0800_0000 + 0x1000 * (i - 0x1_0000) + 0x3
  }

  ghost predicate Built(memory: seq<nat>) {
    && |memory| >= 0x2_0000
    && IdentityDirectory(memory) && KernelDirectory(memory) && RestOfDirectory(memory)
    && IdentityTables(memory) && KernelTables(memory)
  }

  // ---- the walk through these tables ----

  /** The lowest three bits of an entry say that it is present, writable and for users. */
  lemma FlagBits(present: nat, writable: nat, user: nat, rest: nat)
    requires present < 2 && writable < 2 && user < 2
    ensures var entry := present + 2 * writable + 4 * user + 8 * rest;
            && (Present(entry) <==> present == 1) && (Writable(entry) <==> writable == 1)
            && (User(entry) <==> user == 1)
  {
  }

  /** An entry is a frame and twelve bits of flags. */
  lemma EntryBits(entry: nat, page: nat, flags: nat)
    requires entry == 0x1000 * page + flags && flags < 0x1000
    ensures Frame(entry) == 0x1000 * page && Present(entry) == Present(flags)
    ensures Writable(entry) == Writable(flags) && User(entry) == User(flags)
  {
    Halved(entry, 0x800 * page, flags);
    Halved(entry / 2, 0x400 * page, flags / 2);
    Quartered(entry, 0x400 * page, flags);
    Halved(entry / 4, 0x200 * page, flags / 4);
    FrameOf(entry, page, flags);
  }

  lemma Halved(value: nat, high: nat, low: nat)
    requires value == 2 * high + low
    ensures value % 2 == low % 2 && value / 2 == high + low / 2
  {
  }

  lemma Quartered(value: nat, high: nat, low: nat)
    requires value == 4 * high + low
    ensures value / 4 == high + low / 4
  {
  }

  lemma FrameOf(value: nat, page: nat, flags: nat)
    requires value == 0x1000 * page + flags && flags < 0x1000
    ensures Frame(value) == 0x1000 * page
  {
  }

  /** A linear address is a directory index, a table index and an offset. */
  lemma AddressParts(linear: nat) returns (d: nat, t: nat, offset: nat)
    ensures linear == 0x40_0000 * d + 0x1000 * t + offset && t < 1024 && offset < 0x1000
    ensures d == linear / 0x40_0000 && t == linear / 0x1000 % 1024 && offset == linear % 0x1000
  {
    d, t, offset := linear / 0x40_0000, linear / 0x1000 % 1024, linear % 0x1000;
  }

  /** The walk through table number n after the directory to page frame p. */
  lemma WalkThrough(memory: seq<nat>, linear: nat, n: nat, f: nat, p: nat, g: nat)
    requires linear < 0x1_0000_0000 && f < 0x1000 && g < 0x1000 && Present(f) && Present(g)
    requires 1024 <= 1024 * n + 1024 <= |memory|
    requires memory[linear / 0x40_0000] == PAGE_DIR + 0x1000 * n + f
    requires memory[1024 * n + linear / 0x1000 % 1024] == 0x1000 * p + g
    ensures Translate(memory, linear)
            == Mapped(0x1000 * p + linear % 0x1000, Writable(f) && Writable(g), User(f) && User(g))
  {
    EntryBits(memory[linear / 0x40_0000], 0x8400 + n, f);
    EntryBits(memory[1024 * n + linear / 0x1000 % 1024], p, g);
  }

  lemma IdentityWalk(memory: seq<nat>, linear: nat)
    requires Built(memory) && linear < 0x0FC0_0000
    ensures Translate(memory, linear) == Mapped(linear, true, true)
  {
    var d, t, offset := AddressParts(linear);
    assert d < 63;
    assert memory[d] == PAGE_DIR + 0x1000 * (d + 1) + 0xF;
    assert memory[1024 * (d + 1) + t] == 0x1000 * (1024 * d + t) + 0xF;
    WalkThrough(memory, linear, d + 1, 0xF, 1024 * d + t, 0xF);
  }

  lemma SharedTableWalk(memory: seq<nat>, linear: nat)
    requires Built(memory) && 0x0FC0_0000 <= linear < 0x1000_0000
    ensures Translate(memory, linear) == Mapped(0x0800_0000 + (linear - 0x0FC0_0000), true, false)
  {
    var d, t, offset := AddressParts(linear);
    assert d == 63;
    assert memory[d] == PAGE_DIR + 0x1000 * 64 + 0xF;
    assert memory[1024 * 64 + t] == 0x1000 * (0x8000 + t) + 0x3;
    WalkThrough(memory, linear, 64, 0xF, 0x8000 + t, 0x3);
  }

  lemma KernelWalk(memory: seq<nat>, linear: nat)
    requires Built(memory) && 0x8000_0000 <= linear < 0x8800_0000
    ensures Translate(memory, linear) == Mapped(0x0800_0000 + (linear - 0x8000_0000), true, false)
  {
    var d, t, offset := AddressParts(linear);
    assert 0x200 <= d < 0x220;
    var k := d - 0x200;
    assert memory[d] == PAGE_DIR + 0x1000 * (64 + k) + 0x3;
    assert memory[1024 * (64 + k) + t] == 0x1000 * (0x8000 + 1024 * k + t) + 0x3;
    WalkThrough(memory, linear, 64 + k, 0x3, 0x8000 + 1024 * k + t, 0x3);
  }

  lemma UnmappedWalk(memory: seq<nat>, linear: nat)
    requires Built(memory) && linear < 0x1_0000_0000
    requires 0x1000_0000 <= linear < 0x8000_0000 || 0x8800_0000 <= linear
    ensures Translate(memory, linear) == Fault
  {
    assert memory[linear / 0x40_0000] == 0;
  }

  /** The tables map every linear address as Mapping says. */
  lemma EveryAddress(memory: seq<nat>, linear: nat)
    requires Built(memory) && linear < 0x1_0000_0000
    ensures Translate(memory, linear) == Mapping(linear)
  {
    if linear < 0x0FC0_0000 {
      IdentityWalk(memory, linear);
    } else if linear < 0x1000_0000 {
      SharedTableWalk(memory, linear);
    } else if 0x8000_0000 <= linear < 0x8800_0000 {
      KernelWalk(memory, linear);
    } else {
      UnmappedWalk(memory, linear);
    }
  }

  /** Two linear addresses share a byte of memory exactly when they are the same address, or
      one is the kernel's view of the other's physical page: the kernel range covers the
      physical memory from 128 MB to 256 MB again. */
  lemma SharedMemory(memory: seq<nat>, a: nat, b: nat)
    requires Built(memory) && a < b < 0x1_0000_0000
    requires Translate(memory, a).Mapped? && Translate(memory, b).Mapped?
    ensures Translate(memory, a).physical == Translate(memory, b).physical <==>
            || (a < 0x0FC0_0000 && b == a + 0x7800_0000 && a >= 0x0800_0000)
            || (a < 0x0FC0_0000 && b == a + 0x07C0_0000 && a >= 0x0800_0000 && b < 0x1000_0000)
            || (0x0FC0_0000 <= a < 0x1000_0000 && b == a + 0x7040_0000)
  {
    EveryAddress(memory, a);
    EveryAddress(memory, b);
  }
}

/** The fill loops of kernel_bootstrap.nas, on memory from PAGE_DIR on. */
module Bootstrap {
  import opened PagingSpec

  /** rep stosd: the whole directory becomes zero. */
  method ClearDirectory(memory: array<nat>)
    requires memory.Length >= 0x2_0000
    modifies memory
    ensures forall i :: 0 <= i < 0x400 ==> memory[i] == 0
    ensures forall i :: 0x400 <= i < memory.Length ==> memory[i] == old(memory[i])
  {
    var edi, ecx := 0, 1024;
    while ecx != 0
      invariant 0 <= ecx && edi + ecx == 1024
      invariant forall i :: 0 <= i < edi ==> memory[i] == 0
      invariant forall i :: 0x400 <= i < memory.Length ==> memory[i] == old(memory[i])
    {
      memory[edi] := 0;
      edi, ecx := edi + 1, ecx - 1;
    }
  }

  /** One of the four loops: entries from ecx up to end, each a page further than the one before. */
  method Fill(memory: array<nat>, esi: nat, first: nat, end: nat, value: nat)
    requires first <= end && esi + end <= memory.Length
    modifies memory
    ensures forall i :: esi + first <= i < esi + end ==> memory[i] == value + 0x1000 * (i - esi - first)
    ensures forall i :: 0 <= i < esi + first || esi + end <= i < memory.Length ==> memory[i] == old(memory[i])
  {
    var ebx, ecx := value, first;
    while ecx < end
      invariant first <= ecx <= end && ebx == value + 0x1000 * (ecx - first)
      invariant forall i :: esi + first <= i < esi + ecx ==> memory[i] == value + 0x1000 * (i - esi - first)
      invariant forall i :: 0 <= i < esi + first || esi + ecx <= i < memory.Length ==> memory[i] == old(memory[i])
    {
      memory[esi + ecx] := ebx;
      ebx := ebx + 0x1000;
      ecx := ecx + 1;
    }
  }

  /** From .init_paging_directory to .enable_paging. */
  method InitPaging(memory: array<nat>)
    requires memory.Length >= 0x2_0000
    modifies memory
    ensures Built(memory[..])
    ensures forall linear: nat :: linear < 0x1_0000_0000 ==> Translate(memory[..], linear) == Mapping(linear)
    ensures forall i :: 0x2_0000 <= i < memory.Length ==> memory[i] == old(memory[i])
  {
    ClearDirectory(memory);
    Fill(memory, 0, 0, 0x40, PAGE_DIR + 0x1000 + 0xF);
    Fill(memory, 0, 0x200, 0x220, PAGE_DIR + 0x1000 * 0x40 + 0x3);
    Fill(memory, 1024, 0, 1024 * 0x40, 0xF);
    Fill(memory, 1024 * 0x40, 0, 1024 * 0x40, 0x0800_0000 + 0x3);
    forall linear: nat | linear < 0x1_0000_0000 ensures Translate(memory[..], linear) == Mapping(linear) {
      EveryAddress(memory[..], linear);
    }
  }
}
