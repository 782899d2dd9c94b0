/** The boot floppy: its geometry, its FAT12 and the file that the loader wants. */
module FloppySpec {
  import opened Words

  type Entry = e: int | 0 <= e < 0x1000

  /** A cluster that has a sector on the floppy. */
  type Cluster = c: int | 0 <= c < 2849

  /** Cylinder, head and sector; sectors are numbered from 1. */
  datatype Chs = Chs(cylinder: nat, head: nat, sector: nat)

  function ToChs(lba: nat): Chs {
    Chs(lba / 18 / 2, lba / 18 % 2, lba % 18 + 1)
  }

  /** The sector of the image that the drive reads there. */
  function FromChs(c: Chs): int {
    (c.cylinder * 2 + c.head) * 18 + c.sector - 1
  }

  predicate OnFloppy(c: Chs) {
    c.cylinder < 80 && c.head < 2 && 1 <= c.sector <= 18
  }

  /** Every sector of the floppy has a place on it, and no two have the same. */
  lemma EverySectorHasItsPlace(lba: nat)
    ensures FromChs(ToChs(lba)) == lba
    ensures OnFloppy(ToChs(lba)) <==> lba < 2880
  {
  }

  lemma PlacesAreSectors(c: Chs)
    requires OnFloppy(c)
    ensures 0 <= FromChs(c) < 2880 && ToChs(FromChs(c)) == c
  {
  }

  /** The sectors follow one another along a track, then on the other side, then on the next
      cylinder. */
  lemma NextPlace(lba: nat)
    ensures ToChs(0) == Chs(0, 0, 1)
    ensures var c := ToChs(lba);
            ToChs(lba + 1) == if c.sector < 18 then c.(sector := c.sector + 1)
                              else if c.head == 0 then Chs(c.cylinder, 1, 1)
                              else Chs(c.cylinder + 1, 0, 1)
  {
  }

  function Sector(image: seq<Byte>, lba: nat): (r: seq<Byte>)
    requires 512 * lba + 512 <= |image|
    ensures |r| == 512
  {
    image[512 * lba..512 * lba + 512]
  }

  // ---- FAT12 ----

  /** Entry c of a FAT12, as the loader takes it out: the 16 bits at byte 12c/8, shifted by
      the bits left over, and twelve of them kept. */
  function Entry12(fat: seq<Byte>, c: nat): nat
    requires 12 * c / 8 + 1 < |fat|
  {
    Le16(fat, 12 * c / 8) / (if 12 * c % 8 == 0 then 1 else 16) % 0x1000
  }

  /** Two entries of twelve bits take three bytes, low bits first. */
  function Pack12(entries: seq<Entry>): (r: seq<Byte>)
    requires |entries| % 2 == 0
    ensures |r| == |entries| / 2 * 3
  {
    if entries == [] then [] else PackPair(entries[0], entries[1]) + Pack12(entries[2..])
  }

  function PackPair(a: Entry, b: Entry): (r: seq<Byte>)
    ensures |r| == 3
  {
    [a % 0x100, a / 0x100 + b % 0x10 * 0x10, b / 0x10]
  }

  lemma FirstPair(a: Entry, b: Entry, rest: seq<Byte>)
    ensures Entry12(PackPair(a, b) + rest, 0) == a && Entry12(PackPair(a, b) + rest, 1) == b
  {
    var low, middle, high := a % 0x100, a / 0x100 + b % 0x10 * 0x10, b / 0x10;
    assert low + 256 * middle == a + 0x1000 * (b % 0x10);
    assert middle + 256 * high == a / 0x100 + 16 * b && a / 0x100 < 16;
    assert (low + 256 * middle) % 0x1000 == a;
    assert (middle + 256 * high) / 16 == b;
  }

  /** Two entries further are three bytes further. */
  lemma PairSkipped(pair: seq<Byte>, rest: seq<Byte>, c: nat)
    requires |pair| == 3 && c >= 2 && 12 * (c - 2) / 8 + 1 < |rest|
    ensures 12 * c / 8 + 1 < |pair + rest|
    ensures Entry12(pair + rest, c) == Entry12(rest, c - 2)
  {
    assert 12 * c / 8 == 12 * (c - 2) / 8 + 3 && 12 * c % 8 == 12 * (c - 2) % 8;
  }

  lemma EntryFits(n: nat, c: nat)
    requires n % 2 == 0 && c < n
    ensures 12 * c / 8 + 1 < n / 2 * 3
  {
  }

  /** The loader's shift and mask undo the packing, for every entry. */
  lemma {:induction false} PackedEntry(entries: seq<Entry>, c: nat)
    requires |entries| % 2 == 0 && c < |entries|
    ensures 12 * c / 8 + 1 < |Pack12(entries)|
    ensures Entry12(Pack12(entries), c) == entries[c]
  {
    var pair, rest := PackPair(entries[0], entries[1]), Pack12(entries[2..]);
    assert Pack12(entries) == pair + rest;
    if c < 2 {
      EntryFits(|entries|, c);
      FirstPair(entries[0], entries[1], rest);
    } else {
      PackedEntry(entries[2..], c - 2);
      assert entries[2..][c - 2] == entries[c];
      PairSkipped(pair, rest, c);
    }
  }

  // ---- chains ----

  /** A chain: it ends with an entry above 0xFEF and stays on the floppy. */
  predicate Chain12(fat: seq<Byte>, chain: seq<Cluster>)
    requires |fat| == 9 * 512
  {
    && chain != []
    && if |chain| == 1 then Entry12(fat, chain[0]) > 0xFEF
       else chain[1] == Entry12(fat, chain[0]) && Chain12(fat, chain[1..])
  }

  /** A chain that ends, ends in a reserved number, the mark of a bad cluster or an end-of-chain mark,
      and no link before that is one of those. */
  lemma {:induction false} EndsInMark(fat: seq<Byte>, chain: seq<Cluster>)
    requires |fat| == 9 * 512 && Chain12(fat, chain)
    ensures 0xFF0 <= Entry12(fat, chain[|chain| - 1]) <= 0xFFF
    ensures forall k :: 0 <= k < |chain| - 1 ==> Entry12(fat, chain[k]) < 0xFF0
    decreases |chain|
  {
    if |chain| > 1 {
      EndsInMark(fat, chain[1..]);
      assert chain[1..][|chain| - 2] == chain[|chain| - 1];
      forall k | 0 <= k < |chain| - 1 ensures Entry12(fat, chain[k]) < 0xFF0 {
        if k > 0 {
          assert chain[k] == chain[1..][k - 1];
        }
      }
    }
  }

  /** The clusters of a chain one after another.  Cluster 2 is sector 33. */
  function Content(image: seq<Byte>, chain: seq<Cluster>): (r: seq<Byte>)
    requires |image| == 2880 * 512
    ensures |r| == 512 * |chain|
  {
    if chain == [] then [] else Sector(image, chain[0] as nat + 31) + Content(image, chain[1..])
  }

  lemma {:induction false} ChainSteps(fat: seq<Byte>, chain: seq<Cluster>, i: nat)
    requires |fat| == 9 * 512 && Chain12(fat, chain) && i < |chain|
    ensures i + 1 < |chain| ==> chain[i + 1] == Entry12(fat, chain[i]) <= 0xFEF
    ensures i + 1 == |chain| ==> Entry12(fat, chain[i]) > 0xFEF
  {
    if i > 0 {
      ChainSteps(fat, chain[1..], i - 1);
    } else if |chain| > 1 {
      ChainSteps(fat, chain[1..], 0);
    }
  }

  /** A cluster has one chain, ... */
  lemma {:induction false} ChainsAgree(fat: seq<Byte>, a: seq<Cluster>, b: seq<Cluster>)
    requires |fat| == 9 * 512 && Chain12(fat, a) && Chain12(fat, b) && a[0] == b[0]
    ensures a == b
  {
    ChainSteps(fat, a, 0);
    ChainSteps(fat, b, 0);
    if |a| > 1 && |b| > 1 {
      ChainsAgree(fat, a[1..], b[1..]);
      assert a == [a[0]] + a[1..] && b == [b[0]] + b[1..];
    }
  }

  lemma {:induction false} TailIsChain(fat: seq<Byte>, chain: seq<Cluster>, i: nat)
    requires |fat| == 9 * 512 && Chain12(fat, chain) && i < |chain|
    ensures Chain12(fat, chain[i..])
  {
    if i > 0 {
      TailIsChain(fat, chain[1..], i - 1);
      assert chain[1..][i - 1..] == chain[i..];
    } else {
      assert chain[0..] == chain;
    }
  }

  /** ... so a chain that ends visits no cluster twice. */
  lemma ChainIsAcyclic(fat: seq<Byte>, chain: seq<Cluster>, i: nat, j: nat)
    requires |fat| == 9 * 512 && Chain12(fat, chain) && i < j < |chain|
    ensures chain[i] != chain[j]
  {
    if chain[i] == chain[j] {
      TailIsChain(fat, chain, i);
      TailIsChain(fat, chain, j);
      ChainsAgree(fat, chain[i..], chain[j..]);
      assert false;
    }
  }

  lemma FirstOfContent(image: seq<Byte>, first: Cluster, rest: seq<Cluster>)
    requires |image| == 2880 * 512
    ensures Content(image, [first] + rest) == Sector(image, first as nat + 31) + Content(image, rest)
  {
    assert ([first] + rest)[1..] == rest;
  }

  lemma Regroup(a: seq<Byte>, b: seq<Byte>, c: seq<Byte>)
    ensures (a + b) + c == a + (b + c)
  {
  }

  lemma {:induction false} ContentOfLast(image: seq<Byte>, chain: seq<Cluster>, c: Cluster)
    requires |image| == 2880 * 512
    ensures Content(image, chain + [c]) == Content(image, chain) + Sector(image, c as nat + 31)
  {
    if chain == [] {
      assert [c][1..] == [];
    } else {
      ContentOfLast(image, chain[1..], c);
      FirstOfContent(image, chain[0], chain[1..]);
      FirstOfContent(image, chain[0], chain[1..] + [c]);
      assert chain == [chain[0]] + chain[1..] && chain + [c] == [chain[0]] + (chain[1..] + [c]);
      Regroup(Sector(image, chain[0] as nat + 31), Content(image, chain[1..]), Sector(image, c as nat + 31));
    }
  }

  // ---- the root directory ----

  /** The comparison stops counting at the last character, so it does not see a difference there. */
  predicate SameName(entry: seq<Byte>, name: seq<Byte>)
    requires |entry| == 11 && |name| == 11
  {
    entry[..10] == name[..10]
  }

  function NameAt(root: seq<Byte>, e: nat): seq<Byte>
    requires |root| == 224 * 32 && e < 224
  {
    root[32 * e..32 * e + 11]
  }

  /** Entry e is the first with the name. */
  ghost predicate FirstWithName(root: seq<Byte>, name: seq<Byte>, e: nat)
    requires |root| == 224 * 32 && |name| == 11
  {
    && e < 224
    && SameName(NameAt(root, e), name)
    && forall d :: 0 <= d < e ==> !SameName(NameAt(root, d), name)
  }

  predicate Absent(root: seq<Byte>, name: seq<Byte>)
    requires |root| == 224 * 32 && |name| == 11
  {
    forall e :: 0 <= e < 224 ==> !SameName(NameAt(root, e), name)
  }

  /** Entry e is the first whose name is this one, all eleven characters of it. */
  ghost predicate FirstNamed(root: seq<Byte>, name: seq<Byte>, e: nat)
    requires |root| == 224 * 32 && |name| == 11
  {
    && e < 224 && NameAt(root, e) == name
    && forall d :: 0 <= d < e ==> NameAt(root, d) != name
  }

  /** The loader takes the kernel file if and only if no entry before it differs in the last
      character alone. */
  lemma KernelIsTakenIff(root: seq<Byte>, name: seq<Byte>, e: nat)
    requires |root| == 224 * 32 && |name| == 11 && FirstNamed(root, name, e)
    ensures FirstWithName(root, name, e) <==>
            !(exists d :: 0 <= d < e && NameAt(root, d) == name[10 := NameAt(root, d)[10]])
  {
    forall d | 0 <= d < e
      ensures SameName(NameAt(root, d), name) <==> NameAt(root, d) == name[10 := NameAt(root, d)[10]]
    {
      LastAside(NameAt(root, d), name);
    }
  }

  lemma LastAside(entry: seq<Byte>, name: seq<Byte>)
    requires |entry| == 11 && |name| == 11
    ensures SameName(entry, name) <==> entry == name[10 := entry[10]]
  {
    assert entry == entry[..10] + [entry[10]];
    assert name[10 := entry[10]] == name[..10] + [entry[10]];
  }

  /** "KERNEL  SYM" in front of "KERNEL  SYS" is loaded in its place. */
  lemma WrongKernelExample(root: seq<Byte>)
    requires |root| == 224 * 32
    requires NameAt(root, 0) == [0x4b, 0x45, 0x52, 0x4e, 0x45, 0x4c, 0x20, 0x20, 0x53, 0x59, 0x4d]
    ensures FirstWithName(root, [0x4b, 0x45, 0x52, 0x4e, 0x45, 0x4c, 0x20, 0x20, 0x53, 0x59, 0x53], 0)
    ensures NameAt(root, 0) != [0x4b, 0x45, 0x52, 0x4e, 0x45, 0x4c, 0x20, 0x20, 0x53, 0x59, 0x53]
  {
    LastAside(NameAt(root, 0), [0x4b, 0x45, 0x52, 0x4e, 0x45, 0x4c, 0x20, 0x20, 0x53, 0x59, 0x53]);
    assert NameAt(root, 0)[10] == 0x4d;
  }

  function StartOfEntry(root: seq<Byte>, e: nat): nat
    requires |root| == 224 * 32 && e < 224
  {
    Le16(root, 32 * e + 26)
  }

  function FatOf(image: seq<Byte>): seq<Byte>
    requires |image| == 2880 * 512
  {
    image[1 * 512..10 * 512]
  }

  function RootOf(image: seq<Byte>): seq<Byte>
    requires |image| == 2880 * 512
  {
    image[19 * 512..33 * 512]
  }

  /** The chain starts where the first entry with the name says, and fits below 1 MB. */
  ghost predicate KernelChain(image: seq<Byte>, name: seq<Byte>, e: nat, chain: seq<Cluster>)
    requires |image| == 2880 * 512 && |name| == 11
  {
    && FirstWithName(RootOf(image), name, e)
    && Chain12(FatOf(image), chain) && chain[0] == StartOfEntry(RootOf(image), e)
    && 0xA000 + 512 * |chain| <= 0x10_0000
  }
}

/** ntmio.sys.nas: from load_fat to init_gdt, on the first megabyte of memory. */
module BootLoader {
  import opened Words
  import opened OptionType
  import opened FloppySpec

  /** read_sector on a drive that does not fail. */
  method ReadSector(memory: array<Byte>, image: seq<Byte>, ax: nat, es: nat, bx: nat)
    requires |image| == 2880 * 512 && ax < 2880
    requires memory.Length == 0x10_0000 && 16 * es + bx + 512 <= 0x10_0000
    modifies memory
    ensures memory[16 * es + bx..16 * es + bx + 512] == Sector(image, ax)
    ensures forall i :: 0 <= i < 16 * es + bx || 16 * es + bx + 512 <= i < memory.Length ==> memory[i] == old(memory[i])
  {
    var dx := ax % 18;
    var q := ax / 18;
    dx := dx + 1;
    var cl := dx % 0x100;
    var dh := q % 2;
    var ch := q / 2 % 0x100;
    assert Chs(ch, dh, cl) == ToChs(ax);
    EverySectorHasItsPlace(ax);
    Int13h(memory, image, Chs(ch, dh, cl), 16 * es + bx);
  }

  /** Interrupt 0x13 function 2 for one sector, on the boot drive. */
  method Int13h(memory: array<Byte>, image: seq<Byte>, c: Chs, address: nat)
    requires |image| == 2880 * 512 && OnFloppy(c) && address + 512 <= memory.Length
    modifies memory
    ensures 0 <= FromChs(c) < 2880
    ensures memory[address..address + 512] == Sector(image, FromChs(c))
    ensures forall i :: 0 <= i < address || address + 512 <= i < memory.Length ==> memory[i] == old(memory[i])
  {
    var lba := FromChs(c);
    forall j | 0 <= j < 512 {
      memory[address + j] := image[512 * lba + j];
    }
  }

  /** The two loops that load consecutive sectors below the kernel: cx sectors from ax on to bx. */
  method ReadRun(memory: array<Byte>, image: seq<Byte>, bx0: nat, cx0: nat, ax0: nat)
    requires |image| == 2880 * 512 && ax0 + cx0 <= 2880
    requires memory.Length == 0x10_0000 && bx0 + 512 * cx0 < 0x1_0000
    modifies memory
    ensures memory[bx0..bx0 + 512 * cx0] == image[512 * ax0..512 * (ax0 + cx0)]
    ensures forall i :: 0 <= i < bx0 || bx0 + 512 * cx0 <= i < memory.Length ==> memory[i] == old(memory[i])
  {
    var bx, cx, ax := bx0, cx0, ax0;
    while cx != 0
      invariant 0 <= cx <= cx0 && ax == ax0 + (cx0 - cx) && bx == bx0 + 512 * (cx0 - cx)
      invariant memory[bx0..bx] == image[512 * ax0..512 * ax]
      invariant forall i :: 0 <= i < bx0 || bx <= i < memory.Length ==> memory[i] == old(memory[i])
    {
      ghost var before := memory[bx0..bx];
      ReadSector(memory, image, ax, 0, bx);
      assert memory[bx0..bx] == before;
      assert memory[bx0..bx + 512] == before + Sector(image, ax);
      assert image[512 * ax0..512 * ax] + Sector(image, ax) == image[512 * ax0..512 * (ax + 1)];
      cx, ax, bx := cx - 1, ax + 1, bx + 512;
    }
  }

  /** REPE CMPSB over 11 bytes, and the test of CX after it. */
  method CompareName(memory: array<Byte>, si: nat, name: seq<Byte>) returns (same: bool)
    requires si + 11 <= memory.Length && |name| == 11
    ensures same == SameName(memory[si..si + 11], name)
  {
    var cx, equal := 11, true;
    while cx != 0 && equal
      invariant 0 <= cx <= 11
      invariant equal ==> forall i :: 0 <= i < 11 - cx ==> memory[si + i] == name[i]
      invariant !equal ==> cx < 11 && memory[si + 10 - cx] != name[10 - cx]
      invariant !equal ==> forall i :: 0 <= i < 10 - cx ==> memory[si + i] == name[i]
      decreases cx, equal
    {
      equal := memory[si + 11 - cx] == name[11 - cx];
      cx := cx - 1;
    }
    same := cx == 0;
    assert memory[si..si + 11][..10] == memory[si..si + 10];
    assert !same ==> memory[si..si + 10][10 - cx] != name[..10][10 - cx];
  }

  /** load_kernel_file: the address of the first of the 224 entries with the name. */
  method FindKernel(memory: array<Byte>, name: seq<Byte>) returns (entry: Option<nat>)
    requires memory.Length == 0x10_0000 && |name| == 11
    ensures var root := memory[0x1700..0x3300];
            match entry
            case None => Absent(root, name)
            case Some(ax) => ax >= 0x1700 && ax % 32 == 0 && FirstWithName(root, name, (ax - 0x1700) / 32)
  {
    ghost var root := memory[0x1700..0x3300];
    var dx, ax := 224, 0x1700;
    while true
      invariant 0 < dx <= 224 && ax == 0x1700 + 32 * (224 - dx)
      invariant forall e :: 0 <= e < 224 - dx ==> !SameName(NameAt(root, e), name)
      decreases dx
    {
      assert memory[ax..ax + 11] == NameAt(root, 224 - dx);
      var same := CompareName(memory, ax, name);
      if same {
        return Some(ax);
      }
      ax, dx := ax + 32, dx - 1;
      if dx <= 0 {
        return None;
      }
    }
  }

  lemma EntryPlace(c: Cluster)
    ensures 12 * c < 0x1_0000 && c * 12 % 0x1_0000 == 12 * c
    ensures 12 * c % 8 == 0 || 12 * c % 8 == 4
    ensures 0 <= 12 * c / 8 < 0x1200 - 1
  {
    var q, r := c / 2, c % 2;
    assert 12 * c == 8 * (3 * q + r) + 4 * r;
  }

  /** The entry after a cluster: MUL, DIV, SHR and AND of the loader. */
  method NextEntry(memory: array<Byte>, dx: Cluster) returns (ax: nat)
    requires memory.Length == 0x10_0000
    ensures ax == Entry12(memory[0x500..0x1700], dx)
  {
    EntryPlace(dx);
    ax := dx * 12 % 0x1_0000;
    var cl := ax % 8;
    var si := ax / 8;
    ax := memory[0x500 + si] as int + 0x100 * memory[0x500 + si + 1] as int;
    assert ax == Le16(memory[0x500..0x1700], 12 * dx / 8);
    if cl == 4 {
      ax := ax / 16;
    }
    ax := ax % 0x1000;
  }

  /** 512 bytes further in ES:BX: the linear address goes on across every wrap of BX. */
  method NextAddress(es0: nat, bx0: nat) returns (es: nat, bx: nat)
    requires es0 % 0x1000 == 0 && bx0 % 512 == 0 && bx0 < 0x1_0000 && 16 * es0 + bx0 + 512 < 0x10_0000
    ensures 16 * es + bx == 16 * es0 + bx0 + 512
    ensures es % 0x1000 == 0 && bx % 512 == 0 && bx < 0x1_0000
  {
    es, bx := es0, (bx0 + 0x200) % 0x1_0000;
    if bx == 0 {
      es := (es + 0x1000) % 0x1_0000;
    }
  }

  /** .load_kernel_to_mem_loop: the clusters of the chain go to memory from 0xA000 on, one after
      the other; ES takes over whenever BX wraps. */
  method LoadChain(memory: array<Byte>, image: seq<Byte>, start: Cluster, ghost chain: seq<Cluster>)
    requires |image| == 2880 * 512 && memory.Length == 0x10_0000
    requires Chain12(memory[0x500..0x1700], chain) && chain[0] == start
    requires 0xA000 + 512 * |chain| <= 0x10_0000
    modifies memory
    ensures memory[0xA000..0xA000 + 512 * |chain|] == Content(image, chain)
    ensures forall i :: 0 <= i < 0xA000 || 0xA000 + 512 * |chain| <= i < 0x10_0000 ==> memory[i] == old(memory[i])
  {
    var es: nat, bx: nat, dx := 0, 0xA000, start;
    ghost var k, fat := 0, memory[0x500..0x1700];
    while true
      invariant k < |chain| && dx == chain[k]
      invariant 16 * es + bx == 0xA000 + 512 * k && es % 0x1000 == 0 && bx % 512 == 0 && bx < 0x1_0000
      invariant memory[0xA000..0xA000 + 512 * k] == Content(image, chain[..k]) && memory[0x500..0x1700] == fat
      invariant forall i :: 0 <= i < 0xA000 || 0xA000 + 512 * k <= i < 0x10_0000 ==> memory[i] == old(memory[i])
      decreases |chain| - k
    {
      LoadCluster(memory, image, es, bx, chain[..k], dx);
      assert chain[..k + 1] == chain[..k] + [dx];
      var ax := NextEntry(memory, dx);
      ChainSteps(fat, chain, k);
      if ax > 0xFEF {
        assert chain[..k + 1] == chain;
        break;
      }
      dx := ax;
      es, bx := NextAddress(es, bx);
      k := k + 1;
    }
  }

  /** One more cluster behind those already in memory. */
  method LoadCluster(memory: array<Byte>, image: seq<Byte>, es: nat, bx: nat, ghost done: seq<Cluster>, dx: Cluster)
    requires |image| == 2880 * 512 && memory.Length == 0x10_0000
    requires 16 * es + bx == 0xA000 + 512 * |done| && 0xA000 + 512 * |done| + 512 <= 0x10_0000
    requires memory[0xA000..0xA000 + 512 * |done|] == Content(image, done)
    modifies memory
    ensures memory[0xA000..0xA000 + 512 * (|done| + 1)] == Content(image, done + [dx])
    ensures memory[0x500..0x1700] == old(memory[0x500..0x1700])
    ensures forall i :: 0 <= i < 0xA000 || 0xA000 + 512 * (|done| + 1) <= i < 0x10_0000 ==> memory[i] == old(memory[i])
  {
    ghost var end := 0xA000 + 512 * |done|;
    ReadSector(memory, image, dx + 31, es, bx);
    ContentOfLast(image, done, dx);
    assert memory[0xA000..end] == old(memory[0xA000..end]);
    assert memory[0xA000..end + 512] == memory[0xA000..end] + memory[end..end + 512];
  }

  /** From load_fat to init_gdt: the kernel file stands in memory from 0xA000 on, or there is
      none.  A chain that does not end is not loaded to any end, hence the chain as a premise. */
  method Load(memory: array<Byte>, image: seq<Byte>, name: seq<Byte>, ghost entry: nat, ghost chain: seq<Cluster>)
    returns (found: bool)
    requires |image| == 2880 * 512 && memory.Length == 0x10_0000 && |name| == 11
    requires KernelChain(image, name, entry, chain) || Absent(RootOf(image), name)
    modifies memory
    ensures found <==> !Absent(RootOf(image), name)
    ensures found ==> memory[0xA000..0xA000 + 512 * |chain|] == Content(image, chain)
  {
    ReadRun(memory, image, 0x500, 9, 1);
    ghost var fat := memory[0x500..0x1700];
    ReadRun(memory, image, 0x1700, 14, 1 + 2 * 9);
    assert memory[0x500..0x1700] == fat == FatOf(image);
    assert memory[0x1700..0x3300] == RootOf(image);
    var at := FindKernel(memory, name);
    if at.None? {
      return false;
    }
    ghost var e := (at.value - 0x1700) / 32;
    assert SameName(NameAt(RootOf(image), e), name);
    assert e == entry;
    var start := memory[at.value + 26] as int + 0x100 * memory[at.value + 27] as int;
    assert start == StartOfEntry(RootOf(image), e);
    LoadChain(memory, image, start, chain);
    return true;
  }
}
