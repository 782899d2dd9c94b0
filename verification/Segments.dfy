/** Segment descriptors as the processor reads them (Intel SDM volume 3A, section 3.4.5). */
module DescriptorSpec {
  /** The bit fields of gdt_entry_t, from the low end of the first double word on. */
  datatype Entry = Entry(
    limitLow: nat, baseLow: nat,
    baseMid: nat, kind: nat, s: nat, dpl: nat, p: nat,
    limitHigh: nat, avl: nat, l: nat, db: nat, g: nat, baseHigh: nat)

  /** Each field fits its bits. */
  predicate Packed(e: Entry) {
    && e.limitLow < 0x1_0000 && e.baseLow < 0x1_0000 && e.baseMid < 0x100 && e.baseHigh < 0x100
    && e.kind < 16 && e.s < 2 && e.dpl < 4 && e.p < 2
    && e.limitHigh < 16 && e.avl < 2 && e.l < 2 && e.db < 2 && e.g < 2
  }

  /** The two double words of an entry: fields follow each other from the low end on. */
  function Low(e: Entry): nat {
    e.limitLow + 0x1_0000 * e.baseLow
  }

  function High(e: Entry): nat {
    e.baseMid + 0x100 * FromKind(e)
  }

  function FromKind(e: Entry): nat {
    e.kind + 0x10 * (e.s + 2 * (e.dpl + 4 * (e.p + 2 * FromLimit(e))))
  }

  function FromLimit(e: Entry): nat {
    e.limitHigh + 0x10 * (e.avl + 2 * (e.l + 2 * (e.db + 2 * (e.g + 2 * e.baseHigh))))
  }

  /** A descriptor as the processor takes it out of the two double words. */
  datatype Descriptor = Descriptor(
    base: nat, limit: nat, kind: nat, s: nat, dpl: nat, present: bool, db: nat, granular: bool)

  function Decode(low: nat, high: nat): Descriptor {
    var fromKind := high / 0x100;
    var fromS := fromKind / 0x10;
    var fromDpl := fromS / 2;
    var fromP := fromDpl / 4;
    var fromLimit := fromP / 2;
    var fromAvl := fromLimit / 0x10;
    var fromDb := fromAvl / 2 / 2;
    var fromG := fromDb / 2;
    var fromBase := fromG / 2;
    Descriptor(
      low / 0x1_0000 + 0x1_0000 * (high % 0x100) + 0x100_0000 * fromBase,
      low % 0x1_0000 + 0x1_0000 * (fromLimit % 0x10),
      fromKind % 0x10, fromS % 2, fromDpl % 4, fromP % 2 == 1, fromDb % 2, fromG % 2 == 1)
  }

  function BaseOf(e: Entry): nat {
    e.baseLow + 0x1_0000 * e.baseMid + 0x100_0000 * e.baseHigh
  }

  function LimitOf(e: Entry): nat {
    e.limitLow + 0x1_0000 * e.limitHigh
  }

  lemma Field2(v: nat, field: nat, rest: nat)
    requires v == field + 2 * rest && field < 2
    ensures v % 2 == field && v / 2 == rest
  {
  }

  lemma Field4(v: nat, field: nat, rest: nat)
    requires v == field + 4 * rest && field < 4
    ensures v % 4 == field && v / 4 == rest
  {
  }

  lemma Field16(v: nat, field: nat, rest: nat)
    requires v == field + 0x10 * rest && field < 0x10
    ensures v % 0x10 == field && v / 0x10 == rest
  {
  }

  lemma Field256(v: nat, field: nat, rest: nat)
    requires v == field + 0x100 * rest && field < 0x100
    ensures v % 0x100 == field && v / 0x100 == rest
  {
  }

  /** The double words of an entry decode to what its fields say. */
  lemma DecodePacked(e: Entry)
    requires Packed(e)
    ensures Decode(Low(e), High(e))
            == Descriptor(BaseOf(e), LimitOf(e), e.kind, e.s, e.dpl, e.p == 1, e.db, e.g == 1)
  {
    var fromG := e.g + 2 * e.baseHigh;
    var fromDb := e.db + 2 * fromG;
    var fromL := e.l + 2 * fromDb;
    var fromAvl := e.avl + 2 * fromL;
    var fromP := e.p + 2 * FromLimit(e);
    var fromDpl := e.dpl + 4 * fromP;
    var fromS := e.s + 2 * fromDpl;
    Field256(High(e), e.baseMid, FromKind(e));
    Field16(FromKind(e), e.kind, fromS);
    Field2(fromS, e.s, fromDpl);
    Field4(fromDpl, e.dpl, fromP);
    Field2(fromP, e.p, FromLimit(e));
    Field16(FromLimit(e), e.limitHigh, fromAvl);
    Field2(fromAvl, e.avl, fromL);
    Field2(fromL, e.l, fromDb);
    Field2(fromDb, e.db, fromG);
    Field2(fromG, e.g, e.baseHigh);
  }

  // ---- what the installers store ----

  /** The base and limit fields; the limit keeps its low twenty bits. */
  function Placed(e: Entry, base: nat, limit: nat): Entry {
    e.(baseLow := base % 0x1_0000, baseMid := base / 0x1_0000 % 0x100, baseHigh := base / 0x100_0000 % 0x100,
       limitLow := limit % 0x1_0000, limitHigh := limit / 0x1_0000 % 0x10)
  }

  lemma BaseParts(base: nat)
    requires base < 0x1_0000_0000
    ensures base % 0x1_0000 + 0x1_0000 * (base / 0x1_0000 % 0x100) + 0x100_0000 * (base / 0x100_0000 % 0x100) == base
  {
  }

  lemma LimitParts(limit: nat)
    ensures limit % 0x1_0000 + 0x1_0000 * (limit / 0x1_0000 % 0x10) == limit % 0x10_0000
  {
    var low, high := limit % 0x1_0000, limit / 0x1_0000;
    Field16(high, high % 0x10, high / 0x10);
    Field20(limit, low + 0x1_0000 * (high % 0x10), high / 0x10);
  }

  /** The limit comes back exactly when it has no more than twenty bits. */
  lemma LimitSurvives(e: Entry, base: nat, limit: nat)
    requires Packed(e) && base < 0x1_0000_0000
    ensures DescriptorOf(Placed(e, base, limit)).limit == limit <==> limit < 0x10_0000
  {
    PlacedDecodes(e, base, limit);
    TwentyBits(limit);
  }

  lemma TwentyBits(limit: nat)
    ensures limit % 0x10_0000 == limit <==> limit < 0x10_0000
  {
  }

  lemma Field20(v: nat, field: nat, rest: nat)
    requires v == field + 0x10_0000 * rest && field < 0x10_0000
    ensures v % 0x10_0000 == field
  {
  }

  /** The base comes back, and of the limit the low twenty bits. */
  lemma PlacedDecodes(e: Entry, base: nat, limit: nat)
    requires Packed(e) && base < 0x1_0000_0000
    ensures Packed(Placed(e, base, limit))
    ensures DescriptorOf(Placed(e, base, limit))
            == Descriptor(base, limit % 0x10_0000, e.kind, e.s, e.dpl, e.p == 1, e.db, e.g == 1)
  {
    BaseParts(base);
    LimitParts(limit);
    DecodePacked(Placed(e, base, limit));
  }

  /** What the processor finds in an entry. */
  function DescriptorOf(e: Entry): Descriptor {
    Decode(Low(e), High(e))
  }

  /** The entries that the three installers leave; AVL and L keep what they were. */
  function TssEntry(e: Entry, base: nat, limit: nat): Entry {
    Placed(e.(kind := 9, s := 0, dpl := 0, p := 1, g := 0, db := 1), base, limit)
  }

  function LdtEntry(e: Entry, base: nat, limit: nat): Entry {
    Placed(e.(kind := 2, s := 0, dpl := 3, p := 1, g := 0, db := 1), base, limit)
  }

  function UserEntry(e: Entry, base: nat, limit: nat, isCode: bool): Entry {
    Placed(e.(kind := if isCode then 0xB else 3, s := 1, dpl := 3, p := 1, g := 0, db := 1), base, limit)
  }

  /** The kinds of descriptor: an available 32-bit task state, a local table, code that may be
      read, data that may be written (Intel SDM volume 3A, tables 3-1 and 3-2). */
  const TSS_KIND := 9
  const LDT_KIND := 2
  const CODE_KIND := 0xB
  const DATA_KIND := 3

  /** An entry that an installer left: installing once more would not change it. */
  predicate IsTss(e: Entry, base: nat, limit: nat) {
    Packed(e) && e == TssEntry(e, base, limit)
  }

  predicate IsLdt(e: Entry, base: nat, limit: nat) {
    Packed(e) && e == LdtEntry(e, base, limit)
  }

  predicate IsUser(e: Entry, base: nat, limit: nat, isCode: bool) {
    Packed(e) && e == UserEntry(e, base, limit, isCode)
  }

  lemma Installs(e: Entry, base: nat, limit: nat, isCode: bool)
    requires Packed(e)
    ensures IsTss(TssEntry(e, base, limit), base, limit) && IsLdt(LdtEntry(e, base, limit), base, limit)
    ensures IsUser(UserEntry(e, base, limit, isCode), base, limit, isCode)
  {
  }

  /** Installed entries read back as the descriptors that were meant: the whole base, and the low
      twenty bits of the limit. */
  lemma TssDecodes(e: Entry, base: nat, limit: nat)
    requires IsTss(e, base, limit) && base < 0x1_0000_0000
    ensures DescriptorOf(e) == Descriptor(base, limit % 0x10_0000, TSS_KIND, 0, 0, true, 1, false)
  {
    PlacedDecodes(e, base, limit);
  }

  lemma LdtDecodes(e: Entry, base: nat, limit: nat)
    requires IsLdt(e, base, limit) && base < 0x1_0000_0000
    ensures DescriptorOf(e) == Descriptor(base, limit % 0x10_0000, LDT_KIND, 0, 3, true, 1, false)
  {
    PlacedDecodes(e, base, limit);
  }

  lemma UserDecodes(e: Entry, base: nat, limit: nat, isCode: bool)
    requires IsUser(e, base, limit, isCode) && base < 0x1_0000_0000
    ensures DescriptorOf(e)
            == Descriptor(base, limit % 0x10_0000, if isCode then CODE_KIND else DATA_KIND, 1, 3, true, 1, false)
  {
    PlacedDecodes(e, base, limit);
  }

  /** The access byte, the sixth of the eight, and the four flags above the limit in the seventh. */
  lemma AccessBits(e: Entry)
    requires Packed(e)
    ensures High(e) / 0x100 % 0x100 == e.kind + 0x10 * e.s + 0x20 * e.dpl + 0x80 * e.p
    ensures High(e) / 0x100 / 0x100 / 0x10 % 0x10 == e.avl + 2 * e.l + 4 * e.db + 8 * e.g
  {
    Field256(High(e), e.baseMid, FromKind(e));
    Field256(FromKind(e), e.kind + 0x10 * e.s + 0x20 * e.dpl + 0x80 * e.p, FromLimit(e));
    Field16(FromLimit(e), e.limitHigh, FromLimit(e) / 0x10);
    Field16(FromLimit(e) / 0x10, e.avl + 2 * e.l + 4 * e.db + 8 * e.g, e.baseHigh);
  }

  /** Those of installed entries: present, of their privilege and kind, 32 bits, the limit in bytes. */
  lemma AccessByte(e: Entry, base: nat, limit: nat, isCode: bool)
    requires IsTss(e, base, limit) || IsLdt(e, base, limit) || IsUser(e, base, limit, isCode)
    ensures IsTss(e, base, limit) ==> High(e) / 0x100 % 0x100 == 0x89
    ensures IsLdt(e, base, limit) ==> High(e) / 0x100 % 0x100 == 0xE2
    ensures IsUser(e, base, limit, isCode) ==> High(e) / 0x100 % 0x100 == if isCode then 0xFB else 0xF3
    ensures High(e) / 0x100 / 0x100 / 0x10 % 0x10 == 4 + e.avl + 2 * e.l
  {
    hide High;
    AccessBits(e);
  }

  /** The linear addresses of a segment whose limit counts bytes. */
  predicate Covers(d: Descriptor, address: int) {
    d.base <= address <= d.base + d.limit
  }

  // ---- the memory of processes ----

  function UmemStart(i: nat): nat {
    0x400_0000 + i * 0x10_0000
  }

  function UmemEnd(i: nat): nat {
    0x400_0000 + i * 0x10_0000 + 0x10_0000
  }

  predicate InUmem(address: int, i: nat) {
    UmemStart(i) <= address < UmemEnd(i)
  }

  /** A user segment is exactly the memory of its process. */
  lemma UserSegmentIsUmem(e: Entry, i: nat, isCode: bool, address: int)
    requires i < 64 && IsUser(e, UmemStart(i), 0x10_0000 - 1, isCode)
    ensures Covers(DescriptorOf(e), address) <==> InUmem(address, i)
  {
    UserDecodes(e, UmemStart(i), 0x10_0000 - 1, isCode);
  }

  /** The memories of the 64 processes tile the linear addresses from 64 MB to 128 MB. */
  lemma UserMemoryTiles(address: int)
    ensures 0x400_0000 <= address < 0x800_0000 <==> exists i :: 0 <= i < 64 && InUmem(address, i)
    ensures forall i, j :: 0 <= i < 64 && 0 <= j < 64 && InUmem(address, i) && InUmem(address, j) ==> i == j
  {
    if 0x400_0000 <= address < 0x800_0000 {
      var i := (address - 0x400_0000) / 0x10_0000;
      assert InUmem(address, i);
    }
  }
}

/** segments.c and the table loop of tasks.c. */
module Segments {
  import opened DescriptorSpec
  import opened TaskSpec

  ghost predicate AllPacked(table: array<Entry>)
    reads table
  {
    forall k :: 0 <= k < table.Length ==> Packed(table[k])
  }

  /** Only this slot may have changed. */
  twostate predicate OnlySlot(table: array<Entry>, slot: int)
    reads table
  {
    forall k :: 0 <= k < table.Length && k != slot ==> table[k] == old(table[k])
  }

  /** The stores of base and limit that the installers begin with. */
  method StoreBaseAndLimit(table: array<Entry>, slot: nat, base: nat, limit: nat)
    requires slot < table.Length
    modifies table
    ensures table[slot] == Placed(old(table[slot]), base, limit) && OnlySlot(table, slot)
  {
    table[slot] := table[slot].(baseLow := base % 0x1_0000);
    table[slot] := table[slot].(baseMid := base / 0x1_0000 % 0x100);
    table[slot] := table[slot].(baseHigh := base / 0x100_0000 % 0x100);
    table[slot] := table[slot].(limitLow := limit % 0x1_0000);
    table[slot] := table[slot].(limitHigh := limit / 0x1_0000 % 0x10);
  }

  /** install_tss_to_gdt; false stands for _panic. */
  method InstallTssToGdt(gdt: array<Entry>, slot: nat, base: nat, limit: nat) returns (ok: bool)
    requires gdt.Length == 8192
    modifies gdt
    ensures ok <==> 0 < slot < 8192
    ensures OnlySlot(gdt, if ok then slot else -1)
    ensures ok ==> gdt[slot] == TssEntry(old(gdt[slot]), base, limit)
  {
    if slot == 0 || slot >= 8192 {
      return false;
    }
    StoreBaseAndLimit(gdt, slot, base, limit);
    gdt[slot] := gdt[slot].(kind := 0x9, s := 0, dpl := 0, p := 1);
    gdt[slot] := gdt[slot].(g := 0);
    gdt[slot] := gdt[slot].(db := 1);
    return true;
  }

  /** install_ldt_to_gdt; false stands for _panic. */
  method InstallLdtToGdt(gdt: array<Entry>, slot: nat, base: nat, limit: nat) returns (ok: bool)
    requires gdt.Length == 8192
    modifies gdt
    ensures ok <==> 0 < slot < 8192
    ensures OnlySlot(gdt, if ok then slot else -1)
    ensures ok ==> gdt[slot] == LdtEntry(old(gdt[slot]), base, limit)
  {
    if slot == 0 || slot >= 8192 {
      return false;
    }
    StoreBaseAndLimit(gdt, slot, base, limit);
    gdt[slot] := gdt[slot].(s := 0);
    gdt[slot] := gdt[slot].(kind := TypeBits(0, 1, 0, 0));
    gdt[slot] := gdt[slot].(dpl := 3);
    gdt[slot] := gdt[slot].(p := 1);
    gdt[slot] := gdt[slot].(g := 0);
    gdt[slot] := gdt[slot].(db := 1);
    return true;
  }

  /** The bits ac, rw, dc and ex of the access byte. */
  function TypeBits(ac: nat, rw: nat, dc: nat, ex: nat): nat {
    ac + 2 * rw + 4 * dc + 8 * ex
  }

  /** install_seg_to_ldt; false stands for _panic. */
  method InstallSegToLdt(ldt: array<Entry>, slot: nat, base: nat, limit: nat, isCode: bool) returns (ok: bool)
    requires ldt.Length == 2
    modifies ldt
    ensures ok <==> slot < 2
    ensures OnlySlot(ldt, if ok then slot else -1)
    ensures ok ==> ldt[slot] == UserEntry(old(ldt[slot]), base, limit, isCode)
  {
    if slot >= 2 {
      return false;
    }
    StoreBaseAndLimit(ldt, slot, base, limit);
    ldt[slot] := ldt[slot].(s := 1);
    ldt[slot] := ldt[slot].(db := 1);
    if isCode {
      ldt[slot] := ldt[slot].(kind := TypeBits(1, 1, 0, 1));
    } else {
      ldt[slot] := ldt[slot].(kind := TypeBits(1, 1, 0, 0));
    }
    ldt[slot] := ldt[slot].(dpl := 3);
    ldt[slot] := ldt[slot].(p := 1);
    ldt[slot] := ldt[slot].(g := 0);
    return true;
  }

  /** What one round of the table loop leaves: the task state and the local table of process i in
      the global table, its code and data in the local table, its selector in the task state. */
  ghost predicate Installed(gdt: array<Entry>, ldt: array<Entry>, ldtr: array<nat>, i: nat,
                            tss: nat, at: nat, tssSize: nat)
    requires i < 64 && gdt.Length == 8192 && ldt.Length == 2 && ldtr.Length == 64
    reads gdt, ldt, ldtr
  {
    && IsTss(gdt[16 + i], tss, tssSize)
    && IsLdt(gdt[80 + i], at, 16)
    && IsUser(ldt[0], UmemStart(i), 0x10_0000 - 1, true)
    && IsUser(ldt[1], UmemStart(i), 0x10_0000 - 1, false)
    && ldtr[i] == (80 + i) * 8
  }

  /** One round of the loop of init_process_management. */
  method InstallProcess(gdt: array<Entry>, ldt: array<Entry>, ldtr: array<nat>, i: nat, tss: nat, at: nat, tssSize: nat)
    requires i < 64 && gdt.Length == 8192 && ldt.Length == 2 && ldtr.Length == 64 && gdt != ldt
    requires AllPacked(gdt) && AllPacked(ldt)
    modifies gdt, ldt, ldtr
    ensures AllPacked(gdt) && Installed(gdt, ldt, ldtr, i, tss, at, tssSize)
    ensures forall k :: 0 <= k < 8192 && k != 16 + i && k != 80 + i ==> gdt[k] == old(gdt[k])
    ensures forall k :: 0 <= k < 64 && k != i ==> ldtr[k] == old(ldtr[k])
  {
    Installs(gdt[16 + i], tss, tssSize, true);
    Installs(gdt[80 + i], at, 16, true);
    Installs(ldt[0], UmemStart(i), 0x10_0000 - 1, true);
    Installs(ldt[1], UmemStart(i), 0x10_0000 - 1, false);
    var _ := InstallTssToGdt(gdt, 16 + i, tss, tssSize);
    var _ := InstallLdtToGdt(gdt, 80 + i, at, 16);
    var _ := InstallSegToLdt(ldt, 0, 0x400_0000 + i * 0x10_0000, 0x10_0000 - 1, true);
    var _ := InstallSegToLdt(ldt, 1, 0x400_0000 + i * 0x10_0000, 0x10_0000 - 1, false);
    ldtr[i] := (80 + i) * 8;
  }

  /** The local tables are separate memory. */
  ghost predicate Separate(gdt: array<Entry>, ldts: seq<array<Entry>>) {
    && (forall i :: 0 <= i < |ldts| ==> ldts[i].Length == 2 && ldts[i] != gdt)
    && forall i, j :: 0 <= i < j < |ldts| ==> ldts[i] != ldts[j]
  }

  /** The number and the state of a process. */
  datatype Slot = Slot(tssEntryId: nat, status: Status)

  /** init_process_management, for 64 processes whose task states and local tables stand at the
      given addresses. */
  method InitProcessManagement(slots: array<Slot>, gdt: array<Entry>, ldts: seq<array<Entry>>, ldtr: array<nat>,
                               tssAt: seq<nat>, ldtAt: seq<nat>, tssSize: nat)
    requires slots.Length == 64 && gdt.Length == 8192 && ldtr.Length == 64 && |ldts| == |tssAt| == |ldtAt| == 64
    requires Separate(gdt, ldts) && AllPacked(gdt) && forall i :: 0 <= i < 64 ==> AllPacked(ldts[i])
    modifies slots, gdt, ldtr, ldts
    ensures forall i :: 0 <= i < 64 ==> slots[i] == Slot(i, Unused)
    ensures forall i :: 0 <= i < 64 ==> Installed(gdt, ldts[i], ldtr, i, tssAt[i], ldtAt[i], tssSize)
    ensures forall k :: 0 <= k < 16 || 144 <= k < 8192 ==> gdt[k] == old(gdt[k])
  {
    var i := 0;
    while i < 64
      invariant 0 <= i <= 64 && AllPacked(gdt) && forall j :: i <= j < 64 ==> AllPacked(ldts[j])
      invariant forall j :: 0 <= j < i ==> slots[j] == Slot(j, Unused)
      invariant forall j :: 0 <= j < i ==> Installed(gdt, ldts[j], ldtr, j, tssAt[j], ldtAt[j], tssSize)
      invariant forall k :: 0 <= k < 16 || 144 <= k < 8192 ==> gdt[k] == old(gdt[k])
    {
      slots[i] := slots[i].(tssEntryId := i);
      slots[i] := slots[i].(status := Unused);
      InstallProcess(gdt, ldts[i], ldtr, i, tssAt[i], ldtAt[i], tssSize);
      i := i + 1;
    }
  }
}
