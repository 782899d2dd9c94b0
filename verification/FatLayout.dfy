/**
 Boot sectors, directories, FATs and floppies as they are laid out, field behind field, and that the
 readers take the same fields out of them (Microsoft FAT32 File System Specification 1.03, sections
 "Boot Sector and BPB", "FAT Data Structure" and "FAT Directory Structure").
 */
module FatLayout {
  import opened Words
  import opened OptionType
  import opened Fat16Spec
  import Fat16Proofs
  import FloppySpec

  // ---- fields behind one another ----

  /** The first k fields. */
  function Joined(fields: seq<seq<Byte>>, k: nat): seq<Byte>
    requires k <= |fields|
  {
    if k == 0 then [] else Joined(fields, k - 1) + fields[k - 1]
  }

  function All(fields: seq<seq<Byte>>): seq<Byte> {
    Joined(fields, |fields|)
  }

  lemma {:induction false} FieldIn(fields: seq<seq<Byte>>, k: nat, n: nat)
    requires k < n <= |fields|
    ensures |Joined(fields, k)| + |fields[k]| <= |Joined(fields, n)|
    ensures Joined(fields, n)[|Joined(fields, k)|..|Joined(fields, k)| + |fields[k]|] == fields[k]
    decreases n
  {
    if k < n - 1 {
      FieldIn(fields, k, n - 1);
      var from, to := |Joined(fields, k)|, |Joined(fields, k)| + |fields[k]|;
      assert Joined(fields, n)[from..to] == Joined(fields, n - 1)[from..to];
    }
  }

  /** Fields of one length stand at its multiples. */
  lemma {:induction false} EqualFields(fields: seq<seq<Byte>>, size: nat, k: nat)
    requires k <= |fields| && forall i :: 0 <= i < |fields| ==> |fields[i]| == size
    ensures |Joined(fields, k)| == k * size
  {
    if k > 0 {
      EqualFields(fields, size, k - 1);
      assert k * size == (k - 1) * size + size;
    }
  }

  // ---- numbers, low byte first ----

  type Half = n: int | 0 <= n < 0x1_0000
  type Whole = n: int | 0 <= n < 0x1_0000_0000

  function Bytes16(n: Half): (r: seq<Byte>)
    ensures |r| == 2
  {
    [n % 0x100, n / 0x100]
  }

  function Bytes32(n: Whole): (r: seq<Byte>)
    ensures |r| == 4
  {
    Bytes16(n % 0x1_0000) + Bytes16(n / 0x1_0000)
  }

  lemma Reads16(s: seq<Byte>, at: nat, n: Half)
    requires at + 2 <= |s| && s[at..at + 2] == Bytes16(n)
    ensures Le16(s, at) == n
  {
    assert s[at] == s[at..at + 2][0] && s[at + 1] == s[at..at + 2][1];
  }

  lemma Reads32(s: seq<Byte>, at: nat, n: Whole)
    requires at + 4 <= |s| && s[at..at + 4] == Bytes32(n)
    ensures Le32(s, at) == n
  {
    assert s[at..at + 2] == s[at..at + 4][..2] && s[at + 2..at + 4] == s[at..at + 4][2..];
    Reads16(s, at, n % 0x1_0000);
    Reads16(s, at + 2, n / 0x1_0000);
  }

  // ---- the boot sector ----

  predicate HasFields(b: BootSector) {
    && b.bytesPerSector < 0x1_0000 && b.sectorsPerCluster < 0x100 && b.reservedSectors < 0x1_0000
    && b.fatCopies < 0x100 && b.rootEntries < 0x1_0000 && b.sectorsPerFat < 0x1_0000 && b.sectors < 0x1_0000_0000
  }

  /** The fields of a boot sector: jump, name, bytes per sector, sectors per cluster, reserved sectors,
      copies of the FAT, root entries, small number of sectors, media, sectors per FAT, sectors per
      track, heads, hidden sectors, large number of sectors, and the rest. */
  function BootFields(b: BootSector, jump: seq<Byte>, name: seq<Byte>, small: Half, media: Byte, track: Half,
                      heads: Half, hidden: Whole, rest: seq<Byte>): seq<seq<Byte>>
    requires HasFields(b)
  {
    [jump, name, Bytes16(b.bytesPerSector), [b.sectorsPerCluster], Bytes16(b.reservedSectors), [b.fatCopies],
     Bytes16(b.rootEntries), Bytes16(small), [media], Bytes16(b.sectorsPerFat), Bytes16(track), Bytes16(heads),
     Bytes32(hidden), Bytes32(b.sectors), rest]
  }

  lemma BootOffsets(fields: seq<seq<Byte>>)
    requires |fields| == 15 && |fields[0]| == 3 && |fields[1]| == 8
    requires forall k :: k in {2, 4, 6, 7, 9, 10, 11} ==> |fields[k]| == 2
    requires |fields[3]| == |fields[5]| == |fields[8]| == 1 && |fields[12]| == |fields[13]| == 4
    ensures |Joined(fields, 2)| == 11 && |Joined(fields, 3)| == 13 && |Joined(fields, 4)| == 14
    ensures |Joined(fields, 5)| == 16 && |Joined(fields, 6)| == 17 && |Joined(fields, 9)| == 22
    ensures |Joined(fields, 13)| == 32
  {
    assert |Joined(fields, 1)| == 3;
    assert |Joined(fields, 7)| == 19 && |Joined(fields, 8)| == 21;
    assert |Joined(fields, 10)| == 24 && |Joined(fields, 11)| == 26 && |Joined(fields, 12)| == 28;
  }

  /** The reader finds every field that it uses. */
  lemma BootSectorRoundTrip(b: BootSector, jump: seq<Byte>, name: seq<Byte>, small: Half, media: Byte, track: Half,
                            heads: Half, hidden: Whole, rest: seq<Byte>)
    requires HasFields(b) && |jump| == 3 && |name| == 8
    requires |All(BootFields(b, jump, name, small, media, track, heads, hidden, rest))| == 512
    ensures ParseBootSector(All(BootFields(b, jump, name, small, media, track, heads, hidden, rest))) == b
  {
    var fields := BootFields(b, jump, name, small, media, track, heads, hidden, rest);
    BootOffsets(fields);
    var s := All(fields);
    BootField(fields, 2);
    BootField(fields, 3);
    BootField(fields, 4);
    BootField(fields, 5);
    BootField(fields, 6);
    BootField(fields, 9);
    BootField(fields, 13);
    Reads16(s, 11, b.bytesPerSector);
    Reads16(s, 14, b.reservedSectors);
    Reads16(s, 17, b.rootEntries);
    Reads16(s, 22, b.sectorsPerFat);
    Reads32(s, 32, b.sectors);
    assert s[13] == s[13..14][0] && s[16] == s[16..17][0];
  }

  lemma BootField(fields: seq<seq<Byte>>, k: nat)
    requires k < |fields|
    ensures |Joined(fields, k)| + |fields[k]| <= |All(fields)|
    ensures All(fields)[|Joined(fields, k)|..|Joined(fields, k)| + |fields[k]|] == fields[k]
  {
    FieldIn(fields, k, |fields|);
  }

  /** The regions lie one behind the other and the last one ends with the partition. */
  lemma RegionsTile(b: BootSector)
    requires b.bytesPerSector > 0
    ensures var r := RegionsOf(b);
            && r.reservedStart == 0 && r.fatStart == r.reservedStart + r.reservedSize
            && r.rootStart == r.fatStart + r.fatSize && r.rootSize == b.rootEntries * 32 / b.bytesPerSector
            && r.dataStart == r.rootStart + r.rootSize
            && (r.dataStart <= b.sectors < 0x1_0000_0000 ==> r.dataStart + r.dataSize == b.sectors)
    ensures RegionsOf(b).reservedSize == b.reservedSectors && RegionsOf(b).fatSize == b.fatCopies * b.sectorsPerFat
    ensures b.fatCopies > 0 ==> FirstFatSize(b) == b.sectorsPerFat
  {
    var r := RegionsOf(b);
    if r.dataStart <= b.sectors < 0x1_0000_0000 {
      Fat16Proofs.NoWrap(b.sectors - r.dataStart);
    }
    if b.fatCopies > 0 {
      Fat16Proofs.Quotient(r.fatSize, b.fatCopies, b.sectorsPerFat, 0);
    }
  }

  // ---- directories ----

  /** A directory entry: name, extension, attribute and two bytes more, six numbers of time and place,
      start cluster, size. */
  function DirectoryEntry(name: seq<Byte>, extension: seq<Byte>, attributes: seq<Byte>, times: seq<Byte>,
                          cluster: Half, size: Whole): (r: seq<Byte>)
    requires |name| == 8 && |extension| == 3 && |attributes| == 3 && |times| == 6 * 2
    ensures |r| == 32
  {
    name + extension + attributes + times + Bytes16(cluster) + Bytes32(size)
  }

  lemma EntryFields(name: seq<Byte>, extension: seq<Byte>, attributes: seq<Byte>, times: seq<Byte>,
                    cluster: Half, size: Whole)
    requires |name| == 8 && |extension| == 3 && |attributes| == 3 && |times| == 6 * 2
    ensures var e := DirectoryEntry(name, extension, attributes, times, cluster, size);
            e[..11] == name + extension && Le16(e, 26) == cluster && Le32(e, 28) == size
  {
    var e := DirectoryEntry(name, extension, attributes, times, cluster, size);
    assert e[26..28] == Bytes16(cluster) && e[28..32] == Bytes32(size);
    Reads16(e, 26, cluster);
    Reads32(e, 28, size);
  }

  predicate AreEntries(entries: seq<seq<Byte>>) {
    forall i :: 0 <= i < |entries| ==> |entries[i]| == 32
  }

  /** Entry i of a directory is its i-th entry. */
  lemma EntryOfDirectory(entries: seq<seq<Byte>>, i: nat)
    requires AreEntries(entries) && i < |entries|
    ensures (i + 1) * 32 <= |All(entries)| == 32 * |entries| && Entry(All(entries), i) == entries[i]
  {
    EqualFields(entries, 32, i);
    EqualFields(entries, 32, |entries|);
    FieldIn(entries, i, |entries|);
  }

  /** What the lookups return of the entry that they find. */
  lemma LookupReadsEntry(entries: seq<seq<Byte>>, wanted: seq<Byte>, i: nat, name: seq<Byte>, extension: seq<Byte>,
                         attributes: seq<Byte>, times: seq<Byte>, cluster: Half, size: Whole)
    requires AreEntries(entries) && i < |entries|
    requires |name| == 8 && |extension| == 3 && |attributes| == 3 && |times| == 6 * 2
    requires entries[i] == DirectoryEntry(name, extension, attributes, times, cluster, size)
    requires 32 * |entries| <= |All(entries)| && FindEntry(All(entries), wanted, |entries|, 0) == Some(i)
    ensures StartCluster(All(entries), wanted, |entries|) == cluster
    ensures FileSize(All(entries), wanted, |entries|) == ToInt32(size)
    ensures Entry(All(entries), i)[..8] == name
  {
    EntryOfDirectory(entries, i);
    EntryFields(name, extension, attributes, times, cluster, size);
    assert entries[i][..8] == entries[i][..11][..8] == name;
  }

  // ---- sectors ----

  /** A sector of the partition is the sector of the drive so many further on, 512 bytes each. */
  lemma SectorOnDrive(v: Volume, sector: nat, count: nat, k: nat, i: nat)
    requires k < count && i < 512 && v.start + sector < 0x1000_0000
    ensures 512 * k + i < |v.Read(sector, count)|
    ensures v.Read(sector, count)[512 * k + i] == v.disk(512 * (v.start + sector + k) + i)
  {
    assert v.Address(sector) == v.start + sector;
    assert 512 * v.Address(sector) + (512 * k + i) == 512 * (v.start + sector + k) + i;
  }

  // ---- the FAT ----

  /** A FAT16: one number of sixteen bits for every cluster. */
  function Pack16(entries: seq<Half>): (r: seq<Byte>)
    ensures |r| == 2 * |entries|
  {
    if entries == [] then [] else Bytes16(entries[0]) + Pack16(entries[1..])
  }

  lemma {:induction false} Packed16(entries: seq<Half>, c: nat)
    requires c < |entries|
    ensures Pack16(entries)[2 * c..2 * c + 2] == Bytes16(entries[c])
    decreases |entries|
  {
    if c > 0 {
      Packed16(entries[1..], c - 1);
      var rest := Pack16(entries[1..]);
      assert Pack16(entries)[2 * c..2 * c + 2] == rest[2 * (c - 1)..2 * (c - 1) + 2];
    }
  }

  /** get_next_cluster gives the number that the FAT holds for the cluster. */
  lemma NextIsEntry(v: Volume, entries: seq<Half>, c: nat)
    requires v.Mountable() && FirstFat(v) == Some(Pack16(entries)) && c < |entries|
    ensures NextCluster(v, c) == Some(entries[c])
  {
    Packed16(entries, c);
    Reads16(Pack16(entries), 2 * c, entries[c]);
  }

  // ---- a file on the drive ----

  /** Where the data region begins. */
  function DataAt(b: BootSector): nat {
    b.reservedSectors + b.fatCopies * b.sectorsPerFat + b.rootEntries * 32 / 512
  }

  /** The clusters, each linked to the next by the FAT, all of them inside the partition. */
  predicate Linked(v: Volume, entries: seq<Half>, c: seq<int>) {
    && c != [] && 2 <= c[0] < |entries|
    && DataAt(v.boot) + (c[0] - 1) * v.boot.sectorsPerCluster < v.sectors
    && (|c| > 1 ==> entries[c[0]] == c[1] && Linked(v, entries, c[1..]))
  }

  /** The sectors of the clusters, one after the other. */
  function OnDrive(v: Volume, c: seq<int>): seq<Byte>
    requires forall k :: 0 <= k < |c| ==> c[k] >= 2
  {
    if c == [] then []
    else v.Read(DataAt(v.boot) + (c[0] - 2) * v.boot.sectorsPerCluster, v.boot.sectorsPerCluster) + OnDrive(v, c[1..])
  }

  lemma {:induction false} LinkedInside(v: Volume, entries: seq<Half>, c: seq<int>)
    requires Linked(v, entries, c)
    ensures forall k :: 0 <= k < |c| ==> c[k] >= 2
  {
    if |c| > 1 {
      LinkedInside(v, entries, c[1..]);
    }
  }

  lemma ClusterOnDrive(v: Volume, cluster: int)
    requires v.Mountable() && cluster >= 2
    requires DataAt(v.boot) + (cluster - 1) * v.boot.sectorsPerCluster < v.sectors
    ensures ClusterData(v, cluster)
            == Some(v.Read(DataAt(v.boot) + (cluster - 2) * v.boot.sectorsPerCluster, v.boot.sectorsPerCluster))
  {
    InsideWraps(DataAt(v.boot), v.boot.sectorsPerCluster, cluster, v.sectors);
  }

  lemma InsideWraps(start: nat, count: nat, cluster: int, sectors: nat)
    requires cluster >= 2 && start + (cluster - 1) * count < sectors < 0x1_0000_0000
    ensures 0 <= start + (cluster - 2) * count
    ensures (start + (cluster - 2) * count) % 0x1_0000_0000 == start + (cluster - 2) * count
    ensures (start + (cluster - 2) * count + count) % 0x1_0000_0000 == start + (cluster - 1) * count
  {
    assert (cluster - 1) * count == (cluster - 2) * count + count;
    Product(cluster - 2, count);
    Fat16Proofs.NoWrap(start + (cluster - 2) * count);
    Fat16Proofs.NoWrap(start + (cluster - 1) * count);
  }

  lemma Product(a: nat, b: nat)
    ensures a * b >= 0
  {
  }

  /** The chain that the loop of read_file follows is the one that the FAT holds. */
  lemma {:induction false} LinkedIsChain(v: Volume, entries: seq<Half>, c: seq<int>)
    requires v.Mountable() && FirstFat(v) == Some(Pack16(entries)) && Linked(v, entries, c)
    ensures forall k :: 0 <= k < |c| ==> c[k] >= 2
    ensures Fat16Proofs.IsChain(ClustersOf(v), c) && Fat16Proofs.Content(ClustersOf(v), c) == OnDrive(v, c)
  {
    LinkedInside(v, entries, c);
    ClusterOnDrive(v, c[0]);
    NextIsEntry(v, entries, c[0]);
    if |c| > 1 {
      LinkedIsChain(v, entries, c[1..]);
      LinkedInside(v, entries, c[1..]);
    }
  }

  /** The root directory and the FAT as they stand on the drive. */
  predicate Formatted(v: Volume, dir: seq<seq<Byte>>, entries: seq<Half>) {
    && v.Mountable() && AreEntries(dir) && |dir| == v.boot.rootEntries
    && v.Read(v.boot.reservedSectors + v.boot.fatCopies * v.boot.sectorsPerFat, v.boot.rootEntries * 32 / 512)
       == All(dir)
    && v.Read(v.boot.reservedSectors, v.boot.sectorsPerFat) == Pack16(entries)
    && DataAt(v.boot) < v.sectors
  }

  lemma ReadsFormatted(v: Volume, dir: seq<seq<Byte>>, entries: seq<Half>)
    requires Formatted(v, dir, entries)
    ensures RootDirectory(v) == Some(All(dir)) && FirstFat(v) == Some(Pack16(entries))
    ensures RegionsOf(v.boot).dataStart == DataAt(v.boot)
  {
    var b := v.boot;
    RegionsTile(b);
    FirstCopy(b.fatCopies, b.sectorsPerFat);
    ReadsInside(v, b.reservedSectors, b.sectorsPerFat);
    ReadsInside(v, b.reservedSectors + b.fatCopies * b.sectorsPerFat, b.rootEntries * 32 / 512);
  }

  lemma FirstCopy(copies: nat, size: nat)
    requires copies > 0
    ensures size <= copies * size
  {
    Product(copies - 1, size);
    assert copies * size == (copies - 1) * size + size;
  }

  lemma ReadsInside(v: Volume, sector: nat, count: nat)
    requires sector + count < v.sectors < 0x1_0000_0000
    ensures ReadSectors(v, sector, count) == Some(v.Read(sector, count))
  {
    Fat16Proofs.NoWrap(sector + count);
  }

  /** A file as it stands on the drive, its entry in the root directory and its chain in the FAT:
      read_file gives exactly the first min(file size, buffer size) bytes of its sectors. */
  lemma ReadsFileOnDrive(v: Volume, dir: seq<seq<Byte>>, entries: seq<Half>, wanted: seq<Byte>, bufSize: nat, i: nat,
                         name: seq<Byte>, extension: seq<Byte>, attributes: seq<Byte>, times: seq<Byte>,
                         size: Whole, c: seq<int>)
    requires Formatted(v, dir, entries) && Linked(v, entries, c) && c[0] < 0x1_0000
    requires |name| == 8 && |extension| == 3 && |attributes| == 3 && |times| == 6 * 2
    requires i < |dir| && dir[i] == DirectoryEntry(name, extension, attributes, times, c[0], size)
    requires wanted != [] && 32 * |dir| <= |All(dir)| && FindEntry(All(dir), wanted, |dir|, 0) == Some(i)
    requires bufSize < WORD_MODULUS && Min(bufSize, size) < 0x8000_0000
    requires Min(bufSize, size) <= |c| * (512 * v.boot.sectorsPerCluster)
    ensures (forall k :: 0 <= k < |c| ==> c[k] >= 2) && Min(bufSize, size) <= |OnDrive(v, c)|
    ensures ReadFile(v, wanted, bufSize) == Loaded(OnDrive(v, c)[..Min(bufSize, size)], true)
  {
    ReadsFormatted(v, dir, entries);
    LinkedIsChain(v, entries, c);
    EntryOfDirectory(dir, i);
    EntryFields(name, extension, attributes, times, c[0], size);
    Fat16Proofs.ReadFileIsContent(v, wanted, bufSize, All(dir), i, c);
  }

  // ---- the boot floppy ----

  /** The floppy: boot sector, two FATs of nine sectors, fourteen sectors of root directory, data. */
  function FloppyParts(boot: seq<Byte>, fat: seq<Byte>, copy: seq<Byte>, root: seq<Byte>, data: seq<Byte>)
    : seq<Byte>
  {
    boot + fat + copy + root + data
  }

  /** The loader takes FAT and root directory where they are, and cluster c is number c - 2 of the
      data. */
  lemma FloppyIsRead(boot: seq<Byte>, fat: seq<Byte>, copy: seq<Byte>, root: seq<Byte>, data: seq<Byte>, c: nat)
    requires |boot| == 512 && |fat| == |copy| == 9 * 512 && |root| == 14 * 512 && |data| == 2847 * 512
    requires 2 <= c < 2849
    ensures var image := FloppyParts(boot, fat, copy, root, data);
            && |image| == 2880 * 512
            && FloppySpec.FatOf(image) == fat && FloppySpec.RootOf(image) == root
            && FloppySpec.Content(image, [c]) == data[512 * (c - 2)..512 * (c - 1)]
  {
    var image := FloppyParts(boot, fat, copy, root, data);
    assert FloppySpec.Content(image, []) == [];
    assert [c][1..] == [];
    assert FloppySpec.Content(image, [c]) == FloppySpec.Sector(image, c + 31);
    assert image[512 * (c + 31)..512 * (c + 32)] == data[512 * (c - 2)..512 * (c - 1)];
  }

  /** Name and start cluster come out of the entry. */
  lemma FloppyEntry(entries: seq<seq<Byte>>, i: nat, name: seq<Byte>, extension: seq<Byte>, attributes: seq<Byte>,
                    times: seq<Byte>, cluster: Half, size: Whole)
    requires AreEntries(entries) && |entries| == 224 && i < 224
    requires |name| == 8 && |extension| == 3 && |attributes| == 3 && |times| == 6 * 2
    requires entries[i] == DirectoryEntry(name, extension, attributes, times, cluster, size)
    ensures |All(entries)| == 224 * 32
    ensures FloppySpec.NameAt(All(entries), i) == name + extension
    ensures FloppySpec.StartOfEntry(All(entries), i) == cluster
  {
    var root := All(entries);
    EntryOfDirectory(entries, i);
    EntryFields(name, extension, attributes, times, cluster, size);
    assert root[32 * i..32 * i + 32] == entries[i];
    assert root[32 * i..32 * i + 11] == entries[i][..11];
    assert root[32 * i + 26..32 * i + 28] == entries[i][26..28] == Bytes16(cluster);
    Reads16(root, 32 * i + 26, cluster);
  }
}
