/**
 The FAT16 reader of fs.c as functions on the contents of the drive.  A missing result stands
 for _panic.
 */
module Fat16Spec {
  import opened Words
  import opened OptionType

  const SECTOR := 512
  const ENTRY_SIZE := 32
  const NAME_LENGTH := 8

  /** The fields of the boot sector that the reader uses. */
  datatype BootSector = BootSector(
    bytesPerSector: nat,
    sectorsPerCluster: nat,
    reservedSectors: nat,
    fatCopies: nat,
    rootEntries: nat,
    sectorsPerFat: nat,
    sectors: nat)

  /** First sector and number of sectors of each region. */
  datatype Regions = Regions(
    reservedStart: nat, reservedSize: nat,
    fatStart: nat, fatSize: nat,
    rootStart: nat, rootSize: nat,
    dataStart: nat, dataSize: nat)

  /** The offsets of fat16_bootsector_t, which is packed. */
  function ParseBootSector(sector: seq<Byte>): BootSector
    requires |sector| == 512
  {
    BootSector(Le16(sector, 11), sector[13], Le16(sector, 14), sector[16], Le16(sector, 17), Le16(sector, 22),
               Le32(sector, 32))
  }

  /** A partition: the drive it is on, byte by byte, its first sector there, its number of sectors
      and its boot sector.  Beyond is what memory holds around the buffer of the FAT, indexed like
      the FAT. */
  datatype Volume = Volume(disk: nat -> Byte, start: nat, sectors: nat, boot: BootSector, beyond: int -> nat) {
    /** The buffers of the reader are as large as what it reads into them. */
    predicate Mountable() {
      && start < WORD_MODULUS && 2 <= sectors < WORD_MODULUS
      && boot == ParseBootSector(Read(0, 1))
      && boot.bytesPerSector == SECTOR && 0 < boot.sectorsPerCluster && 0 < boot.fatCopies
      && boot.rootEntries * ENTRY_SIZE % 512 == 0
    }

    /** Where sector n of the partition is on the drive: of the 32-bit sum the drive gets the
        lower 28 bits. */
    function Address(n: nat): nat {
      (start + n) % 0x1000_0000
    }

    /** ata_pio_lba_read. */
    function Read(sector: nat, count: nat): (r: seq<Byte>)
      ensures |r| == count * 512
    {
      seq<Byte>(count * 512, i requires 0 <= i => disk(512 * Address(sector) + i))
    }
  }

  function RegionsOf(b: BootSector): Regions
    requires b.bytesPerSector > 0
  {
    var fatStart := b.reservedSectors;
    var fatSize := b.fatCopies * b.sectorsPerFat;
    var rootStart := fatStart + fatSize;
    var rootSize := b.rootEntries * ENTRY_SIZE / b.bytesPerSector;
    Regions(0, b.reservedSectors, fatStart, fatSize, rootStart, rootSize, rootStart + rootSize,
            (b.sectors - (b.reservedSectors + fatSize + rootSize)) % 0x1_0000_0000)
  }

  // ---- reading sectors ----

  /** partition_read: the check is on a 32-bit sum and excludes the last sector. */
  function ReadSectors(v: Volume, sector: nat, count: nat): (r: Option<seq<Byte>>)
    ensures r.Some? ==> |r.value| == count * 512
  {
    if (sector + count) % 0x1_0000_0000 >= v.sectors then None else Some(v.Read(sector, count))
  }

  function ToInt32(x: int): int {
    var y := x % 0x1_0000_0000;
    if y >= 0x8000_0000 then y - 0x1_0000_0000 else y
  }

  // ---- directory ----

  /** A C string: the bytes before the terminating zero. */
  predicate IsCString(s: seq<Byte>) {
    forall i :: 0 <= i < |s| ==> s[i] != 0
  }

  function ToUpper(b: Byte): Byte {
    if 'a' as int <= b <= 'z' as int then b - 32 else b
  }

  /** The comparison loop of fat16_filename_cmp from position i. */
  predicate MatchesFrom(name: seq<Byte>, entry: seq<Byte>, i: nat)
    requires |entry| >= NAME_LENGTH
    decreases NAME_LENGTH - i
  {
    i >= NAME_LENGTH || i >= |name| || entry[i] == 0x20 ||
    (ToUpper(name[i]) == entry[i] && MatchesFrom(name, entry, i + 1))
  }

  predicate Matches(name: seq<Byte>, entry: seq<Byte>)
    requires |entry| >= NAME_LENGTH
  {
    |name| <= NAME_LENGTH && MatchesFrom(name, entry, 0)
  }

  /** The value of a char, which is signed. */
  function SignedChar(b: Byte): int {
    if b >= 128 then b - 256 else b
  }

  function Entry(dir: seq<Byte>, i: nat): (e: seq<Byte>)
    requires (i + 1) * ENTRY_SIZE <= |dir|
    ensures |e| == ENTRY_SIZE
  {
    dir[i * 32..(i + 1) * 32]
  }

  /** The scan of the root directory: the first entry that matches, unless an end mark
      comes first.  The test for a deleted entry compares a signed char with 0xe5. */
  function FindEntry(dir: seq<Byte>, name: seq<Byte>, n: nat, i: nat): (r: Option<nat>)
    requires i <= n && n * 32 <= |dir|
    ensures r.Some? ==> i <= r.value < n
    decreases n - i
  {
    if i == n || Entry(dir, i)[0] == 0 then None
    else if SignedChar(Entry(dir, i)[0]) == 0xe5 then FindEntry(dir, name, n, i + 1)
    else if Matches(name, Entry(dir, i)) then Some(i)
    else FindEntry(dir, name, n, i + 1)
  }

  function RootDirectory(v: Volume): (r: Option<seq<Byte>>)
    requires v.Mountable()
    ensures r.Some? ==> |r.value| == v.boot.rootEntries * 32
  {
    var regions := RegionsOf(v.boot);
    assert regions.rootSize * 512 == v.boot.rootEntries * 32;
    ReadSectors(v, regions.rootStart, regions.rootSize)
  }

  /** What get_file_size and get_file_start_cluster return: -1 when nothing matches. */
  function FileSize(dir: seq<Byte>, name: seq<Byte>, n: nat): int
    requires n * 32 <= |dir|
  {
    match FindEntry(dir, name, n, 0)
    case None => -1
    case Some(i) => ToInt32(Le32(Entry(dir, i), 28))
  }

  function StartCluster(dir: seq<Byte>, name: seq<Byte>, n: nat): int
    requires n * 32 <= |dir|
  {
    match FindEntry(dir, name, n, 0)
    case None => -1
    case Some(i) => Le16(Entry(dir, i), 26)
  }

  // ---- clusters ----

  function ClusterBytes(v: Volume): (r: nat)
    ensures v.Mountable() ==> r == 512 * v.boot.sectorsPerCluster && r > 0
  {
    v.boot.bytesPerSector * v.boot.sectorsPerCluster
  }

  /** get_first_sector_of_cluster_n, in 32-bit arithmetic. */
  function FirstSector(v: Volume, cluster: int): nat
    requires v.boot.bytesPerSector > 0
  {
    (RegionsOf(v.boot).dataStart + (cluster - 2) * v.boot.sectorsPerCluster) % 0x1_0000_0000
  }

  function ClusterData(v: Volume, cluster: int): (r: Option<seq<Byte>>)
    requires v.Mountable()
    ensures r.Some? ==> |r.value| == ClusterBytes(v)
  {
    ReadSectors(v, FirstSector(v, cluster), v.boot.sectorsPerCluster)
  }

  function FirstFatSize(b: BootSector): nat
    requires b.bytesPerSector > 0 && b.fatCopies > 0
  {
    RegionsOf(b).fatSize / b.fatCopies
  }

  /** The first copy of the FAT, which get_next_cluster reads as a whole. */
  function FirstFat(v: Volume): Option<seq<Byte>>
    requires v.boot.bytesPerSector > 0 && v.boot.fatCopies > 0
  {
    ReadSectors(v, RegionsOf(v.boot).fatStart, FirstFatSize(v.boot))
  }

  /** get_next_cluster: an entry of the first FAT, or stray memory around its buffer. */
  function NextCluster(v: Volume, cluster: int): Option<nat>
    requires v.Mountable()
  {
    match FirstFat(v)
    case None => None
    case Some(fat) =>
      Some(if 0 <= cluster && 2 * cluster + 1 < |fat| then Le16(fat, 2 * cluster) else v.beyond(cluster))
  }

  /** The clusters as the loop of read_file sees them: their bytes and their links. */
  datatype Clusters = Clusters(data: int -> Option<seq<Byte>>, next: int -> Option<nat>) {
    ghost predicate NoneEmpty() {
      forall c :: data(c).Some? ==> data(c).value != []
    }
  }

  function ClustersOf(v: Volume): (m: Clusters)
    requires v.Mountable()
    ensures m.NoneEmpty()
  {
    Clusters((c: int) => ClusterData(v, c), (c: int) => NextCluster(v, c))
  }

  /** The bytes that read_file stores, and whether it returns rather than panics. */
  datatype Loaded = Loaded(bytes: seq<Byte>, completed: bool)

  /** The loop of read_file. */
  function Load(m: Clusters, cluster: int, remain: int): (r: Loaded)
    requires m.NoneEmpty()
    ensures |r.bytes| <= if remain > 0 then remain else 0
    decreases if remain > 0 then remain else 0
  {
    if remain <= 0 then Loaded([], true)
    else
      match m.data(cluster)
      case None => Loaded([], false)
      case Some(data) =>
        var part := data[..Min(remain, |data|)];
        match m.next(cluster)
        case None => Loaded(part, false)
        case Some(next) =>
          if next <= 0 then Loaded(part, true)
          else
            var rest := Load(m, next, remain - |part|);
            Loaded(part + rest.bytes, rest.completed)
  }

  /** get_file_size and get_file_start_cluster; None stands for a panic. */
  function SizeOf(v: Volume, name: seq<Byte>): Option<int>
    requires v.Mountable()
  {
    if name == [] then Some(-1)
    else
      match RootDirectory(v)
      case None => None
      case Some(dir) => Some(FileSize(dir, name, v.boot.rootEntries))
  }

  function StartOf(v: Volume, name: seq<Byte>): Option<int>
    requires v.Mountable()
  {
    if name == [] then Some(-1)
    else
      match RootDirectory(v)
      case None => None
      case Some(dir) => Some(StartCluster(dir, name, v.boot.rootEntries))
  }

  /** How much read_file sets out to read: the sizes are unsigned, what remains is an int. */
  function Wanted(bufSize: nat, size: int): int {
    ToInt32(Min(bufSize, size % 0x1_0000_0000))
  }

  /** read_file into a buffer of bufSize bytes. */
  function ReadFile(v: Volume, name: seq<Byte>, bufSize: nat): Loaded
    requires v.Mountable() && bufSize < WORD_MODULUS
  {
    match SizeOf(v, name)
    case None => Loaded([], false)
    case Some(size) =>
      match StartOf(v, name)
      case None => Loaded([], false)
      case Some(start) => Load(ClustersOf(v), start, Wanted(bufSize, size))
  }
}
