/** What the FAT16 reader promises, and where it does not meet the promise. */
module Fat16Proofs {
  import opened Words
  import opened OptionType
  import opened Fat16Spec

  // ---- geometry ----

  /** FirstDataSector of the Microsoft FAT32 File System Specification 1.03, section
      "FAT Data Structure": the root directory region is rounded up to whole sectors. */
  function StandardDataStart(b: BootSector): nat
    requires b.bytesPerSector > 0
  {
    b.reservedSectors + b.fatCopies * b.sectorsPerFat
    + (b.rootEntries * 32 + b.bytesPerSector - 1) / b.bytesPerSector
  }

  /** The reader rounds down: it finds the data region exactly when the root directory
      fills its sectors. */
  lemma DataStartIsStandard(b: BootSector)
    requires b.bytesPerSector > 0
    ensures RegionsOf(b).dataStart == StandardDataStart(b) <==> b.rootEntries * 32 % b.bytesPerSector == 0
  {
    RoundUp(b.rootEntries * 32, b.bytesPerSector);
  }

  lemma RoundUp(x: nat, d: nat)
    requires d > 0
    ensures (x + d - 1) / d == x / d + if x % d == 0 then 0 else 1
  {
    var q, r := x / d, x % d;
    if r == 0 {
      Quotient(x + d - 1, d, q, d - 1);
    } else {
      assert d * (q + 1) == d * q + d;
      Quotient(x + d - 1, d, q + 1, r - 1);
    }
  }

  lemma Quotient(x: int, d: int, q: int, r: int)
    requires d > 0 && x == d * q + r && 0 <= r < d
    ensures x / d == q
  {
    var q' := x / d;
    var k := q' - q;
    assert d * q' == d * q + d * k;
    if k >= 1 {
      AtLeast(d, k);
    } else if k <= -1 {
      AtLeast(d, -k);
    }
  }

  lemma AtLeast(d: int, k: int)
    requires d > 0 && k >= 1
    ensures d * k >= d
  {
  }

  // ---- names ----

  function Upper(name: seq<Byte>): (r: seq<Byte>)
    ensures |r| == |name|
  {
    seq(|name|, i requires 0 <= i < |name| => ToUpper(name[i]))
  }

  /** Small letters become the capital letters of the same places in the alphabet, and no other byte
      changes. */
  lemma ToUpperIsAlphabetic(b: Byte, place: nat)
    requires place < 26
    ensures b == 'a' as int + place ==> ToUpper(b) == 'A' as int + place
    ensures b < 'a' as int || b > 'z' as int ==> ToUpper(b) == b
  {
  }

  /** The length of the name in an entry, without the padding. */
  function NameEnd(entry: seq<Byte>, from: nat): (r: nat)
    requires |entry| >= NAME_LENGTH && from <= NAME_LENGTH
    ensures from <= r <= NAME_LENGTH
    decreases NAME_LENGTH - from
  {
    if from == NAME_LENGTH || entry[from] == 0x20 then from else NameEnd(entry, from + 1)
  }

  function EntryName(entry: seq<Byte>): seq<Byte>
    requires |entry| >= NAME_LENGTH
  {
    entry[..NameEnd(entry, 0)]
  }

  lemma {:induction false} MatchesFromIsAgreement(name: seq<Byte>, entry: seq<Byte>, i: nat)
    requires |entry| >= NAME_LENGTH && i <= NAME_LENGTH && i <= NameEnd(entry, 0)
    requires NameEnd(entry, i) == NameEnd(entry, 0)
    ensures MatchesFrom(name, entry, i) <==>
      forall k :: i <= k < NameEnd(entry, 0) && k < |name| ==> ToUpper(name[k]) == entry[k]
    decreases NAME_LENGTH - i
  {
    if i < NAME_LENGTH && i < |name| && entry[i] != 0x20 {
      MatchesFromIsAgreement(name, entry, i + 1);
    }
  }

  /** The comparison accepts exactly when one of the two names is a prefix of the other,
      case ignored, and the name has at most eight characters. */
  lemma MatchesIsPrefix(name: seq<Byte>, entry: seq<Byte>)
    requires |entry| >= NAME_LENGTH
    ensures Matches(name, entry) <==>
      |name| <= 8 && (Upper(name) <= EntryName(entry) || EntryName(entry) <= Upper(name))
  {
    MatchesFromIsAgreement(name, entry, 0);
    var n := NameEnd(entry, 0);
    if |name| <= NAME_LENGTH {
      if Matches(name, entry) {
        assert |name| <= n ==> Upper(name) == EntryName(entry)[..|name|];
        assert |name| > n ==> EntryName(entry) == Upper(name)[..n];
      }
      if Upper(name) <= EntryName(entry) || EntryName(entry) <= Upper(name) {
        forall k | 0 <= k < n && k < |name| ensures ToUpper(name[k]) == entry[k] {
          assert Upper(name)[k] == EntryName(entry)[k];
        }
      }
    }
  }

  /** It tells the right file exactly when the lengths agree. */
  lemma MatchesIsEquality(name: seq<Byte>, entry: seq<Byte>)
    requires |entry| >= NAME_LENGTH
    ensures Upper(name) == EntryName(entry) <==> Matches(name, entry) && |name| == |EntryName(entry)|
  {
    MatchesIsPrefix(name, entry);
  }

  /** "in" is taken for the file INIT. */
  lemma ShortNameMatches()
    ensures var entry: seq<Byte> := [0x49, 0x4e, 0x49, 0x54, 0x20, 0x20, 0x20, 0x20];
            var name: seq<Byte> := [0x69, 0x6e];
            Matches(name, entry) && Upper(name) != EntryName(entry)
  {
    var entry: seq<Byte> := [0x49, 0x4e, 0x49, 0x54, 0x20, 0x20, 0x20, 0x20];
    var name: seq<Byte> := [0x69, 0x6e];
    assert MatchesFrom(name, entry, 2) && MatchesFrom(name, entry, 1) && MatchesFrom(name, entry, 0);
    assert NameEnd(entry, 4) == 4 && NameEnd(entry, 3) == 4 && NameEnd(entry, 2) == 4;
    assert NameEnd(entry, 1) == 4;
    assert |EntryName(entry)| == 4;
  }

  // ---- directory scan ----

  /** Both lookups stop at the same entry: the lowest that matches, with no end mark at
      or before it; and they find one whenever there is one. */
  lemma {:induction false} FindEntryIsFirst(dir: seq<Byte>, name: seq<Byte>, n: nat, from: nat)
    requires from <= n && n * 32 <= |dir|
    ensures match FindEntry(dir, name, n, from)
            case Some(i) =>
              && Matches(name, Entry(dir, i))
              && (forall j :: from <= j <= i ==> Entry(dir, j)[0] != 0)
              && (forall j :: from <= j < i ==> !Matches(name, Entry(dir, j)))
            case None =>
              forall i :: from <= i < n && Matches(name, Entry(dir, i)) ==>
                exists j :: from <= j <= i && Entry(dir, j)[0] == 0
    decreases n - from
  {
    if from < n {
      if Entry(dir, from)[0] != 0 && !Matches(name, Entry(dir, from)) {
        FindEntryIsFirst(dir, name, n, from + 1);
      }
    }
  }

  /** The scan returns an entry that is marked as deleted. */
  predicate ReturnsDeleted(dir: seq<Byte>, name: seq<Byte>, n: nat) {
    n * 32 <= |dir| && FindEntry(dir, name, n, 0).Some? && Entry(dir, FindEntry(dir, name, n, 0).value)[0] == 0xe5
  }

  lemma DeletedIsNotFound(dir: seq<Byte>, name: seq<Byte>, n: nat)
    requires name != [] && ReturnsDeleted(dir, name, n)
    ensures name[0] == 0xe5 && |name| <= NAME_LENGTH
  {
    FindEntryIsFirst(dir, name, n, 0);
  }

  /** The directory entry of a name without an extension, everything else blank. */
  function Padded(name: seq<Byte>): (e: seq<Byte>)
    ensures |e| == ENTRY_SIZE
  {
    seq(32, i requires 0 <= i < 32 => if i < |name| then ToUpper(name[i]) else 0x20)
  }

  /** A directory with one entry, a deleted one, that the scan returns. */
  lemma DeletedIsReturned(name: seq<Byte>)
    requires name != [] && name[0] == 0xe5 && |name| <= NAME_LENGTH
    ensures ReturnsDeleted(Padded(name), name, 1)
  {
    var e := Padded(name);
    MatchesFromIsAgreement(name, e, 0);
    assert Entry(e, 0) == e;
  }

  /** The test for deleted entries never fires; still the scan of some directory returns a
      deleted entry if and only if the name begins with the deletion mark and is short enough. */
  lemma DeletedFoundIff(name: seq<Byte>)
    requires name != []
    ensures (exists dir, n :: ReturnsDeleted(dir, name, n)) <==> name[0] == 0xe5 && |name| <= NAME_LENGTH
  {
    if name[0] == 0xe5 && |name| <= NAME_LENGTH {
      DeletedIsReturned(name);
    }
    forall dir, n | ReturnsDeleted(dir, name, n) ensures name[0] == 0xe5 && |name| <= NAME_LENGTH {
      DeletedIsNotFound(dir, name, n);
    }
  }

  // ---- following a chain ----

  /** Clusters that the FAT links one to the next, all readable. */
  ghost predicate IsChain(m: Clusters, c: seq<int>) {
    && c != [] && m.data(c[0]).Some? && m.next(c[0]).Some?
    && (|c| > 1 ==> c[1] > 0 && m.next(c[0]).value == c[1] && IsChain(m, c[1..]))
  }

  /** The clusters' bytes, one after the other. */
  ghost function Content(m: Clusters, c: seq<int>): (r: seq<Byte>)
    requires IsChain(m, c)
  {
    m.data(c[0]).value + if |c| == 1 then [] else Content(m, c[1..])
  }

  lemma {:induction false} ContentLength(v: Volume, c: seq<int>)
    requires v.Mountable() && IsChain(ClustersOf(v), c)
    ensures |Content(ClustersOf(v), c)| == |c| * ClusterBytes(v)
  {
    if |c| > 1 {
      ContentLength(v, c[1..]);
    }
    OneMore(|c| - 1, ClusterBytes(v));
  }

  lemma OneMore(k: nat, size: nat)
    ensures (k + 1) * size == size + k * size
  {
  }

  /** The first bytes of a concatenation. */
  lemma PrefixOfSum(a: seq<Byte>, b: seq<Byte>, n: nat)
    requires n <= |a| + |b|
    ensures (a + b)[..n] == if n <= |a| then a[..n] else a + b[..n - |a|]
  {
  }

  /** Following a chain long enough loads exactly the first bytes of its content, cluster
      by cluster, whatever the FAT says after it. */
  lemma {:induction false} LoadIsPrefix(m: Clusters, c: seq<int>, remain: nat)
    requires m.NoneEmpty() && IsChain(m, c) && remain <= |Content(m, c)|
    ensures Load(m, c[0], remain) == Loaded(Content(m, c)[..remain], true)
    decreases |c|
  {
    var data := m.data(c[0]).value;
    PrefixOfSum(data, if |c| == 1 then [] else Content(m, c[1..]), remain);
    if remain > |data| {
      LoadIsPrefix(m, c[1..], remain - |data|);
    } else if remain > 0 {
      assert Load(m, m.next(c[0]).value, 0) == Loaded([], true);
    }
  }

  /** The FAT entry of the last cluster is 0, a free cluster. */
  ghost predicate EndsFree(m: Clusters, c: seq<int>)
    requires c != []
  {
    if |c| == 1 then m.next(c[0]) == Some(0) else EndsFree(m, c[1..])
  }

  /** A chain that ends too early, in a free cluster, gives all it has. */
  lemma {:induction false} LoadStopsAtFree(m: Clusters, c: seq<int>, remain: nat)
    requires m.NoneEmpty() && IsChain(m, c) && EndsFree(m, c)
    requires remain > |Content(m, c)|
    ensures Load(m, c[0], remain) == Loaded(Content(m, c), true)
    decreases |c|
  {
    var data := m.data(c[0]).value;
    assert data[..|data|] == data;
    if |c| > 1 {
      LoadStopsAtFree(m, c[1..], remain - |data|);
    }
  }

  /** A chain that ends too early in anything else, an end-of-chain mark included, is
      followed further: the loop knows no end mark. */
  lemma {:induction false} LoadRunsOn(m: Clusters, c: seq<int>, last: int, remain: nat)
    requires m.NoneEmpty() && IsChain(m, c) && !EndsFree(m, c) && last == Last(c)
    requires remain > |Content(m, c)|
    ensures m.next(last).Some?
    ensures var rest := Load(m, m.next(last).value, remain - |Content(m, c)|);
            Load(m, c[0], remain) == Loaded(Content(m, c) + rest.bytes, rest.completed)
    decreases |c|
  {
    hide Load;
    if |c| == 1 {
      LoadsWholeCluster(m, c[0], remain);
    } else {
      var data := m.data(c[0]).value;
      LoadRunsOn(m, c[1..], last, remain - |data|);
      RunsOnStep(m, c, remain, Load(m, m.next(last).value, remain - |data| - |Content(m, c[1..])|));
    }
  }

  lemma RunsOnStep(m: Clusters, c: seq<int>, remain: nat, rest: Loaded)
    requires m.NoneEmpty() && IsChain(m, c) && |c| > 1 && remain > |m.data(c[0]).value|
    requires Load(m, c[1], remain - |m.data(c[0]).value|) == Loaded(Content(m, c[1..]) + rest.bytes, rest.completed)
    ensures Load(m, c[0], remain) == Loaded(Content(m, c) + rest.bytes, rest.completed)
  {
    hide Load;
    LoadsWholeCluster(m, c[0], remain);
    Associate(m.data(c[0]).value, Content(m, c[1..]), rest.bytes);
  }

  /** A cluster that is wanted as a whole, and what follows it. */
  lemma LoadsWholeCluster(m: Clusters, cluster: int, remain: nat)
    requires m.NoneEmpty() && m.data(cluster).Some? && m.next(cluster).Some? && remain > |m.data(cluster).value|
    ensures var data, next := m.data(cluster).value, m.next(cluster).value;
            if next <= 0 then Load(m, cluster, remain) == Loaded(data, true)
            else
              var rest := Load(m, next, remain - |data|);
              Load(m, cluster, remain) == Loaded(data + rest.bytes, rest.completed)
  {
    var data := m.data(cluster).value;
    assert data[..|data|] == data;
  }

  lemma Associate(a: seq<Byte>, b: seq<Byte>, c: seq<Byte>)
    ensures a + (b + c) == (a + b) + c
  {
  }

  /** A chain that is too short gives just what it has, and read_file returns, if and only if it ends
      in a free cluster. */
  lemma ShortChainLoadsIff(m: Clusters, c: seq<int>, remain: nat)
    requires m.NoneEmpty() && IsChain(m, c) && remain > |Content(m, c)|
    ensures Load(m, c[0], remain) == Loaded(Content(m, c), true) <==> EndsFree(m, c)
  {
    if EndsFree(m, c) {
      LoadStopsAtFree(m, c, remain);
    } else {
      LoadRunsOn(m, c, Last(c), remain);
      var left := remain - |Content(m, c)|;
      LoadsSomething(m, m.next(Last(c)).value, left);
      var rest := Load(m, m.next(Last(c)).value, left);
      assert rest.completed ==> |Content(m, c) + rest.bytes| > |Content(m, c)|;
    }
  }

  /** The end-of-chain marks of FAT16. */
  predicate IsEndMark(entry: int) {
    0xFFF8 <= entry <= 0xFFFF
  }

  /** A chain that is too short and ends in an end-of-chain mark makes read_file panic, with its
      bytes stored, if and only if the end of the cluster that has the mark for its number is not below
      the number of sectors. */
  lemma EndMarkPanicsIff(v: Volume, c: seq<int>, remain: nat, mark: int)
    requires v.Mountable() && IsChain(ClustersOf(v), c) && remain > |Content(ClustersOf(v), c)|
    requires IsEndMark(mark) && NextCluster(v, Last(c)) == Some(mark)
    ensures Load(ClustersOf(v), c[0], remain) == Loaded(Content(ClustersOf(v), c), false)
            <==> RegionsOf(v.boot).dataStart + (mark - 1) * v.boot.sectorsPerCluster >= v.sectors
  {
    hide Load, EndsFree;
    var m := ClustersOf(v);
    var left := remain - |Content(m, c)|;
    NotFree(m, c);
    LoadRunsOn(m, c, Last(c), remain);
    MarkIsReadableIff(v, mark);
    EndsAt(m, mark, left, Content(m, c));
  }

  /** What is loaded behind some bytes is nothing, and a panic, when its cluster cannot be read. */
  lemma EndsAt(m: Clusters, cluster: int, left: nat, bytes: seq<Byte>)
    requires m.NoneEmpty() && left > 0
    ensures var rest := Load(m, cluster, left);
            Loaded(bytes + rest.bytes, rest.completed) == Loaded(bytes, false) <==> m.data(cluster).None?
  {
    LoadsSomething(m, cluster, left);
    var rest := Load(m, cluster, left);
    assert rest.bytes != [] ==> |bytes + rest.bytes| > |bytes|;
    assert rest.bytes == [] ==> bytes + rest.bytes == bytes;
  }

  lemma {:induction false} NotFree(m: Clusters, c: seq<int>)
    requires c != [] && m.next(Last(c)) != Some(0)
    ensures !EndsFree(m, c)
  {
    if |c| > 1 {
      NotFree(m, c[1..]);
    }
  }

  /** No sum of the reader wraps around here. */
  lemma MarkIsReadableIff(v: Volume, mark: int)
    requires v.Mountable() && IsEndMark(mark)
    ensures ClusterData(v, mark).None? <==>
            RegionsOf(v.boot).dataStart + (mark - 1) * v.boot.sectorsPerCluster >= v.sectors
  {
    SmallRegions(v);
    EndOfMark(RegionsOf(v.boot).dataStart, v.boot.sectorsPerCluster, mark);
  }

  lemma EndOfMark(start: nat, count: nat, mark: int)
    requires start <= 0x200_0000 && count <= 255 && IsEndMark(mark)
    ensures ((start + (mark - 2) * count) % 0x1_0000_0000 + count) % 0x1_0000_0000 == start + (mark - 1) * count
  {
    var before := (mark - 2) * count;
    Product(count, mark - 2);
    assert before == count * (mark - 2) && (mark - 1) * count == before + count;
    NoWrap(start + before);
    NoWrap(start + before + count);
  }

  lemma SmallRegions(v: Volume)
    requires v.Mountable()
    ensures RegionsOf(v.boot).dataStart <= 0xFFFF + 255 * 0xFFFF + 4096 && v.boot.sectorsPerCluster <= 255
  {
    SmallFields(v.Read(0, 1));
    Product(v.boot.fatCopies, v.boot.sectorsPerFat);
  }

  lemma SmallFields(sector: seq<Byte>)
    requires |sector| == 512
    ensures var b := ParseBootSector(sector);
            && b.sectorsPerCluster <= 255 && b.fatCopies <= 255
            && b.reservedSectors <= 0xFFFF && b.rootEntries <= 0xFFFF && b.sectorsPerFat <= 0xFFFF
  {
  }

  lemma Natural(a: nat, b: nat)
    ensures a * b >= 0
  {
  }

  lemma Product(copies: nat, size: nat)
    requires copies <= 255 && size <= 0xFFFF
    ensures copies * size <= 255 * 0xFFFF
  {
    Natural(255 - copies, size);
    assert copies * size == 255 * size - (255 - copies) * size;
  }

  lemma NoWrap(x: nat)
    requires x < 0x1_0000_0000
    ensures x % 0x1_0000_0000 == x
  {
  }

  function Last(c: seq<int>): int
    requires c != []
  {
    if |c| == 1 then c[0] else Last(c[1..])
  }

  // ---- read_file ----

  lemma SignedAndBack(x: nat)
    requires x < WORD_MODULUS
    ensures ToInt32(x) % 0x1_0000_0000 == x
    ensures if x < 0x8000_0000 then ToInt32(x) == x else ToInt32(x) < 0
  {
  }

  /** What read_file loads from an entry it found: size and start cluster both come from it. */
  lemma ReadFileUsesOneEntry(v: Volume, name: seq<Byte>, bufSize: nat, dir: seq<Byte>, i: nat)
    requires v.Mountable() && bufSize < WORD_MODULUS && name != []
    requires RootDirectory(v) == Some(dir) && FindEntry(dir, name, v.boot.rootEntries, 0) == Some(i)
    ensures ReadFile(v, name, bufSize) ==
      Load(ClustersOf(v), Le16(Entry(dir, i), 26), ToInt32(Min(bufSize, Le32(Entry(dir, i), 28))))
  {
    SignedAndBack(Le32(Entry(dir, i), 28));
  }

  /** An existing file with a chain as long as needed: the buffer gets the first
      min(file size, buffer size) bytes of the clusters. */
  lemma ReadFileIsContent(v: Volume, name: seq<Byte>, bufSize: nat, dir: seq<Byte>, i: nat, c: seq<int>)
    requires v.Mountable() && bufSize < WORD_MODULUS && name != []
    requires RootDirectory(v) == Some(dir) && FindEntry(dir, name, v.boot.rootEntries, 0) == Some(i)
    requires IsChain(ClustersOf(v), c) && c[0] == Le16(Entry(dir, i), 26)
    requires var n := Min(bufSize, Le32(Entry(dir, i), 28)); n < 0x8000_0000 && n <= |c| * ClusterBytes(v)
    ensures var n := Min(bufSize, Le32(Entry(dir, i), 28));
            |Content(ClustersOf(v), c)| == |c| * ClusterBytes(v) &&
            ReadFile(v, name, bufSize) == Loaded(Content(ClustersOf(v), c)[..n], true)
  {
    var n := Min(bufSize, Le32(Entry(dir, i), 28));
    ReadFileUsesOneEntry(v, name, bufSize, dir, i);
    SignedAndBack(n);
    ContentLength(v, c);
    LoadIsPrefix(ClustersOf(v), c, n);
  }

  /** A request for two gigabytes or more, from a file that large, reads nothing. */
  lemma HugeReadsAreEmpty(v: Volume, name: seq<Byte>, bufSize: nat, dir: seq<Byte>, i: nat)
    requires v.Mountable() && bufSize < WORD_MODULUS && name != []
    requires RootDirectory(v) == Some(dir) && FindEntry(dir, name, v.boot.rootEntries, 0) == Some(i)
    requires Min(bufSize, Le32(Entry(dir, i), 28)) >= 0x8000_0000
    ensures ReadFile(v, name, bufSize) == Loaded([], true)
  {
    ReadFileUsesOneEntry(v, name, bufSize, dir, i);
    SignedAndBack(Min(bufSize, Le32(Entry(dir, i), 28)));
  }

  lemma MissingIsLoaded(v: Volume, name: seq<Byte>, bufSize: nat, dir: seq<Byte>)
    requires v.Mountable() && bufSize < WORD_MODULUS && IsMissing(v, name, dir)
    ensures ReadFile(v, name, bufSize) == Load(ClustersOf(v), -1, ToInt32(bufSize))
  {
    assert SizeOf(v, name) == Some(-1) && StartOf(v, name) == Some(-1);
  }

  lemma FirstOfCluster(v: Volume, cluster: int)
    requires v.Mountable() && ClusterData(v, cluster).Some?
    ensures var from := v.start + RegionsOf(v.boot).dataStart + (cluster - 2) * v.boot.sectorsPerCluster;
            ClusterData(v, cluster).value[0] == v.disk(512 * (from % 0x1000_0000))
  {
    var c := RegionsOf(v.boot).dataStart + (cluster - 2) * v.boot.sectorsPerCluster;
    FirstOfRead(v, c, v.boot.sectorsPerCluster);
    assert FirstSector(v, cluster) == c % 0x1_0000_0000;
  }

  lemma FirstOfRead(v: Volume, sector: int, count: nat)
    requires count > 0
    ensures v.Read(sector % 0x1_0000_0000, count)[0] == v.disk(512 * ((v.start + sector) % 0x1000_0000))
  {
    WrapTwice(sector, v.start);
    assert v.Address(sector % 0x1_0000_0000) == (v.start + sector) % 0x1000_0000;
  }

  /** A file that does not exist is read from "cluster -1": the result is empty exactly when nothing
      was asked for, two gigabytes or more were, or the 32-bit end of that cluster is not below the
      number of sectors. */
  lemma MissingFileReadsSomething(v: Volume, name: seq<Byte>, bufSize: nat, dir: seq<Byte>)
    requires v.Mountable() && bufSize < WORD_MODULUS && IsMissing(v, name, dir)
    ensures ReadFile(v, name, bufSize).bytes == [] <==>
            || bufSize == 0 || bufSize >= 0x8000_0000
            || (RegionsOf(v.boot).dataStart - 2 * v.boot.sectorsPerCluster) % 0x1_0000_0000 >= v.sectors
  {
    MissingIsLoaded(v, name, bufSize, dir);
    SignedAndBack(bufSize);
    WrapTwice(RegionsOf(v.boot).dataStart - 3 * v.boot.sectorsPerCluster, v.boot.sectorsPerCluster);
    if bufSize < 0x8000_0000 {
      LoadsSomething(ClustersOf(v), -1, bufSize);
    }
  }

  lemma WrapTwice(a: int, b: int)
    ensures (a % 0x1_0000_0000 + b) % 0x1_0000_0000 == (a + b) % 0x1_0000_0000
    ensures (a % 0x1_0000_0000 + b) % 0x1000_0000 == (a + b) % 0x1000_0000
  {
    var q := a / 0x1_0000_0000;
    assert a + b == a % 0x1_0000_0000 + b + 0x1_0000_0000 * q;
    WordsOff(a % 0x1_0000_0000 + b, q);
    AddressesOff(a % 0x1_0000_0000 + b, 16 * q);
  }

  lemma WordsOff(x: int, q: int)
    ensures (x + 0x1_0000_0000 * q) % 0x1_0000_0000 == x % 0x1_0000_0000
  {
    var p, r := x / 0x1_0000_0000, x % 0x1_0000_0000;
    assert x + 0x1_0000_0000 * q == 0x1_0000_0000 * (p + q) + r;
  }

  lemma AddressesOff(x: int, q: int)
    ensures (x + 0x1000_0000 * q) % 0x1000_0000 == x % 0x1000_0000
  {
    var p, r := x / 0x1000_0000, x % 0x1000_0000;
    assert x + 0x1000_0000 * q == 0x1000_0000 * (p + q) + r;
  }

  predicate IsMissing(v: Volume, name: seq<Byte>, dir: seq<Byte>)
    requires v.Mountable()
  {
    RootDirectory(v) == Some(dir) && (name == [] || FindEntry(dir, name, v.boot.rootEntries, 0).None?)
  }

  /** What it reads then begins three clusters before the data region, be that in the boot sector,
      in the FAT or, when the data region begins earlier than that, in the sectors of the drive
      before the partition. */
  lemma MissingFileReadsFrom(v: Volume, name: seq<Byte>, bufSize: nat, dir: seq<Byte>)
    requires v.Mountable() && bufSize < WORD_MODULUS && IsMissing(v, name, dir)
    requires ReadFile(v, name, bufSize).bytes != []
    ensures var from := v.start + RegionsOf(v.boot).dataStart - 3 * v.boot.sectorsPerCluster;
            ReadFile(v, name, bufSize).bytes[0] == v.disk(512 * (from % 0x1000_0000))
  {
    MissingIsLoaded(v, name, bufSize, dir);
    SignedAndBack(bufSize);
    LoadsSomething(ClustersOf(v), -1, if bufSize < 0x8000_0000 then bufSize else 0);
    FirstOfCluster(v, -1);
  }

  /** A read that passes the check stays inside the partition if and only if its end does not wrap
      around; one that wraps begins as many sectors before the partition as its first sector is
      below 2^32. */
  lemma PassedReadIsInside(v: Volume, sector: nat, count: nat)
    requires v.Mountable() && sector < WORD_MODULUS && count < WORD_MODULUS && ReadSectors(v, sector, count).Some?
    ensures sector + count <= v.sectors <==> sector + count < 0x1_0000_0000
    ensures v.Address(sector) == (v.start - (0x1_0000_0000 - sector)) % 0x1000_0000
  {
  }

  /** A partition of 16 sectors from sector 100 of a drive on, with an empty root directory of one
      sector behind a FAT of one sector. */
  function SmallVolume(clusterSectors: Byte, reserved: Byte): Volume {
    var disk := (i: nat) => SmallDisk(i - 51200, clusterSectors, reserved);
    Volume(disk, 100, 16, BootSector(512, clusterSectors, reserved, 1, 16, 1, 0), _ => 0)
  }

  /** The byte at offset i from the start of the partition.  The FAT marks cluster 2 as a last one. */
  function SmallDisk(i: int, clusterSectors: Byte, reserved: Byte): Byte {
    if i == 512 * reserved + 4 || i == 512 * reserved + 5 then 0xff else
    match i
    case -1024 => 0x41
    case 0 => 0xeb
    case 12 => 2
    case 13 => clusterSectors
    case 14 => reserved
    case 16 => 1
    case 17 => 16
    case 22 => 1
    case _ => 0
  }

  /** Every name is missing on it. */
  lemma SmallVolumeMounts(clusterSectors: Byte, reserved: Byte, name: seq<Byte>) returns (dir: seq<Byte>)
    requires 1 <= clusterSectors && 1 <= reserved <= 10
    ensures var v := SmallVolume(clusterSectors, reserved);
            v.Mountable() && RegionsOf(v.boot).dataStart == reserved + 2 && IsMissing(v, name, dir)
  {
    var v := SmallVolume(clusterSectors, reserved);
    var sector := v.Read(0, 1);
    forall i | 0 <= i < 512 ensures sector[i] == SmallDisk(i, clusterSectors, reserved) {
      SmallRead(clusterSectors, reserved, 0, i);
    }
    assert ParseBootSector(sector) == v.boot;
    dir := v.Read(reserved + 1, 1);
    assert RootDirectory(v) == Some(dir);
    SmallRead(clusterSectors, reserved, reserved + 1, 0);
    assert Entry(dir, 0)[0] == dir[0] == 0;
  }

  lemma SmallRead(clusterSectors: Byte, reserved: Byte, n: nat, i: nat)
    requires n < 16 && i < 512
    ensures SmallVolume(clusterSectors, reserved).Read(n, 1)[i] == SmallDisk(512 * n + i, clusterSectors, reserved)
  {
    hide SmallDisk;
    assert SmallVolume(clusterSectors, reserved).Address(n) == 100 + n;
    assert 512 * (100 + n) + i - 51200 == 512 * n + i;
  }

  /** With clusters of one sector, reading one byte of a missing file gives the first byte of the
      boot sector; with clusters of two, a byte of the drive that is not in the partition. */
  lemma MissingFileExample(name: seq<Byte>)
    ensures SmallVolume(1, 1).Mountable() && ReadFile(SmallVolume(1, 1), name, 1).bytes == [0xeb]
    ensures SmallVolume(2, 2).Mountable() && ReadFile(SmallVolume(2, 2), name, 1).bytes == [0x41]
  {
    ReadsOneByte(1, 1, name);
    ReadsOneByte(2, 2, name);
  }

  /** A file of more than one cluster whose chain is cluster 2 alone: its 512 bytes are stored and then
      read_file panics, because it takes the mark behind them for a cluster. */
  lemma EndMarkExample()
    ensures var v := SmallVolume(1, 1);
            && v.Mountable() && NextCluster(v, 2) == Some(0xFFFF)
            && Load(ClustersOf(v), 2, 600) == Loaded(v.Read(3, 1), false)
  {
    var v := SmallVolume(1, 1);
    var dir := SmallVolumeMounts(1, 1, []);
    var m := ClustersOf(v);
    assert RegionsOf(v.boot).dataStart == 3 && RegionsOf(v.boot).fatStart == 1 && FirstFatSize(v.boot) == 1;
    SmallRead(1, 1, 1, 4);
    SmallRead(1, 1, 1, 5);
    assert FirstFat(v) == Some(v.Read(1, 1));
    assert NextCluster(v, 2) == Some(0xFFFF);
    assert ClusterData(v, 2) == Some(v.Read(3, 1));
    assert IsChain(m, [2]) && Content(m, [2]) == v.Read(3, 1) && Last([2]) == 2;
    EndMarkPanicsIff(v, [2], 600, 0xFFFF);
  }

  lemma ReadsOneByte(clusterSectors: Byte, reserved: Byte, name: seq<Byte>)
    requires 1 <= clusterSectors && 1 <= reserved <= 10 && 2 * clusterSectors <= reserved + 2
    ensures var v := SmallVolume(clusterSectors, reserved);
            var offset := 512 * (reserved + 2 - 3 * clusterSectors);
            v.Mountable() && ReadFile(v, name, 1).bytes == [SmallDisk(offset, clusterSectors, reserved)]
  {
    var v := SmallVolume(clusterSectors, reserved);
    var dir := SmallVolumeMounts(clusterSectors, reserved, name);
    SmallModulo(reserved + 2 - 2 * clusterSectors);
    SmallModulo(102 + reserved - 3 * clusterSectors);
    MissingByte(v, name, dir);
    assert v.start + RegionsOf(v.boot).dataStart == 102 + reserved;
    assert v.disk(512 * (102 + reserved - 3 * clusterSectors))
        == SmallDisk(512 * (reserved + 2 - 3 * clusterSectors), clusterSectors, reserved);
  }

  lemma SmallModulo(x: nat)
    requires x < 0x1000_0000
    ensures x % 0x1_0000_0000 == x % 0x1000_0000 == x
  {
  }

  lemma MissingByte(v: Volume, name: seq<Byte>, dir: seq<Byte>)
    requires v.Mountable() && IsMissing(v, name, dir)
    requires (RegionsOf(v.boot).dataStart - 2 * v.boot.sectorsPerCluster) % 0x1_0000_0000 < v.sectors
    ensures var from := v.start + RegionsOf(v.boot).dataStart - 3 * v.boot.sectorsPerCluster;
            ReadFile(v, name, 1).bytes == [v.disk(512 * (from % 0x1000_0000))]
  {
    MissingFileReadsSomething(v, name, 1, dir);
    MissingFileReadsFrom(v, name, 1, dir);
    MissingIsLoaded(v, name, 1, dir);
    assert ToInt32(1) == 1;
    assert |ReadFile(v, name, 1).bytes| == 1;
  }

  lemma LoadsSomething(m: Clusters, cluster: int, remain: nat)
    requires m.NoneEmpty()
    ensures Load(m, cluster, remain).bytes == [] <==> remain == 0 || m.data(cluster).None?
    ensures remain > 0 && m.data(cluster).Some? ==> Load(m, cluster, remain).bytes[0] == m.data(cluster).value[0]
  {
    if remain > 0 && m.data(cluster).Some? {
      var data := m.data(cluster).value;
      var part := data[..Min(remain, |data|)];
      assert part != [] && part <= Load(m, cluster, remain).bytes;
    }
  }
}
