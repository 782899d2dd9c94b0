/** fs.c itself: loops over buffers. */
module FileSystem {
  import opened Words
  import opened OptionType
  import opened Fat16Spec

  /** The comparison of fat16_filename_cmp; 0 means equal. */
  method Fat16FilenameCmp(name: seq<Byte>, entry: seq<Byte>) returns (r: int)
    requires |entry| == ENTRY_SIZE
    ensures r == if Matches(name, entry) then 0 else -1
  {
    if |name| > NAME_LENGTH { return -1; }
    var i := 0;
    while i < NAME_LENGTH && i < |name| && entry[i] != 0x20
      invariant 0 <= i <= NAME_LENGTH
      invariant MatchesFrom(name, entry, 0) == MatchesFrom(name, entry, i)
    {
      if ToUpper(name[i]) != entry[i] { return -1; }
      i := i + 1;
    }
    return 0;
  }

  /** The scan that get_file_size and get_file_start_cluster share: the index of the
      entry, or -1. */
  method ScanDirectory(dir: array<Byte>, name: seq<Byte>, n: nat) returns (found: int)
    requires n * 32 <= dir.Length
    ensures found == match FindEntry(dir[..], name, n, 0) case None => -1 case Some(i) => i
  {
    for i := 0 to n
      invariant FindEntry(dir[..], name, n, 0) == FindEntry(dir[..], name, n, i)
    {
      assert Entry(dir[..], i) == dir[i * 32..(i + 1) * 32];
      if dir[i * 32] == 0 { return -1; }
      if SignedChar(dir[i * 32]) == 0xe5 { continue; }
      var cmp := Fat16FilenameCmp(name, dir[i * 32..(i + 1) * 32]);
      if cmp == 0 { return i; }
    }
    return -1;
  }

  /** The buffer holds prefix, then what it held before. */
  ghost predicate Overlaid(now: seq<Byte>, was: seq<Byte>, prefix: seq<Byte>) {
    |prefix| <= |was| && now == prefix + was[|prefix|..]
  }

  /** The buffer holds what was loaded, then what it held before, and count is how much that
      is; None stands for a panic. */
  ghost predicate Stored(now: seq<Byte>, was: seq<Byte>, loaded: Loaded, count: Option<nat>) {
    && Overlaid(now, was, loaded.bytes)
    && count == if loaded.completed then Some(|loaded.bytes|) else None
  }

  lemma ReadFileLoads(v: Volume, name: seq<Byte>, bufSize: nat)
    requires v.Mountable() && bufSize < WORD_MODULUS
    ensures Fat16Spec.ReadFile(v, name, bufSize) ==
      if SizeOf(v, name).None? || StartOf(v, name).None? then Loaded([], false)
      else Load(ClustersOf(v), StartOf(v, name).value, Wanted(bufSize, SizeOf(v, name).value))
  {
  }

  ghost function Prepended(prefix: seq<Byte>, rest: Loaded): Loaded {
    Loaded(prefix + rest.bytes, rest.completed)
  }

  lemma PrependNothing(rest: Loaded)
    ensures Prepended([], rest) == rest
  {
  }

  lemma LoadsNothing(m: Clusters, prefix: seq<Byte>, cluster: int, remain: int)
    requires m.NoneEmpty() && remain <= 0
    ensures Prepended(prefix, Load(m, cluster, remain)) == Loaded(prefix, true)
  {
  }

  lemma LoadUnfolds(m: Clusters, prefix: seq<Byte>, cluster: int, remain: nat)
    requires m.NoneEmpty() && remain > 0
    ensures Prepended(prefix, Load(m, cluster, remain)) ==
      match m.data(cluster)
      case None => Loaded(prefix, false)
      case Some(data) =>
        var part := data[..Min(remain, |data|)];
        match m.next(cluster)
        case None => Loaded(prefix + part, false)
        case Some(next) =>
          if next <= 0 then Loaded(prefix + part, true)
          else Prepended(prefix + part, Load(m, next, remain - |part|))
  {
    if m.data(cluster).Some? && m.next(cluster).Some? && m.next(cluster).value > 0 {
      var data := m.data(cluster).value;
      var part := data[..Min(remain, |data|)];
      var rest := Load(m, m.next(cluster).value, remain - |part|);
      assert prefix + (part + rest.bytes) == (prefix + part) + rest.bytes;
    }
  }

  /** How a round of the loop of read_file ends: with the result of the whole loop, None for a
      panic, or with n more bytes loaded and the next cluster. */
  datatype Round = Done(count: Option<nat>) | Again(n: nat, next: int)

  /** Prefix is loaded, and what the loop has still to load completes all. */
  ghost predicate Loading(m: Clusters, cluster: int, remain: int, prefix: seq<Byte>, all: Loaded)
    requires m.NoneEmpty()
  {
    all == Prepended(prefix, Load(m, cluster, remain))
  }

  class RootFs {
    const volume: Volume
    var boot: BootSector
    var regions: Regions

    constructor (v: Volume)
      requires v.Mountable()
      ensures volume == v && Mounted()
    {
      volume := v;
      boot := BootSector(0, 0, 0, 0, 0, 0, 0);
      regions := Regions(0, 0, 0, 0, 0, 0, 0, 0);
      new;
      BuildFromFat16();
    }

    ghost predicate Mounted()
      reads this
    {
      volume.Mountable() && boot == volume.boot && regions == RegionsOf(boot)
    }

    /** build_root_fs_from_fat16: the boot sector, then the regions field by field. */
    method BuildFromFat16()
      requires volume.Mountable()
      modifies this
      ensures Mounted()
    {
      var sector := new Byte[512](_ => 0);
      var ok := PartitionRead(sector, 0, 1);
      assert sector[..1 * 512] == sector[..];
      boot := ParseBootSector(sector[..]);
      var b := boot;
      regions := regions.(reservedStart := 0);
      regions := regions.(reservedSize := b.reservedSectors);
      regions := regions.(fatStart := regions.reservedStart + regions.reservedSize);
      regions := regions.(fatSize := b.fatCopies * b.sectorsPerFat);
      regions := regions.(rootStart := regions.fatStart + regions.fatSize);
      regions := regions.(rootSize := b.rootEntries * 32 / b.bytesPerSector);
      regions := regions.(dataStart := regions.rootStart + regions.rootSize);
      var before := regions.reservedSize + regions.fatSize + regions.rootSize;
      regions := regions.(dataSize := (b.sectors - before) % 0x1_0000_0000);
    }

    /** partition_read into a buffer; false stands for a panic. */
    method PartitionRead(buffer: array<Byte>, sector: nat, count: nat) returns (ok: bool)
      requires count * 512 <= buffer.Length
      modifies buffer
      ensures ok == ReadSectors(volume, sector, count).Some?
      ensures ok ==> buffer[..count * 512] == ReadSectors(volume, sector, count).value
      ensures buffer[count * 512..] == old(buffer[count * 512..])
      ensures !ok ==> buffer[..] == old(buffer[..])
    {
      if (sector + count) % 0x1_0000_0000 >= volume.sectors { return false; }
      ghost var data := volume.Read(sector, count);
      for i := 0 to count * 512
        invariant buffer[..i] == data[..i]
        invariant buffer[count * 512..] == old(buffer[count * 512..])
      {
        buffer[i] := volume.disk(512 * volume.Address(sector) + i);
      }
      return true;
    }

    /** The root directory in a buffer of its own, or null after a panic. */
    method LoadRootDirectory() returns (dir: array?<Byte>)
      requires Mounted()
      ensures dir == null <==> RootDirectory(volume).None?
      ensures dir != null ==> fresh(dir) && RootDirectory(volume) == Some(dir[..])
    {
      assert regions.rootSize * 512 == volume.boot.rootEntries * 32;
      dir := new Byte[regions.rootSize * 512](_ => 0);
      var ok := PartitionRead(dir, regions.rootStart, regions.rootSize);
      if !ok { return null; }
      assert dir[..regions.rootSize * 512] == dir[..];
    }

    method GetFileSize(name: seq<Byte>) returns (size: Option<int>)
      requires Mounted()
      ensures size == SizeOf(volume, name)
    {
      if |name| == 0 { return Some(-1); }
      var dir := LoadRootDirectory();
      if dir == null { return None; }
      var i := ScanDirectory(dir, name, boot.rootEntries);
      if i < 0 { return Some(-1); }
      return Some(ToInt32(Le32(Entry(dir[..], i), 28)));
    }

    method GetFileStartCluster(name: seq<Byte>) returns (cluster: Option<int>)
      requires Mounted()
      ensures cluster == StartOf(volume, name)
    {
      if |name| == 0 { return Some(-1); }
      var dir := LoadRootDirectory();
      if dir == null { return None; }
      var i := ScanDirectory(dir, name, boot.rootEntries);
      if i < 0 { return Some(-1); }
      return Some(Le16(Entry(dir[..], i), 26));
    }

    method GetNextCluster(cluster: int) returns (next: Option<nat>)
      requires Mounted()
      ensures next == NextCluster(volume, cluster)
    {
      var fatSize := regions.fatSize / boot.fatCopies;
      assert fatSize == FirstFatSize(volume.boot);
      var fat := new Byte[fatSize * 512](_ => 0);
      var ok := PartitionRead(fat, regions.fatStart, fatSize);
      if !ok { return None; }
      assert fat[..fatSize * 512] == fat[..];
      if 0 <= cluster && 2 * cluster + 1 < fat.Length {
        return Some(Le16(fat[..], 2 * cluster));
      }
      return Some(volume.beyond(cluster));
    }

    /** read_file: None stands for a panic.  The buffer gets the loaded bytes and keeps
        the rest. */
    method ReadFile(name: seq<Byte>, buffer: array<Byte>, bufSize: nat) returns (count: Option<nat>)
      requires Mounted() && bufSize <= buffer.Length && bufSize < WORD_MODULUS
      modifies buffer
      ensures Stored(buffer[..], old(buffer[..]), Fat16Spec.ReadFile(volume, name, bufSize), count)
    {
      var size, start := FindFile(name);
      ReadFileLoads(volume, name, bufSize);
      if size.None? || start.None? { return None; }
      var remain := RemainSize(bufSize, size.value);
      count := LoadClusters(start.value, remain, buffer);
    }

    /** remain_size at the start of read_file. */
    static method RemainSize(bufSize: nat, size: int) returns (remain: int)
      requires bufSize < WORD_MODULUS
      ensures remain == Wanted(bufSize, size) && remain <= bufSize
    {
      var fileLen := size % 0x1_0000_0000;
      remain := ToInt32(if bufSize > fileLen then fileLen else bufSize);
    }

    /** The two lookups of read_file. */
    method FindFile(name: seq<Byte>) returns (size: Option<int>, start: Option<int>)
      requires Mounted()
      ensures size == SizeOf(volume, name)
      ensures size.Some? ==> start == StartOf(volume, name)
    {
      size := GetFileSize(name);
      if size.None? { return None, None; }
      start := GetFileStartCluster(name);
    }

    /** read_file from its k_malloc on. */
    method LoadClusters(start: int, size: int, buffer: array<Byte>) returns (count: Option<nat>)
      requires Mounted() && size <= buffer.Length
      modifies buffer
      ensures Stored(buffer[..], old(buffer[..]), Load(ClustersOf(volume), start, size), count)
    {
      var clusterBuffer := new Byte[ClusterBytes(volume)](_ => 0);
      count := LoadLoop(start, size, buffer, clusterBuffer);
    }

    /** The loop of read_file. */
    method LoadLoop(start: int, size: int, buffer: array<Byte>, clusterBuffer: array<Byte>) returns (count: Option<nat>)
      requires Mounted() && size <= buffer.Length
      requires buffer != clusterBuffer && clusterBuffer.Length == ClusterBytes(volume)
      modifies buffer, clusterBuffer
      ensures Stored(buffer[..], old(buffer[..]), Load(ClustersOf(volume), start, size), count)
    {
      hide Load;
      ghost var was := buffer[..];
      ghost var all := Load(ClustersOf(volume), start, size);
      ghost var prefix: seq<Byte> := [];
      var cluster, remain, done := start, size, 0;
      PrependNothing(all);
      while remain > 0
        invariant Mounted() && done == |prefix| && done + (if remain > 0 then remain else 0) <= buffer.Length
        invariant Overlaid(buffer[..], was, prefix)
        invariant Loading(ClustersOf(volume), cluster, remain, prefix, all)
        decreases remain
      {
        var round;
        round, prefix := LoadRound(cluster, remain, buffer, done, clusterBuffer, was, prefix, all);
        if round.Done? { return round.count; }
        cluster, remain, done := round.next, remain - round.n, done + round.n;
      }
      LoadsNothing(ClustersOf(volume), prefix, cluster, remain);
      return Some(done);
    }

    /** One round of the loop: the cluster and its link. */
    method LoadRound(cluster: int, remain: nat, buffer: array<Byte>, done: nat, clusterBuffer: array<Byte>,
                     ghost was: seq<Byte>, ghost prefix: seq<Byte>, ghost all: Loaded)
      returns (round: Round, ghost prefix': seq<Byte>)
      requires Mounted() && buffer != clusterBuffer && clusterBuffer.Length == ClusterBytes(volume) && remain > 0
      requires done == |prefix| && done + remain <= buffer.Length && Overlaid(buffer[..], was, prefix)
      requires Loading(ClustersOf(volume), cluster, remain, prefix, all)
      modifies buffer, clusterBuffer
      ensures match round
              case Done(count) => Stored(buffer[..], was, all, count)
              case Again(n, next) =>
                && 0 < n <= remain && |prefix'| == done + n && Overlaid(buffer[..], was, prefix')
                && Loading(ClustersOf(volume), next, remain - n, prefix', all)
    {
      hide Load;
      ghost var m := ClustersOf(volume);
      LoadUnfolds(m, prefix, cluster, remain);
      prefix' := prefix;
      var n := LoadOne(cluster, remain, buffer, done, clusterBuffer, was, prefix);
      if n.None? { return Done(None), prefix'; }
      prefix' := prefix + m.data(cluster).value[..n.value];
      var next := GetNextCluster(cluster);
      if next.None? { return Done(None), prefix'; }
      if next.value <= 0 { return Done(Some(done + n.value)), prefix'; }
      return Again(n.value, next.value), prefix';
    }

    /** One cluster: read it, copy what is wanted of it. */
    method LoadOne(cluster: int, remain: nat, buffer: array<Byte>, done: nat, clusterBuffer: array<Byte>,
                   ghost was: seq<Byte>, ghost prefix: seq<Byte>)
      returns (n: Option<nat>)
      requires Mounted() && buffer != clusterBuffer && clusterBuffer.Length == ClusterBytes(volume)
      requires done == |prefix| && done + remain <= buffer.Length && Overlaid(buffer[..], was, prefix)
      modifies buffer, clusterBuffer
      ensures n.None? <==> ClusterData(volume, cluster).None?
      ensures n.None? ==> Overlaid(buffer[..], was, prefix)
      ensures n.Some? ==> n.value == Min(remain, ClusterBytes(volume))
      ensures n.Some? ==> Overlaid(buffer[..], was, prefix + ClusterData(volume, cluster).value[..n.value])
    {
      var sector := FirstSector(volume, cluster);
      var ok := PartitionRead(clusterBuffer, sector, boot.sectorsPerCluster);
      if !ok { return None; }
      assert clusterBuffer[..ClusterBytes(volume)] == clusterBuffer[..];
      var count := if remain > ClusterBytes(volume) then ClusterBytes(volume) else remain;
      var at := CopyInto(buffer, done, clusterBuffer, count);
      return Some(count);
    }

    /** k_memcpy to the position that p_buf has reached. */
    method CopyInto(buffer: array<Byte>, at: nat, source: array<Byte>, n: nat) returns (at': nat)
      requires n <= source.Length && at + n <= buffer.Length && buffer != source
      modifies buffer
      ensures at' == at + n
      ensures buffer[..] == old(buffer[..at]) + source[..n] + old(buffer[at + n..])
    {
      for i := 0 to n
        invariant buffer[..at + i] == old(buffer[..at]) + source[..i]
        invariant buffer[at + i..] == old(buffer[at + i..])
      {
        buffer[at + i] := source[i];
      }
      assert buffer[..] == buffer[..at + n] + buffer[at + n..];
      at' := at + n;
    }
  }
}
