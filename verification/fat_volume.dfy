/** The FAT32 driver's operations on a mounted volume: fs/fat/myos_fat32.c,
    myos_fat32_iobuf.c, myos_fat32_namei.c and the cluster allocation of myos_dir.c. */
module FatVolume {
  import opened Arith
  import opened Common
  import opened FatAlloc
  import opened FatChains
  import opened FatCopy
  import opened FatDisk
  import opened FatEntry
  import opened FatWrite

  const EFAULT: int := -14

  class Volume {
    const g: Geometry
    var disk: Disk
    /** `first_cluster` of every inode, and its `i_size`. */
    var first: map<FileId, nat>
    var size: map<FileId, nat>
    ghost var chains: Chains

    ghost predicate Valid()
      reads this
    {
      VolumeOk(g, disk, first, size, chains)
    }

    ghost function Table(): FatChains.Table
      reads this
    {
      TableOf(g, disk)
    }

    /** No cluster is lost and all copies of the table agree. */
    ghost predicate Clean()
      reads this
    {
      NoLeak(Table(), chains) && Mirrored(g, disk)
    }

    constructor (geometry: Geometry, d: Disk, firsts: map<FileId, nat>, sizes: map<FileId, nat>,
                 ghost files: Chains)
      requires geometry.Fits(d) && ChainsOk(TableOf(geometry, d), files)
      requires firsts.Keys == files.Keys && sizes.Keys == files.Keys
      requires forall f :: f in files ==> firsts[f] == FirstOf(files[f])
      ensures Valid() && chains == files && disk == d && g == geometry && first == firsts && size == sizes
    {
      g, disk, first, size, chains := geometry, d, firsts, sizes, files;
    }

    // ---------------------------------------------------------------- table primitives

    method ReadFatEntry(e: nat) returns (v: nat)
      ensures v == Entry(g, disk, e)
      ensures e < g.Entries() ==> v == Table()[e]
    {
      var buf := ReadSector(disk, g.fat1 + e / 128);
      v := Word(buf, e % 128) % TWO28;
    }

    /** WriteEntryTable, WriteEntryMirrored and WriteEntryFrame say what WriteEntry means. */
    method WriteFatEntry(e: nat, value: nat)
      modifies this`disk
      ensures disk == WriteEntry(g, old(disk), e, value)
    {
      var sec := e / 128;
      var buf := ReadSector(disk, g.fat1 + sec);
      var w := Word(buf, e % 128);
      buf := SetWord(buf, e % 128, w / TWO28 * TWO28 + value % TWO28);
      ghost var d := disk;
      for i := 0 to g.numFats
        invariant disk == WriteCopies(g, d, sec, buf, i)
      {
        disk := WriteSector(disk, g.fat1 + g.sectorsPerFat * i + sec, buf);
      }
    }

    method FindAvailableCluster() returns (c: nat)
      requires g.Fits(disk)
      ensures FirstFit(Table(), c)
    {
      hide TableOf, Word, ReadSector, Geometry.Fits;
      for i := 0 to g.sectorsPerFat
        invariant forall k :: 0 <= k < i * 128 ==> Table()[k] != FREE
      {
        var buf := ReadSector(disk, g.fat1 + i);
        for j := 0 to 128
          invariant forall k :: 0 <= k < i * 128 + j ==> Table()[k] != FREE
        {
          TableWordAt(g, disk, i, j);
          if Word(buf, j) % TWO28 == 0 {
            return i * 128 + j;
          }
        }
      }
      return 0;
    }

    /** Allocates a cluster and links it behind `cluster`; 0 means the volume is full. */
    method LinkNewCluster(cluster: nat) returns (next: nat)
      requires g.Fits(disk)
      modifies this`disk
      ensures FirstFit(old(Table()), next)
      ensures disk == if next == 0 then old(disk) else Linked(g, old(disk), cluster, next)
    {
      next := FindAvailableCluster();
      if next != 0 {
        WriteFatEntry(cluster, next);
        WriteFatEntry(next, FILE_MARK);
      }
    }

    /** The allocation branch of FAT32_write. Behind the end of a file it extends that file by
        the first free cluster; behind anything else it takes a cluster that no file owns: a leak. */
    method Grow(ghost f: FileId, cluster: nat) returns (next: nat)
      requires Valid() && f in chains && (IsTail(chains, f, cluster) || IsStray(g, chains, cluster))
      modifies this`disk, this`chains
      ensures Valid()
      ensures FirstFit(old(Table()), next)
      ensures next == 0 ==> disk == old(disk) && chains == old(chains)
      ensures next != 0 && IsTail(old(chains), f, cluster) ==>
                && chains == old(chains)[f := old(chains)[f] + [next]]
                && Appended(g, f, old(disk), old(chains), disk, next)
      ensures next != 0 && !IsTail(old(chains), f, cluster) ==>
                && chains == old(chains) && IsStray(g, chains, next) && !NoLeak(Table(), chains)
                && (Entry(g, old(disk), cluster) >= EOF_MARK ==> Leaked(g, old(disk), chains, cluster, disk, next))
    {
      hide ChainsOk, NoLeak, Mirrored, TableOf, Linked, FreeSet, Geometry.Fits, SameBut, IsLowest, IsStray, IsTail,
           Entry, FirstFit, VolumeOk;
      VolumeFacts(g, disk, first, size, chains);
      next := LinkNewCluster(cluster);
      if next != 0 {
        FirstFitIsLowest(old(Table()), chains, next);
        LowestIn(old(FreeSet(Table())), next);
        if IsTail(chains, f, cluster) {
          TailInTable(old(Table()), chains, f, cluster);
          GrowTail(g, old(disk), chains, f, cluster, next);
          VolumeGrown(g, old(disk), disk, first, size, chains, f, next);
          chains := chains[f := chains[f] + [next]];
        } else {
          GrowStray(g, old(disk), chains, cluster, next);
          VolumeTable(g, old(disk), disk, first, size, chains);
        }
      }
    }

    /** fat32_write_inode: the file's directory entry gets its first cluster and size. */
    method WriteInode(f: FileId, p: Place)
      requires f in first && f in size && first[f] < TWO28
      modifies this`disk
      ensures disk == Rewritten(g, old(disk), p, first[f], size[f])
    {
      hide Stored, ClusterData, WithInode;
      if p.location < 2 {
        return;
      }
      var b := ReadCluster(g, disk, p.location);
      var at := ENTRY_BYTES * p.position;
      if at + ENTRY_BYTES <= |b| {
        b := b[..at] + WithInode(b[at..at + ENTRY_BYTES], first[f], size[f]) + b[at + ENTRY_BYTES..];
      }
      StoreCluster(ClusterSector(g, p.location), b);
    }

    /** Gives a file without clusters its first one; 0 means the volume is full. */
    method AllocateFirst(f: FileId, p: Place) returns (cluster: nat)
      requires Valid() && f in chains && chains[f] == []
      modifies this`disk, this`chains, this`first
      ensures Valid()
      ensures FirstFit(old(Table()), cluster) && cluster < TWO28
      ensures cluster == 0 ==> disk == old(disk) && chains == old(chains)
      ensures cluster != 0 ==>
                && chains == old(chains)[f := [cluster]]
                && disk == FirstDisk(g, old(disk), p, cluster, size[f])
                && (old(Clean()) ==> Clean())
                && FreeSet(Table()) == old(FreeSet(Table())) - {cluster}
    {
      hide NoLeak, Mirrored, TableOf, WriteEntry, Rewritten, FreeSet, ChainsOk, Geometry.Fits, FirstFit, SameBut,
           EntryAt, VolumeOk, IsChain;
      VolumeFacts(g, disk, first, size, chains);
      cluster := FindAvailableCluster();
      FirstFitSmall(g, disk, chains, cluster);
      if cluster != 0 {
        first := first[f := cluster];
        WriteInode(f, p);
        WriteFatEntry(cluster, FILE_MARK);
        FirstDiskKeeps(g, old(disk), chains, f, p, size[f], cluster);
        VolumeFirst(g, disk, old(first), size, chains, f, cluster);
        chains := chains[f := [cluster]];
      }
    }

    /** Where FAT32_write starts: the cluster at `index` of the file, the end mark when the
        index is just past its last cluster, a new first cluster when it has none. */
    method StartCluster(f: FileId, p: Place, index: nat, ghost c: Call) returns (cluster: nat)
      requires Valid() && f in chains && index <= |chains[f]|
      requires c.g == g && c.f == f && c.p == p && c.d == disk && c.m == chains && c.size == size[f]
      requires c.Index() == index
      modifies this`disk, this`chains, this`first
      ensures Valid() && Started(c, disk, chains, cluster)
    {
      hide NoLeak, Mirrored, TableOf, FreeSet, ChainsOk, Geometry.Fits, FirstFit, IsChain, VolumeOk, MarkOf, FirstDisk,
           ClusterIndex;
      VolumeFacts(g, disk, first, size, chains);
      ghost var cs := chains[f];
      ChainStarts(Table(), chains, f);
      cluster := first[f];
      if cluster == 0 {
        cluster := AllocateFirst(f, p);
      } else {
        cluster := Follow(cluster, index, cs);
      }
    }

    /** Follows `index` links of the chain `cs` from its first cluster. */
    method Follow(start: nat, index: nat, ghost cs: seq<nat>) returns (cluster: nat)
      requires IsChain(Table(), cs) && start == cs[0] && index <= |cs|
      ensures index < |cs| ==> cluster == cs[index]
      ensures index == |cs| ==> cluster == MarkOf(Table(), cs) && cluster >= EOF_MARK
    {
      hide TableOf;
      cluster := start;
      for i := 0 to index
        invariant cluster == if i < |cs| then cs[i] else Table()[cs[|cs| - 1]]
      {
        assert i + 1 < |cs| ==> Table()[cs[i]] == cs[i + 1];
        cluster := ReadFatEntry(cluster);
      }
    }

    /** The end of one round of FAT32_write: the cluster of the next round, or 0 when a new one
        was needed and the volume is full. It stays where it is unless it is at an end. */
    method NextCluster(ghost f: FileId, cluster: nat) returns (next: nat, grown: bool)
      requires Valid() && f in chains
      requires IsTail(chains, f, cluster) || IsInner(chains, f, cluster) || IsStray(g, chains, cluster)
      modifies this`disk, this`chains
      ensures Valid() && f in chains && Advances(g, f, old(disk), old(chains), cluster, disk, chains, next)
      ensures !grown ==> next == cluster
      ensures next == 0 ==> disk == old(disk) && chains == old(chains) && Full(Table())
    {
      hide ChainsOk, NoLeak, Mirrored, TableOf, FreeSet, Geometry.Fits, FirstFit, IsStray, IsInner, IsTail, Appended,
           Leaked, Entry, Full, VolumeOk, Advances;
      ghost var d, m := disk, chains;
      VolumeFacts(g, disk, first, size, chains);
      ClusterReads(g, d, m, f, cluster);
      next := ReadFatEntry(cluster);
      grown := next >= EOF_MARK;
      if grown {
        next := Grow(f, cluster);
        AdvanceGrown(g, f, d, m, cluster, disk, chains, next);
      } else {
        next := cluster;
        AdvanceStays(g, f, d, m, cluster);
      }
    }

    // ---------------------------------------------------------------- writing


    method StoreCluster(sector: nat, b: seq<byte>)
      requires |b| == g.ClusterBytes()
      modifies this`disk
      ensures disk == Stored(old(disk), sector, b, g.sectorsPerCluster)
    {
      ghost var d := disk;
      for i := 0 to g.sectorsPerCluster
        invariant disk == Stored(d, sector, b, i)
      {
        disk := WriteSector(disk, sector + i, b[i * SECTOR_BYTES..(i + 1) * SECTOR_BYTES]);
      }
    }

    /** The transfers of one round of FAT32_write. Once `flags` is set the cluster is neither looked up
        nor read: the data goes to the sector of an earlier round, or to sector 0. */
    method Transfer(cluster: nat, flags: bool, sector: nat, offset: nat, chunk: seq<byte>, buffer: seq<byte>)
      returns (at: nat, b: seq<byte>)
      requires |buffer| == g.ClusterBytes() && offset + |chunk| <= g.ClusterBytes() && (!flags ==> cluster >= 2)
      modifies this`disk
      ensures at == if flags then sector else ClusterSector(g, cluster)
      ensures b == Overlay(if flags then buffer else ClusterData(g, old(disk), cluster), offset, chunk)
      ensures |b| == g.ClusterBytes() && disk == Stored(old(disk), at, b, g.sectorsPerCluster)
    {
      hide Geometry.ClusterBytes, Stored, ClusterData;
      at, b := sector, buffer;
      if !flags {
        at := ClusterSector(g, cluster);
        b := ReadCluster(g, disk, cluster);
      }
      b := b[..offset] + chunk + b[offset + |chunk|..];
      StoreCluster(at, b);
    }

    /** The transfers of one round, and what they leave of the volume. */
    method Round(ghost j: Job, cluster: nat, flags: bool, sector: nat, offset: nat, chunk: seq<byte>, buffer: seq<byte>,
                 ghost i: nat)
      returns (at: nat, b: seq<byte>)
      requires Valid() && j.g == g && Starts(j) && Kept(j, disk, chains, cluster, i)
      requires |buffer| == g.ClusterBytes() && offset + |chunk| <= g.ClusterBytes()
      requires if flags then sector == j.sector else cluster >= 2 && ClusterSector(g, cluster) == j.sector
      modifies this`disk
      ensures Valid() && Kept(j, disk, chains, cluster, i) && at == j.sector
      ensures b == Overlay(if flags then buffer else SectorRun(old(disk), at, g.sectorsPerCluster), offset, chunk)
      ensures |b| == g.ClusterBytes() && disk == Stored(old(disk), at, b, g.sectorsPerCluster)
      ensures at + g.sectorsPerCluster <= |old(disk)| ==> SectorRun(disk, at, g.sectorsPerCluster) == b
    {
      hide Kept, Starts, VolumeOk, Stored, SectorRun, ClusterSector, Geometry.ClusterBytes, TableOf, Overlay,
           Geometry.Fits, ChainsOk;
      ghost var d := disk;
      VolumeFacts(g, d, first, size, chains);
      at, b := Transfer(cluster, flags, sector, offset, chunk, buffer);
      KeptStore(j, d, chains, cluster, i, b);
      VolumeSameTable(g, d, disk, first, size, chains);
      if at + g.sectorsPerCluster <= |d| { StoredRun(g, d, at, b); }
    }

    /** The step to the next round; 0 means that the volume is full. */
    method Step(ghost j: Job, cluster: nat, ghost i: nat) returns (next: nat, grown: bool)
      requires Valid() && j.g == g && j.f in chains && Starts(j) && Kept(j, disk, chains, cluster, i)
      modifies this`disk, this`chains
      ensures Valid() && j.f in chains && (!grown ==> next == cluster)
      ensures if next == 0 then chains == old(chains) && FullEnd(j, disk) && Kept(j, disk, chains, cluster, i)
              else Kept(j, disk, chains, next, i + 1)
      ensures next != 0 && j.kind.Tail? ==> |chains[j.f]| == |old(chains)[j.f]| + 1
      ensures SectorRun(disk, j.sector, g.sectorsPerCluster) == SectorRun(old(disk), j.sector, g.sectorsPerCluster)
    {
      hide Kept, Starts, VolumeOk, Advances, FullEnd, Full, IsTail, IsInner, IsStray, TableOf, SectorRun;
      ghost var d, m := disk, chains;
      KeptKind(j, d, m, cluster, i);
      VolumeFits(g, disk, first, size, chains);
      next, grown := NextCluster(j.f, cluster);
      StepKeepsData(j, d, m, cluster, i, disk, chains, next);
      if next == 0 {
        FullStep(j, d, m, cluster, i, disk, chains);
      } else {
        KeptNext(j, d, m, cluster, i, disk, chains, next);
        if j.kind.Tail? {
          AppendedOne(j, d, m, cluster, i, disk, chains, next);
        }
      }
    }

    /** The loop of FAT32_write for job `j`. It stops behind the round that needs no more, before round
        `failAt`, or on a full volume; `at` and `rounds` are where it was last. */
    method WriteRounds(ghost j: Job, start: nat, fresh_: bool, position: nat, data: seq<byte>, scratch: seq<byte>,
                       failAt: nat)
      returns (done: nat, full: bool, ghost at: nat, ghost rounds: nat)
      requires Valid() && j.g == g && j.d == disk && j.m == chains && j.start == start && Starts(j)
      requires j.sector == if fresh_ then 0 else ClusterSector(g, start)
      requires j.kind.Tail? ==> InLast(g, chains, j.f, position)
      requires |scratch| == g.ClusterBytes()
      modifies this`disk, this`chains
      ensures Valid() && j.f in chains && Kept(j, disk, chains, at, rounds)
      ensures LoopEnd(g.ClusterBytes(), Offset(position, g.ClusterBytes()), |data|, done, failAt, rounds, full)
      ensures full ==> FullEnd(j, disk)
      ensures j.kind.Tail? ==> TailEnd(g, chains, j.f, position + done, data != [], done < |data|, full)
      ensures !fresh_ && failAt > 0 && |data| <= g.ClusterBytes() - Offset(position, g.ClusterBytes()) ==>
                OneRound(g, old(disk), disk, start, Offset(position, g.ClusterBytes()), data)
      ensures RoundsPour(j, disk, fresh_, position, data, scratch, failAt, done)
    {
      hide *;
      StartsFacts(j);
      GeometryBounds(g, disk);
      var bpc, off0 := g.ClusterBytes(), Offset(position, g.ClusterBytes());
      OffsetBound(position, bpc);
      if j.kind.Tail? { LastIs(g, chains, j.f, position); }
      var cluster: nat, offset: nat, i: nat := start, off0, 0;
      var flags, sector: nat, buffer := fresh_, 0, scratch;
      done, full := 0, false;
      ghost var n, onDisk := g.sectorsPerCluster, j.sector + g.sectorsPerCluster <= |disk|;
      ghost var base := if fresh_ then scratch else SectorRun(disk, j.sector, n);
      RunBytes(g, disk, j.sector);
      PouredNone(base, position, data);
      KeptStart(j);
      FirstRound(bpc, off0);
      while true
        invariant Valid() && j.f in chains && Kept(j, disk, chains, cluster, i)
        invariant done <= |data| && (done < |data| || i == 0)
        invariant offset == (if i == 0 then off0 else 0) && |buffer| == bpc
        invariant i <= failAt && AtRound(bpc, off0, done, i)
        invariant i == 0 ==> disk == old(disk) && flags == fresh_ && done == 0
        invariant i > 0 ==> |data| > bpc - off0
        invariant flags ==> sector == j.sector
        invariant !flags ==> cluster == start && !fresh_
        invariant j.kind.Tail? ==> position + done + bpc == |chains[j.f]| * bpc + offset
        invariant onDisk && flags ==> buffer == Poured(base, position, data, done)
        invariant onDisk && (!fresh_ || i > 0) ==> SectorRun(disk, j.sector, n) == Poured(base, position, data, done)
        decreases |data| - done, if i == 0 then 1 else 0
      {
        at, rounds := cluster, i;
        if i == failAt {
          StopsBefore(bpc, off0, |data|, done, failAt, i);
          RoundsPoured(j, disk, fresh_, position, data, scratch, failAt, done);
          if j.kind.Tail? { TailEnds(g, chains, j.f, position + done, data != [], done < |data|, false); }
          return;
        }
        var length := if |data| - done <= bpc - offset then |data| - done else bpc - offset;
        ghost var d1 := disk;
        KeptSize(j, disk, chains, cluster, i);
        RoundPlace(bpc, position, done, i);
        PourRound(base, position, data, done, offset, length);
        sector, buffer := Round(j, cluster, flags, sector, offset, data[done..done + length], buffer, i);
        if i == 0 && !fresh_ && length == |data| {
          OneRoundIs(g, d1, disk, start, offset, data, data[done..done + length], buffer);
        }
        RoundDone(bpc, off0, done, length, i);
        ghost var was := done;
        done := done + length;
        if done == |data| {
          StopsBehind(bpc, off0, was, |data|, failAt, i);
          RoundsPoured(j, disk, fresh_, position, data, scratch, failAt, done);
          if j.kind.Tail? { TailEnds(g, chains, j.f, position + done, data != [], false, false); }
          return;
        }
        offset := 0;
        ghost var n := |chains[j.f]|;
        var next, grown := Step(j, cluster, i);
        if next == 0 {
          full := true;
          StopsFull(bpc, off0, |data|, done, failAt, i);
          RoundsPoured(j, disk, fresh_, position, data, scratch, failAt, done);
          if j.kind.Tail? { TailEnds(g, chains, j.f, position + done, true, true, true); }
          return;
        }
        MulNext(n, bpc);
        flags := flags || grown;
        cluster := next;
        i := i + 1;
      }
    }

    /** FAT32_write of `data` for file `f`, whose directory entry is at `p`; transfer number `failAt`
        reports an error, and `scratch` is what the buffer holds at first.
        The file grows at its end, by the lowest free clusters, if the write starts in its last cluster
        or creates the first. If it starts in another cluster nothing grows. If it starts just past the
        last cluster, a second round takes a cluster that no file owns when the word past the table that
        the end mark stands for reads as an end mark; otherwise the table stays clean. All data goes to
        the cluster the write starts in, or to sector 0 when the file had none. The directory entry is
        rewritten when the file has a new first cluster or size. */
    method Write(f: FileId, p: Place, position: nat, data: seq<byte>, scratch: seq<byte>, failAt: nat)
      returns (ret: int, newPos: nat)
      requires Valid() && f in chains && position <= |chains[f]| * g.ClusterBytes()
      requires |data| < 0x8000_0000 && |scratch| == g.ClusterBytes() && p.location != 1
      requires chains[f] == [] ==> g.sectorsPerCluster <= g.fat1
      modifies this
      ensures Valid() && size.Keys == old(size).Keys && f in size
      ensures Wrote(Call(g, f, p, position, data, scratch, failAt, old(disk), old(chains), old(size)[f]),
                    Outcome(ret, newPos, disk, chains, size[f]))
      ensures forall h :: h in size && h != f ==> size[h] == old(size)[h]
      ensures ret == ENOSPC ==> Full(Table())
    {
      hide ChainsOk, TableOf, Geometry.Fits, Geometry.ClusterBytes, Full, VolumeOk, Started, Wrote, Looped,
           ClusterIndex, FirstOf, Rewritten;
      VolumeFacts(g, disk, first, size, chains);
      ghost var c := Call(g, f, p, position, data, scratch, failAt, disk, chains, size[f]);
      IsFresh(g, disk, first, size, chains, f);
      GeometryBounds(g, disk);
      IndexInside(position, g.ClusterBytes(), |chains[f]|);
      var flags := first[f] == 0;
      var cluster := StartCluster(f, p, ClusterIndex(position, g.ClusterBytes()), c);
      ghost var d1, m1 := disk, chains;
      if cluster == 0 {
        StartFailed(c, disk, chains);
        StartFull(c, disk, chains);
        return ENOSPC, position;
      }
      VolumeFits(g, disk, first, size, chains);
      ret, newPos := WriteFrom(c, cluster, flags, position, data, scratch, failAt);
      VolumeFits(g, disk, first, size, chains);
      Finishes(c, d1, m1, cluster, Outcome(ret, newPos, disk, chains, size[f]));
      if ret != ENOSPC {
        UpdateSize(f, p, newPos);
      }
    }

    /** The end of FAT32_write: a file that became longer gets its new size, and its entry is written. */
    method UpdateSize(f: FileId, p: Place, newPos: nat)
      requires Valid() && f in chains && FirstOf(chains[f]) < TWO28
      modifies this`disk, this`size
      ensures Valid() && f in old(size) && size == old(size)[f := Max(old(size)[f], newPos)]
      ensures disk == Finished(g, old(disk), p, FirstOf(chains[f]), old(size)[f], size[f])
    {
      hide ChainsOk, TableOf, Geometry.Fits, VolumeOk, FirstOf, Rewritten, SameBut, EntryAt, Mirrored;
      VolumeFacts(g, disk, first, size, chains);
      if newPos > size[f] {
        VolumeSized(g, disk, first, size, chains, f, newPos);
        size := size[f := newPos];
        RewrittenKeeps(g, disk, p, first[f], newPos);
        VolumeSameTable(g, disk, Rewritten(g, disk, p, first[f], newPos), first, size, chains);
        WriteInode(f, p);
      } else {
        assert size == size[f := size[f]];
      }
    }

    /** What follows once the first cluster is known. */
    method WriteFrom(ghost c: Call, cluster: nat, flags: bool, position: nat, data: seq<byte>, scratch: seq<byte>,
                     failAt: nat)
      returns (ret: int, newPos: nat)
      requires Valid() && c.Proper() && c.g == g && c.position == position && c.data == data && c.failAt == failAt
      requires |scratch| == g.ClusterBytes() && c.scratch == scratch && flags == (c.Clusters() == [])
      requires Started(c, disk, chains, cluster) && cluster != 0
      modifies this`disk, this`chains
      ensures Valid() && (ret == ENOSPC ==> Full(Table()))
      ensures Looped(c, old(disk), old(chains), Outcome(ret, newPos, disk, chains, c.size))
    {
      hide ChainsOk, TableOf, Geometry.Fits, Geometry.ClusterBytes, Full, VolumeOk, Kept, Started, StartKept,
           WriteResult, TableResult, Ready, Offset, ClusterIndex, ClusterSector, SectorOf, Starts, InLast, OneRound,
           Looped, LoopEnd, TailEnd, FullEnd, Call.Proper, Call.Kind, Call.InFile, Call.Sector, PourResult, RoundsPour;
      VolumeFacts(g, disk, first, size, chains);
      StartedKeeps(c, disk, chains, cluster);
      ghost var j := JobOf(c, disk, chains, cluster);
      JobStarts(c, disk, chains, cluster);
      ReadyFacts(j, c);
      var done, full;
      ghost var at, rounds;
      done, full, at, rounds := WriteRounds(j, cluster, flags, position, data, scratch, failAt);
      newPos := position + done;
      ret := if full then ENOSPC else if done == |data| then |data| else EIO;
      ghost var o := Outcome(ret, newPos, disk, chains, c.size);
      if full { FullMeans(j, disk); }
      JobTable(j, c, o, at, rounds, done, full);
      JobResult(j, c, o, at, rounds, done, full);
      JobData(c, j.d, j.m, cluster, disk);
      NotFull(c, j.d, j.m, cluster);
      JobPour(j, c, o, done);
      LoopedIs(j, c, o, at, rounds);
    }

    /** FAT32_alloc_new_dir: a directory gets one cluster, marked as its last. It returns 0 when the
        volume is full, and an error as an unsigned word; then nothing has changed. */
    method AllocNewDir(f: FileId, slots: Sector, memory: bool, transferred: bool) returns (cluster: nat)
      requires Valid() && f !in chains
      modifies this
      ensures Valid()
      ensures !memory ==> cluster == TWO32 - 12
      ensures memory && Full(old(Table())) ==> cluster == 0
      ensures memory && !Full(old(Table())) && !transferred ==> cluster == TWO32 - 5
      ensures !(memory && !Full(old(Table())) && transferred) ==> disk == old(disk) && chains == old(chains)
      ensures memory && !Full(old(Table())) && transferred ==>
                && FirstFit(old(Table()), cluster) && cluster >= 2
                && chains == old(chains)[f := [cluster]]
                && (old(Clean()) ==> Clean())
                && FreeSet(Table()) == old(FreeSet(Table())) - {cluster}
                && cluster < g.Entries() && Table() == old(Table())[cluster := DIR_MARK] && size == old(size)[f := 0]
                && ReadSector(disk, ClusterSector(g, cluster)) ==
                   (if ClusterSector(g, cluster) < |disk| then slots else ZERO_SECTOR)
                && |disk| == |old(disk)| && forall s: nat :: s != ClusterSector(g, cluster) && !InTable(g, s) ==>
                     ReadSector(disk, s) == ReadSector(old(disk), s)
    {
      hide NoLeak, Mirrored, TableOf, WriteEntry, FreeSet, ChainsOk, Geometry.Fits, Full, ReadSector, FirstFit,
           VolumeOk, WriteSector, ClusterSector;
      VolumeFacts(g, disk, first, size, chains);
      FullOrFree(Table(), chains);
      if !memory {
        return TWO32 - 12;
      }
      cluster := FindAvailableCluster();
      if Full(Table()) {
        FirstFitUnique(Table(), cluster);
      }
      if cluster < 2 {
        if cluster != 0 {
          FirstFitIsFree(Table(), chains, cluster);
        }
        return cluster;
      }
      if !transferred {
        return TWO32 - 5;
      }
      ghost var d0 := disk;
      disk := WriteSector(disk, ClusterSector(g, cluster), slots);
      WriteFatEntry(cluster, DIR_MARK);
      NewDirectory(g, d0, first, size, chains, f, cluster, slots, DIR_MARK);
      chains := chains[f := [cluster]];
      first := first[f := cluster];
      size := size[f := 0];
    }

    /** get_cluster_chain: the clusters of a file in link order. */
    method GetClusterChain(f: FileId) returns (list: seq<nat>)
      requires Valid() && f in chains
      ensures list == chains[f]
    {
      ghost var cs := chains[f];
      ChainStarts(Table(), chains, f);
      GeometryBounds(g, disk);
      hide ChainsOk, TableOf, Geometry.Fits;
      list := [];
      var cluster := first[f];
      if cluster > 0 {
        while true
          invariant |list| < |cs| && list == cs[..|list|] && cluster == cs[|list|]
          decreases |cs| - |list|
        {
          list := list + [cluster];
          assert |list| < |cs| ==> Table()[cluster] == cs[|list|];
          cluster := ReadFatEntry(cluster);
          if !(2 <= cluster <= MAX_FAT32) {
            break;
          }
        }
      }
    }

    /** The array fill of FAT32_iobuf_init, which empties the list from its tail: the clusters
        come out last first. */
    method IobufInit(f: FileId, capacity: nat) returns (clusters: array<nat>, flags: array<nat>)
      requires Valid() && f in chains && |chains[f]| <= capacity
      ensures fresh(clusters) && fresh(flags) && clusters != flags
      ensures clusters.Length == flags.Length == |chains[f]|
      ensures forall i :: 0 <= i < clusters.Length ==>
                clusters[i] == chains[f][clusters.Length - 1 - i] && flags[i] == 0
    {
      hide ChainsOk, TableOf, Geometry.Fits;
      var list := GetClusterChain(f);
      var n := |list|;
      clusters := new nat[n];
      flags := new nat[n];
      var i := 0;
      while |list| > 0
        invariant i + |list| == n && list == chains[f][..|list|]
        invariant forall k :: 0 <= k < i ==> clusters[k] == chains[f][n - 1 - k] && flags[k] == 0
      {
        clusters[i] := list[|list| - 1];
        flags[i] := 0;
        list := list[..|list| - 1];
        i := i + 1;
      }
    }

    /** FAT32_iobuf_release: the clusters flagged for deletion become free, nothing else moves. */
    method IobufRelease(clusters: array<nat>, flags: array<nat>)
      requires g.Fits(disk) && clusters.Length == flags.Length
      requires forall i :: 0 <= i < clusters.Length ==> clusters[i] < g.Entries()
      modifies this`disk
      ensures g.Fits(disk)
      ensures Zeroed(old(Table()), Table(), Deleted(clusters[..], flags[..], 0))
      ensures old(Mirrored(g, disk)) ==> Mirrored(g, disk)
      ensures SameBut(g, old(disk), disk, {})
    {
      ghost var d0 := disk;
      SameButSelf(g, disk, {});
      ghost var t0 := Table();
      ghost var cl, fl := clusters[..], flags[..];
      assert Deleted(cl, fl, |cl|) == {};
      var i := clusters.Length;
      while i > 0
        invariant 0 <= i <= clusters.Length && cl == clusters[..] && fl == flags[..]
        invariant g.Fits(disk) && Zeroed(t0, Table(), Deleted(cl, fl, i))
        invariant old(Mirrored(g, disk)) ==> Mirrored(g, disk)
        invariant SameBut(g, d0, disk, {})
      {
        i := i - 1;
        ghost var d := disk;
        ReleaseStep(g, disk, t0, cl, fl, i);
        if flags[i] == IOBUF_DELETE {
          WriteFatEntry(clusters[i], FREE);
        }
        SameButThen(g, d0, d, disk, {}, {}, {});
      }
    }

    /** FAT32_release_clusters, which ends unlink and rmdir: exactly the clusters of the file
        become free and every other file keeps its chain. */
    method ReleaseClusters(f: FileId, capacity: nat)
      requires Valid() && f in chains && |chains[f]| <= capacity
      modifies this
      ensures Valid()
      ensures chains == old(chains) - {f} && size == old(size) - {f} && SameBut(g, old(disk), disk, {})
      ensures forall e :: 0 <= e < g.Entries() ==>
                Table()[e] == if e in old(chains)[f] then FREE else old(Table())[e]
      ensures FreeSet(Table()) == old(FreeSet(Table())) + Clusters(old(chains)[f])
      ensures old(Clean()) ==> Clean()
    {
      hide ChainsOk, NoLeak, Mirrored, TableOf, FreeSet, Clusters, Geometry.Fits, Zeroed, Deleted;
      var clusters, flags := IobufInit(f, capacity);
      var n := clusters.Length;
      var i := n;
      while i > 0
        invariant 0 <= i <= n
        invariant forall k :: i <= k < n ==> flags[k] == IOBUF_DELETE
        modifies flags
      {
        i := i - 1;
        flags[i] := IOBUF_DELETE;
      }
      ghost var t0 := Table();
      ReleaseAll(t0, chains, f, clusters[..], flags[..]);
      IobufRelease(clusters, flags);
      chains := chains - {f};
      first := first - {f};
      size := size - {f};
    }

    /** FAT32_read on a file whose chain covers its size; transfer number `failAt` reports an
        error. A successful read returns the file's bytes from `position` on, cut to `count` and to
        the size, and moves the position behind them. */
    method Read(f: FileId, position: nat, count: nat, failAt: nat)
      returns (ret: int, buf: seq<byte>, newPos: nat)
      requires Valid() && f in chains
      requires position <= size[f] <= |chains[f]| * g.ClusterBytes()
      requires Min(count, size[f] - position) < 0x8000_0000
      ensures chains[f] == [] ==> ret == EFAULT && buf == [] && newPos == position
      ensures chains[f] != [] ==>
                && AllData(chains[f])
                && newPos == position + |buf| <= size[f]
                && buf == Content(g, disk, chains[f])[position..newPos]
                && (if Reached(g, position, Min(count, size[f] - position), failAt)
                    then ret == |buf| && newPos == Min(position + count, size[f])
                    else ret == EIO
                         && |buf| == RoundStart(g.ClusterBytes(), Offset(position, g.ClusterBytes()), failAt))
    {
      hide ChainsOk, TableOf, Geometry.Fits, ClusterData, Content, Geometry.ClusterBytes, RoundStart, VolumeOk, Offset,
           IsChain, MarkOf, ClusterAt, Ended, Reached, Copied, ClusterIndex;
      VolumeFacts(g, disk, first, size, chains);
      IsFresh(g, disk, first, size, chains, f);
      ghost var cs := chains[f];
      ChainStarts(Table(), chains, f);
      GeometryBounds(g, disk);
      buf, newPos := [], position;
      var cluster := first[f];
      if cluster == 0 {
        return EFAULT, buf, newPos;
      }
      var bpc := g.ClusterBytes();
      IndexInside(position, bpc, |cs|);
      var index, offset := ClusterIndex(position, bpc), Offset(position, bpc);
      cluster := Follow(cluster, index, cs);
      var total: nat := if position + count > size[f] then size[f] - position else count;
      ChainContent(g, disk, cs, index, index * bpc);
      var remaining;
      buf, remaining := CopyOut(g, disk, cluster, offset, total, failAt, cs, index, index * bpc);
      newPos := position + |buf|;
      ret := if remaining == 0 then total else EIO;
      CopyEnded(g, position, |buf|, remaining, failAt);
      CopiedIs(Content(g, disk, cs), position, newPos, buf);
    }
  }

  /** The copy loop of FAT32_read, from offset `skip` of the cluster at `index` of the chain. */
  method CopyOut(g: Geometry, d: Disk, start: nat, skip: nat, total: nat, failAt: nat,
                 ghost cs: seq<nat>, ghost index: nat, ghost at0: nat)
    returns (buf: seq<byte>, remaining: nat)
    requires g.Fits(d) && IsChain(TableOf(g, d), cs) && index <= |cs|
    requires ClusterAt(g, index, at0) && skip < g.ClusterBytes()
    requires at0 + skip + total <= |Content(g, d, cs)|
    requires if index < |cs| then start == cs[index] else start >= EOF_MARK && total == 0
    ensures |buf| + remaining == total && Ended(g.ClusterBytes(), skip, |buf|, remaining, failAt)
    ensures AllData(cs)
            && Copied(Content(g, d, cs), at0 + skip, at0 + skip + |buf|, buf)
  {
    hide *;
    GeometryBounds(g, d);
    CopyStart(g, d, cs, at0 + skip);
    ghost var cap := |Content(g, d, cs)|;
    var bpc := g.ClusterBytes();
    var cluster: nat, offset: nat, i: nat := start, skip, 0;
    ghost var bytes, pos0: nat := Content(g, d, cs), at0 + skip;
    ghost var k: nat, at: nat := index, at0;
    buf, remaining := [], total;
    RoundZero(bpc, skip, failAt);
    while true
      invariant |buf| + remaining == total && pos0 + |buf| == at + offset
      invariant k <= |cs| && ClusterAt(g, k, at) && offset < bpc
      invariant remaining > 0 || i == 0
      invariant i <= failAt && |buf| == RoundStart(bpc, skip, i) && offset == if i == 0 then skip else 0
      invariant if k < |cs| then cluster == cs[k] else cluster >= EOF_MARK && remaining == 0
      invariant Copied(bytes, pos0, at + offset, buf)
      decreases remaining, if i == 0 then 1 else 0
    {
      var buffer := ReadCluster(g, d, cluster);
      if i == failAt {
        EndedIs(bpc, skip, |buf|, remaining, failAt);
        break;
      }
      var length := if remaining <= bpc - offset then remaining else bpc - offset;
      RoundsGrow(bpc, skip, i, failAt);
      RoundsGrow(bpc, skip, i + 1, failAt);
      CopyRound(g, d, cs, k, at, pos0, buf, offset, length);
      assert length == 0 ==> buf + buffer[offset..offset + length] == buf;
      buf := buf + buffer[offset..offset + length];
      remaining := remaining - length;
      i := i + 1;
      if remaining == 0 {
        EndedIs(bpc, skip, |buf|, remaining, failAt);
        break;
      }
      offset := 0;
      ClusterNext(g, |cs|, cap, k, at);
      ChainLink(TableOf(g, d), cs, k);
      k, at := k + 1, at + bpc;
      cluster := Entry(g, d, cluster);
    }
  }

  /** One ATA transfer of a whole data cluster. */
  method ReadCluster(g: Geometry, d: Disk, cluster: nat) returns (b: seq<byte>)
    requires cluster >= 2
    ensures b == ClusterData(g, d, cluster)
  {
    b := [];
    var from := g.dataFirst + (cluster - 2) * g.sectorsPerCluster;
    for i := 0 to g.sectorsPerCluster
      invariant b == SectorRun(d, from, i)
    {
      b := b + ReadSector(d, from + i);
    }
  }
}
