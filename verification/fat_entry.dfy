/** The directory entry of a file, as fat32_write_inode of fs/fat/myos_fat32.c rewrites it: section
    "FAT Directory Structure" of the Microsoft FAT32 File System Specification 1.03. */
module FatEntry {
  import opened Arith
  import opened Common
  import opened FatDisk

  const ENTRY_BYTES := 32

  type DirEntry = e: seq<byte> | |e| == 32 witness Zeros(32)

  /** `dentry_location` and `dentry_position` of an inode: a cluster, and a place in it. The root
      directory has location 0. */
  datatype Place = Place(location: nat, position: nat)

  // ---------------------------------------------------------------- one entry

  /** The first cluster an entry names, and the size. */
  function StartField(e: DirEntry): nat {
    (e[26] as int + 0x100 * e[27] as int + 0x1_0000 * e[20] as int + 0x100_0000 * e[21] as int) % TWO28
  }

  function SizeField(e: DirEntry): nat {
    e[28] as int + 0x100 * e[29] as int + 0x1_0000 * e[30] as int + 0x100_0000 * e[31] as int
  }

  /** `e` with the first cluster and the size of an inode. */
  function WithInode(e: DirEntry, first: nat, size: nat): DirEntry
    requires first < TWO28
  {
    var w := size % TWO32;
    e[20 := first / 0x1_0000 % 0x100][21 := e[21] / 16 * 16 + first / 0x100_0000]
     [26 := first % 0x100][27 := first / 0x100 % 0x100]
     [28 := w % 0x100][29 := w / 0x100 % 0x100][30 := w / 0x1_0000 % 0x100][31 := w / 0x100_0000]
  }

  /** The entry then names them, and its other fields are as they were. */
  lemma WithInodeReads(e: DirEntry, first: nat, size: nat)
    requires first < TWO28
    ensures var r := WithInode(e, first, size);
            && StartField(r) == first && SizeField(r) == size % TWO32
            && r[..20] == e[..20] && r[21] / 16 == e[21] / 16 && r[22..26] == e[22..26]
  {
    FourBytes(first);
    FourBytes(size % TWO32);
    DivIs(first + TWO28 * (e[21] / 16), TWO28, e[21] / 16, first);
  }

  lemma WithInodeTwice(e: DirEntry, first: nat, size: nat, first': nat, size': nat)
    requires first < TWO28 && first' < TWO28
    ensures WithInode(WithInode(e, first, size), first', size') == WithInode(e, first', size')
  {
    DivIs(e[21] / 16 * 16 + first / 0x100_0000, 16, e[21] / 16, first / 0x100_0000);
  }

  // ---------------------------------------------------------------- the cluster it lies in

  /** A directory cluster after fat32_write_inode. The position counts entries, and one that is not in
      the buffer changes nothing of it. */
  function Updated(b: seq<byte>, position: nat, first: nat, size: nat): (r: seq<byte>)
    requires first < TWO28
    ensures |r| == |b|
  {
    var at := ENTRY_BYTES * position;
    if at + ENTRY_BYTES <= |b| then Overlay(b, at, WithInode(b[at..at + ENTRY_BYTES], first, size)) else b
  }

  lemma UpdatedAt(b: seq<byte>, position: nat, first: nat, size: nat)
    requires first < TWO28 && ENTRY_BYTES * position + ENTRY_BYTES <= |b|
    ensures var at := ENTRY_BYTES * position;
            Updated(b, position, first, size)[at..at + ENTRY_BYTES] == WithInode(b[at..at + ENTRY_BYTES], first, size)
  {
    hide WithInode;
  }

  lemma UpdatedTwice(b: seq<byte>, position: nat, first: nat, size: nat, first': nat, size': nat)
    requires first < TWO28 && first' < TWO28
    ensures Updated(Updated(b, position, first, size), position, first', size') == Updated(b, position, first', size')
  {
    hide WithInode;
    var at := ENTRY_BYTES * position;
    if at + ENTRY_BYTES <= |b| {
      var e := b[at..at + ENTRY_BYTES];
      UpdatedAt(b, position, first, size);
      WithInodeTwice(e, first, size, first', size');
    }
  }

  /** Another entry is not changed, if it lies before the one that is. */
  lemma UpdatedBefore(b: seq<byte>, position: nat, first: nat, size: nat, own: nat)
    requires first < TWO28 && own + ENTRY_BYTES <= |b| && own + ENTRY_BYTES <= ENTRY_BYTES * position
    ensures Updated(b, position, first, size)[own..own + ENTRY_BYTES] == b[own..own + ENTRY_BYTES]
  {
    hide WithInode;
  }

  /** The entries that are rewritten, for a given place in every cluster of n bytes. */
  ghost predicate Names(n: nat, position: nat, own: nat)
    requires own + ENTRY_BYTES <= n
  {
    forall b: seq<byte>, first: nat, size: nat :: |b| == n && first < TWO28 ==>
      StartField(Updated(b, position, first, size)[own..own + ENTRY_BYTES]) == first
  }

  lemma SlotFits(perCluster: nat, k: nat)
    requires perCluster > 0
    ensures 0 <= k % perCluster <= k && k % perCluster < perCluster
  {
    if k < perCluster { DivIs(k, perCluster, 0, k); }
  }

  /** A lookup records the byte of the directory at which an entry begins. For such a position the
      fields that are rewritten are the entry's own if and only if it is the directory's first. */
  lemma OwnEntryUpdated(perCluster: nat, k: nat)
    requires perCluster > 0
    ensures ENTRY_BYTES * (k % perCluster) + ENTRY_BYTES <= ENTRY_BYTES * perCluster
    ensures Names(ENTRY_BYTES * perCluster, ENTRY_BYTES * k, ENTRY_BYTES * (k % perCluster)) <==> k == 0
  {
    hide Updated, WithInode;
    SlotFits(perCluster, k);
    var n, own := ENTRY_BYTES * perCluster, ENTRY_BYTES * (k % perCluster);
    if k == 0 {
      forall b: seq<byte>, first: nat, size: nat | |b| == n && first < TWO28
        ensures StartField(Updated(b, 0, first, size)[own..own + ENTRY_BYTES]) == first
      {
        hide StartField;
        WithInodeReads(b[0..ENTRY_BYTES], first, size);
        UpdatedAt(b, 0, first, size);
      }
    } else {
      var b := Filled(n, 0);
      UpdatedBefore(b, ENTRY_BYTES * k, 1, 0, own);
      assert StartField(b[own..own + ENTRY_BYTES]) == 0;
    }
  }

  // ---------------------------------------------------------------- the disk

  /** The sectors at which the cluster of an entry begins. */
  function EntryAt(g: Geometry, p: Place): set<nat> {
    if p.location < 2 then {} else {ClusterSector(g, p.location)}
  }

  /** The disk after fat32_write_inode. */
  function Rewritten(g: Geometry, d: Disk, p: Place, first: nat, size: nat): Disk
    requires first < TWO28
  {
    if p.location < 2 then d
    else Stored(d, ClusterSector(g, p.location),
                Updated(ClusterData(g, d, p.location), p.position, first, size), g.sectorsPerCluster)
  }

  /** Rewriting an entry leaves the allocation table and every other cluster alone. */
  lemma RewrittenKeeps(g: Geometry, d: Disk, p: Place, first: nat, size: nat)
    requires g.Fits(d) && first < TWO28
    ensures var d' := Rewritten(g, d, p, first, size);
            && g.Fits(d') && TableOf(g, d') == TableOf(g, d) && (Mirrored(g, d) <==> Mirrored(g, d'))
            && SameBut(g, d, d', EntryAt(g, p))
  {
    hide TableOf, Mirrored, SameBut, Stored, ClusterSector, OffTable, Updated, ClusterData;
    if p.location < 2 {
      SameButSelf(g, d, {});
    } else {
      DataOffTable(g, d, p.location);
      StoreKeepsTable(g, d, ClusterSector(g, p.location),
                      Updated(ClusterData(g, d, p.location), p.position, first, size));
    }
  }

  lemma DataOffTable(g: Geometry, d: Disk, cluster: nat)
    requires g.Fits(d) && cluster >= 2
    ensures OffTable(g, ClusterSector(g, cluster))
  {
    ClusterAfterTable(g, d, cluster);
  }

  predicate OnDisk(g: Geometry, d: Disk, cluster: nat) {
    cluster >= 2 && ClusterSector(g, cluster) + g.sectorsPerCluster <= |d|
  }

  /** A cluster that is on the disk holds what was stored in it. */
  lemma StoredCluster(g: Geometry, d: Disk, c: nat, b: seq<byte>)
    requires OnDisk(g, d, c) && |b| == g.ClusterBytes()
    ensures ClusterData(g, Stored(d, ClusterSector(g, c), b, g.sectorsPerCluster), c) == b
  {
    hide Stored, SectorRun, ClusterSector;
    RunStored(d, ClusterSector(g, c), b, g.sectorsPerCluster, g.sectorsPerCluster);
    assert b[..g.sectorsPerCluster * SECTOR_BYTES] == b;
  }

  lemma RewrittenCluster(g: Geometry, d: Disk, p: Place, first: nat, size: nat)
    requires OnDisk(g, d, p.location) && first < TWO28
    ensures ClusterData(g, Rewritten(g, d, p, first, size), p.location) ==
            Updated(ClusterData(g, d, p.location), p.position, first, size)
  {
    hide Stored, ClusterData, Updated, ClusterSector;
    StoredCluster(g, d, p.location, Updated(ClusterData(g, d, p.location), p.position, first, size));
  }
}
