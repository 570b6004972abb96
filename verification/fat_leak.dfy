/** A volume on which FAT32_write loses a cluster, and one of its writes that is not stored. */
module FatLeak {
  import opened Common
  import opened FatAlloc
  import opened FatChains
  import opened FatCopy
  import opened FatData
  import opened FatDisk
  import opened FatEntry
  import opened FatWrite

  /** One table sector at sector 1, clusters of one sector from sector 2 on. */
  const SMALL := Geometry(1, 1, 1, 2, 1)

  /** Where the table's word for the end mark 0x0ffffff8 would be. */
  const PAST := 0x20_0000

  /** File 7 is cluster 2, its directory is cluster 3; every other cluster is free. */
  const FILES: Chains := map[7 := [2], 1 := [3]]

  /** The file's entry is the second of its directory. */
  const LISTED := Place(3, 1)

  function TableSector(): Sector {
    SetWord(SetWord(SetWord(SetWord(ZERO_SECTOR, 0, FILE_MARK), 1, FILE_MARK), 2, FILE_MARK), 3, FILE_MARK)
  }

  /** A sector of file data that happens to hold an end mark. */
  function DataSectorPast(): Sector { SetWord(ZERO_SECTOR, 120, FILE_MARK) }

  function LeakySector(i: int, past: nat): Sector {
    if i == 1 then TableSector() else if i == past then DataSectorPast() else ZERO_SECTOR
  }

  function LeakyDisk(past: nat): (d: Disk)
    ensures |d| == past + 1
  {
    seq(past + 1, i => LeakySector(i, past))
  }

  lemma ZeroWord(j: nat)
    requires j < 128
    ensures Word(ZERO_SECTOR, j) == 0
  {
  }

  lemma TableWord(j: nat)
    requires j < 128
    ensures Word(TableSector(), j) == if j < 4 then FILE_MARK else 0
  {
    hide Word, SetWord;
    var a := SetWord(ZERO_SECTOR, 0, FILE_MARK);
    var b := SetWord(a, 1, FILE_MARK);
    var c := SetWord(b, 2, FILE_MARK);
    ZeroWord(j);
    WordAfterSet(ZERO_SECTOR, 0, FILE_MARK, j);
    WordAfterSet(a, 1, FILE_MARK, j);
    WordAfterSet(b, 2, FILE_MARK, j);
    WordAfterSet(c, 3, FILE_MARK, j);
  }

  lemma LeakyTable(past: nat, e: nat)
    requires past == PAST && e < 128
    ensures Entry(SMALL, LeakyDisk(past), e) == if e < 4 then FILE_MARK else 0
  {
    hide Word, TableSector, DataSectorPast;
    TableWord(e);
    assert ReadSector(LeakyDisk(past), 1) == TableSector();
  }

  lemma LeakyPast(past: nat)
    requires past == PAST
    ensures Entry(SMALL, LeakyDisk(past), FILE_MARK) == FILE_MARK
  {
    hide Word, TableSector, SetWord;
    ZeroWord(120);
    WordAfterSet(ZERO_SECTOR, 120, FILE_MARK, 120);
    assert ReadSector(LeakyDisk(past), past) == DataSectorPast();
  }

  /** The table of that volume. */
  ghost predicate SmallTable(t: Table) {
    |t| == 128 && forall e :: 0 <= e < 128 ==> t[e] == if e < 4 then FILE_MARK else 0
  }

  lemma LeakyIsSmall(past: nat)
    requires past == PAST
    ensures SmallTable(TableOf(SMALL, LeakyDisk(past)))
  {
    hide Entry, LeakyDisk;
    forall e | 0 <= e < 128
      ensures TableOf(SMALL, LeakyDisk(past))[e] == if e < 4 then FILE_MARK else 0
    {
      LeakyTable(past, e);
    }
  }

  lemma SmallGeometry(d: Disk)
    requires |d| == PAST + 1
    ensures SMALL.Fits(d) && Mirrored(SMALL, d) && SMALL.ClusterBytes() == 512
  {
  }

  lemma FilesTable(t: Table)
    requires SmallTable(t)
    ensures ChainsOk(t, FILES) && NoLeak(t, FILES) && !Full(t) && MarkOf(t, FILES[7]) == FILE_MARK
    ensures IsLowest(FreeSet(t), 4)
  {
    assert t[4] == FREE;
    assert Owned(FILES, 2) by { assert 2 in FILES[7]; }
    assert Owned(FILES, 3) by { assert 3 in FILES[1]; }
  }

  /** A write to the file, of n bytes that are all 1, while transfers succeed. */
  function WriteOnes(past: nat, position: nat, n: nat): Call {
    Call(SMALL, 7, LISTED, position, Filled(n, 1), Filled(512, 0), 9, LeakyDisk(past), FILES, 512)
  }

  /** Two clusters written behind the one cluster of the file: the volume was clean, and is not after. */
  lemma WriteLeaks(past: nat, o: Outcome)
    requires past == PAST && Wrote(WriteOnes(past, 512, 1024), o)
    ensures NoLeak(TableOf(SMALL, LeakyDisk(past)), FILES) && Mirrored(SMALL, LeakyDisk(past))
    ensures !(NoLeak(TableOf(SMALL, o.d), o.m) && Mirrored(SMALL, o.d))
  {
    hide TableOf, NoLeak, Mirrored, LeakyDisk, Entry, ChainsOk, Full, Wrote, SmallTable, Filled, MarkOf, FreeSet;
    var c := WriteOnes(past, 512, 1024);
    WroteTable(c, o);
    LeakyIsSmall(past);
    SmallGeometry(c.d);
    FilesTable(c.Table());
    LeakyPast(past);
    SmallCall(past, 512, 1024);
    assert !c.InFile() && !Harmless(c);
  }

  lemma SmallCall(past: nat, position: nat, n: nat)
    requires position < 1024
    ensures var c := WriteOnes(past, position, n);
            && c.Clusters() == [2] && c.Bytes() == 512 && |c.data| == n
            && c.Index() == position / 512 && c.Skip() == position % 512 && 7 in c.m
  {
    hide Filled, LeakyDisk;
  }

  /** Two clusters written at the start of the file: the driver reports success, and the second cluster
      reads as zeros. */
  lemma WriteForgets(past: nat, o: Outcome)
    requires past == PAST && Wrote(WriteOnes(past, 0, 1024), o)
    ensures o.ret == 1024 && !Stores(WriteOnes(past, 0, 1024), o)
  {
    hide *;
    var c := WriteOnes(past, 0, 1024);
    WroteTable(c, o);
    LeakyIsSmall(past);
    OnesAre(past, 0, 1024);
    SmallGeometry(c.d);
    FilesTable(c.Table());
    SmallCall(past, 0, 1024);
    SmallProper(c);
    SmallReport(c, o);
    if Stores(c, o) {
      SmallRoom(c);
      StoresOnlyOld(c, o);
      SecondCluster(past, c, o);
      Clash(c.data, Content(SMALL, c.d, o.m[7]));
      assert false;
    }
  }

  lemma OnesAre(past: nat, position: nat, n: nat)
    ensures var c := WriteOnes(past, position, n);
            && c.g == SMALL && c.f == 7 && c.p == LISTED && c.position == position && c.failAt == 9
            && c.d == LeakyDisk(past) && c.m == FILES && c.Table() == TableOf(SMALL, LeakyDisk(past))
            && |LeakyDisk(past)| == past + 1 && |c.data| == n && forall i :: 0 <= i < n ==> c.data[i] == 1
  {
    hide LeakyDisk, TableOf;
  }

  lemma SmallRoom(c: Call)
    requires c.Clusters() == [2] && c.Bytes() == 512 && c.Skip() == 0
    ensures Room(c) == 512
  {
    hide Call.Clusters, Call.Bytes, Call.Skip;
  }

  lemma Clash(data: seq<byte>, b: seq<byte>)
    requires |data| == 1024 <= |b| && data[512] == 1 && b[512] == 0
    ensures data[512..] != b[512..1024]
  {
    assert data[512..][0] == 1 && b[512..1024][0] == 0;
  }

  lemma SmallProper(c: Call)
    requires c.g == SMALL && c.f == 7 && c.p == LISTED && c.position == 0 && c.m == FILES
    requires SMALL.Fits(c.d) && ChainsOk(c.Table(), FILES)
    ensures c.Proper() && c.InFile() && c.InTail() && ListedElsewhere(c)
  {
    hide TableOf, ChainsOk;
    assert 3 in FILES[1];
  }

  lemma SmallReport(c: Call, o: Outcome)
    requires c.g == SMALL && c.f == 7 && c.position == 0 && c.m == FILES && |c.data| == 1024 && c.failAt == 9
    requires c.InFile() && WriteResult(c, o) && IsLowest(FreeSet(c.Table()), 4)
    ensures o.ret == 1024
  {
    hide TableOf, FreeSet, Entry, Full;
    assert |FreeSet(c.Table())| >= 1;
    assert Limit(c) >= 1024;
  }

  /** The second cluster of the file is cluster 4, which is empty. */
  lemma SecondCluster(past: nat, c: Call, o: Outcome)
    requires past == PAST && c == WriteOnes(past, 0, 1024) && c.InFile() && TableResult(c, o)
    requires IsLowest(FreeSet(c.Table()), 4)
    requires 7 in o.m && AllData(o.m[7]) && 1024 <= |Content(SMALL, c.d, o.m[7])|
    ensures Content(SMALL, c.d, o.m[7])[512] == 0
  {
    hide TableOf, FreeSet, LeakyDisk, Content, ClusterData, TableResult, Filled;
    ResultGrows(c, o);
    var cs := o.m[7];
    assert |cs| >= 2;
    assert cs[1..][0] == cs[1] == 4;
    ContentSlice(SMALL, c.d, cs, 1, 512, 0, 1);
    var b := Content(SMALL, c.d, cs);
    assert b[512] == b[512..513][0];
    EmptyCluster(past);
  }

  lemma EmptyCluster(past: nat)
    requires past == PAST
    ensures ClusterData(SMALL, LeakyDisk(past), 4)[0] == 0
  {
    hide TableSector, DataSectorPast;
    assert ReadSector(LeakyDisk(past), 4) == ZERO_SECTOR;
    assert SectorRun(LeakyDisk(past), 4, 1) == SectorRun(LeakyDisk(past), 4, 0) + ZERO_SECTOR;
  }
}
