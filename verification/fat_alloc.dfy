/** What allocation and release do to a FAT32 volume, as values: fs/fat/myos_fat32.c and
    myos_fat32_iobuf.c. */
module FatAlloc {
  import opened Arith
  import opened Common
  import opened FatChains
  import opened FatDisk

  const ENOSPC: int := -28
  const EIO: int := -5
  const FILE_MARK := 0x0fff_fff8
  const DIR_MARK := 0x0fff_ffff
  const MAX_FAT32 := 0x0fff_fff6
  const IOBUF_DELETE := 2

  /** First-fit: the lowest free entry, or 0 when there is none. */
  ghost predicate FirstFit(t: Table, c: nat) {
    if exists k :: 0 <= k < |t| && t[k] == FREE
    then c < |t| && t[c] == FREE && forall k :: 0 <= k < c ==> t[k] != FREE
    else c == 0
  }

  function FirstOf(cs: seq<nat>): nat { if cs == [] then 0 else cs[0] }

  lemma SectorKeepsTable(g: Geometry, d: Disk, sector: nat, buf: Sector)
    requires g.Fits(d) && sector >= g.dataFirst
    ensures var d' := WriteSector(d, sector, buf);
            && g.Fits(d') && TableOf(g, d') == TableOf(g, d) && (Mirrored(g, d) <==> Mirrored(g, d'))
            && !InTable(g, sector) && ReadSector(d', sector) == if sector < |d| then buf else ZERO_SECTOR
  {
    SameSectors(g, d, WriteSector(d, sector, buf));
  }

  /** The word past the table that a number stands for lies before the cluster it stands for. */
  lemma StoreKeepsEntry(g: Geometry, d: Disk, e: nat, b: seq<byte>)
    requires g.Fits(d) && e >= 2 && |b| == g.ClusterBytes()
    ensures Entry(g, Stored(d, ClusterSector(g, e), b, g.sectorsPerCluster), e) == Entry(g, d, e)
  {
    StoredAt(d, ClusterSector(g, e), b, g.sectorsPerCluster, g.fat1 + e / 128);
    MulSign(g.sectorsPerFat, g.numFats);
    if e > 2 {
      MulSign(e - 2, g.sectorsPerCluster);
    }
    assert g.fat1 + e / 128 < ClusterSector(g, e);
  }

  // ---------------------------------------------------------------- first fit

  ghost predicate IsLowest(free: set<nat>, c: nat) {
    c in free && forall x :: x in free ==> c <= x
  }

  /** `cs` takes one after the other, always the lowest that is left. */
  ghost predicate LowestFirst(free: set<nat>, cs: seq<nat>)
    decreases |cs|
  {
    cs == [] || (IsLowest(free, cs[0]) && LowestFirst(free - {cs[0]}, cs[1..]))
  }

  lemma FirstFitIsLowest(t: Table, m: Chains, c: nat)
    requires ChainsOk(t, m) && FirstFit(t, c) && c != 0
    ensures IsLowest(FreeSet(t), c)
  {
  }

  lemma {:induction false} LowestThen(free: set<nat>, a: seq<nat>, b: seq<nat>)
    requires LowestFirst(free, a) && LowestFirst(free - Clusters(a), b)
    ensures LowestFirst(free, a + b)
    decreases |a|
  {
    hide IsLowest;
    if a == [] {
      assert Clusters(a) == {};
      assert free - Clusters(a) == free && a + b == b;
    } else {
      assert a == [a[0]] + a[1..];
      ClustersJoin([a[0]], a[1..]);
      assert Clusters([a[0]]) == {a[0]} by { assert [a[0]][0] == a[0]; }
      assert free - {a[0]} - Clusters(a[1..]) == free - Clusters(a);
      LowestThen(free - {a[0]}, a[1..], b);
      assert (a + b)[1..] == a[1..] + b;
    }
  }

  /** First fit leaves no choice: of two such runs one continues the other. */
  lemma {:induction false} LowestIsPrefix(free: set<nat>, a: seq<nat>, b: seq<nat>)
    requires LowestFirst(free, a) && LowestFirst(free, b)
    ensures a <= b || b <= a
    decreases |a|
  {
    if a != [] && b != [] {
      assert a[0] == b[0];
      LowestIsPrefix(free - {a[0]}, a[1..], b[1..]);
      assert a == [a[0]] + a[1..] && b == [b[0]] + b[1..];
    }
  }

  lemma ClustersJoin(a: seq<nat>, b: seq<nat>)
    ensures Clusters(a + b) == Clusters(a) + Clusters(b)
  {
    var c := a + b;
    forall x | x in Clusters(a) + Clusters(b)
      ensures x in Clusters(c)
    {
      if x in Clusters(a) {
        var i :| 0 <= i < |a| && a[i] == x;
        assert c[i] == x;
      } else {
        var i :| 0 <= i < |b| && b[i] == x;
        assert c[|a| + i] == x;
      }
    }
    forall x | x in Clusters(c)
      ensures x in Clusters(a) + Clusters(b)
    {
      var i :| 0 <= i < |c| && c[i] == x;
      if i < |a| { assert a[i] == x; } else { assert b[i - |a|] == x; }
    }
  }

  /** File `f` grew at its end by the lowest free clusters in their order, and nothing else happened. */
  ghost predicate Extended(t0: Table, m0: Chains, t: Table, m: Chains, f: FileId) {
    && f in m0 && m.Keys == m0.Keys
    && (forall h :: h in m0 && h != f ==> m[h] == m0[h])
    && m0[f] <= m[f]
    && Clusters(m[f][|m0[f]|..]) <= FreeSet(t0)
    && LowestFirst(FreeSet(t0), m[f][|m0[f]|..])
    && FreeSet(t) == FreeSet(t0) - Clusters(m[f][|m0[f]|..])
    && TableGrown(t0, m0[f], t, m[f])
  }

  /** The entries of no other cluster changed, and a chain that grew ends in the mark of files. */
  ghost predicate TableGrown(t0: Table, cs0: seq<nat>, t: Table, cs: seq<nat>) {
    && |t| == |t0| && (forall e :: 0 <= e < |t0| && e !in cs ==> t[e] == t0[e])
    && if cs == cs0 then t == t0 else cs != [] && cs[|cs| - 1] < |t| && t[cs[|cs| - 1]] == FILE_MARK
  }

  lemma TableGrownTwice(t0: Table, cs0: seq<nat>, t1: Table, cs1: seq<nat>, t2: Table, cs2: seq<nat>)
    requires TableGrown(t0, cs0, t1, cs1) && TableGrown(t1, cs1, t2, cs2) && cs0 <= cs1 <= cs2
    ensures TableGrown(t0, cs0, t2, cs2)
  {
    assert forall e :: e in cs1 ==> e in cs2;
  }

  lemma ExtendedStart(t0: Table, m0: Chains, f: FileId)
    requires f in m0
    ensures Extended(t0, m0, t0, m0, f)
  {
    assert Clusters(m0[f][|m0[f]|..]) == {};
  }

  lemma OneLowest(free: set<nat>, c: nat)
    requires IsLowest(free, c)
    ensures LowestFirst(free, [c]) && Clusters([c]) == {c}
  {
    assert [c][0] == c && [c][1..] == [];
  }

  lemma ExtendedOne(t: Table, m: Chains, f: FileId, t': Table, c: nat)
    requires f in m && IsLowest(FreeSet(t), c) && FreeSet(t') == FreeSet(t) - {c}
    requires TableGrown(t, m[f], t', m[f] + [c])
    ensures Extended(t, m, t', m[f := m[f] + [c]], f)
  {
    hide FreeSet, Clusters, LowestFirst, TableGrown;
    OneLowest(FreeSet(t), c);
    assert (m[f] + [c])[|m[f]|..] == [c];
  }

  /** Growing twice is growing. */
  lemma ExtendedTwice(t0: Table, m0: Chains, t1: Table, m1: Chains, t2: Table, m2: Chains, f: FileId)
    requires Extended(t0, m0, t1, m1, f) && Extended(t1, m1, t2, m2, f)
    ensures Extended(t0, m0, t2, m2, f)
  {
    var a, b := m1[f][|m0[f]|..], m2[f][|m1[f]|..];
    assert m2[f][|m0[f]|..] == a + b;
    hide Clusters, FreeSet, LowestFirst, TableGrown;
    ClustersJoin(a, b);
    LowestThen(FreeSet(t0), a, b);
    TableGrownTwice(t0, m0[f], t1, m1[f], t2, m2[f]);
  }

  function Linked(g: Geometry, d: Disk, cluster: nat, next: nat): Disk {
    WriteEntry(g, WriteEntry(g, d, cluster, next), next, FILE_MARK)
  }

  /** Linking `next` behind `cluster` changes two entries, or one when `cluster` lies past the
      table, and keeps the copies equal unless it does. */
  lemma LinkedTable(g: Geometry, d: Disk, cluster: nat, next: nat)
    requires g.Fits(d) && next < g.Entries()
    ensures g.Fits(Linked(g, d, cluster, next))
    ensures TableOf(g, Linked(g, d, cluster, next)) ==
            if cluster < g.Entries() then TableOf(g, d)[cluster := next][next := FILE_MARK]
            else TableOf(g, d)[next := FILE_MARK]
    ensures cluster < g.Entries() && Mirrored(g, d) ==> Mirrored(g, Linked(g, d, cluster, next))
  {
    hide TableOf, WriteEntry, Mirrored;
    var d1 := WriteEntry(g, d, cluster, next);
    WriteEntrySize(g, d, cluster, next);
    WriteEntrySize(g, d1, next, FILE_MARK);
    assert g.Entries() < TWO28;
    assert next % TWO28 == next && FILE_MARK % TWO28 == FILE_MARK;
    WriteEntryTable(g, d, cluster, next);
    WriteEntryTable(g, d1, next, FILE_MARK);
    if cluster < g.Entries() && Mirrored(g, d) {
      WriteEntryMirrored(g, d, cluster, next);
      WriteEntryMirrored(g, d1, next, FILE_MARK);
    }
  }

  lemma EntryOnlyTable(g: Geometry, d: Disk, e: nat, value: nat)
    requires g.Fits(d) && e < g.Entries()
    ensures SameBut(g, d, WriteEntry(g, d, e, value), {})
  {
    hide WriteEntry, ReadSector;
    WriteEntrySize(g, d, e, value);
    forall s: nat | !InTable(g, s)
      ensures ReadSector(WriteEntry(g, d, e, value), s) == ReadSector(d, s)
    {
      WriteEntryFrame(g, d, e, value, s);
    }
  }

  lemma LinkedOnlyTable(g: Geometry, d: Disk, cluster: nat, next: nat)
    requires g.Fits(d) && cluster < g.Entries() && next < g.Entries()
    ensures SameBut(g, d, Linked(g, d, cluster, next), {})
  {
    hide WriteEntry, SameBut;
    WriteEntrySize(g, d, cluster, next);
    EntryOnlyTable(g, d, cluster, next);
    EntryOnlyTable(g, WriteEntry(g, d, cluster, next), next, FILE_MARK);
    SameButThen(g, d, WriteEntry(g, d, cluster, next), Linked(g, d, cluster, next), {}, {}, {});
  }

  /** Linking behind a number past the table writes one sector past each copy of it: the word the
      number stands for there becomes `next`. No other sector outside the copies changes. */
  lemma PastTheTable(g: Geometry, d: Disk, cluster: nat, next: nat, s: nat)
    requires g.Fits(d) && g.Entries() <= cluster && next < g.Entries() && !InTable(g, s)
    ensures ReadSector(Linked(g, d, cluster, next), s) ==
            if IsCopy(g, cluster / 128, g.numFats, s) && s < |d| then Patched(g, d, cluster, next)
            else ReadSector(d, s)
  {
    hide Patched, ReadSector, IsCopy, WriteCopies;
    var d1 := WriteEntry(g, d, cluster, next);
    WriteEntrySize(g, d, cluster, next);
    WriteEntryFrame(g, d1, next, FILE_MARK, s);
    WriteCopiesAt(g, d, cluster / 128, Patched(g, d, cluster, next), g.numFats, s);
  }

  lemma GeometryBounds(g: Geometry, d: Disk)
    requires g.Fits(d)
    ensures g.ClusterBytes() > 0 && 2 <= g.Entries() <= EOF_MARK
  {
  }

  /** `cluster` is the end of file `f`. */
  ghost predicate IsTail(m: Chains, f: FileId, cluster: nat) {
    f in m && m[f] != [] && cluster == m[f][|m[f]| - 1]
  }

  /** `cluster` is a cluster of file `f` other than its last. */
  ghost predicate IsInner(m: Chains, f: FileId, cluster: nat) {
    f in m && exists i :: 0 <= i < |m[f]| - 1 && m[f][i] == cluster
  }

  /** What FAT32_write starts on: the file's last cluster, an earlier one, or none of any file. */
  datatype Kind = Tail | Inner | Stray

  ghost predicate IsKind(g: Geometry, m: Chains, f: FileId, cluster: nat, kind: Kind) {
    match kind
    case Tail => IsTail(m, f, cluster)
    case Inner => IsInner(m, f, cluster)
    case Stray => IsStray(g, m, cluster)
  }

  ghost predicate Full(t: Table) {
    forall k :: 0 <= k < |t| ==> t[k] != FREE
  }

  /** The clusters a file has and could get. */
  ghost function Budget(t: Table, m: Chains, f: FileId): nat
    requires f in m
  {
    |FreeSet(t)| + |m[f]|
  }

  lemma BudgetKept(t: Table, t': Table, m: Chains, f: FileId, c: nat)
    requires f in m && c in FreeSet(t) && FreeSet(t') == FreeSet(t) - {c}
    ensures Budget(t', m[f := m[f] + [c]], f) == Budget(t, m, f)
  {
    hide FreeSet;
  }

  lemma FullBudget(t: Table, m: Chains, f: FileId)
    requires f in m
    ensures Full(t) <==> Budget(t, m, f) == |m[f]|
  {
    if Full(t) {
      assert FreeSet(t) == {};
    } else {
      var c :| 0 <= c < |t| && t[c] == FREE;
      assert c in FreeSet(t);
    }
  }

  lemma FullOrFree(t: Table, m: Chains)
    requires ChainsOk(t, m)
    ensures FirstFit(t, 0) <==> Full(t)
    ensures forall c: nat :: FirstFit(t, c) && c != 0 ==> c in FreeSet(t)
  {
  }

  /** What the three kinds of cluster read from the table. */
  lemma ChainEnds(g: Geometry, t: Table, m: Chains, f: FileId, cluster: nat)
    requires ChainsOk(t, m) && |t| == g.Entries() && f in m
    ensures IsTail(m, f, cluster) ==>
              cluster < |t| && t[cluster] >= EOF_MARK && !IsInner(m, f, cluster) && !IsStray(g, m, cluster)
    ensures IsInner(m, f, cluster) ==> cluster < |t| && t[cluster] < EOF_MARK && !IsStray(g, m, cluster)
    ensures IsTail(m, f, cluster) || IsInner(m, f, cluster) || IsStray(g, m, cluster) ==> cluster >= 2
  {
    if IsTail(m, f, cluster) {
      assert m[f][|m[f]| - 1] == cluster;
      assert cluster in m[f];
      forall i | 0 <= i < |m[f]| - 1
        ensures m[f][i] != cluster
      {
        ChainDistinct(t, m[f], i, |m[f]| - 1);
      }
    } else if IsInner(m, f, cluster) {
      var i :| 0 <= i < |m[f]| - 1 && m[f][i] == cluster;
      assert t[m[f][i]] == m[f][i + 1];
      assert cluster in m[f];
    }
  }

  /** `cluster` is no cluster of any file. */
  ghost predicate IsStray(g: Geometry, m: Chains, cluster: nat) {
    cluster >= g.Entries() || (2 <= cluster && !Owned(m, cluster))
  }

  /** Linking behind the end of a file extends that file and nothing else. */
  lemma GrowTail(g: Geometry, d: Disk, m: Chains, f: FileId, cluster: nat, next: nat)
    requires g.Fits(d) && ChainsOk(TableOf(g, d), m) && IsTail(m, f, cluster)
    requires FirstFit(TableOf(g, d), next) && next != 0
    ensures var d', m' := Linked(g, d, cluster, next), m[f := m[f] + [next]];
            && g.Fits(d')
            && ChainsOk(TableOf(g, d'), m')
            && KeepsClean(g, d, m, d', m')
            && FreeSet(TableOf(g, d')) == FreeSet(TableOf(g, d)) - {next}
            && SameBut(g, d, d', {}) && TableGrown(TableOf(g, d), m[f], TableOf(g, d'), m[f] + [next])
  {
    hide NoLeak, Mirrored, TableOf, Linked, FreeSet, ChainsOk, Geometry.Fits, SameBut, FirstFit, Extend, TableGrown;
    var t := TableOf(g, d);
    TailInTable(t, m, f, cluster);
    FirstFitIsFree(t, m, next);
    TailExtends(t, m, f, cluster, next);
    LinkedTable(g, d, cluster, next);
    LinkedOnlyTable(g, d, cluster, next);
    ExtendKeeps(t, m, f, next, FILE_MARK);
  }

  lemma TailExtends(t: Table, m: Chains, f: FileId, cluster: nat, next: nat)
    requires IsTail(m, f, cluster) && cluster < |t| && next < |t|
    ensures Extend(t, m[f], next, FILE_MARK) == t[cluster := next][next := FILE_MARK]
    ensures TableGrown(t, m[f], t[cluster := next][next := FILE_MARK], m[f] + [next])
  {
    assert cluster in m[f] && (m[f] + [next])[|m[f]|] == next;
  }

  lemma TailInTable(t: Table, m: Chains, f: FileId, cluster: nat)
    requires ChainsOk(t, m) && IsTail(m, f, cluster)
    ensures 2 <= cluster < |t| && f in m && m[f] != []
  {
  }

  /** Linking behind anything else leaves the files as they were, and loses the cluster it takes. */
  lemma GrowStray(g: Geometry, d: Disk, m: Chains, cluster: nat, next: nat)
    requires g.Fits(d) && ChainsOk(TableOf(g, d), m) && IsStray(g, m, cluster)
    requires FirstFit(TableOf(g, d), next) && next != 0
    ensures var d' := Linked(g, d, cluster, next);
            && g.Fits(d') && ChainsOk(TableOf(g, d'), m) && IsStray(g, m, next)
            && !NoLeak(TableOf(g, d'), m) && next < g.Entries() && TableOf(g, d')[next] == FILE_MARK
            && (Entry(g, d, cluster) >= EOF_MARK ==> FreeSet(TableOf(g, d')) == FreeSet(TableOf(g, d)) - {next})
            && SameButPast(g, d, d', {}, cluster)
            && forall e :: 0 <= e < g.Entries() && e != cluster && e != next ==> TableOf(g, d')[e] == TableOf(g, d)[e]
  {
    hide TableOf, Linked, Geometry.Fits, ChainsOk, Owned, FirstFit, Geometry.Entries, NoLeak, FreeSet, Entry,
         SameButPast;
    var t := TableOf(g, d);
    GeometryBounds(g, d);
    FirstFitIsFree(t, m, next);
    StrayTable(t, m, cluster, next);
    LinkedTable(g, d, cluster, next);
    MarkedLeaks(TableOf(g, Linked(g, d, cluster, next)), m, next);
    if Entry(g, d, cluster) >= EOF_MARK { StrayFree(t, cluster, next); }
    LinkedPast(g, d, cluster, next);
  }

  /** Linking changes the copies of the table, and what lies past them where the number would be. */
  lemma LinkedPast(g: Geometry, d: Disk, cluster: nat, next: nat)
    requires g.Fits(d) && next < g.Entries()
    ensures SameButPast(g, d, Linked(g, d, cluster, next), {}, cluster)
  {
    hide ReadSector, IsCopy, WriteEntry, InTable, InClusters, Patched;
    if cluster < g.Entries() {
      LinkedOnlyTable(g, d, cluster, next);
      SameButIsPast(g, d, Linked(g, d, cluster, next), {}, cluster);
    } else {
      WriteEntrySize(g, d, cluster, next);
      WriteEntrySize(g, WriteEntry(g, d, cluster, next), next, FILE_MARK);
      forall s: nat | !InTable(g, s) && !IsCopy(g, cluster / 128, g.numFats, s)
        ensures ReadSector(Linked(g, d, cluster, next), s) == ReadSector(d, s)
      {
        PastTheTable(g, d, cluster, next, s);
      }
    }
  }

  lemma StrayFree(t: Table, cluster: nat, next: nat)
    requires next < |t| && (cluster < |t| ==> t[cluster] != FREE && next != FREE)
    ensures FreeSet(if cluster < |t| then t[cluster := next][next := FILE_MARK] else t[next := FILE_MARK])
            == FreeSet(t) - {next}
  {
  }

  lemma MarkedLeaks(t: Table, m: Chains, c: nat)
    requires 2 <= c < |t| && t[c] == FILE_MARK && !Owned(m, c)
    ensures !NoLeak(t, m)
  {
  }

  lemma StrayTable(t: Table, m: Chains, cluster: nat, next: nat)
    requires ChainsOk(t, m) && next < |t| && t[next] == FREE
    requires cluster < |t| ==> 2 <= cluster && !Owned(m, cluster)
    ensures next >= 2 && !Owned(m, next)
    ensures ChainsOk(if cluster < |t| then t[cluster := next][next := FILE_MARK] else t[next := FILE_MARK], m)
  {
    FreeIsUnowned(t, m, next);
    var t' := if cluster < |t| then t[cluster := next][next := FILE_MARK] else t[next := FILE_MARK];
    hide IsChain, Disjoint, Owned;
    UnownedFrame(t, t', m);
  }

  lemma ChainStarts(t: Table, m: Chains, f: FileId)
    requires ChainsOk(t, m) && f in m
    ensures m[f] != [] ==> IsChain(t, m[f]) && m[f][0] >= 2
  {
  }

  lemma FirstFitIsFree(t: Table, m: Chains, c: nat)
    requires ChainsOk(t, m) && FirstFit(t, c) && c != 0
    ensures 2 <= c < |t| && t[c] == FREE
  {
  }

  ghost predicate KeepsClean(g: Geometry, d0: Disk, m0: Chains, d: Disk, m: Chains) {
    NoLeak(TableOf(g, d0), m0) && Mirrored(g, d0) ==> NoLeak(TableOf(g, d), m) && Mirrored(g, d)
  }

  lemma CleanMeans(g: Geometry, d0: Disk, m0: Chains, d: Disk, m: Chains)
    ensures KeepsClean(g, d0, m0, d, m) <==>
            (NoLeak(TableOf(g, d0), m0) && Mirrored(g, d0) ==> NoLeak(TableOf(g, d), m) && Mirrored(g, d))
  {
  }

  /** The first cluster of a file that had none. */
  lemma FirstCluster(g: Geometry, d: Disk, m: Chains, f: FileId, c: nat, mark: nat)
    requires g.Fits(d) && ChainsOk(TableOf(g, d), m) && f in m && m[f] == []
    requires FirstFit(TableOf(g, d), c) && c != 0 && EOF_MARK <= mark < TWO28
    ensures var d', m' := WriteEntry(g, d, c, mark), m[f := [c]];
            && g.Fits(d')
            && ChainsOk(TableOf(g, d'), m')
            && KeepsClean(g, d, m, d', m')
            && FreeSet(TableOf(g, d')) == FreeSet(TableOf(g, d)) - {c}
            && SameBut(g, d, d', {}) && c < g.Entries() && TableOf(g, d') == TableOf(g, d)[c := mark]
  {
    hide *;
    SmallMark(mark);
    CleanMeans(g, d, m, WriteEntry(g, d, c, mark), m[f := [c]]);
    var t, d' := TableOf(g, d), WriteEntry(g, d, c, mark);
    FirstFitIsFree(t, m, c);
    EntryOnlyTable(g, d, c, mark);
    WriteEntrySize(g, d, c, mark);
    WriteEntryTable(g, d, c, mark);
    if Mirrored(g, d) { WriteEntryMirrored(g, d, c, mark); }
    assert m[f] + [c] == [c];
    ExtendEmpty(t, m, f, c, mark);
  }

  lemma SmallMark(mark: nat)
    requires mark < TWO28
    ensures mark % TWO28 == mark
  {
  }

  lemma ExtendEmpty(t: Table, m: Chains, f: FileId, c: nat, mark: nat)
    requires ChainsOk(t, m) && f in m && m[f] == [] && c < |t| && t[c] == FREE && EOF_MARK <= mark < TWO28
    ensures var t', m' := t[c := mark % TWO28], m[f := [c]];
            && ChainsOk(t', m')
            && (NoLeak(t, m) ==> NoLeak(t', m'))
            && FreeSet(t') == FreeSet(t) - {c}
  {
    hide ChainsOk, NoLeak, FreeSet;
    assert m[f] + [c] == [c];
    assert mark % TWO28 == mark;
    ExtendKeeps(t, m, f, c, mark);
  }

  /** The clusters that a release from index `lo` on deletes. */
  ghost function Deleted(cl: seq<nat>, fl: seq<nat>, lo: nat): set<nat>
    requires |cl| == |fl|
  {
    set i | lo <= i < |cl| && fl[i] == IOBUF_DELETE :: cl[i]
  }

  /** `t` is `t0` with exactly the entries of `z` made free. */
  ghost predicate Zeroed(t0: Table, t: Table, z: set<nat>) {
    |t| == |t0| && forall k :: 0 <= k < |t0| ==> t[k] == if k in z then FREE else t0[k]
  }

  lemma ReleaseStep(g: Geometry, d: Disk, t0: Table, cl: seq<nat>, fl: seq<nat>, i: nat)
    requires g.Fits(d) && i < |cl| == |fl| && cl[i] < g.Entries()
    requires Zeroed(t0, TableOf(g, d), Deleted(cl, fl, i + 1))
    ensures var d' := if fl[i] == IOBUF_DELETE then WriteEntry(g, d, cl[i], FREE) else d;
            && g.Fits(d') && Zeroed(t0, TableOf(g, d'), Deleted(cl, fl, i))
            && (Mirrored(g, d) ==> Mirrored(g, d')) && SameBut(g, d, d', {})
  {
    hide TableOf, WriteEntry, Mirrored, Geometry.Fits, SameBut;
    SameButSelf(g, d, {});
    assert Deleted(cl, fl, i) == Deleted(cl, fl, i + 1) + if fl[i] == IOBUF_DELETE then {cl[i]} else {};
    if fl[i] == IOBUF_DELETE {
      WriteEntrySize(g, d, cl[i], FREE);
      EntryOnlyTable(g, d, cl[i], FREE);
      WriteEntryTable(g, d, cl[i], FREE);
      if Mirrored(g, d) { WriteEntryMirrored(g, d, cl[i], FREE); }
    }
  }

  /** Deleting all clusters of a file, whatever their order, is releasing the file. */
  lemma ReleaseAll(t0: Table, m: Chains, f: FileId, cl: seq<nat>, fl: seq<nat>)
    requires ChainsOk(t0, m) && f in m && |cl| == |fl| == |m[f]|
    requires forall i :: 0 <= i < |cl| ==> cl[i] == m[f][|cl| - 1 - i] && fl[i] == IOBUF_DELETE
    ensures forall i :: 0 <= i < |cl| ==> cl[i] < |t0|
    ensures forall t :: Zeroed(t0, t, Deleted(cl, fl, 0)) ==>
              && ChainsOk(t, m - {f}) && t == Freed(t0, m[f])
              && FreeSet(t) == FreeSet(t0) + Clusters(m[f])
              && (NoLeak(t0, m) ==> NoLeak(t, m - {f}))
  {
    ReleaseKeeps(t0, m, f);
    assert forall i :: 0 <= i < |m[f]| ==> m[f][i] == cl[|cl| - 1 - i];
    forall t | Zeroed(t0, t, Deleted(cl, fl, 0))
      ensures t == Freed(t0, m[f])
    {
      forall k | 0 <= k < |t0|
        ensures k in Deleted(cl, fl, 0) <==> k in m[f]
      {
      }
    }
  }

  // ---------------------------------------------------------------- volumes

  /** A mounted volume: its inodes name the first cluster and the size of each file. */
  ghost predicate VolumeOk(g: Geometry, d: Disk, first: map<FileId, nat>, size: map<FileId, nat>, m: Chains) {
    && g.Fits(d)
    && first.Keys == m.Keys && size.Keys == m.Keys
    && ChainsOk(TableOf(g, d), m)
    && forall f :: f in m ==> first[f] == FirstOf(m[f])
  }

  lemma VolumeFacts(g: Geometry, d: Disk, first: map<FileId, nat>, size: map<FileId, nat>, m: Chains)
    requires VolumeOk(g, d, first, size, m)
    ensures g.Fits(d) && first.Keys == m.Keys && size.Keys == m.Keys && ChainsOk(TableOf(g, d), m)
    ensures forall f :: f in m ==> first[f] == FirstOf(m[f])
  {
  }

  lemma VolumeFits(g: Geometry, d: Disk, first: map<FileId, nat>, size: map<FileId, nat>, m: Chains)
    requires VolumeOk(g, d, first, size, m)
    ensures g.Fits(d) && size.Keys == m.Keys
  {
    hide ChainsOk, TableOf, Geometry.Fits, FirstOf;
  }

  lemma VolumeSameTable(g: Geometry, d: Disk, d': Disk, first: map<FileId, nat>, size: map<FileId, nat>, m: Chains)
    requires VolumeOk(g, d, first, size, m) && g.Fits(d') && TableOf(g, d') == TableOf(g, d)
    ensures VolumeOk(g, d', first, size, m)
  {
  }

  lemma VolumeTable(g: Geometry, d: Disk, d': Disk, first: map<FileId, nat>, size: map<FileId, nat>, m: Chains)
    requires VolumeOk(g, d, first, size, m) && g.Fits(d') && ChainsOk(TableOf(g, d'), m)
    ensures VolumeOk(g, d', first, size, m)
  {
    hide ChainsOk, TableOf, Geometry.Fits;
  }

  lemma VolumeGrown(g: Geometry, d: Disk, d': Disk, first: map<FileId, nat>, size: map<FileId, nat>, m: Chains,
                    f: FileId, c: nat)
    requires VolumeOk(g, d, first, size, m) && g.Fits(d') && f in m && m[f] != []
    requires ChainsOk(TableOf(g, d'), m[f := m[f] + [c]])
    ensures VolumeOk(g, d', first, size, m[f := m[f] + [c]])
  {
    hide ChainsOk, TableOf, Geometry.Fits;
  }

  lemma VolumeFirst(g: Geometry, d: Disk, first: map<FileId, nat>, size: map<FileId, nat>, m: Chains, f: FileId, c: nat)
    requires g.Fits(d) && ChainsOk(TableOf(g, d), m[f := [c]]) && first.Keys == m.Keys && size.Keys == m.Keys && f in m
    requires forall h :: h in m ==> first[h] == FirstOf(m[h])
    ensures VolumeOk(g, d, first[f := c], size, m[f := [c]])
  {
    hide ChainsOk, TableOf, Geometry.Fits;
  }

  /** A directory's cluster: its first sector written, then its entry marked. */
  lemma NewDirectory(g: Geometry, d: Disk, first: map<FileId, nat>, size: map<FileId, nat>, m: Chains,
                     f: FileId, c: nat, slots: Sector, mark: nat)
    requires VolumeOk(g, d, first, size, m) && f !in m && FirstFit(TableOf(g, d), c) && c >= 2
    requires EOF_MARK <= mark < TWO28
    ensures var s := ClusterSector(g, c);
            var d', m' := WriteEntry(g, WriteSector(d, s, slots), c, mark), m[f := [c]];
            && VolumeOk(g, d', first[f := c], size[f := 0], m') && KeepsClean(g, d, m, d', m')
            && FreeSet(TableOf(g, d')) == FreeSet(TableOf(g, d)) - {c}
            && ReadSector(d', s) == (if s < |d'| then slots else ZERO_SECTOR)
            && c < g.Entries() && TableOf(g, d') == TableOf(g, d)[c := mark]
            && |d'| == |d| && forall x: nat :: x != s && !InTable(g, x) ==> ReadSector(d', x) == ReadSector(d, x)
  {
    hide *;
    VolumeFacts(g, d, first, size, m);
    var s := ClusterSector(g, c);
    DataSectors(g, d, c);
    var d1, m1 := WriteSector(d, s, slots), m[f := []];
    SectorKeepsTable(g, d, s, slots);
    CreateKeeps(TableOf(g, d), m, f);
    FirstCluster(g, d1, m1, f, c, mark);
    assert m1[f := [c]] == m[f := [c]];
    var d' := WriteEntry(g, d1, c, mark);
    WriteEntrySize(g, d1, c, mark);
    SectorSize(d, s, slots);
    OnlyTableAt(g, d1, d', s);
    forall x: nat | x != s && !InTable(g, x)
      ensures ReadSector(d', x) == ReadSector(d, x)
    {
      OnlyTableAt(g, d1, d', x);
      OtherSector(d, s, slots, x);
    }
    KeepsCleanFrom(g, d, m, d1, m1, d', m[f := [c]]);
    VolumeWith(g, d', first, size, m, f, c);
  }

  lemma DataSectors(g: Geometry, d: Disk, c: nat)
    requires g.Fits(d) && c >= 2
    ensures ClusterSector(g, c) >= g.dataFirst
  {
  }

  lemma SectorSize(d: Disk, s: nat, buf: Sector)
    ensures |WriteSector(d, s, buf)| == |d|
  {
  }

  lemma OtherSector(d: Disk, s: nat, buf: Sector, x: nat)
    requires x != s
    ensures ReadSector(WriteSector(d, s, buf), x) == ReadSector(d, x)
  {
  }

  lemma OnlyTableAt(g: Geometry, d0: Disk, d: Disk, s: nat)
    requires SameBut(g, d0, d, {}) && !InTable(g, s)
    ensures ReadSector(d, s) == ReadSector(d0, s)
  {
    hide ReadSector, InTable;
    assert !InClusters(g, {}, s);
  }

  lemma KeepsCleanFrom(g: Geometry, d: Disk, m: Chains, d1: Disk, m1: Chains, d': Disk, m': Chains)
    requires NoLeak(TableOf(g, d), m) ==> NoLeak(TableOf(g, d), m1)
    requires TableOf(g, d1) == TableOf(g, d) && (Mirrored(g, d) ==> Mirrored(g, d1))
    requires KeepsClean(g, d1, m1, d', m')
    ensures KeepsClean(g, d, m, d', m')
  {
    hide NoLeak, TableOf, Mirrored;
  }

  lemma VolumeWith(g: Geometry, d: Disk, first: map<FileId, nat>, size: map<FileId, nat>, m: Chains, f: FileId, c: nat)
    requires g.Fits(d) && ChainsOk(TableOf(g, d), m[f := [c]]) && first.Keys == m.Keys && size.Keys == m.Keys
    requires forall h :: h in m ==> first[h] == FirstOf(m[h])
    ensures VolumeOk(g, d, first[f := c], size[f := 0], m[f := [c]])
  {
    hide ChainsOk, TableOf, Geometry.Fits;
  }

  lemma VolumeSized(g: Geometry, d: Disk, first: map<FileId, nat>, size: map<FileId, nat>, m: Chains, f: FileId, n: nat)
    requires VolumeOk(g, d, first, size, m) && f in m
    ensures f in size && VolumeOk(g, d, first, size[f := n], m)
  {
  }

  lemma IsFresh(g: Geometry, d: Disk, first: map<FileId, nat>, size: map<FileId, nat>, m: Chains, f: FileId)
    requires VolumeOk(g, d, first, size, m) && f in m
    ensures f in first && f in size && (first[f] == 0 <==> m[f] == [])
  {
    ChainStarts(TableOf(g, d), m, f);
  }
}
