/** What FAT32_write does to a volume, as values: fs/fat/myos_fat32.c. */
module FatWrite {
  import opened Arith
  import opened Common
  import opened FatAlloc
  import opened FatChains
  import opened FatCopy
  import opened FatDisk
  import opened FatEntry

  /** The cluster's first sector, or sector 0. */
  function SectorOf(g: Geometry, c: nat): nat { if c < 2 then 0 else ClusterSector(g, c) }

  /** The end mark of a chain. */
  function MarkOf(t: Table, cs: seq<nat>): nat {
    if cs != [] && cs[|cs| - 1] < |t| then t[cs[|cs| - 1]] else 0
  }

  /** A call of FAT32_write: the file, where its directory entry is, the position, the data, what the
      buffer holds at first and the number of the round whose transfer fails; and the volume and the
      size of the file before. */
  datatype Call = Call(g: Geometry, f: FileId, p: Place, position: nat, data: seq<byte>, scratch: seq<byte>,
                       failAt: nat, d: Disk, m: Chains, size: nat)
  {
    function Table(): FatChains.Table { TableOf(g, d) }

    function Clusters(): seq<nat> { if f in m then m[f] else [] }

    function Bytes(): nat { g.ClusterBytes() }

    /** The cluster of the file that holds the position, and how far into it that is. */
    function Index(): nat { ClusterIndex(position, g.ClusterBytes()) }

    function Skip(): nat { Offset(position, g.ClusterBytes()) }

    function Mark(): nat { MarkOf(Table(), Clusters()) }

    /** The write begins on a cluster of the file, or the file has none yet. */
    predicate InFile() { Clusters() == [] || position < |Clusters()| * Bytes() }

    /** The write begins on the last cluster of the file, or the file has none yet. */
    predicate InTail() { Clusters() == [] || (|Clusters()| - 1) * Bytes() <= position < |Clusters()| * Bytes() }

    function Kind(): Kind { if InTail() then Tail else if InFile() then Inner else Stray }

    /** The cluster the position is in, or the end mark behind the last. */
    function Start(): nat { if Index() < |Clusters()| then Clusters()[Index()] else Mark() }

    /** Where the data goes: that cluster, or sector 0 of the disk when the file has none. */
    function Sector(): nat { if Clusters() == [] then 0 else SectorOf(g, Start()) }

    /** The clusters of the disk that may change: that of the data and that of the directory entry. */
    function Touched(): set<nat> { {Sector()} + EntryAt(g, p) }

    /** What the driver's callers see to, and that a first write spares the allocation table. */
    ghost predicate Proper() {
      && g.Fits(d) && ChainsOk(Table(), m) && f in m && position <= |m[f]| * Bytes()
      && (m[f] == [] ==> g.sectorsPerCluster <= g.fat1)
    }
  }

  /** The value returned, the new position, and the volume and the size of the file after. */
  datatype Outcome = Outcome(ret: int, newPos: nat, d: Disk, m: Chains, size: nat)

  // ---------------------------------------------------------------- one step of the loop

  /** What one round's step to the next cluster does: behind the end of the file it appends the first
      free cluster; on an inner cluster it stays; behind a number that is no cluster of a file it stays
      or takes a cluster that is lost. 0 means that the volume is full. */
  ghost predicate Advances(g: Geometry, f: FileId, d: Disk, m: Chains, cluster: nat, d': Disk, m': Chains, next: nat) {
    && (IsTail(m, f, cluster) ==>
          if next == 0 then d' == d && m' == m && Full(TableOf(g, d))
          else IsTail(m', f, next) && m' == m[f := m[f] + [next]] && Appended(g, f, d, m, d', next))
    && (IsInner(m, f, cluster) ==> next == cluster && d' == d && m' == m)
    && (IsStray(g, m, cluster) ==>
          && m' == m
          && if Entry(g, d, cluster) < EOF_MARK then next == cluster && d' == d
             else if Full(TableOf(g, d)) then next == 0 && d' == d
             else next != 0 && Leaked(g, d, m, cluster, d', next))
  }

  /** The lowest free cluster was taken, and only the table written. */
  ghost predicate Appended(g: Geometry, f: FileId, d: Disk, m: Chains, d': Disk, next: nat) {
    && f in m && TableGrown(TableOf(g, d), m[f], TableOf(g, d'), m[f] + [next])
    && IsLowest(FreeSet(TableOf(g, d)), next) && FreeSet(TableOf(g, d')) == FreeSet(TableOf(g, d)) - {next}
    && SameBut(g, d, d', {}) && KeepsClean(g, d, m, d', m[f := m[f] + [next]])
  }

  /** A free cluster was marked as taken, and belongs to no file. */
  ghost predicate Leaked(g: Geometry, d: Disk, m: Chains, cluster: nat, d': Disk, next: nat) {
    && IsStray(g, m, next) && !NoLeak(TableOf(g, d'), m) && MarkedAt(TableOf(g, d'), next)
    && next in FreeSet(TableOf(g, d)) && FreeSet(TableOf(g, d')) == FreeSet(TableOf(g, d)) - {next}
    && SameButPast(g, d, d', {}, cluster) && OnlyChanged(TableOf(g, d), TableOf(g, d'), cluster, next)
  }

  ghost predicate OnlyChanged(t: Table, t': Table, a: nat, b: nat) {
    |t'| == |t| && forall e :: 0 <= e < |t| && e != a && e != b ==> t'[e] == t[e]
  }

  /** Entries that were not free are as they were, and none became free. */
  ghost predicate OnlyTaken(t0: Table, t: Table) {
    |t| == |t0| && FreeSet(t) <= FreeSet(t0) && forall e :: 0 <= e < |t0| && t0[e] != FREE ==> t[e] == t0[e]
  }

  ghost predicate MarkedAt(t: Table, c: nat) {
    c < |t| && t[c] >= EOF_MARK
  }

  lemma ClusterReads(g: Geometry, d: Disk, m: Chains, f: FileId, cluster: nat)
    requires ChainsOk(TableOf(g, d), m) && f in m
    ensures IsTail(m, f, cluster) ==>
              Entry(g, d, cluster) >= EOF_MARK && !IsInner(m, f, cluster) && !IsStray(g, m, cluster)
    ensures IsInner(m, f, cluster) ==> Entry(g, d, cluster) < EOF_MARK && !IsStray(g, m, cluster)
    ensures IsTail(m, f, cluster) || IsInner(m, f, cluster) || IsStray(g, m, cluster) ==> cluster >= 2
  {
    ChainEnds(g, TableOf(g, d), m, f, cluster);
  }

  lemma AdvanceStays(g: Geometry, f: FileId, d: Disk, m: Chains, cluster: nat)
    requires ChainsOk(TableOf(g, d), m) && f in m && Entry(g, d, cluster) < EOF_MARK
    ensures Advances(g, f, d, m, cluster, d, m, cluster)
  {
    hide ChainsOk, TableOf, IsInner, IsStray, IsTail, Appended, Leaked, Entry, Full;
    ClusterReads(g, d, m, f, cluster);
  }

  lemma AdvanceGrown(g: Geometry, f: FileId, d: Disk, m: Chains, cluster: nat, d': Disk, m': Chains, next: nat)
    requires ChainsOk(TableOf(g, d), m) && f in m && Entry(g, d, cluster) >= EOF_MARK && FirstFit(TableOf(g, d), next)
    requires next == 0 ==> d' == d && m' == m
    requires next != 0 && IsTail(m, f, cluster) ==> m' == m[f := m[f] + [next]] && Appended(g, f, d, m, d', next)
    requires next != 0 && !IsTail(m, f, cluster) ==> m' == m && Leaked(g, d, m, cluster, d', next)
    ensures Advances(g, f, d, m, cluster, d', m', next)
    ensures next == 0 <==> Full(TableOf(g, d))
  {
    hide ChainsOk, TableOf, FreeSet, IsInner, IsStray, Entry, Full, FirstFit, IsTail, Appended, Leaked;
    FullOrFree(TableOf(g, d), m);
    if FirstFit(TableOf(g, d), 0) {
      FirstFitUnique(TableOf(g, d), next);
    }
    ClusterReads(g, d, m, f, cluster);
    AppendTail(m, f, next);
  }

  lemma AppendTail(m: Chains, f: FileId, c: nat)
    requires f in m
    ensures IsTail(m[f := m[f] + [c]], f, c)
  {
  }

  lemma FirstFitUnique(t: Table, c: nat)
    requires FirstFit(t, c) && FirstFit(t, 0)
    ensures c == 0
  {
  }

  // ---------------------------------------------------------------- the rounds

  /** The loop of FAT32_write for file f: the volume it starts on, the cluster it starts with and of
      what kind that is, and the sector its data goes to. */
  datatype Job = Job(g: Geometry, f: FileId, d: Disk, m: Chains, start: nat, kind: Kind, sector: nat)

  /** The volume after i rounds, on `cluster`. */
  ghost predicate Kept(j: Job, d: Disk, m: Chains, cluster: nat, i: nat) {
    match j.kind
    case Tail => IsTail(m, j.f, cluster) && KeptTail(j, d, m)
    case Inner =>
      && cluster == j.start && IsInner(m, j.f, cluster) && m == j.m && TableOf(j.g, d) == TableOf(j.g, j.d)
      && SameBut(j.g, j.d, d, {j.sector}) && KeepsClean(j.g, j.d, j.m, d, m)
    case Stray =>
      && m == j.m && IsStray(j.g, m, cluster) && StrayFrame(j, d)
      && if Entry(j.g, j.d, j.start) < EOF_MARK || i == 0 then cluster == j.start && KeptStray(j, d)
         else LeakedRounds(j, d, cluster, i)
  }

  ghost predicate KeptTail(j: Job, d: Disk, m: Chains) {
    && SameBut(j.g, j.d, d, {j.sector}) && KeepsClean(j.g, j.d, j.m, d, m)
    && Extended(TableOf(j.g, j.d), j.m, TableOf(j.g, d), m, j.f)
    && j.f in j.m && j.f in m && Budget(TableOf(j.g, d), m, j.f) == Budget(TableOf(j.g, j.d), j.m, j.f)
  }

  ghost predicate KeptStray(j: Job, d: Disk) {
    && TableOf(j.g, d) == TableOf(j.g, j.d) && KeepsClean(j.g, j.d, j.m, d, j.m)
    && Entry(j.g, d, j.start) == Entry(j.g, j.d, j.start)
  }

  /** What a write behind the end mark may have changed. */
  ghost predicate StrayFrame(j: Job, d: Disk) {
    SameButPast(j.g, j.d, d, {j.sector}, j.start) && OnlyTaken(TableOf(j.g, j.d), TableOf(j.g, d))
  }

  /** A cluster was lost in each of i rounds. */
  ghost predicate LeakedRounds(j: Job, d: Disk, cluster: nat, i: nat) {
    && cluster in FreeSet(TableOf(j.g, j.d))
    && !NoLeak(TableOf(j.g, d), j.m) && MarkedAt(TableOf(j.g, d), cluster)
    && |FreeSet(TableOf(j.g, d))| + i == |FreeSet(TableOf(j.g, j.d))|
  }

  /** The start of the loop. */
  ghost predicate Starts(j: Job) {
    && j.g.Fits(j.d) && j.f in j.m && j.start >= 2 && OffTable(j.g, j.sector)
    && IsKind(j.g, j.m, j.f, j.start, j.kind)
    && (j.kind.Stray? ==> j.sector == ClusterSector(j.g, j.start) && EOF_MARK <= j.start < TWO28)
  }

  lemma KeptStart(j: Job)
    requires Starts(j)
    ensures Kept(j, j.d, j.m, j.start, 0)
  {
    hide IsTail, IsInner, IsStray, Extended, Budget, NoLeak, Mirrored, TableOf, Entry, SameBut, Geometry.Fits, OffTable,
         SameButPast;
    SameButSelf(j.g, j.d, {j.sector});
    SameButIsPast(j.g, j.d, j.d, {j.sector}, j.start);
    ExtendedStart(TableOf(j.g, j.d), j.m, j.f);
  }

  /** A round's data changes nothing of this. */
  lemma KeptStore(j: Job, d: Disk, m: Chains, cluster: nat, i: nat, b: seq<byte>)
    requires Starts(j) && j.g.Fits(d) && |b| == j.g.ClusterBytes() && Kept(j, d, m, cluster, i)
    ensures var d' := Stored(d, j.sector, b, j.g.sectorsPerCluster);
            j.g.Fits(d') && TableOf(j.g, d') == TableOf(j.g, d) && Kept(j, d', m, cluster, i)
  {
    var d' := Stored(d, j.sector, b, j.g.sectorsPerCluster);
    hide IsTail, IsInner, IsStray, Extended, Budget, NoLeak, Mirrored, TableOf, Entry, SameBut, Geometry.Fits,
         Geometry.ClusterBytes, Stored, OffTable, ClusterSector, FreeSet, MarkedAt, SameButPast, OnlyTaken;
    StoreKeepsTable(j.g, d, j.sector, b);
    if j.kind.Stray? {
      StoreKeepsEntry(j.g, d, j.start, b);
      SameButIsPast(j.g, d, d', {j.sector}, j.start);
      SameButPastThen(j.g, j.d, d, d', {j.sector}, {j.sector}, {j.sector}, j.start);
    } else {
      SameButThen(j.g, j.d, d, d', {j.sector}, {j.sector}, {j.sector});
    }
  }

  lemma KeptTailNext(j: Job, d: Disk, m: Chains, d': Disk, next: nat)
    requires j.f in m && KeptTail(j, d, m) && Appended(j.g, j.f, d, m, d', next)
    ensures KeptTail(j, d', m[j.f := m[j.f] + [next]])
  {
    hide Extended, Budget, NoLeak, Mirrored, TableOf, SameBut, FreeSet, IsLowest, TableGrown;
    var t0, t, t', m' := TableOf(j.g, j.d), TableOf(j.g, d), TableOf(j.g, d'), m[j.f := m[j.f] + [next]];
    SameButThen(j.g, j.d, d, d', {j.sector}, {}, {j.sector});
    ExtendedOne(t, m, j.f, t', next);
    ExtendedTwice(t0, j.m, t, m, t', m', j.f);
    LowestIn(FreeSet(t), next);
    BudgetKept(t, t', m, j.f, next);
  }

  lemma LowestIn(free: set<nat>, c: nat)
    requires IsLowest(free, c)
    ensures c in free
  {
  }

  lemma LeakedAgain(j: Job, d: Disk, d': Disk, cluster: nat, i: nat, next: nat)
    requires Leaked(j.g, d, j.m, cluster, d', next) && OnlyTaken(TableOf(j.g, j.d), TableOf(j.g, d))
    requires |FreeSet(TableOf(j.g, d))| + i == |FreeSet(TableOf(j.g, j.d))|
    ensures LeakedRounds(j, d', next, i + 1)
  {
    hide NoLeak, TableOf, FreeSet, IsStray, MarkedAt, SameButPast, OnlyChanged;
  }

  lemma TakenAgain(t0: Table, t: Table, t': Table, cluster: nat, next: nat)
    requires OnlyTaken(t0, t) && OnlyChanged(t, t', cluster, next) && next in FreeSet(t)
    requires FreeSet(t') == FreeSet(t) - {next} && (cluster < |t0| ==> cluster in FreeSet(t0))
    ensures OnlyTaken(t0, t')
  {
  }

  /** Linking behind a lost cluster writes the table only. */
  lemma PastInTable(g: Geometry, d0: Disk, d: Disk, at: set<nat>, e: nat)
    requires g.Fits(d0) && e < g.Entries() && SameButPast(g, d0, d, at, e)
    ensures SameBut(g, d0, d, at)
  {
    hide ReadSector, InClusters;
    forall s: nat | !InTable(g, s)
      ensures !IsCopy(g, e / 128, g.numFats, s)
    {
      forall k: nat | k < g.numFats
        ensures s != g.CopySector(k, e / 128)
      {
        CopyInFat(g, d0, k, e / 128);
      }
    }
  }

  lemma StrayFrameNext(j: Job, d: Disk, d': Disk, cluster: nat, next: nat)
    requires j.g.Fits(d) && StrayFrame(j, d) && Leaked(j.g, d, j.m, cluster, d', next)
    requires cluster == j.start || (cluster < j.g.Entries() && cluster in FreeSet(TableOf(j.g, j.d)))
    requires j.g.Entries() <= j.start
    ensures StrayFrame(j, d')
  {
    hide NoLeak, TableOf, FreeSet, IsStray, MarkedAt, SameButPast, OnlyChanged, OnlyTaken, SameBut, Geometry.Fits,
         Geometry.Entries;
    if cluster != j.start {
      PastInTable(j.g, d, d', {}, cluster);
      SameButIsPast(j.g, d, d', {}, j.start);
    }
    SameButPastThen(j.g, j.d, d, d', {j.sector}, {}, {j.sector}, j.start);
    TakenAgain(TableOf(j.g, j.d), TableOf(j.g, d), TableOf(j.g, d'), cluster, next);
  }

  /** Nor does the step to the next cluster, unless the volume is full. */
  lemma KeptNext(j: Job, d: Disk, m: Chains, cluster: nat, i: nat, d': Disk, m': Chains, next: nat)
    requires Starts(j) && j.g.Fits(d) && Kept(j, d, m, cluster, i)
    requires Advances(j.g, j.f, d, m, cluster, d', m', next) && next != 0
    ensures Kept(j, d', m', next, i + 1)
  {
    hide IsTail, IsInner, IsStray, KeptTail, KeptStray, StrayFrame, LeakedRounds, Appended, TableOf, Entry, Full,
         SameBut, KeepsClean, Leaked, Geometry.Fits, OffTable, ClusterSector;
    match j.kind
    case Tail =>
      KeptFile(j, d, m);
      KeptTailNext(j, d, m, d', next);
    case Inner =>
    case Stray =>
      StrayNext(j, d, cluster, i, d', next);
  }

  lemma KeptFile(j: Job, d: Disk, m: Chains)
    requires KeptTail(j, d, m)
    ensures j.f in m
  {
    hide SameBut, KeepsClean, Extended, TableOf, Budget;
  }

  lemma StrayNext(j: Job, d: Disk, cluster: nat, i: nat, d': Disk, next: nat)
    requires Starts(j) && j.g.Fits(d) && j.kind.Stray? && Kept(j, d, j.m, cluster, i) && next != 0
    requires Advances(j.g, j.f, d, j.m, cluster, d', j.m, next)
    ensures Kept(j, d', j.m, next, i + 1)
  {
    hide IsTail, IsInner, NoLeak, Mirrored, TableOf, Full, KeepsClean, FreeSet, Geometry.Fits, OffTable, ClusterSector,
         MarkedAt, Entry, SameButPast, OnlyTaken, OnlyChanged, Owned, Geometry.Entries;
    GeometryBounds(j.g, d);
    if Entry(j.g, j.d, j.start) >= EOF_MARK {
      if i > 0 { MarkedReads(j.g, d, cluster); }
      LeakedAgain(j, d, d', cluster, i, next);
      StrayFrameNext(j, d, d', cluster, next);
    }
  }

  lemma MarkedReads(g: Geometry, d: Disk, c: nat)
    requires MarkedAt(TableOf(g, d), c)
    ensures Entry(g, d, c) >= EOF_MARK && c < g.Entries()
  {
  }

  lemma StartsFacts(j: Job)
    requires Starts(j)
    ensures j.g.Fits(j.d) && j.f in j.m && j.start >= 2
  {
  }

  lemma KeptKind(j: Job, d: Disk, m: Chains, cluster: nat, i: nat)
    requires Starts(j) && Kept(j, d, m, cluster, i)
    ensures j.f in m && IsKind(j.g, m, j.f, cluster, j.kind)
    ensures IsTail(m, j.f, cluster) || IsInner(m, j.f, cluster) || IsStray(j.g, m, cluster)
  {
    hide IsTail, IsInner, IsStray, KeptTail, KeptStray, StrayFrame, LeakedRounds, TableOf, Entry, SameBut, KeepsClean,
         Geometry.Fits, OffTable;
    if j.kind.Tail? { KeptFile(j, d, m); }
  }

  lemma KeptSize(j: Job, d: Disk, m: Chains, cluster: nat, i: nat)
    requires Kept(j, d, m, cluster, i)
    ensures |d| == |j.d|
  {
    hide IsTail, IsInner, IsStray, KeptStray, LeakedRounds, TableOf, Entry, KeepsClean, Extended, Budget, InClusters,
         InTable, ReadSector, OnlyTaken;
  }

  /** The sectors of a cluster at an end mark lie behind everything a link to it writes. */
  lemma BehindCopies(g: Geometry, d: Disk, e: nat, start: nat, s: nat)
    requires g.Fits(d) && e < TWO28 && start >= EOF_MARK && s >= ClusterSector(g, start)
    ensures !IsCopy(g, e / 128, g.numFats, s)
  {
    MulSign(start - 2, g.sectorsPerCluster);
    forall k: nat | k < g.numFats
      ensures s != g.CopySector(k, e / 128)
    {
      CopyRoom(g.sectorsPerFat, k, g.numFats);
    }
  }

  /** The step to the next cluster does not touch the data. */
  lemma StepKeepsData(j: Job, d: Disk, m: Chains, cluster: nat, i: nat, d': Disk, m': Chains, next: nat)
    requires Starts(j) && j.g.Fits(d) && Kept(j, d, m, cluster, i)
    requires Advances(j.g, j.f, d, m, cluster, d', m', next)
    ensures SectorRun(d', j.sector, j.g.sectorsPerCluster) == SectorRun(d, j.sector, j.g.sectorsPerCluster)
  {
    hide IsTail, IsInner, KeptTail, KeptStray, StrayFrame, TableOf, Entry, Full, SameBut, KeepsClean, FreeSet,
         SameButPast, SectorRun, TableGrown, IsLowest, NoLeak, MarkedAt, OnlyChanged, Owned, ClusterSector,
         Geometry.Fits, OffTable, Geometry.Entries;
    if d' != d {
      if j.kind.Tail? {
        RunKept(j.g, d, d', {}, j.sector);
      } else if j.kind.Stray? {
        GeometryBounds(j.g, d);
        if i > 0 && Entry(j.g, j.d, j.start) >= EOF_MARK { MarkedReads(j.g, d, cluster); }
        RunKeptPast(j.g, d, d', j.start, cluster, j.sector);
      }
    }
  }

  lemma RunKept(g: Geometry, d: Disk, d': Disk, at: set<nat>, sector: nat)
    requires SameBut(g, d, d', at) && OffTable(g, sector)
    requires forall x :: x in at ==> x + g.sectorsPerCluster <= sector || sector + g.sectorsPerCluster <= x
    ensures SectorRun(d', sector, g.sectorsPerCluster) == SectorRun(d, sector, g.sectorsPerCluster)
  {
    hide ReadSector, SectorRun;
    forall s: nat | sector <= s < sector + g.sectorsPerCluster
      ensures ReadSector(d', s) == ReadSector(d, s)
    {
      assert !InTable(g, s) && !InClusters(g, at, s);
    }
    RunSame(d, d', sector, g.sectorsPerCluster);
  }

  lemma RunKeptPast(g: Geometry, d: Disk, d': Disk, start: nat, e: nat, sector: nat)
    requires g.Fits(d) && SameButPast(g, d, d', {}, e) && e < TWO28 && start >= EOF_MARK
    requires sector == ClusterSector(g, start)
    ensures SectorRun(d', sector, g.sectorsPerCluster) == SectorRun(d, sector, g.sectorsPerCluster)
  {
    hide ReadSector, SectorRun, IsCopy, ClusterSector, InTable;
    ClusterAfterTable(g, d, start);
    forall s: nat | sector <= s < sector + g.sectorsPerCluster
      ensures ReadSector(d', s) == ReadSector(d, s)
    {
      BehindCopies(g, d, e, start, s);
      BehindTable(g, s);
      assert !InClusters(g, {}, s);
    }
    RunSame(d, d', sector, g.sectorsPerCluster);
  }

  lemma BehindTable(g: Geometry, s: nat)
    requires s >= g.fat1 + g.sectorsPerFat * g.numFats
    ensures !InTable(g, s)
  {
  }

  lemma AppendedOne(j: Job, d: Disk, m: Chains, cluster: nat, i: nat, d': Disk, m': Chains, next: nat)
    requires j.kind.Tail? && Kept(j, d, m, cluster, i) && Advances(j.g, j.f, d, m, cluster, d', m', next) && next != 0
    ensures j.f in m && j.f in m' && |m'[j.f]| == |m[j.f]| + 1
  {
    hide IsInner, IsStray, KeptTail, TableOf, Entry, Full, Appended, Leaked;
    KeptFile(j, d, m);
  }

  /** How the loop ended: behind the round that needs no more, before the round that fails, or behind
      one that needs a cluster on a full volume. */
  ghost predicate LoopEnd(bpc: nat, offset: nat, count: nat, done: nat, failAt: nat, rounds: nat, full: bool) {
    && done <= count && rounds <= failAt && (rounds > 0 ==> count > bpc - offset)
    && RoundStart(bpc, offset, rounds) <= done && (done == count > 0 ==> RoundStart(bpc, offset, rounds) < done)
    && (full ==> done < count && done == RoundStart(bpc, offset, rounds + 1) && rounds < failAt)
    && (!full && done < count ==> rounds == failAt && done == RoundStart(bpc, offset, failAt))
    && (done == count ==> done <= RoundStart(bpc, offset, rounds + 1) && done <= RoundStart(bpc, offset, failAt))
  }

  /** Round i begins behind this many bytes. */
  ghost predicate AtRound(bpc: nat, offset: nat, done: nat, i: nat) {
    offset < bpc && done == RoundStart(bpc, offset, i)
  }

  lemma RoundDone(bpc: nat, offset: nat, done: nat, length: nat, i: nat)
    requires AtRound(bpc, offset, done, i) && length <= bpc - if i == 0 then offset else 0
    ensures done + length <= RoundStart(bpc, offset, i + 1)
    ensures length == (bpc - if i == 0 then offset else 0) ==> AtRound(bpc, offset, done + length, i + 1)
  {
    RoundsGrow(bpc, offset, i, i);
  }

  /** Round i begins so far into its cluster. */
  lemma RoundPlace(bpc: nat, position: nat, done: nat, i: nat)
    requires AtRound(bpc, Offset(position, bpc), done, i)
    ensures (position + done) % bpc == if i == 0 then Offset(position, bpc) else 0
  {
    if i > 0 {
      assert position == bpc * (position / bpc) + position % bpc;
      DivIs(position + done, bpc, position / bpc + i, 0);
    }
  }

  lemma StopsBefore(bpc: nat, offset: nat, count: nat, done: nat, failAt: nat, i: nat)
    requires AtRound(bpc, offset, done, i) && i == failAt && done <= count && (done < count || i == 0)
    requires i > 0 ==> count > bpc - offset
    ensures LoopEnd(bpc, offset, count, done, failAt, i, false)
  {
    RoundsGrow(bpc, offset, i, i + 1);
  }

  lemma StopsBehind(bpc: nat, offset: nat, was: nat, count: nat, failAt: nat, i: nat)
    requires AtRound(bpc, offset, was, i) && was <= count && (was < count || count == 0)
    requires offset < bpc && i < failAt && count <= RoundStart(bpc, offset, i + 1) && (i > 0 ==> count > bpc - offset)
    ensures LoopEnd(bpc, offset, count, count, failAt, i, false)
  {
    RoundsGrow(bpc, offset, i + 1, failAt);
  }

  lemma StopsFull(bpc: nat, offset: nat, count: nat, done: nat, failAt: nat, i: nat)
    requires AtRound(bpc, offset, done, i + 1) && i < failAt && done < count && (i > 0 ==> count > bpc - offset)
    ensures LoopEnd(bpc, offset, count, done, failAt, i, true)
  {
    RoundsGrow(bpc, offset, i, i + 1);
    hide RoundStart;
  }

  /** Whether the clusters the file then has cover the new position. */
  ghost predicate TailEnd(g: Geometry, m: Chains, f: FileId, newPos: nat, some: bool, more: bool, full: bool) {
    && f in m && |m[f]| * g.ClusterBytes() <= newPos + g.ClusterBytes()
    && (!more ==> newPos <= |m[f]| * g.ClusterBytes())
    && (!more && some ==> |m[f]| * g.ClusterBytes() < newPos + g.ClusterBytes())
    && (more && full ==> newPos == |m[f]| * g.ClusterBytes())
    && (!full && (more || !some) ==> newPos < |m[f]| * g.ClusterBytes())
  }

  lemma LastIs(g: Geometry, m: Chains, f: FileId, position: nat)
    requires InLast(g, m, f, position)
    ensures f in m && position + g.ClusterBytes() == |m[f]| * g.ClusterBytes() + Offset(position, g.ClusterBytes())
  {
  }

  lemma TailEnds(g: Geometry, m: Chains, f: FileId, newPos: nat, some: bool, more: bool, full: bool)
    requires f in m && newPos <= |m[f]| * g.ClusterBytes() <= newPos + g.ClusterBytes()
    requires more ==> (full <==> newPos == |m[f]| * g.ClusterBytes())
    requires !more && some ==> |m[f]| * g.ClusterBytes() < newPos + g.ClusterBytes()
    requires !more && !some ==> newPos < |m[f]| * g.ClusterBytes()
    ensures TailEnd(g, m, f, newPos, some, more, full)
  {
  }

  lemma FirstRound(bpc: nat, offset: nat)
    requires offset < bpc
    ensures AtRound(bpc, offset, 0, 0)
  {
  }

  /** A new cluster was needed where one is taken from the free ones. */
  ghost predicate FullEnd(j: Job, d: Disk) {
    && Full(TableOf(j.g, d)) && !j.kind.Inner?
    && (j.kind.Stray? ==> Entry(j.g, j.d, j.start) >= EOF_MARK)
  }

  lemma FullStep(j: Job, d: Disk, m: Chains, cluster: nat, i: nat, d': Disk, m': Chains)
    requires Starts(j) && Kept(j, d, m, cluster, i) && Advances(j.g, j.f, d, m, cluster, d', m', 0)
    requires Full(TableOf(j.g, d'))
    ensures FullEnd(j, d')
  {
    hide IsTail, IsInner, IsStray, KeptTail, LeakedRounds, Appended, Leaked, TableOf, Entry, Full, SameBut, KeepsClean,
         Geometry.Fits, OffTable, ClusterSector;
    StartsFacts(j);
    KeptKind(j, d, m, cluster, i);
  }

  // ---------------------------------------------------------------- the start

  /** The disk when a file has got its first cluster: the directory entry is rewritten first. */
  function FirstDisk(g: Geometry, d: Disk, p: Place, cluster: nat, size: nat): Disk
    requires cluster < TWO28
  {
    WriteEntry(g, Rewritten(g, d, p, cluster, size), cluster, FILE_MARK)
  }

  lemma FirstDiskKeeps(g: Geometry, d: Disk, m: Chains, f: FileId, p: Place, size: nat, c: nat)
    requires g.Fits(d) && ChainsOk(TableOf(g, d), m) && f in m && m[f] == []
    requires FirstFit(TableOf(g, d), c) && c != 0
    ensures c < TWO28 && g.Fits(FirstDisk(g, d, p, c, size))
    ensures var d', m' := FirstDisk(g, d, p, c, size), m[f := [c]];
            && ChainsOk(TableOf(g, d'), m') && KeepsClean(g, d, m, d', m')
            && FreeSet(TableOf(g, d')) == FreeSet(TableOf(g, d)) - {c}
            && SameBut(g, d, d', EntryAt(g, p)) && TableGrown(TableOf(g, d), [], TableOf(g, d'), [c])
  {
    FirstFitSmall(g, d, m, c);
    var d1 := Rewritten(g, d, p, c, size);
    hide TableOf, ChainsOk, FreeSet, NoLeak, Mirrored, SameBut, WriteEntry, Rewritten, Geometry.Fits, FirstFit, EntryAt,
         TableGrown;
    RewrittenKeeps(g, d, p, c, size);
    FirstCluster(g, d1, m, f, c, FILE_MARK);
    FirstGrown(TableOf(g, d), c);
    SameButThen(g, d, d1, FirstDisk(g, d, p, c, size), EntryAt(g, p), {}, EntryAt(g, p));
  }

  lemma FirstGrown(t: Table, c: nat)
    requires c < |t|
    ensures TableGrown(t, [], t[c := FILE_MARK], [c])
  {
    assert c in [c];
  }

  lemma FirstFitSmall(g: Geometry, d: Disk, m: Chains, c: nat)
    requires ChainsOk(TableOf(g, d), m) && FirstFit(TableOf(g, d), c)
    ensures c < TWO28
  {
  }

  /** Where FAT32_write starts: on the cluster that holds the position, on the end mark when that is
      just past the last cluster, or on a new first cluster when the file had none; 0 means full. */
  ghost predicate Started(c: Call, d: Disk, m: Chains, cluster: nat) {
    var cs := c.Clusters();
    if cs != [] then
      && d == c.d && m == c.m
      && if c.Index() < |cs| then cluster == cs[c.Index()] else cluster == c.Mark() && cluster >= EOF_MARK
    else
      && FirstFit(c.Table(), cluster) && cluster < TWO28
      && if cluster == 0 then d == c.d && m == c.m
         else m == c.m[c.f := [cluster]] && d == FirstDisk(c.g, c.d, c.p, cluster, c.size)
  }

  /** What a started write has done so far. */
  ghost predicate StartKept(c: Call, d: Disk, m: Chains) {
    && Extended(c.Table(), c.m, TableOf(c.g, d), m, c.f) && KeepsClean(c.g, c.d, c.m, d, m)
    && SameBut(c.g, c.d, d, EntryAt(c.g, c.p))
    && c.f in c.m && c.f in m && Budget(TableOf(c.g, d), m, c.f) == Budget(c.Table(), c.m, c.f)
  }

  lemma StartedKeeps(c: Call, d: Disk, m: Chains, cluster: nat)
    requires c.Proper() && Started(c, d, m, cluster)
    ensures StartKept(c, d, m)
  {
    hide ChainsOk, TableOf, FreeSet, NoLeak, Mirrored, SameBut, Extended, Budget, FirstFit, MarkOf, FirstDisk, EntryAt,
         Geometry.Fits, IsLowest;
    ExtendedStart(c.Table(), c.m, c.f);
    SameButSelf(c.g, c.d, EntryAt(c.g, c.p));
    if c.m[c.f] == [] && cluster != 0 {
      var t := TableOf(c.g, d);
      FirstDiskKeeps(c.g, c.d, c.m, c.f, c.p, c.size, cluster);
      FirstFitIsLowest(c.Table(), c.m, cluster);
      LowestIn(FreeSet(c.Table()), cluster);
      assert c.m[c.f] + [cluster] == [cluster];
      ExtendedOne(c.Table(), c.m, c.f, t, cluster);
      BudgetKept(c.Table(), t, c.m, c.f, cluster);
    }
  }

  ghost function JobOf(c: Call, d: Disk, m: Chains, cluster: nat): Job {
    Job(c.g, c.f, d, m, cluster, c.Kind(), if c.Clusters() == [] then 0 else SectorOf(c.g, cluster))
  }

  /** The position is as far from the end of the file's last cluster as from the end of its own. */
  ghost predicate InLast(g: Geometry, m: Chains, f: FileId, position: nat) {
    f in m && position + g.ClusterBytes() == |m[f]| * g.ClusterBytes() + Offset(position, g.ClusterBytes())
  }

  /** The loop is entered on a cluster of the kind that position and chain length say. */
  ghost predicate Ready(j: Job, c: Call) {
    && j.g == c.g && j.f == c.f && j.kind == c.Kind()
    && Starts(j) && j.f in j.m && (c.Clusters() != [] ==> j.sector == SectorOf(j.g, j.start))
    && (j.kind.Tail? ==> InLast(j.g, j.m, j.f, c.position))
    && j.sector == c.Sector()
    && (j.kind.Stray? ==> j.start == c.Mark())
    && (c.Clusters() != [] ==> j.d == c.d && j.m == c.m)
  }

  lemma JobFresh(c: Call, d: Disk, m: Chains, cluster: nat)
    requires c.Proper() && c.g.Fits(d) && c.m[c.f] == []
    requires FirstFit(c.Table(), cluster) && cluster != 0 && m == c.m[c.f := [cluster]]
    ensures Ready(JobOf(c, d, m, cluster), c)
  {
    FirstFitIsFree(c.Table(), c.m, cluster);
    GeometryBounds(c.g, c.d);
    OffsetZero(c.Bytes());
    hide TableOf, ChainsOk, Geometry.Fits, FirstFit, ClusterSector, Geometry.ClusterBytes, Offset, ClusterIndex, MarkOf;
    assert c.position == 0;
  }

  lemma JobInside(c: Call)
    requires c.Proper() && c.m[c.f] != [] && c.InFile()
    ensures c.Index() < |c.m[c.f]| && Ready(JobOf(c, c.d, c.m, c.m[c.f][c.Index()]), c)
  {
    var cs, bpc := c.m[c.f], c.Bytes();
    hide TableOf, ChainsOk, Geometry.Fits, ClusterSector, Geometry.ClusterBytes, Owned, OffTable, MarkOf;
    GeometryBounds(c.g, c.d);
    IndexBound(c.position, bpc, |cs|);
    ChainStarts(c.Table(), c.m, c.f);
    assert IsChain(c.Table(), cs) && cs[c.Index()] >= 2;
    DataOffTable(c.g, c.d, cs[c.Index()]);
    if c.InTail() {
      MulNext(|cs| - 1, bpc);
    }
  }

  lemma JobPast(c: Call, cluster: nat)
    requires c.Proper() && c.m[c.f] != [] && !c.InFile() && cluster == c.Mark() && cluster >= EOF_MARK
    ensures Ready(JobOf(c, c.d, c.m, cluster), c)
  {
    GeometryBounds(c.g, c.d);
    hide TableOf, ChainsOk, Geometry.Fits, ClusterSector, Geometry.ClusterBytes, Owned, OffTable, InLast, Offset,
         ClusterIndex;
    PastIndex(c.position, c.Bytes(), |c.m[c.f]|);
    DataOffTable(c.g, c.d, cluster);
  }

  lemma JobStarts(c: Call, d: Disk, m: Chains, cluster: nat)
    requires c.Proper() && c.g.Fits(d) && Started(c, d, m, cluster) && cluster != 0
    ensures Ready(JobOf(c, d, m, cluster), c)
  {
    hide Ready, ChainsOk, TableOf, Geometry.ClusterBytes, ClusterIndex, FirstFit, FirstDisk, MarkOf, Geometry.Fits;
    GeometryBounds(c.g, c.d);
    if c.m[c.f] == [] {
      JobFresh(c, d, m, cluster);
    } else if c.InFile() {
      JobInside(c);
    } else {
      PastIndex(c.position, c.Bytes(), |c.m[c.f]|);
      JobPast(c, cluster);
    }
  }

  lemma ReadyFacts(j: Job, c: Call)
    requires Ready(j, c)
    ensures Starts(j) && j.start >= 2 && j.f in j.m
    ensures c.Clusters() != [] ==> j.sector == ClusterSector(j.g, j.start)
    ensures j.kind.Tail? ==> InLast(j.g, j.m, j.f, c.position)
  {
    hide InLast, Call.Sector, MarkOf, TableOf, Call.Kind;
  }

  // ---------------------------------------------------------------- the allocation table after a write

  /** A write that starts on the end mark of a chain, and still takes no cluster: the first round
      fails or suffices, or the word past the table does not look like an end mark, or the volume is
      full. */
  ghost predicate Harmless(c: Call) {
    || c.failAt == 0 || |c.data| <= c.Bytes() - c.Skip()
    || Entry(c.g, c.d, c.Mark()) < EOF_MARK || Full(c.Table())
  }

  /** What a write leaves of the table: it grew the file, or kept or lost its cleanness. */
  ghost predicate TableResult(c: Call, o: Outcome) {
    if c.InFile() then
      && Extended(c.Table(), c.m, TableOf(c.g, o.d), o.m, c.f) && SameBut(c.g, c.d, o.d, c.Touched())
      && KeepsClean(c.g, c.d, c.m, o.d, o.m) && (!c.InTail() ==> o.m == c.m)
    else
      && o.m == c.m
      && (NoLeak(c.Table(), c.m) && Mirrored(c.g, c.d) ==>
            (NoLeak(TableOf(c.g, o.d), o.m) && Mirrored(c.g, o.d) <==> Harmless(c)))
      && SameButPast(c.g, c.d, o.d, c.Touched(), c.Mark()) && OnlyTaken(c.Table(), TableOf(c.g, o.d))
  }

  lemma FullFree(t: Table)
    ensures Full(t) <==> |FreeSet(t)| == 0
  {
    if Full(t) {
      assert FreeSet(t) == {};
    } else {
      var c :| 0 <= c < |t| && t[c] == FREE;
      assert c in FreeSet(t);
    }
  }

  lemma JobTable(j: Job, c: Call, o: Outcome, at: nat, rounds: nat, done: nat, full: bool)
    requires Ready(j, c) && StartKept(c, j.d, j.m) && Kept(j, o.d, o.m, at, rounds)
    requires LoopEnd(c.Bytes(), c.Skip(), |c.data|, done, c.failAt, rounds, full)
    requires full ==> FullEnd(j, o.d)
    ensures TableResult(c, o)
  {
    match j.kind
    case Tail =>
      JobTail(j, c, o);
    case Inner =>
      hide TableOf, FreeSet, NoLeak, Mirrored, Extended, Budget, MarkOf, Starts, IsInner, Call.Sector, SectorOf, Entry,
           Full, InLast, SameBut, LoopEnd, EntryAt;
      SameButThen(c.g, c.d, j.d, o.d, {}, {j.sector}, c.Touched()) by { SameButSelf(c.g, c.d, {}); }
    case Stray =>
      JobStray(j, c, o, at, rounds, done, full);
  }

  lemma JobTail(j: Job, c: Call, o: Outcome)
    requires Ready(j, c) && StartKept(c, j.d, j.m) && KeptTail(j, o.d, o.m) && j.kind.Tail?
    ensures TableResult(c, o)
  {
    hide TableOf, FreeSet, NoLeak, Mirrored, Extended, Budget, MarkOf, SameBut, Starts, Call.Sector, SectorOf, Entry,
         Full, InLast, EntryAt;
    ExtendedTwice(c.Table(), c.m, TableOf(j.g, j.d), j.m, TableOf(j.g, o.d), o.m, j.f);
    SameButThen(c.g, c.d, j.d, o.d, EntryAt(c.g, c.p), {j.sector}, c.Touched());
  }

  lemma JobStray(j: Job, c: Call, o: Outcome, at: nat, rounds: nat, done: nat, full: bool)
    requires Ready(j, c) && Kept(j, o.d, o.m, at, rounds) && j.kind.Stray?
    requires LoopEnd(c.Bytes(), c.Skip(), |c.data|, done, c.failAt, rounds, full) && (full ==> FullEnd(j, o.d))
    ensures TableResult(c, o)
  {
    hide TableOf, FreeSet, NoLeak, Mirrored, Call.Mark, Starts, IsStray, Call.Sector, SectorOf, Entry, Full, InLast,
         Offset, Geometry.ClusterBytes, MarkedAt, SameButPast, OnlyTaken, EntryAt;
    SameButPastStart(c, j.d, o.d);
    FullFree(c.Table());
    FullFree(TableOf(c.g, o.d));
    OneRoundStart(c.Bytes(), c.Skip());
  }

  lemma SameButPastStart(c: Call, d: Disk, d': Disk)
    requires d == c.d
    ensures SameButPast(c.g, d, d', {c.Sector()}, c.Mark()) ==> SameButPast(c.g, c.d, d', c.Touched(), c.Mark())
  {
    hide SameButPast, SameBut, Call.Sector, EntryAt, Call.Mark;
    if SameButPast(c.g, d, d', {c.Sector()}, c.Mark()) {
      SameButSelf(c.g, d', {});
      SameButIsPast(c.g, d', d', {}, c.Mark());
      SameButPastThen(c.g, c.d, d', d', {c.Sector()}, {}, c.Touched(), c.Mark());
    }
  }

  lemma OneRoundStart(bpc: nat, offset: nat)
    ensures RoundStart(bpc, offset, 1) == bpc - offset && RoundStart(bpc, offset, 0) == 0
  {
  }

  // ---------------------------------------------------------------- what a write reports

  /** The position at which the clusters of the file and the free ones end. A write that starts on an
      end mark counts that as a cluster. */
  ghost function Limit(c: Call): nat
    requires c.f in c.m
  {
    (Budget(c.Table(), c.m, c.f) + if c.InFile() then 0 else 1) * c.Bytes()
  }

  /** The volume cannot hold the write: it grows the file, or runs on behind an end mark, and comes to
      the limit before a transfer fails; or it cannot even start. */
  ghost predicate NoSpace(c: Call)
    requires c.f in c.m
  {
    && (c.InTail() || (!c.InFile() && Entry(c.g, c.d, c.Mark()) >= EOF_MARK))
    && ((c.Clusters() == [] && Full(c.Table()))
        || (Limit(c) < c.position + |c.data|
            && Limit(c) - c.position <= RoundStart(c.Bytes(), c.Skip(), c.failAt)))
  }

  /** The value returned and the new position; and a file that grew covers what was written. */
  ghost predicate WriteResult(c: Call, o: Outcome) {
    && c.f in c.m && c.f in o.m
    && (if NoSpace(c) then o.ret == ENOSPC && o.newPos == Limit(c)
        else if Reached(c.g, c.position, |c.data|, c.failAt) then o.ret == |c.data| && o.newPos == c.position + |c.data|
        else o.ret == EIO && o.newPos == c.position + RoundStart(c.Bytes(), c.Skip(), c.failAt))
    && (o.ret == |c.data| && |c.data| > 0 ==>
          (o.newPos <= |o.m[c.f]| * c.Bytes() <==> c.InTail() || o.newPos <= |c.m[c.f]| * c.Bytes()))
    && (c.InTail() ==> JustCovers(c, o.ret, o.newPos, |o.m[c.f]| * c.Bytes()))
    && (!c.InFile() ==> LosesByRound(c, o, TableOf(c.g, o.d)))
  }

  /** A write just past the last cluster loses one cluster for each round behind the first, if any. */
  ghost predicate LosesByRound(c: Call, o: Outcome, t: Table) {
    var lost := |FreeSet(c.Table())| - |FreeSet(t)|;
    if Entry(c.g, c.d, c.Mark()) < EOF_MARK then t == c.Table()
    else
      && lost >= 0 && c.position <= o.newPos
      && var done, from, to := o.newPos - c.position, RoundStart(c.Bytes(), c.Skip(), lost),
                               RoundStart(c.Bytes(), c.Skip(), lost + 1);
         && from <= done <= to && (o.ret == EIO ==> done == from) && (o.ret == ENOSPC ==> done == to)
         && (o.ret == |c.data| > 0 ==> from < done)
  }

  /** A file that grows gets no cluster too many: of its `room` less than a cluster is unused, or a whole one
      when the round for it failed. */
  ghost predicate JustCovers(c: Call, ret: int, newPos: nat, room: nat) {
    && newPos <= room <= newPos + c.Bytes()
    && (ret == ENOSPC ==> newPos == room)
    && (ret != ENOSPC && (ret == EIO || c.data == []) ==> newPos < room)
    && (ret == |c.data| && c.data != [] ==> room < newPos + c.Bytes())
  }

  lemma JobResult(j: Job, c: Call, o: Outcome, at: nat, rounds: nat, done: nat, full: bool)
    requires c.Proper() && Ready(j, c) && StartKept(c, j.d, j.m) && Kept(j, o.d, o.m, at, rounds) && c.f in o.m
    requires LoopEnd(c.Bytes(), c.Skip(), |c.data|, done, c.failAt, rounds, full) && o.newPos == c.position + done
    requires full ==> FullEnd(j, o.d)
    requires j.kind.Tail? ==> TailEnd(c.g, o.m, c.f, o.newPos, c.data != [], done < |c.data|, full)
    requires o.ret == if full then ENOSPC else if done == |c.data| then |c.data| else EIO
    ensures WriteResult(c, o)
  {
    hide *;
    ReadySame(j, c);
    match j.kind
    case Tail =>
      TailBudget(j, c, o, at, rounds);
      CallBounds(c);
      if full { FullMeans(j, o.d); }
      TailResult(c, o, done, rounds, full);
    case Inner =>
      InnerResult(j, c, o, at, rounds, done, full);
    case Stray =>
      StrayResult(j, c, o, at, rounds, done, full);
  }

  lemma ReadySame(j: Job, c: Call)
    requires Ready(j, c)
    ensures j.g == c.g && j.f == c.f && j.kind == c.Kind()
  {
    hide Call.Kind, Starts, InLast;
  }

  lemma CallBounds(c: Call)
    requires c.Proper()
    ensures 0 < c.Bytes() && c.Skip() < c.Bytes()
  {
    hide Geometry.ClusterBytes, Offset, ChainsOk, TableOf;
    GeometryBounds(c.g, c.d);
    OffsetBound(c.position, c.Bytes());
  }

  lemma FullMeans(j: Job, d: Disk)
    requires FullEnd(j, d)
    ensures Full(TableOf(j.g, d))
  {
  }

  /** What the clusters of the file and the free ones come to, when the write grows it. */
  ghost predicate SameBudget(c: Call, o: Outcome) {
    && c.f in c.m && c.f in o.m && o.m[c.f] != []
    && Budget(TableOf(c.g, o.d), o.m, c.f) == Budget(c.Table(), c.m, c.f)
  }

  lemma TailBudget(j: Job, c: Call, o: Outcome, at: nat, rounds: nat)
    requires Ready(j, c) && StartKept(c, j.d, j.m) && Kept(j, o.d, o.m, at, rounds) && j.kind.Tail?
    ensures SameBudget(c, o)
  {
    hide TableOf, Budget, Extended, SameBut, KeepsClean, Starts, InLast, Call.Sector, Call.Mark, Call.Kind, EntryAt,
         SectorOf;
  }

  lemma TailResult(c: Call, o: Outcome, done: nat, rounds: nat, full: bool)
    requires c.Kind().Tail? && SameBudget(c, o) && (full ==> Full(TableOf(c.g, o.d)))
    requires LoopEnd(c.Bytes(), c.Skip(), |c.data|, done, c.failAt, rounds, full) && o.newPos == c.position + done
    requires TailEnd(c.g, o.m, c.f, o.newPos, c.data != [], done < |c.data|, full)
    requires o.ret == if full then ENOSPC else if done == |c.data| then |c.data| else EIO
    requires 0 < c.Bytes() && c.Skip() <= c.Bytes()
    ensures WriteResult(c, o)
  {
    hide TableOf, Budget, Full, Geometry.ClusterBytes, Offset, RoundStart;
    var t, bpc := TableOf(c.g, o.d), c.Bytes();
    FullBudget(t, o.m, c.f);
    FullBudget(c.Table(), c.m, c.f);
    BudgetCovers(t, o.m, c.f, bpc);
    if full { RoundsGrow(bpc, c.Skip(), rounds + 1, c.failAt); }
  }

  lemma BudgetCovers(t: Table, m: Chains, f: FileId, bpc: nat)
    requires f in m
    ensures |m[f]| <= Budget(t, m, f) && |m[f]| * bpc <= Budget(t, m, f) * bpc
  {
    if bpc > 0 {
      MulSign(bpc, Budget(t, m, f) - |m[f]|);
    }
    assert bpc * (Budget(t, m, f) - |m[f]|) == Budget(t, m, f) * bpc - |m[f]| * bpc;
  }

  lemma InnerResult(j: Job, c: Call, o: Outcome, at: nat, rounds: nat, done: nat, full: bool)
    requires c.Proper() && Ready(j, c) && Kept(j, o.d, o.m, at, rounds) && j.kind.Inner? && (full ==> FullEnd(j, o.d))
    requires LoopEnd(c.Bytes(), c.Skip(), |c.data|, done, c.failAt, rounds, full) && o.newPos == c.position + done
    requires o.ret == if full then ENOSPC else if done == |c.data| then |c.data| else EIO
    ensures WriteResult(c, o)
  {
    hide TableOf, Budget, Full, Geometry.ClusterBytes, Offset, RoundStart, SameBut, KeepsClean, Starts, InLast,
         Call.Sector, Call.Mark, SectorOf, ChainsOk, Limit;
  }

  lemma StrayResult(j: Job, c: Call, o: Outcome, at: nat, rounds: nat, done: nat, full: bool)
    requires c.Proper() && Ready(j, c) && Kept(j, o.d, o.m, at, rounds) && j.kind.Stray? && (full ==> FullEnd(j, o.d))
    requires LoopEnd(c.Bytes(), c.Skip(), |c.data|, done, c.failAt, rounds, full) && o.newPos == c.position + done
    requires o.ret == if full then ENOSPC else if done == |c.data| then |c.data| else EIO
    ensures WriteResult(c, o)
  {
    hide TableOf, Full, Geometry.ClusterBytes, Offset, RoundStart, NoLeak, KeepsClean, Starts, InLast, Call.Sector,
         Call.Mark, SectorOf, ChainsOk, Limit, Entry, FreeSet, IsStray, MarkedAt;
    GeometryBounds(c.g, c.d);
    PastIndex(c.position, c.Bytes(), |c.m[c.f]|);
    FullFree(c.Table());
    FullFree(TableOf(c.g, o.d));
    var n := |FreeSet(c.Table())|;
    StrayLimit(c);
    if Entry(c.g, c.d, c.Mark()) >= EOF_MARK {
      RoundsBelow(c.Bytes(), rounds, n);
      if full { RoundsGrow(c.Bytes(), 0, rounds + 1, c.failAt); }
    }
    CallBounds(c);
    StrayLoses(j, c, o, at, rounds, done, full);
  }

  lemma StrayLoses(j: Job, c: Call, o: Outcome, at: nat, rounds: nat, done: nat, full: bool)
    requires Ready(j, c) && Kept(j, o.d, o.m, at, rounds) && j.kind.Stray? && (full ==> FullEnd(j, o.d))
    requires LoopEnd(c.Bytes(), c.Skip(), |c.data|, done, c.failAt, rounds, full) && o.newPos == c.position + done
    requires o.ret == if full then ENOSPC else if done == |c.data| then |c.data| else EIO
    requires c.Skip() <= c.Bytes()
    ensures LosesByRound(c, o, TableOf(c.g, o.d))
  {
    hide TableOf, Full, Geometry.ClusterBytes, Offset, RoundStart, NoLeak, KeepsClean, Starts, InLast, Call.Sector,
         Call.Mark, SectorOf, Entry, FreeSet, IsStray, MarkedAt, StrayFrame;
    RoundsGrow(c.Bytes(), c.Skip(), rounds, rounds + 1);
  }

  lemma StrayLimit(c: Call)
    requires c.f in c.m && !c.InFile() && c.position == |c.m[c.f]| * c.Bytes()
    ensures Limit(c) - c.position == (|FreeSet(c.Table())| + 1) * c.Bytes()
  {
    hide FreeSet, TableOf, Geometry.ClusterBytes;
    var n, k, b := |FreeSet(c.Table())|, |c.m[c.f]|, c.Bytes();
    assert (n + k + 1) * b == (n + 1) * b + k * b;
  }

  lemma RoundsBelow(bpc: nat, i: nat, n: nat)
    requires i <= n && bpc > 0
    ensures RoundStart(bpc, 0, i) < (n + 1) * bpc && RoundStart(bpc, 0, i + 1) <= (n + 1) * bpc
    ensures i == n ==> RoundStart(bpc, 0, i + 1) == (n + 1) * bpc
  {
    MulNext(i, bpc);
    MulSign(bpc, n - i);
    assert bpc * (n - i) == (n + 1) * bpc - (i + 1) * bpc;
    MulSign(bpc, n + 1);
  }

  // ---------------------------------------------------------------- the data

  /** The disk after one round: the data over that much of the cluster. */
  function RoundDisk(g: Geometry, d: Disk, cluster: nat, offset: nat, data: seq<byte>): Disk
    requires cluster >= 2 && offset + |data| <= g.ClusterBytes()
  {
    Stored(d, ClusterSector(g, cluster), Overlay(ClusterData(g, d, cluster), offset, data), g.sectorsPerCluster)
  }

  ghost predicate OneRound(g: Geometry, d0: Disk, d: Disk, cluster: nat, offset: nat, data: seq<byte>) {
    cluster >= 2 && offset + |data| <= g.ClusterBytes() && d == RoundDisk(g, d0, cluster, offset, data)
  }

  lemma OneRoundIs(g: Geometry, d0: Disk, d: Disk, cluster: nat, offset: nat, data: seq<byte>, chunk: seq<byte>,
                   b: seq<byte>)
    requires cluster >= 2 && offset + |data| <= g.ClusterBytes() && chunk == data
    requires b == Overlay(SectorRun(d0, ClusterSector(g, cluster), g.sectorsPerCluster), offset, chunk)
    requires d == Stored(d0, ClusterSector(g, cluster), b, g.sectorsPerCluster)
    ensures OneRound(g, d0, d, cluster, offset, data)
  {
  }

  /** The end of a write: the directory entry is rewritten if the file has a new size. */
  function Finished(g: Geometry, d: Disk, p: Place, first: nat, was: nat, size: nat): Disk
    requires first < TWO28
  {
    if size == was then d else Rewritten(g, d, p, first, size)
  }

  /** A write that fits into the cluster of the file it starts in takes one round. */
  ghost predicate DataResult(c: Call, o: Outcome) {
    c.Index() < |c.Clusters()| && c.failAt > 0 && |c.data| <= c.Bytes() - c.Skip() ==>
      && c.f in o.m && FirstOf(o.m[c.f]) < TWO28 && c.Clusters()[c.Index()] >= 2
      && o.d == Finished(c.g, RoundDisk(c.g, c.d, c.Clusters()[c.Index()], c.Skip(), c.data), c.p,
                         FirstOf(o.m[c.f]), c.size, o.size)
  }

  /** The sectors at which a call puts its data. */
  function RunAt(c: Call, d: Disk): seq<byte> { SectorRun(d, c.Sector(), c.g.sectorsPerCluster) }

  /** The call does not come to its first round on a file without clusters. */
  ghost predicate NeverWrites(c: Call) {
    c.Clusters() == [] && (c.failAt == 0 || Full(c.Table()))
  }

  /** Where the data ends up, for every length and however the write ends. The cluster that the position
      is in, or would be in, is filled round and round: each of its bytes is the last of those that fall
      on it, and stays if none does. A file without clusters has its data so at sector 0, over what the
      buffer held. */
  ghost predicate PourResult(c: Call, o: Outcome) {
    && c.position <= o.newPos
    && if NeverWrites(c) then RunAt(c, o.d) == RunAt(c, c.d)
       else c.Sector() + c.g.sectorsPerCluster <= |c.d| && c.Sector() !in EntryAt(c.g, c.p) ==>
              LastWins(if c.Clusters() == [] then c.scratch else RunAt(c, c.d), RunAt(c, o.d),
                       c.position, c.data, o.newPos - c.position)
  }

  lemma NotFull(c: Call, d: Disk, m: Chains, cluster: nat)
    requires c.Proper() && Started(c, d, m, cluster) && cluster != 0
    ensures c.Clusters() == [] ==> !Full(c.Table())
  {
    hide TableOf, FirstDisk, MarkOf, Geometry.ClusterBytes, ClusterIndex;
  }

  /** What the rounds leave at the sector of the data. */
  ghost predicate RoundsPour(j: Job, d: Disk, fresh_: bool, position: nat, data: seq<byte>, scratch: seq<byte>,
                             failAt: nat, done: nat)
  {
    var n := j.g.sectorsPerCluster;
    var base := if fresh_ then scratch else SectorRun(j.d, j.sector, n);
    if fresh_ && failAt == 0 then d == j.d
    else j.sector + n <= |j.d| ==>
           done <= |data| && |base| > 0 && SectorRun(d, j.sector, n) == Poured(base, position, data, done)
  }

  lemma RoundsPoured(j: Job, d: Disk, fresh_: bool, position: nat, data: seq<byte>, scratch: seq<byte>,
                     failAt: nat, done: nat)
    requires done <= |data| && |if fresh_ then scratch else SectorRun(j.d, j.sector, j.g.sectorsPerCluster)| > 0
    requires fresh_ && failAt == 0 ==> d == j.d
    requires !(fresh_ && failAt == 0) && j.sector + j.g.sectorsPerCluster <= |j.d| ==>
               SectorRun(d, j.sector, j.g.sectorsPerCluster) ==
               Poured(if fresh_ then scratch else SectorRun(j.d, j.sector, j.g.sectorsPerCluster), position, data, done)
    ensures RoundsPour(j, d, fresh_, position, data, scratch, failAt, done)
  {
    hide Poured, SectorRun;
  }

  lemma JobPour(j: Job, c: Call, o: Outcome, done: nat)
    requires c.Proper() && Ready(j, c) && StartKept(c, j.d, j.m) && o.newPos == c.position + done
    requires c.Clusters() == [] ==> !Full(c.Table())
    requires RoundsPour(j, o.d, c.Clusters() == [], c.position, c.data, c.scratch, c.failAt, done)
    ensures PourResult(c, o)
  {
    hide TableOf, ChainsOk, Geometry.Fits, Starts, InLast, Call.Sector, Call.Kind, SameBut, Extended, KeepsClean,
         Budget, SectorRun, Poured, LastWins, Full, EntryAt, Call.Mark, SectorOf, Call.Clusters, Geometry.ClusterBytes;
    SameLength(c.g, c.d, j.d, EntryAt(c.g, c.p));
    if NeverWrites(c) {
      EntryElsewhere(c);
      RunKept(c.g, c.d, j.d, EntryAt(c.g, c.p), c.Sector());
    } else if c.Sector() + c.g.sectorsPerCluster <= |c.d| {
      PouredIs(if c.Clusters() == [] then c.scratch else RunAt(c, c.d), RunAt(c, o.d), c.position, c.data, done);
    }
  }

  /** The directory entry's cluster has no sector in common with the data, unless it is the same. */
  lemma EntryElsewhere(c: Call)
    requires c.Proper()
    ensures OffTable(c.g, c.Sector())
    ensures c.Clusters() == [] ==> c.Sector() == 0
    ensures c.Clusters() == [] || c.Sector() !in EntryAt(c.g, c.p) ==>
              forall x :: x in EntryAt(c.g, c.p) ==>
                x + c.g.sectorsPerCluster <= c.Sector() || c.Sector() + c.g.sectorsPerCluster <= x
  {
    hide TableOf, ChainsOk, Geometry.Fits, ClusterSector, Geometry.ClusterBytes, Call.Start, OffTable;
    if c.Clusters() == [] {
      FreshOffTable(c);
      if c.p.location >= 2 { ClusterAfterTable(c.g, c.d, c.p.location); }
    } else {
      StartIsData(c);
      DataOffTable(c.g, c.d, c.Start());
      if c.p.location >= 2 && c.p.location != c.Start() { ClustersApart(c.g, c.d, c.Start(), c.p.location); }
    }
  }

  lemma FreshOffTable(c: Call)
    requires c.Proper() && c.Clusters() == []
    ensures OffTable(c.g, 0) && c.g.sectorsPerCluster <= c.g.fat1
  {
    hide TableOf, ChainsOk, Geometry.Fits, Geometry.ClusterBytes;
  }

  lemma StartIsData(c: Call)
    requires c.Proper() && c.Clusters() != []
    ensures c.Start() >= 2
  {
    hide TableOf, ChainsOk, Geometry.Fits, Geometry.ClusterBytes, ClusterIndex;
    ChainStarts(c.Table(), c.m, c.f);
  }

  lemma FinishPour(c: Call, o: Outcome)
    requires c.Proper() && c.g.Fits(o.d) && PourResult(c, o) && c.f in o.m && FirstOf(o.m[c.f]) < TWO28
    ensures PourResult(c, Finish(c, o))
  {
    hide TableOf, ChainsOk, Geometry.Fits, Call.Sector, SameBut, SectorRun, LastWins, EntryAt, Rewritten, Call.Clusters,
         OffTable, Mirrored, Full, Call.Proper, Geometry.ClusterBytes, FirstOf;
    var o' := Finish(c, o);
    if o'.size != c.size && (c.Clusters() == [] || c.Sector() !in EntryAt(c.g, c.p)) {
      RewrittenKeeps(c.g, o.d, c.p, FirstOf(o.m[c.f]), o'.size);
      EntryElsewhere(c);
      RunKept(c.g, o.d, o'.d, EntryAt(c.g, c.p), c.Sector());
    }
  }

  // ---------------------------------------------------------------- the directory entry

  /** The directory entry is rewritten exactly when the file's first cluster or size is new, and then
      names both; the rest of its cluster stays. */
  ghost predicate EntryResult(c: Call, o: Outcome) {
    c.InFile() && OnDisk(c.g, c.d, c.p.location) && ClusterElsewhere(c, c.p.location) ==>
      && c.f in o.m && FirstOf(o.m[c.f]) < TWO28
      && ClusterData(c.g, o.d, c.p.location) ==
         if FirstOf(o.m[c.f]) == FirstOf(c.Clusters()) && o.size == c.size then ClusterData(c.g, c.d, c.p.location)
         else Updated(ClusterData(c.g, c.d, c.p.location), c.p.position, FirstOf(o.m[c.f]), o.size)
  }

  /** It is not the cluster that the data goes to. */
  predicate ClusterElsewhere(c: Call, cluster: nat) {
    cluster >= 2 && (c.Index() < |c.Clusters()| ==> cluster != c.Clusters()[c.Index()])
  }

  // ---------------------------------------------------------------- all of it

  /** What FAT32_write does. */
  ghost predicate Wrote(c: Call, o: Outcome) {
    && TableResult(c, o) && WriteResult(c, o) && DataResult(c, o) && PourResult(c, o) && EntryResult(c, o)
    && o.size == if o.ret == ENOSPC then c.size else Max(c.size, o.newPos)
  }

  /** A first write on a full volume does nothing. */
  lemma StartFailed(c: Call, d: Disk, m: Chains)
    requires c.Proper() && Started(c, d, m, 0)
    ensures d == c.d && m == c.m && Wrote(c, Outcome(ENOSPC, c.position, d, m, c.size))
  {
    hide TableOf, ChainsOk, Full, Extended, SameBut, FirstFit, EntryAt, Entry, Updated, ClusterData, NoLeak, Mirrored,
         OnDisk, Geometry.ClusterBytes, Geometry.Fits, RoundStart, MarkOf, Offset, ClusterIndex;
    FullOrFree(c.Table(), c.m);
    StartCases(c, d, m);
    FullBudget(c.Table(), c.m, c.f);
    ExtendedStart(c.Table(), c.m, c.f);
    SameButSelf(c.g, c.d, c.Touched());
  }

  lemma StartFull(c: Call, d: Disk, m: Chains)
    requires c.Proper() && Started(c, d, m, 0)
    ensures Full(c.Table())
  {
    hide TableOf, ChainsOk, Full, FirstFit, Started, Geometry.ClusterBytes, Geometry.Fits;
    StartCases(c, d, m);
    FullOrFree(c.Table(), c.m);
  }

  lemma StartCases(c: Call, d: Disk, m: Chains)
    requires c.Proper() && Started(c, d, m, 0)
    ensures c.m[c.f] == [] && FirstFit(c.Table(), 0) && d == c.d && m == c.m
  {
    hide TableOf, ChainsOk, FirstFit, Geometry.ClusterBytes, Geometry.Fits, MarkOf, ClusterIndex, FirstDisk;
    ChainStarts(c.Table(), c.m, c.f);
  }

  /** What the loop of the write leaves: `d` and `m` are the volume it started on. */
  ghost predicate Looped(c: Call, d: Disk, m: Chains, o: Outcome) {
    && TableResult(c, o) && WriteResult(c, o) && PourResult(c, o) && o.size == c.size
    && (c.InFile() ==> c.f in m && c.f in o.m && m[c.f] <= o.m[c.f] && SameBut(c.g, d, o.d, {c.Sector()}))
    && (c.Index() < |c.Clusters()| && c.failAt > 0 && |c.data| <= c.Bytes() - c.Skip() ==>
          OneRound(c.g, c.d, o.d, c.Clusters()[c.Index()], c.Skip(), c.data))
  }

  lemma JobData(c: Call, d: Disk, m: Chains, cluster: nat, d': Disk)
    requires Started(c, d, m, cluster)
    requires c.Clusters() != [] && c.failAt > 0 && |c.data| <= c.Bytes() - c.Skip() ==>
               OneRound(c.g, d, d', cluster, c.Skip(), c.data)
    ensures c.Index() < |c.Clusters()| && c.failAt > 0 && |c.data| <= c.Bytes() - c.Skip() ==>
              OneRound(c.g, c.d, d', c.Clusters()[c.Index()], c.Skip(), c.data)
  {
    hide TableOf, MarkOf, FirstDisk, FirstFit, OneRound, ClusterIndex, Offset, Geometry.ClusterBytes;
  }

  lemma LoopedIs(j: Job, c: Call, o: Outcome, at: nat, rounds: nat)
    requires Ready(j, c) && Kept(j, o.d, o.m, at, rounds) && TableResult(c, o) && WriteResult(c, o)
    requires PourResult(c, o) && o.size == c.size
    requires c.Index() < |c.Clusters()| && c.failAt > 0 && |c.data| <= c.Bytes() - c.Skip() ==>
               OneRound(c.g, c.d, o.d, c.Clusters()[c.Index()], c.Skip(), c.data)
    ensures Looped(c, j.d, j.m, o)
  {
    hide TableResult, WriteResult, PourResult, OneRound, Ready, Kept, SameBut, Call.InFile, Call.Sector, ClusterIndex,
         Offset, Geometry.ClusterBytes;
    if c.InFile() { JobLooped(j, c, o, at, rounds); }
  }

  lemma JobLooped(j: Job, c: Call, o: Outcome, at: nat, rounds: nat)
    requires Ready(j, c) && Kept(j, o.d, o.m, at, rounds) && c.InFile()
    ensures c.f in j.m && c.f in o.m && j.m[c.f] <= o.m[c.f] && SameBut(c.g, j.d, o.d, {c.Sector()})
  {
    hide TableOf, IsTail, IsInner, SameBut, KeepsClean, Budget, Starts, InLast, Call.Sector, Call.Mark, SectorOf,
         FreeSet, LowestFirst, FatChains.Clusters;
  }

  /** The outcome of the write, when the loop did not run out of space. */
  ghost function Finish(c: Call, o: Outcome): Outcome
    requires c.f in o.m && FirstOf(o.m[c.f]) < TWO28
  {
    var size := if o.ret == ENOSPC then c.size else Max(c.size, o.newPos);
    Outcome(o.ret, o.newPos, Finished(c.g, o.d, c.p, FirstOf(o.m[c.f]), c.size, size), o.m, size)
  }

  lemma FirstSmall(c: Call, d: Disk, m: Chains, cluster: nat, o: Outcome)
    requires c.Proper() && Started(c, d, m, cluster) && cluster != 0 && Looped(c, d, m, o)
    ensures c.f in o.m && FirstOf(o.m[c.f]) < TWO28
    ensures c.InFile() ==> FirstOf(o.m[c.f]) == if c.Clusters() == [] then cluster else FirstOf(c.Clusters())
  {
    hide PourResult, TableOf, Extended, SameBut, KeepsClean, WriteResult, OneRound, FirstFit, FirstDisk, MarkOf,
         Call.Sector, Harmless, NoLeak, Mirrored, Geometry.ClusterBytes, ClusterIndex;
    OutcomeFile(c, o);
    if c.m[c.f] != [] { ChainSmall(c.Table(), c.m, c.f); }
  }

  lemma OutcomeFile(c: Call, o: Outcome)
    requires WriteResult(c, o)
    ensures c.f in o.m
  {
    hide NoSpace, Limit, Reached, RoundStart;
  }

  lemma ChainSmall(t: Table, m: Chains, f: FileId)
    requires ChainsOk(t, m) && f in m && m[f] != []
    ensures m[f][0] < TWO28
  {
  }

  lemma Finishes(c: Call, d: Disk, m: Chains, cluster: nat, o: Outcome)
    requires c.Proper() && c.g.Fits(d) && c.g.Fits(o.d) && Started(c, d, m, cluster) && cluster != 0
    requires Looped(c, d, m, o)
    ensures c.f in o.m && FirstOf(o.m[c.f]) < TWO28 && Wrote(c, Finish(c, o))
  {
    FirstSmall(c, d, m, cluster, o);
    hide TableOf, ChainsOk, Started, TableResult, EntryResult, DataResult, WriteResult, PourResult, Finish, Call.Sector,
         SameBut, OneRound, Geometry.Fits, Geometry.ClusterBytes, Offset, ClusterIndex, Call.Proper, Call.InFile;
    FinishTable(c, o);
    FinishEntry(c, d, m, cluster, o);
    FinishData(c, d, m, o);
    FinishReport(c, o);
    FinishPour(c, o);
  }

  lemma FinishData(c: Call, d: Disk, m: Chains, o: Outcome)
    requires Looped(c, d, m, o) && c.f in o.m && FirstOf(o.m[c.f]) < TWO28
    ensures DataResult(c, Finish(c, o))
  {
    hide PourResult, TableOf, TableResult, WriteResult, SameBut, Rewritten, RoundDisk, Geometry.ClusterBytes, Offset,
         ClusterIndex, Call.Sector, Call.InFile;
  }

  lemma FinishReport(c: Call, o: Outcome)
    requires c.g.Fits(o.d) && WriteResult(c, o) && c.f in o.m && FirstOf(o.m[c.f]) < TWO28
    ensures WriteResult(c, Finish(c, o))
    ensures Finish(c, o).size == if Finish(c, o).ret == ENOSPC then c.size else Max(c.size, Finish(c, o).newPos)
  {
    hide NoSpace, Limit, Reached, RoundStart, Rewritten, Geometry.ClusterBytes, Geometry.Fits, TableOf, FreeSet, Entry,
         Call.Mark, Call.InFile, Call.InTail, Offset, JustCovers, Mirrored, SameBut, EntryAt;
    RewrittenKeeps(c.g, o.d, c.p, FirstOf(o.m[c.f]), Finish(c, o).size);
  }

  /** Rewriting the directory entry changes nothing of the table. */
  lemma FinishTable(c: Call, o: Outcome)
    requires c.g.Fits(o.d) && TableResult(c, o) && c.f in o.m && FirstOf(o.m[c.f]) < TWO28
    ensures TableResult(c, Finish(c, o))
  {
    hide TableOf, Mirrored, NoLeak, Extended, SameBut, Rewritten, Geometry.Fits, Harmless, Call.Sector, EntryAt,
         Call.InFile, SameButPast, Call.Mark, OnlyTaken;
    var o' := Finish(c, o);
    if o'.size != c.size {
      RewrittenKeeps(c.g, o.d, c.p, FirstOf(o.m[c.f]), o'.size);
      if c.InFile() {
        SameButThen(c.g, c.d, o.d, o'.d, c.Touched(), EntryAt(c.g, c.p), c.Touched());
      } else {
        SameButIsPast(c.g, o.d, o'.d, EntryAt(c.g, c.p), c.Mark());
        SameButPastThen(c.g, c.d, o.d, o'.d, c.Touched(), EntryAt(c.g, c.p), c.Touched(), c.Mark());
      }
    }
  }

  /** The entry's cluster when the write has started. */
  lemma StartEntry(c: Call, d: Disk, m: Chains, cluster: nat)
    requires c.Proper() && Started(c, d, m, cluster) && cluster != 0 && OnDisk(c.g, c.d, c.p.location)
    ensures |d| == |c.d|
    ensures cluster < TWO28 || c.Clusters() != []
    ensures ClusterData(c.g, d, c.p.location) ==
            if c.Clusters() != [] then ClusterData(c.g, c.d, c.p.location)
            else Updated(ClusterData(c.g, c.d, c.p.location), c.p.position, cluster, c.size)
  {
    hide TableOf, ChainsOk, ClusterData, Updated, WriteEntry, Rewritten, Geometry.Fits, FirstFit, MarkOf, SameBut,
         EntryAt, ClusterSector;
    if c.Clusters() == [] {
      var d1 := Rewritten(c.g, c.d, c.p, cluster, c.size);
      RewrittenCluster(c.g, c.d, c.p, cluster, c.size);
      RewrittenKeeps(c.g, c.d, c.p, cluster, c.size);
      FirstFitIsFree(c.Table(), c.m, cluster);
      EntryOnlyTable(c.g, d1, cluster, FILE_MARK);
      WriteEntrySize(c.g, d1, cluster, FILE_MARK);
      SameLength(c.g, c.d, d1, EntryAt(c.g, c.p));
      ClusterKept(c.g, d1, d, {}, c.p.location);
    }
  }

  lemma SameLength(g: Geometry, d0: Disk, d: Disk, at: set<nat>)
    requires SameBut(g, d0, d, at)
    ensures |d| == |d0|
  {
  }

  /** The data goes elsewhere. */
  lemma DataApart(c: Call, cluster: nat)
    requires c.Proper() && c.InFile() && ClusterElsewhere(c, cluster)
    ensures Apart(c.g, c.Sector(), cluster)
  {
    hide TableOf, ChainsOk, Geometry.ClusterBytes, ClusterIndex, Offset, ClusterSector;
    GeometryBounds(c.g, c.d);
    ClusterAfterTable(c.g, c.d, cluster);
    ChainStarts(c.Table(), c.m, c.f);
    if c.m[c.f] != [] {
      IndexInside(c.position, c.Bytes(), |c.m[c.f]|);
      ClustersApart(c.g, c.d, cluster, c.m[c.f][c.Index()]);
    }
  }

  lemma FinishEntry(c: Call, d: Disk, m: Chains, cluster: nat, o: Outcome)
    requires c.Proper() && c.g.Fits(d) && c.g.Fits(o.d) && Started(c, d, m, cluster) && cluster != 0
    requires Looped(c, d, m, o) && c.f in o.m && FirstOf(o.m[c.f]) < TWO28
    ensures EntryResult(c, Finish(c, o))
  {
    hide PourResult, TableOf, ChainsOk, ClusterData, Updated, Rewritten, Geometry.Fits, MarkOf, SameBut, EntryAt,
         Started, TableResult, WriteResult, Call.Sector, Apart, OneRound, OnDisk, ClusterElsewhere, Call.InFile,
         ClusterIndex, Geometry.ClusterBytes;
    if c.InFile() && OnDisk(c.g, c.d, c.p.location) && ClusterElsewhere(c, c.p.location) {
      var loc, o' := c.p.location, Finish(c, o);
      FirstSmall(c, d, m, cluster, o);
      FirstIsNew(c, d, m, cluster);
      StartEntry(c, d, m, cluster);
      DataApart(c, loc);
      ElsewhereSmall(c, loc);
      ClusterKept(c.g, d, o.d, {c.Sector()}, loc);
      SameLength(c.g, d, o.d, {c.Sector()});
      OnDiskStill(c.g, c.d, o.d, loc);
      if o'.size != c.size {
        RewrittenCluster(c.g, o.d, c.p, FirstOf(o.m[c.f]), o'.size);
        if c.Clusters() == [] {
          UpdatedTwice(ClusterData(c.g, c.d, loc), c.p.position, cluster, c.size, cluster, o'.size);
        }
      }
    }
  }

  lemma FirstIsNew(c: Call, d: Disk, m: Chains, cluster: nat)
    requires c.Proper() && Started(c, d, m, cluster) && cluster != 0
    ensures c.Clusters() == [] ==> cluster != FirstOf(c.Clusters()) && cluster < TWO28
  {
    hide TableOf, ChainsOk, FirstFit, MarkOf, FirstDisk;
  }

  lemma ElsewhereSmall(c: Call, cluster: nat)
    requires ClusterElsewhere(c, cluster)
    ensures cluster >= 2
  {
  }

  lemma OnDiskStill(g: Geometry, d0: Disk, d: Disk, cluster: nat)
    requires OnDisk(g, d0, cluster) && |d| == |d0|
    ensures OnDisk(g, d, cluster)
  {
  }
}
