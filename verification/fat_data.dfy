/** What a write stores, and what it leaves of the other files: fs/fat/myos_fat32.c. */
module FatData {
  import opened Arith
  import opened Common
  import opened FatAlloc
  import opened FatChains
  import opened FatCopy
  import opened FatDisk
  import opened FatEntry
  import opened FatWrite

  // ---------------------------------------------------------------- clusters that stay

  /** A cluster that neither the data nor the directory entry goes to. */
  lemma ClusterSame(c: Call, o: Outcome, cluster: nat)
    requires c.Proper() && c.InFile() && TableResult(c, o) && ClusterElsewhere(c, cluster) && cluster != c.p.location
    ensures cluster >= 2 && ClusterData(c.g, o.d, cluster) == ClusterData(c.g, c.d, cluster)
  {
    hide TableOf, ChainsOk, Extended, SameBut, KeepsClean, ClusterData, Apart, Geometry.Fits, ClusterSector,
         Call.Sector;
    DataApart(c, cluster);
    if c.p.location >= 2 { ClustersApart(c.g, c.d, cluster, c.p.location); }
    ClusterKept(c.g, c.d, o.d, c.Touched(), cluster);
  }

  lemma OtherFile(c: Call, h: FileId, i: nat)
    requires c.Proper() && h in c.m && h != c.f && i < |c.m[h]|
    ensures ClusterElsewhere(c, c.m[h][i])
  {
    hide TableOf, Geometry.ClusterBytes, ClusterIndex;
    assert Disjoint(c.m[h], c.m[c.f]);
  }

  lemma ResultOthers(c: Call, o: Outcome, h: FileId)
    requires c.InFile() && TableResult(c, o) && h in c.m && h != c.f
    ensures h in o.m && o.m[h] == c.m[h]
  {
    hide SameBut, KeepsClean, FreeSet, FatChains.Clusters, TableOf, LowestFirst;
  }

  /** Whatever a write that starts in its file does, the contents of another file do not change, unless
      the directory entry lies in it. */
  lemma OthersKeepData(c: Call, o: Outcome, h: FileId)
    requires c.Proper() && c.InFile() && Wrote(c, o) && h in c.m && h != c.f && c.p.location !in c.m[h]
    ensures h in o.m && o.m[h] == c.m[h] && AllData(c.m[h])
    ensures Content(c.g, o.d, c.m[h]) == Content(c.g, c.d, c.m[h])
  {
    hide *;
    WroteTable(c, o);
    ResultOthers(c, o, h);
    var cs := c.m[h];
    ProperData(c, h);
    forall i | 0 <= i < |cs|
      ensures cs[i] >= 2 && ClusterData(c.g, o.d, cs[i]) == ClusterData(c.g, c.d, cs[i])
    {
      OtherFile(c, h, i);
      ClusterSame(c, o, cs[i]);
    }
    ContentSame(c.g, c.d, o.d, cs);
  }

  lemma WroteTable(c: Call, o: Outcome)
    requires Wrote(c, o)
    ensures TableResult(c, o) && WriteResult(c, o) && DataResult(c, o) && EntryResult(c, o)
  {
    hide TableResult, WriteResult, DataResult, EntryResult;
  }

  // ---------------------------------------------------------------- the directory

  /** `b` after the entry at `position` of its cluster at byte `at` was given a first cluster and size. */
  function EntryChanged(b: seq<byte>, at: nat, width: nat, position: nat, first: nat, size: nat): seq<byte>
    requires first < TWO28
  {
    var e := at + ENTRY_BYTES * position;
    if e + ENTRY_BYTES <= at + width <= |b| then Overlay(b, e, WithInode(b[e..e + ENTRY_BYTES], first, size)) else b
  }

  /** A directory's contents `b` become `b'` by a write: at most one entry changes, that of the file. It
      gets the file's first cluster and size if one of them is new. */
  ghost predicate DirectoryAfter(c: Call, o: Outcome, k: nat, b: seq<byte>, b': seq<byte>) {
    && c.f in c.m && c.f in o.m && FirstOf(o.m[c.f]) < TWO28
    && b' == if FirstOf(o.m[c.f]) == FirstOf(c.m[c.f]) && o.size == c.size then b
             else EntryChanged(b, k * c.Bytes(), c.Bytes(), c.p.position, FirstOf(o.m[c.f]), o.size)
  }

  /** The contents of the file that holds the directory entry change in that entry only. */
  lemma DirectoryKeepsRest(c: Call, o: Outcome, h: FileId, k: nat)
    requires h in c.m && h != c.f && k < |c.m[h]| && c.m[h][k] == c.p.location && OnDisk(c.g, c.d, c.p.location)
    requires c.Proper() && c.InFile() && Wrote(c, o)
    ensures h in o.m && o.m[h] == c.m[h] && AllData(c.m[h])
    ensures DirectoryAfter(c, o, k, Content(c.g, c.d, c.m[h]), Content(c.g, o.d, c.m[h]))
  {
    hide *;
    ProperFile(c);
    WroteTable(c, o);
    ResultOthers(c, o, h);
    OtherFile(c, h, k);
    EntryCluster(c, o);
    ProperChain(c, h);
    ChainApart(c.Table(), c.m[h], k);
    forall i | 0 <= i < |c.m[h]| && i != k
      ensures c.m[h][i] >= 2 && ClusterData(c.g, o.d, c.m[h][i]) == ClusterData(c.g, c.d, c.m[h][i])
    {
      OtherFile(c, h, i);
      ClusterSame(c, o, c.m[h][i]);
    }
    ClusterReplaced(c.g, c.d, o.d, c.m[h], k, k * c.g.ClusterBytes());
    DirectoryIs(c, o, k, Content(c.g, c.d, c.m[h]), Content(c.g, o.d, c.m[h]));
  }

  /** `b'` is `b` with a stretch of it replaced. */
  ghost predicate Replaced(b: seq<byte>, b': seq<byte>, at: nat, was: seq<byte>, now: seq<byte>) {
    && at + |was| <= |b| && b[at..at + |was|] == was && |now| == |was|
    && b' == b[..at] + now + b[at + |was|..]
  }

  lemma DirectoryIs(c: Call, o: Outcome, k: nat, b: seq<byte>, b': seq<byte>)
    requires c.f in c.m && c.f in o.m && FirstOf(o.m[c.f]) < TWO28 && c.p.location >= 2
    requires Replaced(b, b', k * c.g.ClusterBytes(), ClusterData(c.g, c.d, c.p.location),
                      ClusterData(c.g, o.d, c.p.location))
    requires ClusterData(c.g, o.d, c.p.location) ==
             if FirstOf(o.m[c.f]) == FirstOf(c.m[c.f]) && o.size == c.size then ClusterData(c.g, c.d, c.p.location)
             else Updated(ClusterData(c.g, c.d, c.p.location), c.p.position, FirstOf(o.m[c.f]), o.size)
    ensures DirectoryAfter(c, o, k, b, b')
  {
    hide Updated, EntryChanged, FirstOf, ClusterData, Geometry.ClusterBytes;
    var at := k * c.Bytes();
    SameAgain(b, at, c.Bytes());
    UpdatedInside(b, at, c.Bytes(), c.p.position, FirstOf(o.m[c.f]), o.size);
  }

  lemma ProperFile(c: Call)
    requires c.Proper()
    ensures c.f in c.m
  {
    hide TableOf, ChainsOk, Geometry.Fits, Geometry.ClusterBytes;
  }

  /** One cluster of a chain is new, the others are not. */
  lemma ClusterReplaced(g: Geometry, d0: Disk, d: Disk, cs: seq<nat>, k: nat, at: nat)
    requires AllData(cs) && k < |cs| && at == k * g.ClusterBytes()
    requires forall i :: 0 <= i < |cs| && i != k ==> ClusterData(g, d, cs[i]) == ClusterData(g, d0, cs[i])
    ensures Replaced(Content(g, d0, cs), Content(g, d, cs), at, ClusterData(g, d0, cs[k]), ClusterData(g, d, cs[k]))
  {
    hide Content, ClusterData, Geometry.ClusterBytes;
    ContentChanged(g, d0, d, cs, k, at, ClusterData(g, d, cs[k]));
    ContentSlice(g, d0, cs, k, at, 0, g.ClusterBytes());
    WholeSlice(ClusterData(g, d0, cs[k]), g.ClusterBytes());
  }

  lemma ProperData(c: Call, h: FileId)
    requires c.Proper() && h in c.m
    ensures AllData(c.m[h])
  {
    hide TableOf, Geometry.ClusterBytes, Geometry.Fits;
  }

  lemma ProperChain(c: Call, h: FileId)
    requires c.Proper() && h in c.m && c.m[h] != []
    ensures IsChain(c.Table(), c.m[h]) && |c.Table()| <= BAD
  {
    hide TableOf, Geometry.ClusterBytes, Geometry.Fits;
  }

  /** The clause of Wrote about the entry. */
  lemma EntryCluster(c: Call, o: Outcome)
    requires c.Proper() && c.InFile() && EntryResult(c, o) && OnDisk(c.g, c.d, c.p.location)
    requires ClusterElsewhere(c, c.p.location)
    ensures c.f in c.m && c.f in o.m && FirstOf(o.m[c.f]) < TWO28 && c.p.location >= 2
    ensures ClusterData(c.g, o.d, c.p.location) ==
            if FirstOf(o.m[c.f]) == FirstOf(c.m[c.f]) && o.size == c.size then ClusterData(c.g, c.d, c.p.location)
            else Updated(ClusterData(c.g, c.d, c.p.location), c.p.position, FirstOf(o.m[c.f]), o.size)
  {
    hide TableOf, ChainsOk, Geometry.ClusterBytes, Geometry.Fits, ClusterData, Updated, Call.InFile;
  }

  lemma SameAgain(b: seq<byte>, at: nat, w: nat)
    requires at + w <= |b|
    ensures b[..at] + b[at..at + w] + b[at + w..] == b
  {
  }

  lemma SliceOfSlice(b: seq<byte>, at: nat, w: nat, e: nat)
    requires at + w <= |b| && e + ENTRY_BYTES <= w
    ensures b[at..at + w][e..e + ENTRY_BYTES] == b[at + e..at + e + ENTRY_BYTES]
  {
    var x, y := b[at..at + w][e..e + ENTRY_BYTES], b[at + e..at + e + ENTRY_BYTES];
    assert |x| == |y| && forall i :: 0 <= i < |y| ==> x[i] == y[i];
  }

  lemma UpdatedInside(b: seq<byte>, at: nat, w: nat, position: nat, first: nat, size: nat)
    requires at + w <= |b| && first < TWO28
    ensures b[..at] + Updated(b[at..at + w], position, first, size) + b[at + w..] ==
            EntryChanged(b, at, w, position, first, size)
  {
    hide WithInode, Overlay;
    var e := ENTRY_BYTES * position;
    if e + ENTRY_BYTES <= w {
      SliceOfSlice(b, at, w, e);
      var entry := WithInode(b[at + e..at + e + ENTRY_BYTES], first, size);
      OverlayInside(b, at, w, e, entry);
      assert EntryChanged(b, at, w, position, first, size) == Overlay(b, at + e, entry);
      assert Updated(b[at..at + w], position, first, size) == Overlay(b[at..at + w], e, entry);
    } else {
      SameAgain(b, at, w);
    }
  }

  /** The directory entry names this first cluster and size. */
  ghost predicate InStep(g: Geometry, d: Disk, p: Place, first: nat, size: nat)
    requires p.location >= 2
  {
    var b, e := ClusterData(g, d, p.location), ENTRY_BYTES * p.position;
    && e + ENTRY_BYTES <= |b|
    && StartField(b[e..e + ENTRY_BYTES]) == first && SizeField(b[e..e + ENTRY_BYTES]) == size % TWO32
  }

  /** An entry that was in step with its inode is in step after every write. */
  lemma StaysInStep(c: Call, o: Outcome)
    requires c.Proper() && c.InFile() && Wrote(c, o)
    requires OnDisk(c.g, c.d, c.p.location) && ClusterElsewhere(c, c.p.location)
    requires InStep(c.g, c.d, c.p, FirstOf(c.m[c.f]), c.size)
    ensures c.f in o.m && InStep(c.g, o.d, c.p, FirstOf(o.m[c.f]), o.size)
  {
    hide TableOf, ChainsOk, Geometry.ClusterBytes, Geometry.Fits, ClusterData, Updated, Call.InFile, WithInode,
         StartField, SizeField, Wrote, Call.Proper, EntryResult, FirstOf, OnDisk, ClusterElsewhere;
    WroteTable(c, o);
    EntryCluster(c, o);
    UpdatedInStep(ClusterData(c.g, c.d, c.p.location), c.p.position, FirstOf(o.m[c.f]), o.size);
  }

  lemma UpdatedInStep(b: seq<byte>, position: nat, first: nat, size: nat)
    requires first < TWO28 && ENTRY_BYTES * position + ENTRY_BYTES <= |b|
    ensures var b', e := Updated(b, position, first, size), ENTRY_BYTES * position;
            StartField(b'[e..e + ENTRY_BYTES]) == first && SizeField(b'[e..e + ENTRY_BYTES]) == size % TWO32
  {
    hide Updated, WithInode, StartField, SizeField;
    var e := ENTRY_BYTES * position;
    UpdatedAt(b, position, first, size);
    WithInodeReads(b[e..e + ENTRY_BYTES], first, size);
  }

  // ---------------------------------------------------------------- the clusters of the file

  /** The file's directory entry lies in another file, or the file is the root. */
  ghost predicate ListedElsewhere(c: Call) {
    c.p.location < 2 || exists h :: h in c.m && h != c.f && c.p.location in c.m[h]
  }

  /** Each cluster the file has after the write, other than the one the data went to, holds what it held. */
  lemma RestOfFile(c: Call, o: Outcome, i: nat)
    requires c.Proper() && c.InFile() && TableResult(c, o) && ListedElsewhere(c)
    requires c.f in o.m && i < |o.m[c.f]|
    ensures o.m[c.f][i] >= 2
    ensures c.m[c.f] == [] || i != c.Index() ==>
              ClusterData(c.g, o.d, o.m[c.f][i]) == ClusterData(c.g, c.d, o.m[c.f][i])
  {
    hide *;
    ProperFile(c);
    FileCluster(c, o, i);
    if c.m[c.f] == [] || i != c.Index() {
      ClusterSame(c, o, o.m[c.f][i]);
    }
  }

  lemma FileCluster(c: Call, o: Outcome, i: nat)
    requires c.Proper() && c.InFile() && TableResult(c, o) && ListedElsewhere(c)
    requires c.f in o.m && i < |o.m[c.f]|
    ensures o.m[c.f][i] >= 2 && o.m[c.f][i] != c.p.location
    ensures c.m[c.f] == [] || i != c.Index() ==> ClusterElsewhere(c, o.m[c.f][i])
  {
    hide TableOf, ChainsOk, SameBut, KeepsClean, Geometry.ClusterBytes, Geometry.Fits, ClusterIndex, LowestFirst,
         FreeSet, FatChains.Clusters;
    var cs := c.m[c.f];
    if i < |cs| {
      OldCluster(c, i);
    } else {
      NewCluster(c, o, i);
    }
  }

  lemma OldCluster(c: Call, i: nat)
    requires c.Proper() && ListedElsewhere(c) && i < |c.m[c.f]|
    ensures c.m[c.f][i] >= 2 && c.m[c.f][i] != c.p.location
    ensures i != c.Index() ==> ClusterElsewhere(c, c.m[c.f][i])
  {
    hide TableOf, IsChain, Geometry.ClusterBytes, Geometry.Fits, ClusterIndex;
    ProperChain(c, c.f);
    if c.Index() < |c.m[c.f]| { ChainApart(c.Table(), c.m[c.f], c.Index()); }
    ChainApart(c.Table(), c.m[c.f], i);
    if c.p.location >= 2 {
      var h :| h in c.m && h != c.f && c.p.location in c.m[h];
      assert Disjoint(c.m[h], c.m[c.f]);
    }
  }

  lemma NewCluster(c: Call, o: Outcome, i: nat)
    requires c.Proper() && c.InFile() && TableResult(c, o) && ListedElsewhere(c)
    requires c.f in o.m && |c.m[c.f]| <= i < |o.m[c.f]|
    ensures o.m[c.f][i] != c.p.location && ClusterElsewhere(c, o.m[c.f][i])
  {
    hide TableOf, ChainsOk, SameBut, KeepsClean, Geometry.ClusterBytes, Geometry.Fits, ClusterIndex, LowestFirst,
         FreeSet;
    var n, new_ := |c.m[c.f]|, o.m[c.f][|c.m[c.f]|..];
    assert new_[i - n] == o.m[c.f][i];
    assert o.m[c.f][i] in FatChains.Clusters(new_);
    TakenOrFree(c.Table(), c.m, o.m[c.f][i]);
    if c.p.location >= 2 {
      var h :| h in c.m && h != c.f && c.p.location in c.m[h];
      OwnedBy(c.m, h, c.p.location);
    }
    if c.Index() < n { OwnedBy(c.m, c.f, c.m[c.f][c.Index()]); }
  }

  lemma TakenOrFree(t: Table, m: Chains, x: nat)
    requires ChainsOk(t, m) && x in FreeSet(t)
    ensures x >= 2 && !Owned(m, x)
  {
    FreeIsUnowned(t, m, x);
  }

  lemma ChainApart(t: Table, cs: seq<nat>, k: nat)
    requires IsChain(t, cs) && |t| <= BAD && k < |cs|
    ensures AllData(cs) && forall i :: 0 <= i < |cs| && i != k ==> cs[i] != cs[k]
  {
    forall i | 0 <= i < |cs| && i != k
      ensures cs[i] != cs[k]
    {
      if i < k { ChainDistinct(t, cs, i, k); } else { ChainDistinct(t, cs, k, i); }
    }
  }

  lemma WholeSlice(b: seq<byte>, w: nat)
    requires w == |b|
    ensures b[0..w] == b
  {
  }

  lemma OverlayInside(s: seq<byte>, at: nat, w: nat, offset: nat, data: seq<byte>)
    requires at + w <= |s| && offset + |data| <= w
    ensures s[..at] + Overlay(s[at..at + w], offset, data) + s[at + w..] == Overlay(s, at + offset, data)
    ensures Overlay(s, at + offset, data)[at + offset..at + offset + |data|] == data
  {
  }

  // ---------------------------------------------------------------- what is stored

  /** Reading the file gives the data back. */
  ghost predicate Stores(c: Call, o: Outcome) {
    && c.f in o.m && AllData(o.m[c.f]) && c.position + |c.data| <= |Content(c.g, o.d, o.m[c.f])|
    && Content(c.g, o.d, o.m[c.f])[c.position..c.position + |c.data|] == c.data
  }

  /** The write fits into the cluster of the file that the position is in. */
  predicate FitsInCluster(c: Call) {
    c.Index() < |c.Clusters()| && |c.data| <= c.Bytes() - c.Skip()
  }

  /** The cluster of the data, after a write that fits into it. */
  lemma RoundCluster(c: Call, o: Outcome)
    requires c.Proper() && DataResult(c, o) && ListedElsewhere(c) && FitsInCluster(c) && c.failAt > 0
    requires OnDisk(c.g, c.d, c.Clusters()[c.Index()])
    ensures ClusterData(c.g, o.d, c.Clusters()[c.Index()]) ==
            Overlay(ClusterData(c.g, c.d, c.Clusters()[c.Index()]), c.Skip(), c.data)
  {
    hide TableOf, ChainsOk, ClusterData, Stored, Rewritten, Overlay, Geometry.Fits, SameBut, ClusterSector,
         ClusterIndex, Offset, ListedElsewhere, EntryAt, Mirrored;
    var k := c.Clusters()[c.Index()];
    var b := Overlay(ClusterData(c.g, c.d, k), c.Skip(), c.data);
    var d := RoundDisk(c.g, c.d, k, c.Skip(), c.data);
    StoredCluster(c.g, c.d, k, b);
    if o.size != c.size {
      OldCluster(c, c.Index());
      DataOffTable(c.g, c.d, k);
      StoreKeepsTable(c.g, c.d, ClusterSector(c.g, k), b);
      RewrittenKeeps(c.g, d, c.p, FirstOf(o.m[c.f]), o.size);
      EntryApart(c, k);
      ClusterKept(c.g, d, o.d, EntryAt(c.g, c.p), k);
    }
  }

  lemma EntryApart(c: Call, cluster: nat)
    requires c.Proper() && cluster >= 2 && cluster != c.p.location
    ensures forall x :: x in EntryAt(c.g, c.p) ==> Apart(c.g, x, cluster)
  {
    hide TableOf, ChainsOk, Apart, ClusterSector, Geometry.Fits;
    if c.p.location >= 2 { ClustersApart(c.g, c.d, cluster, c.p.location); }
  }

  lemma ResultGrows(c: Call, o: Outcome)
    requires c.InFile() && TableResult(c, o)
    ensures c.f in c.m && c.f in o.m && c.m[c.f] <= o.m[c.f]
    ensures LowestFirst(FreeSet(c.Table()), o.m[c.f][|c.m[c.f]|..])
  {
    hide SameBut, KeepsClean, FreeSet, FatChains.Clusters, TableOf, LowestFirst;
  }

  lemma ResultData(c: Call, o: Outcome)
    requires c.Proper() && c.InFile() && TableResult(c, o) && ListedElsewhere(c) && c.f in o.m
    ensures AllData(o.m[c.f])
  {
    hide Call.Proper, Call.InFile, TableResult, ListedElsewhere;
    forall i | 0 <= i < |o.m[c.f]|
      ensures o.m[c.f][i] >= 2
    {
      RestOfFile(c, o, i);
    }
  }

  lemma InFileIs(c: Call)
    requires c.Proper()
    ensures c.m[c.f] == c.Clusters() && 0 < c.Bytes() && c.Skip() < c.Bytes()
    ensures c.position == c.Index() * c.Bytes() + c.Skip()
    ensures c.Index() < |c.m[c.f]| <==> c.InFile() && c.m[c.f] != []
  {
    hide TableOf, ChainsOk, Geometry.ClusterBytes, Geometry.Fits, Offset, ClusterIndex;
    GeometryBounds(c.g, c.d);
    IndexInside(c.position, c.Bytes(), |c.m[c.f]|);
  }

  /** A write that fits into one cluster of the file, if that is on the disk, changes exactly the bytes
      it names, and reading them gives the data back. */
  lemma OneRoundContent(c: Call, o: Outcome)
    requires c.Proper() && Wrote(c, o) && ListedElsewhere(c) && FitsInCluster(c) && c.failAt > 0
    requires OnDisk(c.g, c.d, c.Clusters()[c.Index()])
    ensures Stores(c, o)
    ensures AllData(c.m[c.f]) && c.position + |c.data| <= |Content(c.g, c.d, c.m[c.f])|
    ensures Content(c.g, o.d, c.m[c.f]) == Overlay(Content(c.g, c.d, c.m[c.f]), c.position, c.data)
  {
    hide *;
    InFileIs(c);
    FitsMeans(c);
    WroteTable(c, o);
    RoundCluster(c, o);
    ResultGrows(c, o);
    ResultData(c, o);
    RoundStored(c, o);
    ProperData(c, c.f);
    RoundOverlay(c, o);
  }

  lemma FitsMeans(c: Call)
    requires FitsInCluster(c)
    ensures c.Index() < |c.Clusters()| && |c.data| <= c.Bytes() - c.Skip()
  {
  }

  lemma RoundStored(c: Call, o: Outcome)
    requires c.Proper() && c.f in o.m && c.m[c.f] <= o.m[c.f] && AllData(o.m[c.f]) && c.Index() < |c.m[c.f]|
    requires c.Skip() + |c.data| <= c.Bytes() && c.position == c.Index() * c.Bytes() + c.Skip()
    requires ClusterData(c.g, o.d, c.m[c.f][c.Index()]) ==
             Overlay(ClusterData(c.g, c.d, c.m[c.f][c.Index()]), c.Skip(), c.data)
    ensures Stores(c, o)
  {
    hide Content, ClusterData, Geometry.ClusterBytes, TableOf, ChainsOk, Offset, ClusterIndex, Geometry.Fits, Overlay,
         Call.Index, Call.Skip;
    var k := c.Index();
    assert o.m[c.f][k] == c.m[c.f][k];
    StoredSlice(c.g, o.d, o.m[c.f], k, k * c.Bytes(), c.Skip(), c.data, ClusterData(c.g, c.d, c.m[c.f][k]));
  }

  lemma StoredSlice(g: Geometry, d: Disk, cs: seq<nat>, k: nat, at: nat, offset: nat, data: seq<byte>, was: seq<byte>)
    requires AllData(cs) && k < |cs| && at == k * g.ClusterBytes() && offset + |data| <= |was| == g.ClusterBytes()
    requires ClusterData(g, d, cs[k]) == Overlay(was, offset, data)
    ensures at + offset + |data| <= |Content(g, d, cs)|
    ensures Content(g, d, cs)[at + offset..at + offset + |data|] == data
  {
    hide Content, ClusterData, Geometry.ClusterBytes, Overlay;
    ContentSlice(g, d, cs, k, at, offset, offset + |data|);
    OverlayAt(was, offset, data);
  }

  lemma OverlayAt(b: seq<byte>, offset: nat, data: seq<byte>)
    requires offset + |data| <= |b|
    ensures Overlay(b, offset, data)[offset..offset + |data|] == data
  {
  }

  lemma RoundOverlay(c: Call, o: Outcome)
    requires c.Proper() && c.InFile() && TableResult(c, o) && ListedElsewhere(c) && c.Index() < |c.m[c.f]|
    requires c.Skip() + |c.data| <= c.Bytes() && c.position == c.Index() * c.Bytes() + c.Skip()
    requires AllData(c.m[c.f]) && ClusterData(c.g, o.d, c.m[c.f][c.Index()]) ==
             Overlay(ClusterData(c.g, c.d, c.m[c.f][c.Index()]), c.Skip(), c.data)
    ensures c.position + |c.data| <= |Content(c.g, c.d, c.m[c.f])|
    ensures Content(c.g, o.d, c.m[c.f]) == Overlay(Content(c.g, c.d, c.m[c.f]), c.position, c.data)
  {
    hide Content, ClusterData, Geometry.ClusterBytes, TableOf, ChainsOk, Offset, ClusterIndex, Geometry.Fits,
         Call.Proper, Call.InFile, TableResult, ListedElsewhere, Overlay;
    ResultGrows(c, o);
    forall i | 0 <= i < |c.m[c.f]| && i != c.Index()
      ensures ClusterData(c.g, o.d, c.m[c.f][i]) == ClusterData(c.g, c.d, c.m[c.f][i])
    {
      RestOfFile(c, o, i);
    }
    ClusterReplaced(c.g, c.d, o.d, c.m[c.f], c.Index(), c.Index() * c.Bytes());
    ReplacedOverlay(Content(c.g, c.d, c.m[c.f]), Content(c.g, o.d, c.m[c.f]), c.Index() * c.Bytes(),
                    ClusterData(c.g, c.d, c.m[c.f][c.Index()]), c.Skip(), c.data);
  }

  lemma ReplacedOverlay(b: seq<byte>, b': seq<byte>, at: nat, was: seq<byte>, offset: nat, data: seq<byte>)
    requires offset + |data| <= |was| && Replaced(b, b', at, was, Overlay(was, offset, data))
    ensures at + offset + |data| <= |b| && b' == Overlay(b, at + offset, data)
  {
    hide Overlay;
    OverlayInside(b, at, |was|, offset, data);
  }

  // ---------------------------------------------------------------- what is not

  /** How much of the data can fall into the cluster that the write starts in. */
  function Room(c: Call): nat { if c.Clusters() == [] then 0 else Max(0, c.Bytes() - c.Skip()) }

  /** A byte of the file outside the cluster of the data is the byte that was on the disk before. */
  lemma OldByte(c: Call, o: Outcome, x: nat)
    requires c.Proper() && c.InFile() && TableResult(c, o) && ListedElsewhere(c)
    requires c.f in o.m && AllData(o.m[c.f]) && x < |Content(c.g, o.d, o.m[c.f])|
    requires c.m[c.f] == [] || ClusterIndex(x, c.Bytes()) != c.Index()
    ensures x < |Content(c.g, c.d, o.m[c.f])| && Content(c.g, o.d, o.m[c.f])[x] == Content(c.g, c.d, o.m[c.f])[x]
  {
    hide Content, ClusterData, Geometry.ClusterBytes, TableOf, ChainsOk, ClusterIndex, Geometry.Fits, Call.InFile,
         TableResult, ListedElsewhere, Call.Index;
    InFileIs(c);
    var w, i := c.Bytes(), ClusterIndex(x, c.Bytes());
    IndexInside(x, w, |o.m[c.f]|);
    RestOfFile(c, o, i);
    ByteOf(c.g, o.d, o.m[c.f], x);
    ByteOf(c.g, c.d, o.m[c.f], x);
  }

  /** Byte x of a file is a byte of the cluster it falls into. */
  lemma ByteOf(g: Geometry, d: Disk, cs: seq<nat>, x: nat)
    requires AllData(cs) && g.ClusterBytes() > 0 && x < |cs| * g.ClusterBytes()
    ensures ClusterIndex(x, g.ClusterBytes()) < |cs| && Offset(x, g.ClusterBytes()) < g.ClusterBytes()
    ensures Content(g, d, cs)[x] ==
            ClusterData(g, d, cs[ClusterIndex(x, g.ClusterBytes())])[Offset(x, g.ClusterBytes())]
  {
    hide Content, ClusterData, Geometry.ClusterBytes, ClusterIndex, Offset;
    var w := g.ClusterBytes();
    IndexInside(x, w, |cs|);
    var i, lo := ClusterIndex(x, w), Offset(x, w);
    ContentSlice(g, d, cs, i, i * w, lo, lo + 1);
    var a, b := Content(g, d, cs), ClusterData(g, d, cs[i]);
    assert a[x] == a[x..x + 1][0] && b[lo] == b[lo..lo + 1][0];
  }

  lemma BehindCluster(c: Call, x: nat)
    requires c.Proper() && c.m[c.f] != [] && x >= c.position + c.Bytes() - c.Skip()
    ensures ClusterIndex(x, c.Bytes()) != c.Index()
  {
    hide TableOf, ChainsOk, Geometry.ClusterBytes, Geometry.Fits, Call.Index, Call.Skip, ClusterIndex;
    InFileIs(c);
    MulNext(c.Index(), c.Bytes());
    LaterCluster(x, c.Bytes(), c.Index());
  }

  /** Of the data behind the cluster the write starts in, and of all data of a first write, reading gives
      back what the disk held before. */
  lemma StoresOnlyOld(c: Call, o: Outcome)
    requires c.Proper() && c.InFile() && Wrote(c, o) && ListedElsewhere(c) && Stores(c, o) && Room(c) <= |c.data|
    ensures c.f in o.m && AllData(o.m[c.f]) && c.position + |c.data| <= |Content(c.g, c.d, o.m[c.f])|
    ensures c.data[Room(c)..] == Content(c.g, c.d, o.m[c.f])[c.position + Room(c)..c.position + |c.data|]
  {
    hide Wrote, Content, Geometry.ClusterBytes, TableOf, ChainsOk, ClusterIndex, Offset, Geometry.Fits, Call.InFile,
         TableResult, ListedElsewhere, Call.Proper, Call.Skip;
    WroteTable(c, o);
    ProperFile(c);
    var r, now, was := Room(c), Content(c.g, o.d, o.m[c.f]), Content(c.g, c.d, o.m[c.f]);
    assert |now| == |was|;
    forall i | r <= i < |c.data|
      ensures c.data[i] == was[c.position + i]
    {
      assert now[c.position..c.position + |c.data|][i] == c.data[i];
      if c.m[c.f] != [] { BehindCluster(c, c.position + i); }
      OldByte(c, o, c.position + i);
    }
  }

  lemma ContentPrefix(g: Geometry, d: Disk, a: seq<nat>, b: seq<nat>, x: nat)
    requires a <= b && AllData(b) && g.ClusterBytes() > 0 && x < |a| * g.ClusterBytes() && x < |b| * g.ClusterBytes()
    ensures AllData(a) && Content(g, d, a)[x] == Content(g, d, b)[x]
  {
    hide Content, ClusterData, Geometry.ClusterBytes, ClusterIndex, Offset;
    ByteOf(g, d, a, x);
    ByteOf(g, d, b, x);
  }

  /** Two writes from one volume append the same clusters, as far as both go. */
  lemma SameGrowth(c: Call, o: Outcome, c': Call, o': Outcome)
    requires c' == c.(data := c'.data) && c.InFile() && TableResult(c, o) && TableResult(c', o')
    ensures c.f in o.m && c.f in o'.m && (o.m[c.f] <= o'.m[c.f] || o'.m[c.f] <= o.m[c.f])
  {
    hide TableResult, Call.InFile, LowestFirst, FreeSet, TableOf;
    assert c'.InFile() by { SameStart(c, c'); }
    ResultGrows(c, o);
    ResultGrows(c', o');
    var n, a, b := |c.m[c.f]|, o.m[c.f], o'.m[c.f];
    LowestIsPrefix(FreeSet(c.Table()), a[n..], b[n..]);
    assert a == a[..n] + a[n..] && b == b[..n] + b[n..];
  }

  lemma SameStart(c: Call, c': Call)
    requires c' == c.(data := c'.data)
    ensures c'.InFile() == c.InFile() && (c.Proper() ==> c'.Proper()) && (ListedElsewhere(c) ==> ListedElsewhere(c'))
    ensures c'.Index() == c.Index() && c'.Clusters() == c.Clusters() && c'.Skip() == c.Skip() && c'.Bytes() == c.Bytes()
  {
    hide TableOf, ChainsOk, Geometry.Fits, Geometry.ClusterBytes, ClusterIndex, Offset;
  }

  /** Of two writes that differ behind the cluster they start in, or anywhere if they are the first, at
      most one is stored. */
  lemma NotBothStored(c: Call, o: Outcome, c': Call, o': Outcome, i: nat)
    requires c' == c.(data := c'.data) && c.Proper() && c.InFile() && Wrote(c, o) && Wrote(c', o') && ListedElsewhere(c)
    requires Room(c) <= i < |c.data| && |c'.data| == |c.data| && c.data[i] != c'.data[i]
    ensures !(Stores(c, o) && Stores(c', o'))
  {
    hide *;
    SameStart(c, c');
    if Stores(c, o) && Stores(c', o') {
      WroteTable(c, o);
      WroteTable(c', o');
      SameGrowth(c, o, c', o');
      StoredByte(c, o, i);
      RoomSame(c, c');
      StoredByte(c', o', i);
      ProperBytes(c);
      if o.m[c.f] <= o'.m[c.f] {
        ContentPrefix(c.g, c.d, o.m[c.f], o'.m[c.f], c.position + i);
      } else {
        ContentPrefix(c.g, c.d, o'.m[c.f], o.m[c.f], c.position + i);
      }
      assert false;
    }
  }

  lemma ProperBytes(c: Call)
    requires c.Proper()
    ensures c.g.ClusterBytes() > 0
  {
    hide TableOf, ChainsOk, Geometry.ClusterBytes;
    GeometryBounds(c.g, c.d);
  }

  lemma RoomSame(c: Call, c': Call)
    requires c'.Clusters() == c.Clusters() && c'.Skip() == c.Skip() && c'.Bytes() == c.Bytes()
    ensures Room(c') == Room(c)
  {
    hide Call.Clusters, Call.Skip, Call.Bytes;
  }

  lemma StoredByte(c: Call, o: Outcome, i: nat)
    requires c.Proper() && c.InFile() && Wrote(c, o) && ListedElsewhere(c) && Stores(c, o) && Room(c) <= i < |c.data|
    ensures c.f in o.m && AllData(o.m[c.f]) && c.position + i < |o.m[c.f]| * c.g.ClusterBytes()
    ensures c.data[i] == Content(c.g, c.d, o.m[c.f])[c.position + i]
  {
    hide Wrote, Content, Geometry.ClusterBytes, TableOf, ChainsOk, Geometry.Fits, Call.InFile, ListedElsewhere,
         Call.Proper, Room;
    StoresOnlyOld(c, o);
    var r, was := Room(c), Content(c.g, c.d, o.m[c.f]);
    assert c.data[r..][i - r] == was[c.position + r..c.position + |c.data|][i - r];
  }

  /** For every volume, position and length: all data of that length is stored if and only if the file
      has a cluster at the position and the data fits into it. `run` is what the driver does. */
  lemma StoresExactly(c: Call, run: seq<byte> -> Outcome)
    requires c.Proper() && |c.data| > 0 && c.failAt > 0 && ListedElsewhere(c)
    requires c.Index() < |c.Clusters()| ==> OnDisk(c.g, c.d, c.Clusters()[c.Index()])
    requires forall data: seq<byte> :: |data| == |c.data| ==> Wrote(c.(data := data), run(data))
    ensures FitsInCluster(c) <==>
            forall data: seq<byte> :: |data| == |c.data| ==> Stores(c.(data := data), run(data))
  {
    hide *;
    if FitsInCluster(c) {
      forall data: seq<byte> | |data| == |c.data|
        ensures Stores(c.(data := data), run(data))
      {
        FitsMeans(c);
        FitsSame(c, data);
        SameStart(c, c.(data := data));
        OneRoundContent(c.(data := data), run(data));
      }
    } else {
      NotAllStored(c, run);
    }
  }

  lemma FitsSame(c: Call, data: seq<byte>)
    requires |data| == |c.data|
    ensures FitsInCluster(c) == FitsInCluster(c.(data := data))
  {
    hide Geometry.ClusterBytes, ClusterIndex, Offset;
  }

  lemma NotAllStored(c: Call, run: seq<byte> -> Outcome)
    requires c.Proper() && |c.data| > 0 && ListedElsewhere(c) && !FitsInCluster(c)
    requires forall data: seq<byte> :: |data| == |c.data| ==> Wrote(c.(data := data), run(data))
    ensures exists data: seq<byte> :: |data| == |c.data| && !Stores(c.(data := data), run(data))
  {
    hide *;
    var a, b := Filled(|c.data|, 0), Filled(|c.data|, 1);
    assert a[|a| - 1] != b[|a| - 1];
    var ca, cb := c.(data := a), c.(data := b);
    SameStart(c, ca);
    SameStart(ca, cb);
    if c.InFile() {
      RoomBelow(ca, c);
      NotBothStored(ca, run(a), cb, run(b), |a| - 1);
      assert !Stores(ca, run(a)) || !Stores(cb, run(b));
    } else {
      WroteTable(ca, run(a));
      PastNotStored(ca, run(a));
      assert !Stores(ca, run(a));
    }
  }

  /** Data that does not fit ends behind the cluster. */
  lemma RoomBelow(c: Call, c0: Call)
    requires c0.Proper() && c0.InFile() && !FitsInCluster(c0) && c == c0.(data := c.data) && |c.data| == |c0.data| > 0
    ensures Room(c) <= |c.data| - 1
  {
    hide TableOf, ChainsOk, Geometry.ClusterBytes, Geometry.Fits, ClusterIndex, Offset;
    InFileIs(c0);
  }

  /** Data written behind the chain is not in the file. */
  lemma PastNotStored(c: Call, o: Outcome)
    requires c.Proper() && !c.InFile() && TableResult(c, o) && |c.data| > 0
    ensures !Stores(c, o)
  {
    hide TableOf, ChainsOk, Geometry.ClusterBytes, Geometry.Fits, NoLeak, Mirrored, Harmless;
  }
}
