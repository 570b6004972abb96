/** The allocation table as fs/fat/myos_fat32.c keeps it: 32-bit little-endian words in
    512-byte sectors, in several mirrored copies, on a disk that is an array of sectors. */
module FatDisk {
  import opened Arith
  import opened Common
  import opened FatChains

  type byte = x: int | 0 <= x < 256
  type Sector = s: seq<byte> | |s| == 512 witness Zeros(512)
  type Disk = seq<Sector>

  function Zeros(n: nat): (s: seq<byte>)
    ensures |s| == n && forall i :: 0 <= i < n ==> s[i] == 0
  {
    if n == 0 then [] else Zeros(n - 1) + [0]
  }

  const SECTOR_BYTES := 512
  const ZERO_SECTOR: Sector := Zeros(512)
  const TWO28 := 0x1000_0000

  /** The figures of the boot sector that the driver keeps in memory. */
  datatype Geometry = Geometry(fat1: nat, sectorsPerFat: nat, numFats: nat,
                               dataFirst: nat, sectorsPerCluster: nat)
  {
    predicate Fits(d: Disk) {
      && 1 <= sectorsPerFat < 0x20_0000 && 1 <= numFats && 1 <= sectorsPerCluster
      && fat1 + sectorsPerFat * numFats <= dataFirst <= |d|
    }

    function Entries(): nat { sectorsPerFat * 128 }

    function ClusterBytes(): nat { sectorsPerCluster * SECTOR_BYTES }

    /** The sector that holds sector `sec` of copy `k` of the table. */
    function CopySector(k: nat, sec: nat): nat { fat1 + sectorsPerFat * k + sec }
  }

  // ---------------------------------------------------------------- words in a sector

  function Word(s: Sector, j: nat): (w: nat)
    requires j < 128
    ensures w < TWO32
  {
    var b0, b1, b2, b3 := s[4 * j] as int, s[4 * j + 1] as int, s[4 * j + 2] as int, s[4 * j + 3] as int;
    b0 + 0x100 * b1 + 0x1_0000 * b2 + 0x100_0000 * b3
  }

  function SetWord(s: Sector, j: nat, w: nat): Sector
    requires j < 128 && w < TWO32
  {
    s[4 * j := w % 0x100][4 * j + 1 := w / 0x100 % 0x100]
     [4 * j + 2 := w / 0x1_0000 % 0x100][4 * j + 3 := w / 0x100_0000]
  }

  lemma FourBytes(w: nat)
    requires w < TWO32
    ensures w == w % 0x100 + 0x100 * (w / 0x100 % 0x100) + 0x1_0000 * (w / 0x1_0000 % 0x100)
                 + 0x100_0000 * (w / 0x100_0000)
    ensures w / 0x100_0000 < 0x100
  {
    var x := w / 0x100;
    DivIs(w, 0x1_0000, x / 0x100, 0x100 * (x % 0x100) + w % 0x100);
    var y := w / 0x1_0000;
    DivIs(w, 0x100_0000, y / 0x100, 0x1_0000 * (y % 0x100) + w % 0x1_0000);
  }

  lemma WordAfterSet(s: Sector, j: nat, w: nat, k: nat)
    requires j < 128 && k < 128 && w < TWO32
    ensures Word(SetWord(s, j, w), k) == if k == j then w else Word(s, k)
  {
    FourBytes(w);
  }

  /** The word's bytes lie lowest first. */
  lemma WordBytes(s: Sector, j: nat)
    requires j < 128
    ensures var w := Word(s, j);
            && s[4 * j] == w % 0x100 && s[4 * j + 1] == w / 0x100 % 0x100
            && s[4 * j + 2] == w / 0x1_0000 % 0x100 && s[4 * j + 3] == w / 0x100_0000
  {
    var w := Word(s, j);
    var b0, b1, b2, b3 := s[4 * j] as int, s[4 * j + 1] as int, s[4 * j + 2] as int, s[4 * j + 3] as int;
    DivIs(w, 0x100, b1 + 0x100 * b2 + 0x1_0000 * b3, b0);
    DivIs(w, 0x1_0000, b2 + 0x100 * b3, b0 + 0x100 * b1);
    DivIs(w, 0x100_0000, b3, b0 + 0x100 * b1 + 0x1_0000 * b2);
    DivIs(b1 + 0x100 * b2 + 0x1_0000 * b3, 0x100, b2 + 0x100 * b3, b1);
    DivIs(b2 + 0x100 * b3, 0x100, b3, b2);
  }

  // ---------------------------------------------------------------- total transfers

  function ReadSector(d: Disk, i: nat): Sector {
    if i < |d| then d[i] else ZERO_SECTOR
  }

  function WriteSector(d: Disk, i: nat, s: Sector): Disk {
    if i < |d| then d[i := s] else d
  }

  // ---------------------------------------------------------------- table entries

  function Entry(g: Geometry, d: Disk, e: nat): (v: nat)
    ensures v < TWO28
  {
    Word(ReadSector(d, g.fat1 + e / 128), e % 128) % TWO28
  }

  /** The four bits of an entry that the specification reserves. */
  function Reserved(g: Geometry, d: Disk, e: nat): nat {
    Word(ReadSector(d, g.fat1 + e / 128), e % 128) / TWO28
  }

  function TableOf(g: Geometry, d: Disk): (t: Table)
    ensures |t| == g.Entries()
    ensures forall e :: 0 <= e < |t| ==> t[e] == Entry(g, d, e)
  {
    seq(g.Entries(), e requires e >= 0 => Entry(g, d, e))
  }

  /** Word j of sector i of the table is entry 128 i + j. */
  lemma TableWordAt(g: Geometry, d: Disk, i: nat, j: nat)
    requires i < g.sectorsPerFat && j < 128
    ensures i * 128 + j < g.Entries()
    ensures TableOf(g, d)[i * 128 + j] == Word(ReadSector(d, g.fat1 + i), j) % TWO28
  {
    hide Word, ReadSector;
    DivIs(i * 128 + j, 128, i, j);
  }

  ghost predicate Mirrored(g: Geometry, d: Disk) {
    forall k: nat, sec: nat :: k < g.numFats && sec < g.sectorsPerFat ==>
      ReadSector(d, g.CopySector(k, sec)) == ReadSector(d, g.CopySector(0, sec))
  }

  /** The sector buffer that an entry write puts back. */
  function Patched(g: Geometry, d: Disk, e: nat, value: nat): Sector {
    var s := ReadSector(d, g.fat1 + e / 128);
    var w := Word(s, e % 128);
    SetWord(s, e % 128, w / TWO28 * TWO28 + value % TWO28)
  }

  /** `d` with `buf` written at sector `sec` of the first `n` copies. */
  function WriteCopies(g: Geometry, d: Disk, sec: nat, buf: Sector, n: nat): Disk {
    if n == 0 then d else WriteSector(WriteCopies(g, d, sec, buf, n - 1), g.CopySector(n - 1, sec), buf)
  }

  function WriteEntry(g: Geometry, d: Disk, e: nat, value: nat): Disk {
    WriteCopies(g, d, e / 128, Patched(g, d, e, value), g.numFats)
  }

  ghost predicate IsCopy(g: Geometry, sec: nat, n: nat, s: nat) {
    exists k: nat :: k < n && s == g.CopySector(k, sec)
  }

  lemma {:induction false} WriteCopiesAt(g: Geometry, d: Disk, sec: nat, buf: Sector, n: nat, s: nat)
    ensures |WriteCopies(g, d, sec, buf, n)| == |d|
    ensures ReadSector(WriteCopies(g, d, sec, buf, n), s) ==
            if s < |d| && IsCopy(g, sec, n, s) then buf else ReadSector(d, s)
  {
    if n > 0 {
      WriteCopiesAt(g, d, sec, buf, n - 1, s);
      IsCopyStep(g, sec, n, s);
    }
  }

  lemma IsCopyStep(g: Geometry, sec: nat, n: nat, s: nat)
    requires n > 0
    ensures IsCopy(g, sec, n, s) <==> IsCopy(g, sec, n - 1, s) || s == g.CopySector(n - 1, sec)
  {
  }

  /** Copy numbers and sector numbers are recovered from a disk address inside the copies. */
  lemma CopyAddress(g: Geometry, k: nat, a: nat, j: nat, b: nat)
    requires a < g.sectorsPerFat && b < g.sectorsPerFat && g.CopySector(k, a) == g.CopySector(j, b)
    ensures k == j && a == b
  {
    DivIs(g.sectorsPerFat * k + a, g.sectorsPerFat, k, a);
    DivIs(g.sectorsPerFat * k + a, g.sectorsPerFat, j, b);
  }

  lemma CopyRoom(size: nat, k: nat, n: nat)
    requires size > 0 && k < n
    ensures 0 <= size * k && size * k + size <= size * n
  {
    MulSign(size, k);
    MulSign(size, n - k);
    assert size * (n - k) == size * n - size * k;
  }

  lemma CopyInFat(g: Geometry, d: Disk, k: nat, sec: nat)
    requires g.Fits(d) && k < g.numFats && sec < g.sectorsPerFat
    ensures g.fat1 <= g.CopySector(k, sec) < g.fat1 + g.sectorsPerFat * g.numFats <= |d|
  {
    CopyRoom(g.sectorsPerFat, k, g.numFats);
  }

  /** Writing an entry changes that entry of the table to the low 28 bits of the value, and no
      other; a number past the table changes no entry. */
  lemma WriteEntryTable(g: Geometry, d: Disk, e: nat, value: nat)
    requires g.Fits(d)
    ensures TableOf(g, WriteEntry(g, d, e, value)) ==
            if e < g.Entries() then TableOf(g, d)[e := value % TWO28] else TableOf(g, d)
  {
    var d' := WriteEntry(g, d, e, value);
    forall k | 0 <= k < g.Entries()
      ensures Entry(g, d', k) == (if k == e then value % TWO28 else Entry(g, d, k))
    {
      EntryAfterWrite(g, d, e, value, k);
    }
  }

  /** Entry by entry, an entry write replaces 28 bits and keeps the four reserved ones. */
  lemma EntryAfterWrite(g: Geometry, d: Disk, e: nat, value: nat, k: nat)
    requires g.Fits(d) && k < g.Entries()
    ensures var d' := WriteEntry(g, d, e, value);
            && Entry(g, d', k) == (if k == e then value % TWO28 else Entry(g, d, k))
            && Reserved(g, d', k) == Reserved(g, d, k)
  {
    var sec, buf := e / 128, Patched(g, d, e, value);
    var s := g.fat1 + k / 128;
    WriteCopiesAt(g, d, sec, buf, g.numFats, s);
    CopyInFat(g, d, 0, k / 128);
    assert s == g.CopySector(0, k / 128);
    if sec == k / 128 {
      assert IsCopy(g, sec, g.numFats, s);
      var w := Word(ReadSector(d, g.fat1 + sec), e % 128);
      var w' := w / TWO28 * TWO28 + value % TWO28;
      WordAfterSet(ReadSector(d, g.fat1 + sec), e % 128, w', k % 128);
      DivIs(w', TWO28, w / TWO28, value % TWO28);
    } else {
      NotACopy(g, sec, k / 128, g.numFats);
    }
  }

  lemma NotACopy(g: Geometry, sec: nat, own: nat, n: nat)
    requires own < g.sectorsPerFat && own != sec
    ensures !IsCopy(g, sec, n, g.CopySector(0, own))
  {
    forall k: nat | k < n
      ensures g.CopySector(0, own) != g.CopySector(k, sec)
    {
      if sec < g.sectorsPerFat && g.CopySector(0, own) == g.CopySector(k, sec) {
        CopyAddress(g, 0, own, k, sec);
      }
      assert g.sectorsPerFat * k >= 0;
    }
  }

  /** An entry write leaves the copies of a mirrored table equal. */
  lemma WriteEntryMirrored(g: Geometry, d: Disk, e: nat, value: nat)
    requires g.Fits(d) && e < g.Entries() && Mirrored(g, d)
    ensures Mirrored(g, WriteEntry(g, d, e, value))
  {
    var sec, buf := e / 128, Patched(g, d, e, value);
    var d' := WriteEntry(g, d, e, value);
    forall k: nat, own: nat | k < g.numFats && own < g.sectorsPerFat
      ensures ReadSector(d', g.CopySector(k, own)) ==
              if own == sec then buf else ReadSector(d, g.CopySector(k, own))
    {
      var s := g.CopySector(k, own);
      CopyInFat(g, d, k, own);
      WriteCopiesAt(g, d, sec, buf, g.numFats, s);
      if own == sec {
        assert IsCopy(g, sec, g.numFats, s);
      } else if IsCopy(g, sec, g.numFats, s) {
        var j: nat :| j < g.numFats && s == g.CopySector(j, sec);
        CopyAddress(g, k, own, j, sec);
      }
    }
  }

  /** An entry write touches no sector outside the copies of the table. */
  lemma WriteEntryFrame(g: Geometry, d: Disk, e: nat, value: nat, s: nat)
    requires g.Fits(d) && e < g.Entries()
    requires s < g.fat1 || g.fat1 + g.sectorsPerFat * g.numFats <= s
    ensures ReadSector(WriteEntry(g, d, e, value), s) == ReadSector(d, s)
  {
    var sec := e / 128;
    WriteCopiesAt(g, d, sec, Patched(g, d, e, value), g.numFats, s);
    forall k: nat | k < g.numFats
      ensures s != g.CopySector(k, sec)
    {
      CopyInFat(g, d, k, sec);
    }
  }

  lemma WriteEntrySize(g: Geometry, d: Disk, e: nat, value: nat)
    ensures |WriteEntry(g, d, e, value)| == |d|
    ensures g.Fits(d) ==> g.Fits(WriteEntry(g, d, e, value))
  {
    WriteCopiesAt(g, d, e / 128, Patched(g, d, e, value), g.numFats, 0);
  }

  // ---------------------------------------------------------------- file contents

  function SectorRun(d: Disk, from: nat, n: nat): (b: seq<byte>)
    ensures |b| == n * SECTOR_BYTES
  {
    if n == 0 then [] else SectorRun(d, from, n - 1) + ReadSector(d, from + n - 1)
  }

  /** The first sector of a data cluster. */
  function ClusterSector(g: Geometry, cluster: nat): nat
    requires cluster >= 2
  {
    g.dataFirst + (cluster - 2) * g.sectorsPerCluster
  }

  /** Cluster 2 is the first of the data region, and each next cluster follows the last without a gap. */
  lemma ClustersFollow(g: Geometry, cluster: nat)
    requires cluster >= 2
    ensures ClusterSector(g, 2) == g.dataFirst
    ensures ClusterSector(g, cluster + 1) == ClusterSector(g, cluster) + g.sectorsPerCluster
  {
    MulNext(cluster - 2, g.sectorsPerCluster);
  }

  /** The copies of the table follow each other, each sector after sector. */
  lemma CopiesFollow(g: Geometry, k: nat, sec: nat)
    ensures g.CopySector(0, 0) == g.fat1 && g.CopySector(k, sec + 1) == g.CopySector(k, sec) + 1
    ensures g.CopySector(k + 1, sec) == g.CopySector(k, sec) + g.sectorsPerFat
  {
    MulNext(k, g.sectorsPerFat);
  }

  /** Byte b of the i-th sector is byte 512 i + b of the run. */
  lemma {:induction false} RunByte(d: Disk, from: nat, n: nat, i: nat, b: nat)
    requires i < n && b < SECTOR_BYTES
    ensures SectorRun(d, from, n)[i * SECTOR_BYTES + b] == ReadSector(d, from + i)[b]
  {
    if i < n - 1 { RunByte(d, from, n - 1, i, b); }
  }

  /** The bytes of a data cluster. */
  function ClusterData(g: Geometry, d: Disk, cluster: nat): (b: seq<byte>)
    requires cluster >= 2
    ensures |b| == g.ClusterBytes()
  {
    SectorRun(d, ClusterSector(g, cluster), g.sectorsPerCluster)
  }

  predicate AllData(cs: seq<nat>) {
    forall i :: 0 <= i < |cs| ==> cs[i] >= 2
  }

  /** The bytes of a chain: its clusters in link order. */
  function Content(g: Geometry, d: Disk, cs: seq<nat>): (b: seq<byte>)
    requires AllData(cs)
    ensures |b| == |cs| * g.ClusterBytes()
  {
    if cs == [] then []
    else
      MulNext(|cs| - 1, g.ClusterBytes());
      Content(g, d, cs[..|cs| - 1]) + ClusterData(g, d, cs[|cs| - 1])
  }

  /** Byte `lo` of the k-th cluster of a chain is byte `k * cluster size + lo` of its contents. */
  lemma {:induction false} ContentSlice(g: Geometry, d: Disk, cs: seq<nat>, k: nat, at: nat, lo: nat, hi: nat)
    requires AllData(cs) && k < |cs| && at == k * g.ClusterBytes() && lo <= hi <= g.ClusterBytes()
    ensures at + hi <= |Content(g, d, cs)|
    ensures Content(g, d, cs)[at + lo .. at + hi] == ClusterData(g, d, cs[k])[lo..hi]
    decreases |cs|
  {
    hide ClusterData, Geometry.ClusterBytes;
    var n, b := |cs| - 1, g.ClusterBytes();
    var front, last := Content(g, d, cs[..n]), ClusterData(g, d, cs[n]);
    assert Content(g, d, cs) == front + last;
    if k == n {
      assert (front + last)[|front| + lo .. |front| + hi] == last[lo..hi];
    } else {
      ContentSlice(g, d, cs[..n], k, at, lo, hi);
      assert (front + last)[at + lo .. at + hi] == front[at + lo .. at + hi];
    }
  }

  // ---------------------------------------------------------------- whole clusters

  /** `b` with `chunk` over its bytes from `offset` on. */
  function Overlay(b: seq<byte>, offset: nat, chunk: seq<byte>): (r: seq<byte>)
    requires offset + |chunk| <= |b|
    ensures |r| == |b|
  {
    b[..offset] + chunk + b[offset + |chunk|..]
  }

  /** `d` with n sectors of `b` written from sector `from` on. */
  function Stored(d: Disk, from: nat, b: seq<byte>, n: nat): Disk
    requires |b| >= n * SECTOR_BYTES
  {
    if n == 0 then d
    else WriteSector(Stored(d, from, b, n - 1), from + n - 1, b[(n - 1) * SECTOR_BYTES..n * SECTOR_BYTES])
  }

  lemma {:induction false} StoredAt(d: Disk, from: nat, b: seq<byte>, n: nat, s: nat)
    requires |b| >= n * SECTOR_BYTES
    ensures |Stored(d, from, b, n)| == |d|
    ensures ReadSector(Stored(d, from, b, n), s) ==
            if from <= s < from + n && s < |d| then b[(s - from) * SECTOR_BYTES..(s - from + 1) * SECTOR_BYTES]
            else ReadSector(d, s)
  {
    if n > 0 {
      StoredAt(d, from, b, n - 1, s);
    }
  }

  /** A transfer of one cluster at this sector stays off the copies of the table. */
  predicate OffTable(g: Geometry, sector: nat) {
    sector + g.sectorsPerCluster <= g.fat1 || g.fat1 + g.sectorsPerFat * g.numFats <= sector
  }

  predicate InTable(g: Geometry, s: nat) {
    g.fat1 <= s < g.fat1 + g.sectorsPerFat * g.numFats
  }

  /** Sector `s` lies in a cluster that begins at one of these sectors. */
  predicate InClusters(g: Geometry, at: set<nat>, s: nat) {
    exists x :: x in at && x <= s < x + g.sectorsPerCluster
  }

  /** `d` differs from `d0` at most in the copies of the table and in the clusters at these sectors. */
  ghost predicate SameBut(g: Geometry, d0: Disk, d: Disk, at: set<nat>) {
    && |d| == |d0|
    && forall s: nat :: !InTable(g, s) && !InClusters(g, at, s) ==> ReadSector(d, s) == ReadSector(d0, s)
  }

  /** The same, and past the table in the sectors where the copies would hold entry e. */
  ghost predicate SameButPast(g: Geometry, d0: Disk, d: Disk, at: set<nat>, e: nat) {
    && |d| == |d0|
    && forall s: nat :: !InTable(g, s) && !InClusters(g, at, s) && !IsCopy(g, e / 128, g.numFats, s) ==>
         ReadSector(d, s) == ReadSector(d0, s)
  }

  lemma SameButIsPast(g: Geometry, d0: Disk, d: Disk, at: set<nat>, e: nat)
    requires SameBut(g, d0, d, at)
    ensures SameButPast(g, d0, d, at, e)
  {
    hide ReadSector, InTable, InClusters, IsCopy;
  }

  lemma SameButPastThen(g: Geometry, d0: Disk, d1: Disk, d2: Disk, a: set<nat>, b: set<nat>, at: set<nat>, e: nat)
    requires SameButPast(g, d0, d1, a, e) && SameButPast(g, d1, d2, b, e) && a <= at && b <= at
    ensures SameButPast(g, d0, d2, at, e)
  {
    hide ReadSector, InTable, IsCopy;
    forall s: nat | !InClusters(g, at, s)
      ensures !InClusters(g, a, s) && !InClusters(g, b, s)
    {
    }
  }

  lemma SameButSelf(g: Geometry, d: Disk, at: set<nat>)
    ensures SameBut(g, d, d, at)
  {
  }

  lemma SameButThen(g: Geometry, d0: Disk, d1: Disk, d2: Disk, a: set<nat>, b: set<nat>, at: set<nat>)
    requires SameBut(g, d0, d1, a) && SameBut(g, d1, d2, b) && a <= at && b <= at
    ensures SameBut(g, d0, d2, at)
  {
    hide ReadSector, InTable;
    forall s: nat | !InClusters(g, at, s)
      ensures !InClusters(g, a, s) && !InClusters(g, b, s)
    {
    }
  }

  lemma SameSectors(g: Geometry, d0: Disk, d: Disk)
    requires g.Fits(d0) && |d| == |d0|
    requires forall s: nat :: InTable(g, s) ==> ReadSector(d, s) == ReadSector(d0, s)
    ensures g.Fits(d) && TableOf(g, d) == TableOf(g, d0) && (Mirrored(g, d0) <==> Mirrored(g, d))
  {
    hide ReadSector, Geometry.CopySector;
    EntriesSame(g, d0, d);
    CopiesSame(g, d0, d);
  }

  lemma EntriesSame(g: Geometry, d0: Disk, d: Disk)
    requires g.Fits(d0) && |d| == |d0|
    requires forall s: nat :: InTable(g, s) ==> ReadSector(d, s) == ReadSector(d0, s)
    ensures TableOf(g, d) == TableOf(g, d0)
  {
    hide ReadSector, Word;
    forall e: nat | e < g.Entries()
      ensures Entry(g, d, e) == Entry(g, d0, e)
    {
      CopyInFat(g, d0, 0, e / 128);
    }
  }

  lemma CopiesSame(g: Geometry, d0: Disk, d: Disk)
    requires g.Fits(d0)
    requires forall s: nat :: InTable(g, s) ==> ReadSector(d, s) == ReadSector(d0, s)
    ensures Mirrored(g, d0) <==> Mirrored(g, d)
  {
    hide ReadSector, Geometry.CopySector;
    forall k: nat, sec: nat | k < g.numFats && sec < g.sectorsPerFat
      ensures ReadSector(d, g.CopySector(k, sec)) == ReadSector(d0, g.CopySector(k, sec))
    {
      CopyInFat(g, d0, k, sec);
    }
  }

  /** A cluster written off the table leaves the table and its mirrors alone. */
  lemma StoreKeepsTable(g: Geometry, d: Disk, sector: nat, b: seq<byte>)
    requires g.Fits(d) && OffTable(g, sector) && |b| == g.ClusterBytes()
    ensures var d' := Stored(d, sector, b, g.sectorsPerCluster);
            && g.Fits(d') && TableOf(g, d') == TableOf(g, d) && (Mirrored(g, d) <==> Mirrored(g, d'))
            && SameBut(g, d, d', {sector})
  {
    hide TableOf, Mirrored, Stored, SameBut, ReadSector, InTable, OffTable;
    StoredSameBut(g, d, sector, b);
    StoredInTable(g, d, sector, b);
    SameSectors(g, d, Stored(d, sector, b, g.sectorsPerCluster));
  }

  lemma StoredSameBut(g: Geometry, d: Disk, sector: nat, b: seq<byte>)
    requires |b| == g.ClusterBytes()
    ensures SameBut(g, d, Stored(d, sector, b, g.sectorsPerCluster), {sector})
  {
    hide Stored, ReadSector, InTable;
    StoredAt(d, sector, b, g.sectorsPerCluster, 0);
    forall s: nat | !InClusters(g, {sector}, s)
      ensures ReadSector(Stored(d, sector, b, g.sectorsPerCluster), s) == ReadSector(d, s)
    {
      assert sector in {sector};
      StoredAt(d, sector, b, g.sectorsPerCluster, s);
    }
  }

  lemma StoredInTable(g: Geometry, d: Disk, sector: nat, b: seq<byte>)
    requires OffTable(g, sector) && |b| == g.ClusterBytes()
    ensures var d' := Stored(d, sector, b, g.sectorsPerCluster);
            |d'| == |d| && forall s: nat :: InTable(g, s) ==> ReadSector(d', s) == ReadSector(d, s)
  {
    hide Stored, ReadSector;
    StoredAt(d, sector, b, g.sectorsPerCluster, 0);
    forall s: nat | InTable(g, s)
      ensures ReadSector(Stored(d, sector, b, g.sectorsPerCluster), s) == ReadSector(d, s)
    {
      StoredAt(d, sector, b, g.sectorsPerCluster, s);
    }
  }

  function Filled(n: nat, v: byte): (b: seq<byte>)
    ensures |b| == n && forall i :: 0 <= i < n ==> b[i] == v
  {
    seq(n, _ => v)
  }

  /** A cluster written at sector 0, where FAT32_write puts the first data of a file, leaves the table
      alone whatever the data is if and only if a cluster fits before the table. */
  lemma SectorZeroSafe(g: Geometry, d: Disk)
    requires g.Fits(d)
    ensures g.sectorsPerCluster <= g.fat1 <==>
            forall b: seq<byte> :: |b| == g.ClusterBytes() ==>
              TableOf(g, Stored(d, 0, b, g.sectorsPerCluster)) == TableOf(g, d)
  {
    if g.sectorsPerCluster <= g.fat1 {
      forall b: seq<byte> | |b| == g.ClusterBytes()
        ensures TableOf(g, Stored(d, 0, b, g.sectorsPerCluster)) == TableOf(g, d)
      {
        StoreKeepsTable(g, d, 0, b);
      }
    } else {
      hide Stored, TableOf, Geometry.ClusterBytes, Filled;
      FilledEntry(g, d, 0);
      FilledEntry(g, d, 1);
      assert 0x101_0101 % TWO28 != 0;
      assert TableOf(g, Stored(d, 0, Filled(g.ClusterBytes(), 0), g.sectorsPerCluster))
             != TableOf(g, Stored(d, 0, Filled(g.ClusterBytes(), 1), g.sectorsPerCluster));
    }
  }

  /** Otherwise the table reads what the data says: here all zeros, or all ones. */
  lemma FilledEntry(g: Geometry, d: Disk, v: byte)
    requires g.Fits(d) && g.fat1 < g.sectorsPerCluster
    ensures TableOf(g, Stored(d, 0, Filled(g.ClusterBytes(), v), g.sectorsPerCluster))[0] == 0x101_0101 * v % TWO28
  {
    var b := Filled(g.ClusterBytes(), v);
    var d' := Stored(d, 0, b, g.sectorsPerCluster);
    assert g.Entries() > 0;
    CopyInFat(g, d, 0, 0);
    StoredAt(d, 0, b, g.sectorsPerCluster, g.fat1);
    var s := ReadSector(d', g.fat1);
    assert s[0] == v && s[1] == v && s[2] == v && s[3] == v;
    assert TableOf(g, d')[0] == Entry(g, d', 0);
  }

  // ---------------------------------------------------------------- data that changed and data that did not

  lemma {:induction false} RunSame(d0: Disk, d: Disk, from: nat, n: nat)
    requires forall s: nat :: from <= s < from + n ==> ReadSector(d, s) == ReadSector(d0, s)
    ensures SectorRun(d, from, n) == SectorRun(d0, from, n)
  {
    if n > 0 {
      RunSame(d0, d, from, n - 1);
    }
  }

  /** A cluster at sector `x` and data cluster `c` have no sector in common. */
  predicate Apart(g: Geometry, x: nat, c: nat)
    requires c >= 2
  {
    x + g.sectorsPerCluster <= ClusterSector(g, c) || ClusterSector(g, c) + g.sectorsPerCluster <= x
  }

  lemma ClustersApart(g: Geometry, d: Disk, c: nat, own: nat)
    requires g.Fits(d) && c >= 2 && own >= 2 && c != own
    ensures Apart(g, ClusterSector(g, own), c)
  {
    var n := g.sectorsPerCluster;
    MulSign(n, c - own);
    assert n * (c - own) == (c - 2) * n - (own - 2) * n;
  }

  /** Writing the table and clusters apart from it does not change a cluster. */
  lemma ClusterKept(g: Geometry, d0: Disk, d: Disk, at: set<nat>, c: nat)
    requires g.Fits(d0) && c >= 2 && SameBut(g, d0, d, at) && forall x :: x in at ==> Apart(g, x, c)
    ensures ClusterData(g, d, c) == ClusterData(g, d0, c)
  {
    hide ReadSector, SectorRun, ClusterSector;
    var from := ClusterSector(g, c);
    ClusterAfterTable(g, d0, c);
    forall s: nat | from <= s < from + g.sectorsPerCluster
      ensures ReadSector(d, s) == ReadSector(d0, s)
    {
      assert !InClusters(g, at, s);
    }
    RunSame(d0, d, from, g.sectorsPerCluster);
  }

  lemma ClusterAfterTable(g: Geometry, d: Disk, c: nat)
    requires g.Fits(d) && c >= 2
    ensures ClusterSector(g, c) >= g.fat1 + g.sectorsPerFat * g.numFats
  {
    MulSign(g.sectorsPerCluster, c - 2);
  }

  lemma {:induction false} RunStored(d: Disk, from: nat, b: seq<byte>, n: nat, k: nat)
    requires |b| >= n * SECTOR_BYTES && k <= n && from + n <= |d|
    ensures SectorRun(Stored(d, from, b, n), from, k) == b[..k * SECTOR_BYTES]
  {
    if k > 0 {
      RunStored(d, from, b, n, k - 1);
      StoredAt(d, from, b, n, from + k - 1);
      assert b[..(k - 1) * SECTOR_BYTES] + b[(k - 1) * SECTOR_BYTES..k * SECTOR_BYTES] == b[..k * SECTOR_BYTES];
    }
  }

  lemma StoredRun(g: Geometry, d: Disk, from: nat, b: seq<byte>)
    requires |b| == g.ClusterBytes() && from + g.sectorsPerCluster <= |d|
    ensures SectorRun(Stored(d, from, b, g.sectorsPerCluster), from, g.sectorsPerCluster) == b
  {
    hide Stored, SectorRun;
    RunStored(d, from, b, g.sectorsPerCluster, g.sectorsPerCluster);
    assert b[..g.sectorsPerCluster * SECTOR_BYTES] == b;
  }

  lemma RunBytes(g: Geometry, d: Disk, from: nat)
    ensures |SectorRun(d, from, g.sectorsPerCluster)| == g.ClusterBytes()
  {
  }

  /** Contents depend on the clusters of the chain only. */
  lemma {:induction false} ContentSame(g: Geometry, d0: Disk, d: Disk, cs: seq<nat>)
    requires AllData(cs) && forall i :: 0 <= i < |cs| ==> ClusterData(g, d, cs[i]) == ClusterData(g, d0, cs[i])
    ensures Content(g, d, cs) == Content(g, d0, cs)
  {
    hide ClusterData;
    if cs != [] {
      ContentSame(g, d0, d, cs[..|cs| - 1]);
    }
  }

  /** Changing the k-th cluster changes that stretch of the contents. */
  lemma {:induction false} ContentChanged(g: Geometry, d0: Disk, d: Disk, cs: seq<nat>, k: nat, at: nat, b: seq<byte>)
    requires AllData(cs) && k < |cs| && at == k * g.ClusterBytes() && ClusterData(g, d, cs[k]) == b
    requires forall i :: 0 <= i < |cs| && i != k ==> ClusterData(g, d, cs[i]) == ClusterData(g, d0, cs[i])
    ensures var old_ := Content(g, d0, cs);
            && at + g.ClusterBytes() <= |old_|
            && Content(g, d, cs) == old_[..at] + b + old_[at + g.ClusterBytes()..]
    decreases |cs|
  {
    hide ClusterData, Geometry.ClusterBytes, Content;
    var n, w := |cs| - 1, g.ClusterBytes();
    var front, last := Content(g, d0, cs[..n]), ClusterData(g, d0, cs[n]);
    ContentLast(g, d0, cs);
    ContentLast(g, d, cs);
    if k == n {
      ContentSame(g, d0, d, cs[..n]);
      LastReplaced(front, last, b);
    } else {
      ContentChanged(g, d0, d, cs[..n], k, at, b);
      FrontReplaced(front, last, at, w, b);
    }
  }

  lemma ContentLast(g: Geometry, d: Disk, cs: seq<nat>)
    requires AllData(cs) && cs != []
    ensures Content(g, d, cs) == Content(g, d, cs[..|cs| - 1]) + ClusterData(g, d, cs[|cs| - 1])
  {
    hide ClusterData, Geometry.ClusterBytes;
  }

  lemma LastReplaced(front: seq<byte>, last: seq<byte>, b: seq<byte>)
    ensures (front + last)[..|front|] + b + (front + last)[|front| + |last|..] == front + b
  {
    assert (front + last)[..|front|] == front && (front + last)[|front| + |last|..] == [];
  }

  lemma FrontReplaced(front: seq<byte>, last: seq<byte>, at: nat, w: nat, b: seq<byte>)
    requires at + w <= |front|
    ensures front[..at] + b + front[at + w..] + last == (front + last)[..at] + b + (front + last)[at + w..]
  {
    assert (front + last)[..at] == front[..at];
    assert (front + last)[at + w..] == front[at + w..] + last;
  }
}
