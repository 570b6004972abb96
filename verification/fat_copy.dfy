/** The rounds in which the driver copies a stretch of a file, one cluster each: fs/fat/myos_fat32.c. */
module FatCopy {
  import opened Arith
  import opened FatChains
  import opened FatDisk

  /** The number of the cluster of a file that holds a position. */
  function ClusterIndex(position: nat, bpc: nat): nat { if bpc == 0 then 0 else position / bpc }

  /** How far into its cluster a position is. */
  function Offset(position: nat, bpc: nat): nat { if bpc == 0 then 0 else position % bpc }

  lemma IndexBound(position: nat, bpc: nat, n: nat)
    requires bpc > 0 && position <= n * bpc
    ensures 0 <= position / bpc <= n
    ensures position / bpc < n <==> position < n * bpc
    ensures position / bpc + 1 == n <==> (n - 1) * bpc <= position < n * bpc
    ensures position == position / bpc * bpc + position % bpc && 0 <= position % bpc < bpc
  {
    IndexAt(position, bpc, n, position / bpc, position % bpc);
  }

  lemma IndexAt(position: nat, bpc: nat, n: nat, q: nat, r: nat)
    requires position <= n * bpc && position == bpc * q + r && r < bpc
    ensures q <= n && (q < n <==> position < n * bpc) && (q + 1 == n <==> (n - 1) * bpc <= position < n * bpc)
    ensures position == q * bpc + r
  {
    MulSign(bpc, n - q);
    MulSign(bpc, n - 1 - q);
    assert bpc * (n - q) == n * bpc - bpc * q;
    assert bpc * (n - 1 - q) == (n - 1) * bpc - bpc * q;
  }

  lemma IndexInside(position: nat, bpc: nat, n: nat)
    requires bpc > 0 && position <= n * bpc
    ensures ClusterIndex(position, bpc) <= n && Offset(position, bpc) < bpc
    ensures position == ClusterIndex(position, bpc) * bpc + Offset(position, bpc)
    ensures ClusterIndex(position, bpc) < n <==> position < n * bpc
  {
    IndexBound(position, bpc, n);
  }

  lemma OffsetBound(position: nat, bpc: nat)
    requires bpc > 0
    ensures Offset(position, bpc) < bpc
  {
  }

  lemma LaterCluster(x: nat, bpc: nat, k: nat)
    requires bpc > 0 && x >= (k + 1) * bpc
    ensures ClusterIndex(x, bpc) > k
  {
    var q := x / bpc;
    assert x == bpc * q + x % bpc;
    MulSign(bpc, k + 1 - q);
    assert bpc * (k + 1 - q) == (k + 1) * bpc - bpc * q;
  }

  lemma OffsetZero(bpc: nat)
    requires bpc > 0
    ensures Offset(0, bpc) == 0 && ClusterIndex(0, bpc) == 0
  {
    DivIs(0, bpc, 0, 0);
  }

  lemma PastIndex(position: nat, bpc: nat, n: nat)
    requires bpc > 0 && position == n * bpc
    ensures ClusterIndex(position, bpc) == n && Offset(position, bpc) == 0
  {
    DivIs(position, bpc, n, 0);
  }

  /** Where the r-th round of a copy loop begins that starts `offset` bytes into a cluster. */
  function RoundStart(bpc: nat, offset: nat, r: nat): int {
    if r == 0 then 0 else r * bpc - offset
  }

  lemma RoundsGrow(bpc: nat, offset: nat, r: nat, n: nat)
    requires r <= n && offset <= bpc
    ensures 0 <= RoundStart(bpc, offset, r) <= RoundStart(bpc, offset, n)
    ensures RoundStart(bpc, offset, r + 1) == RoundStart(bpc, offset, r) + if r == 0 then bpc - offset else bpc
  {
    MulNext(r, bpc);
    if bpc > 0 {
      MulSign(bpc, r);
      MulSign(bpc, n - r);
    }
    assert bpc * (n - r) == n * bpc - r * bpc;
  }

  lemma RoundZero(bpc: nat, offset: nat, n: nat)
    requires offset <= bpc
    ensures RoundStart(bpc, offset, 0) == 0 <= RoundStart(bpc, offset, n)
  {
    RoundsGrow(bpc, offset, 0, n);
  }

  /** Every round that `count` bytes take comes before the one that fails. */
  predicate Reached(g: Geometry, position: nat, count: nat, failAt: nat) {
    count <= RoundStart(g.ClusterBytes(), Offset(position, g.ClusterBytes()), failAt)
  }

  /** How a copy loop ended: `done` bytes went through before the round that failed, if one did. */
  ghost predicate Ended(bpc: nat, offset: nat, done: nat, remaining: nat, failAt: nat) {
    && done <= RoundStart(bpc, offset, failAt)
    && (remaining > 0 ==> done == RoundStart(bpc, offset, failAt))
  }

  lemma EndedIs(bpc: nat, offset: nat, done: nat, remaining: nat, failAt: nat)
    requires done <= RoundStart(bpc, offset, failAt)
    requires remaining > 0 ==> done == RoundStart(bpc, offset, failAt)
    ensures Ended(bpc, offset, done, remaining, failAt)
  {
  }

  lemma CopyEnded(g: Geometry, position: nat, done: nat, remaining: nat, failAt: nat)
    requires Ended(g.ClusterBytes(), Offset(position, g.ClusterBytes()), done, remaining, failAt)
    ensures remaining == 0 <==> Reached(g, position, done + remaining, failAt)
    ensures remaining > 0 ==> done == RoundStart(g.ClusterBytes(), Offset(position, g.ClusterBytes()), failAt)
  {
    hide RoundStart, Offset, Geometry.ClusterBytes;
  }

  /** Cluster number `k` of a file begins at byte `at`. */
  ghost predicate ClusterAt(g: Geometry, k: nat, at: nat) {
    at == k * g.ClusterBytes()
  }

  lemma ClusterNext(g: Geometry, n: nat, cap: nat, k: nat, at: nat)
    requires ClusterAt(g, n, cap) && ClusterAt(g, k, at) && at + g.ClusterBytes() < cap
    ensures k + 1 < n && ClusterAt(g, k + 1, at + g.ClusterBytes())
  {
    var b := g.ClusterBytes();
    MulNext(k, b);
    if b > 0 { MulSign(b, n - k - 1); }
    assert b * (n - k - 1) == cap - at - b;
  }

  lemma ChainLink(t: Table, cs: seq<nat>, k: nat)
    requires IsChain(t, cs) && k + 1 < |cs|
    ensures cs[k] < |t| && t[cs[k]] == cs[k + 1]
  {
  }

  lemma ChainContent(g: Geometry, d: Disk, cs: seq<nat>, index: nat, at: nat)
    requires g.Fits(d) && IsChain(TableOf(g, d), cs) && at == index * g.ClusterBytes()
    ensures AllData(cs) && |Content(g, d, cs)| == |cs| * g.ClusterBytes()
    ensures ClusterAt(g, index, at)
  {
  }

  /** `buf` holds the bytes from `lo` to `hi`. */
  ghost predicate Copied(bytes: seq<byte>, lo: nat, hi: nat, buf: seq<byte>) {
    lo <= hi <= |bytes| && buf == bytes[lo..hi]
  }

  lemma CopyStart(g: Geometry, d: Disk, cs: seq<nat>, lo: nat)
    requires g.Fits(d) && IsChain(TableOf(g, d), cs) && lo <= |Content(g, d, cs)|
    ensures ClusterAt(g, |cs|, |Content(g, d, cs)|)
    ensures Copied(Content(g, d, cs), lo, lo, [])
    ensures AllData(cs)
  {
  }

  lemma CopyRound(g: Geometry, d: Disk, cs: seq<nat>, k: nat, at: nat, lo: nat,
                  buf: seq<byte>, offset: nat, length: nat)
    requires AllData(cs)
    requires Copied(Content(g, d, cs), lo, at + offset, buf) && (k < |cs| || length == 0)
    requires ClusterAt(g, k, at) && offset + length <= g.ClusterBytes()
    ensures k < |cs| ==> Copied(Content(g, d, cs), lo, at + offset + length,
                                buf + ClusterData(g, d, cs[k])[offset..offset + length])
  {
    hide Content, ClusterData;
    if k < |cs| {
      ContentSlice(g, d, cs, k, at, offset, offset + length);
      var s := Content(g, d, cs);
      assert s[lo..at + offset] + s[at + offset..at + offset + length] == s[lo..at + offset + length];
    }
  }

  lemma CopiedIs(bytes: seq<byte>, lo: nat, hi: nat, buf: seq<byte>)
    requires Copied(bytes, lo, hi, buf)
    ensures lo <= hi <= |bytes| && buf == bytes[lo..hi]
  {
  }

  // ---------------------------------------------------------------- data that goes around one cluster

  /** `b` after the first n bytes of `data` were put into it one by one, from `position` on and around
      its end. */
  function Poured(b: seq<byte>, position: nat, data: seq<byte>, n: nat): (r: seq<byte>)
    requires |b| > 0 && n <= |data|
    ensures |r| == |b|
  {
    if n == 0 then b else Poured(b, position, data, n - 1)[(position + n - 1) % |b| := data[n - 1]]
  }

  lemma PouredNone(b: seq<byte>, position: nat, data: seq<byte>)
    requires |b| > 0
    ensures Poured(b, position, data, 0) == b
  {
  }

  /** Byte i of data that begins at `position` falls on byte x of a cluster of w bytes. */
  predicate FallsOn(position: nat, i: nat, w: nat, x: nat)
    requires w > 0
  {
    (position + i) % w == x
  }

  /** Byte i is the last of n that falls on byte x. */
  ghost predicate FallsLast(position: nat, i: nat, n: nat, w: nat, x: nat)
    requires w > 0
  {
    i < n && FallsOn(position, i, w, x) && forall j: nat :: i < j < n ==> !FallsOn(position, j, w, x)
  }

  ghost predicate NoneFalls(position: nat, n: nat, w: nat, x: nat)
    requires w > 0
  {
    forall i: nat :: i < n ==> !FallsOn(position, i, w, x)
  }

  /** Every byte of a cluster is the last of the n bytes that fall on it, and its old value if none does. */
  ghost predicate LastWins(was: seq<byte>, now: seq<byte>, position: nat, data: seq<byte>, n: nat) {
    && 0 < |was| == |now| && n <= |data|
    && forall x: nat :: x < |was| ==>
         && (forall i: nat :: FallsLast(position, i, n, |was|, x) ==> now[x] == data[i])
         && (NoneFalls(position, n, |was|, x) ==> now[x] == was[x])
  }

  lemma {:induction false} PouredByte(b: seq<byte>, position: nat, data: seq<byte>, n: nat, x: nat)
    requires x < |b| && n <= |data|
    ensures forall i: nat :: FallsLast(position, i, n, |b|, x) ==> Poured(b, position, data, n)[x] == data[i]
    ensures NoneFalls(position, n, |b|, x) ==> Poured(b, position, data, n)[x] == b[x]
  {
    if n > 0 {
      PouredByte(b, position, data, n - 1, x);
      if FallsOn(position, n - 1, |b|, x) {
        assert forall i: nat :: FallsLast(position, i, n, |b|, x) ==> i == n - 1;
      } else {
        assert forall i: nat :: FallsLast(position, i, n, |b|, x) ==> FallsLast(position, i, n - 1, |b|, x);
        assert NoneFalls(position, n, |b|, x) ==> NoneFalls(position, n - 1, |b|, x);
      }
    }
  }

  lemma {:induction false} SomeFallsLast(position: nat, n: nat, w: nat, x: nat)
    requires w > 0 && !NoneFalls(position, n, w, x)
    ensures exists i: nat :: FallsLast(position, i, n, w, x)
  {
    if FallsOn(position, n - 1, w, x) {
      assert FallsLast(position, n - 1, n, w, x);
    } else {
      SomeFallsLast(position, n - 1, w, x);
      var i: nat :| FallsLast(position, i, n - 1, w, x);
      assert FallsLast(position, i, n, w, x);
    }
  }

  /** That is what pouring does, and nothing else. */
  lemma PouredIs(was: seq<byte>, now: seq<byte>, position: nat, data: seq<byte>, n: nat)
    requires 0 < |was| && n <= |data|
    ensures now == Poured(was, position, data, n) <==> LastWins(was, now, position, data, n)
  {
    hide Poured, FallsOn;
    var p := Poured(was, position, data, n);
    forall x: nat | x < |was|
      ensures forall i: nat :: FallsLast(position, i, n, |was|, x) ==> p[x] == data[i]
      ensures NoneFalls(position, n, |was|, x) ==> p[x] == was[x]
    {
      PouredByte(was, position, data, n, x);
    }
    if LastWins(was, now, position, data, n) {
      forall x: nat | x < |was|
        ensures now[x] == p[x]
      {
        if !NoneFalls(position, n, |was|, x) { SomeFallsLast(position, n, |was|, x); }
      }
    }
  }

  /** Of more bytes than the cluster holds only the last ones stay, each byte one of them. */
  lemma OnlyLastStay(was: seq<byte>, now: seq<byte>, position: nat, data: seq<byte>, n: nat, x: nat)
    requires LastWins(was, now, position, data, n) && x < |was| <= n
    ensures exists i: nat :: n - |was| <= i < n && FallsOn(position, i, |was|, x) && now[x] == data[i]
  {
    var w := |was|;
    var k: nat := if position % w <= x then x - position % w else x + w - position % w;
    DivIs(position + k, w, position / w + (if position % w <= x then 0 else 1), x);
    assert FallsOn(position, k, w, x);
    SomeFallsLast(position, n, w, x);
    var i: nat :| FallsLast(position, i, n, w, x);
    TurnOn(position + i, w, x);
    assert FallsOn(position, i + w, w, x);
  }

  lemma TurnOn(y: nat, w: nat, x: nat)
    requires w > 0 && y % w == x
    ensures (y + w) % w == x
  {
    DivIs(y + w, w, y / w + 1, x);
  }

  /** A stretch that does not reach the end of the cluster is laid over it. */
  lemma {:induction false} PourRound(b: seq<byte>, position: nat, data: seq<byte>, done: nat, offset: nat, length: nat)
    requires |b| > 0 && done + length <= |data| && (position + done) % |b| == offset && offset + length <= |b|
    ensures Overlay(Poured(b, position, data, done), offset, data[done..done + length]) ==
            Poured(b, position, data, done + length)
  {
    var p := Poured(b, position, data, done);
    if length == 0 {
      assert data[done..done + length] == [];
      assert p[..offset] + [] + p[offset..] == p;
    } else {
      hide Overlay, Poured;
      PourRound(b, position, data, done, offset, length - 1);
      SamePlace(position + done, |b|, offset, length - 1);
      PouredNext(b, position, data, done + length - 1, offset + length - 1);
      OverlayNext(p, offset, data[done..done + length - 1], data[done + length - 1]);
      assert data[done..done + length - 1] + [data[done + length - 1]] == data[done..done + length];
    }
  }

  lemma PouredNext(b: seq<byte>, position: nat, data: seq<byte>, n: nat, at: nat)
    requires n < |data| && at < |b| && (position + n) % |b| == at
    ensures Poured(b, position, data, n + 1) == Poured(b, position, data, n)[at := data[n]]
  {
  }

  lemma SamePlace(x: nat, w: nat, offset: nat, k: nat)
    requires w > 0 && x % w == offset && offset + k < w
    ensures (x + k) % w == offset + k
  {
    DivIs(x + k, w, x / w, offset + k);
  }

  lemma OverlayNext(b: seq<byte>, offset: nat, chunk: seq<byte>, c: byte)
    requires offset + |chunk| < |b|
    ensures Overlay(b, offset, chunk + [c]) == Overlay(b, offset, chunk)[offset + |chunk| := c]
  {
  }
}
