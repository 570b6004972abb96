/** What drivers/base/map.c keeps in its buckets, as values: intervals of device numbers, the buckets
    they are entered in, and the search for the tightest interval. */
module KobjRanges {
  import opened Arith
  import opened Common

  const DEVICES := TWO32
  const BUCKETS := 255

  /** An entry: `range` numbers from `dev` on, and the probe function with its data. */
  datatype Probe = Probe(dev: nat, range: nat, get: nat) {
    predicate Typed() { dev < DEVICES && range < U64 }

    /** dev + range - 1 in 64 bits. */
    function Last(): nat { (dev + range - 1) % U64 }

    predicate Contains(d: nat) { dev <= d <= Last() }

    predicate Matches(d: nat, r: nat) { dev == d && range == r }

    /** How many buckets it is entered in, from that of its major number on: the difference of the
        major numbers, in 32 bits, but at most all of them. */
    function Spread(): nat {
      var n := (Major(Last()) - Major(dev) + 1) % DEVICES;
      if n > BUCKETS then BUCKETS else n
    }

    predicate In(bucket: int) { Within(bucket, dev, Spread()) }
  }

  /** What an interval contains: its `range` numbers from `dev` on, nothing when they pass the 64th bit.
      An empty one contains nothing but at 0, where it contains everything. */
  lemma ContainsWhat(p: Probe, d: nat)
    requires p.Typed() && d < U64
    ensures 0 < p.range && p.dev + p.range <= U64 ==> (p.Contains(d) <==> p.dev <= d < p.dev + p.range)
    ensures p.dev + p.range > U64 ==> !p.Contains(d)
    ensures p.range == 0 ==> (p.Contains(d) <==> p.dev == 0)
  {
    var last := p.dev + p.range - 1;
    DivIs(last, U64, if last < 0 then -1 else if last < U64 then 0 else 1, p.Last());
  }

  /** The base entry answers for every number but 0. */
  lemma BaseContains(get: nat, d: nat)
    requires d < DEVICES
    ensures Base(get).Contains(d) <==> d != 0
  {
    ContainsWhat(Base(get), d);
  }

  /** The bucket is one of the first n from that of `dev` on. */
  predicate Within(bucket: int, dev: nat, n: nat) { (bucket - Major(dev)) % BUCKETS < n }

  /** The major number of a device number; a 64-bit one is cut to 32 bits. */
  function Major(dev: nat): nat { dev / 0x10_0000 % DEVICES }

  function Bucket(dev: nat): (b: nat)
    ensures b < BUCKETS
  {
    Major(dev) % BUCKETS
  }

  function Base(get: nat): Probe { Probe(1, U64 - 1, get) }

  // ---------------------------------------------------------------- one bucket

  function Insert(bucket: seq<Probe>, p: Probe): seq<Probe> {
    if bucket == [] || bucket[0].range >= p.range then [p] + bucket
    else [bucket[0]] + Insert(bucket[1..], p)
  }

  function Remove(bucket: seq<Probe>, dev: nat, range: nat): seq<Probe> {
    if bucket == [] then []
    else if bucket[0].Matches(dev, range) then bucket[1..]
    else [bucket[0]] + Remove(bucket[1..], dev, range)
  }

  predicate Sorted(bucket: seq<Probe>) {
    forall i, j :: 0 <= i < j < |bucket| ==> bucket[i].range <= bucket[j].range
  }

  /** The position the search for `range` stops at. */
  predicate Stops(bucket: seq<Probe>, range: nat, k: nat) {
    && k <= |bucket|
    && (forall i :: 0 <= i < k ==> bucket[i].range < range)
    && (k < |bucket| ==> bucket[k].range >= range)
  }

  lemma {:induction false} InsertAt(bucket: seq<Probe>, p: Probe, k: nat)
    requires Stops(bucket, p.range, k)
    ensures Insert(bucket, p) == bucket[..k] + [p] + bucket[k..]
  {
    if k > 0 {
      var rest := bucket[1..];
      InsertAt(rest, p, k - 1);
      assert bucket[..k] == [bucket[0]] + rest[..k - 1] && bucket[k..] == rest[k - 1..];
    }
  }

  lemma {:induction false} RemoveAt(bucket: seq<Probe>, dev: nat, range: nat, k: nat)
    requires k < |bucket| && bucket[k].Matches(dev, range)
    requires forall i :: 0 <= i < k ==> !bucket[i].Matches(dev, range)
    ensures Remove(bucket, dev, range) == bucket[..k] + bucket[k + 1..]
  {
    if k > 0 {
      var rest := bucket[1..];
      RemoveAt(rest, dev, range, k - 1);
      assert bucket[..k] == [bucket[0]] + rest[..k - 1] && bucket[k + 1..] == rest[k..];
    }
  }

  lemma {:induction false} RemoveNone(bucket: seq<Probe>, dev: nat, range: nat)
    requires forall i :: 0 <= i < |bucket| ==> !bucket[i].Matches(dev, range)
    ensures Remove(bucket, dev, range) == bucket
  {
    if bucket != [] {
      RemoveNone(bucket[1..], dev, range);
    }
  }

  lemma {:induction false} InsertSorted(bucket: seq<Probe>, p: Probe)
    requires Sorted(bucket)
    ensures Sorted(Insert(bucket, p))
    ensures forall q :: q in Insert(bucket, p) <==> q == p || q in bucket
  {
    if !(bucket == [] || bucket[0].range >= p.range) {
      var rest := bucket[1..];
      InsertSorted(rest, p);
      assert forall q :: q in rest ==> bucket[0].range <= q.range;
      assert forall q :: q in bucket <==> q == bucket[0] || q in rest;
    }
  }

  /** Entering a new interval and withdrawing another commute. */
  lemma {:induction false} InsertRemove(bucket: seq<Probe>, p: Probe, dev: nat, range: nat)
    requires Sorted(bucket) && !p.Matches(dev, range)
    ensures Remove(Insert(bucket, p), dev, range) == Insert(Remove(bucket, dev, range), p)
  {
    if bucket != [] {
      var rest := bucket[1..];
      if bucket[0].range >= p.range {
        assert Insert(bucket, p)[1..] == bucket;
        if bucket[0].Matches(dev, range) && rest != [] {
          assert rest[0] == bucket[1];
        }
      } else {
        assert Insert(bucket, p)[1..] == Insert(rest, p);
        if !bucket[0].Matches(dev, range) {
          InsertRemove(rest, p, dev, range);
          assert Remove(bucket, dev, range)[1..] == Remove(rest, dev, range);
        }
      }
    }
  }

  /** Withdrawing what was entered last gives the bucket back. */
  lemma {:induction false} InsertThenRemove(bucket: seq<Probe>, p: Probe)
    ensures Remove(Insert(bucket, p), p.dev, p.range) == bucket
  {
    if bucket == [] || bucket[0].range >= p.range {
      assert Insert(bucket, p)[1..] == bucket;
    } else {
      InsertThenRemove(bucket[1..], p);
      assert Insert(bucket, p)[1..] == Insert(bucket[1..], p);
    }
  }

  // ---------------------------------------------------------------- all live registrations

  /** What bucket b must hold for the live registrations, newest first. */
  function BucketOf(regs: seq<Probe>, base: Probe, b: nat): seq<Probe> {
    if regs == [] then [base]
    else
      var rest := BucketOf(regs[1..], base, b);
      if regs[0].In(b) then Insert(rest, regs[0]) else rest
  }

  /** Every bucket is sorted by range and ends in the base entry. */
  lemma {:induction false} BucketShape(regs: seq<Probe>, base: Probe, b: nat)
    requires base.range == U64 - 1 && forall p :: p in regs ==> p.Typed()
    ensures var s := BucketOf(regs, base, b);
            Sorted(s) && |s| > 0 && s[|s| - 1] == base
  {
    if regs != [] {
      BucketShape(regs[1..], base, b);
      var rest := BucketOf(regs[1..], base, b);
      assert regs[0] in regs;
      InsertSorted(rest, regs[0]);
      InsertKeepsLast(rest, regs[0]);
    }
  }

  lemma {:induction false} InsertKeepsLast(bucket: seq<Probe>, p: Probe)
    requires bucket != [] && p.range <= bucket[|bucket| - 1].range
    ensures var s := Insert(bucket, p);
            |s| == |bucket| + 1 && s[|s| - 1] == bucket[|bucket| - 1]
  {
    if bucket[0].range < p.range {
      InsertKeepsLast(bucket[1..], p);
    }
  }

  /** No call ever reaches the base entry: the one interval equal to it is entered nowhere. */
  lemma BaseIsOutOfReach(p: Probe, get: nat, b: int)
    requires p.Typed() && Base(get).Matches(p.dev, p.range)
    ensures !p.In(b)
  {
    assert p.Last() == U64 - 1;
    assert Major(U64 - 1) == DEVICES - 1 && Major(1) == 0;
  }

  /** Withdrawing an interval from its buckets is withdrawing its newest registration. */
  lemma {:induction false} RemoveFromBucket(regs: seq<Probe>, base: Probe, b: nat, key: Probe)
    requires base.range == U64 - 1 && forall p :: p in regs ==> p.Typed()
    requires !base.Matches(key.dev, key.range) || !key.In(b)
    ensures BucketOf(Remove(regs, key.dev, key.range), base, b) ==
            if key.In(b) then Remove(BucketOf(regs, base, b), key.dev, key.range) else BucketOf(regs, base, b)
  {
    if regs == [] {
      assert BucketOf(regs, base, b) == [base];
    } else {
      var p, rest := regs[0], BucketOf(regs[1..], base, b);
      RemoveFromBucket(regs[1..], base, b, key);
      BucketShape(regs[1..], base, b);
      if p.Matches(key.dev, key.range) {
        assert p.In(b) == key.In(b);
        InsertThenRemove(rest, p);
      } else {
        assert Remove(regs, key.dev, key.range)[1..] == Remove(regs[1..], key.dev, key.range);
        InsertRemove(rest, p, key.dev, key.range);
      }
    }
  }

  // ---------------------------------------------------------------- lookup

  /** The first entry of a bucket that contains the number. */
  function FirstWith(bucket: seq<Probe>, dev: nat): Option<Probe> {
    if bucket == [] then None
    else if bucket[0].Contains(dev) then Some(bucket[0])
    else FirstWith(bucket[1..], dev)
  }

  /** Brute force over all registrations: the smallest interval that contains the number, the newest
      of equals. */
  function Tightest(regs: seq<Probe>, base: Probe, dev: nat): Option<Probe> {
    if regs == [] then if base.Contains(dev) then Some(base) else None
    else
      var rest := Tightest(regs[1..], base, dev);
      if regs[0].Contains(dev) && (rest.None? || regs[0].range <= rest.value.range) then Some(regs[0]) else rest
  }

  /** `r` contains the number, nothing that contains it is smaller, and nothing newer is as small. */
  ghost predicate IsTightest(regs: seq<Probe>, base: Probe, dev: nat, r: Option<Probe>) {
    var all := regs + [base];
    if r.None? then forall p :: p in all ==> !p.Contains(dev)
    else exists i :: 0 <= i < |all| && BestAt(all, dev, i) && all[i] == r.value
  }

  ghost predicate BestAt(all: seq<Probe>, dev: nat, i: nat) {
    && i < |all| && all[i].Contains(dev)
    && (forall j :: 0 <= j < i && all[j].Contains(dev) ==> all[i].range < all[j].range)
    && forall j :: i < j < |all| && all[j].Contains(dev) ==> all[i].range <= all[j].range
  }

  lemma {:induction false} TightestIs(regs: seq<Probe>, base: Probe, dev: nat)
    ensures IsTightest(regs, base, dev, Tightest(regs, base, dev))
  {
    if regs == [] {
      assert base.Contains(dev) ==> BestAt(regs + [base], dev, 0);
    } else {
      TightestIs(regs[1..], base, dev);
      TightestNext(regs[0], regs[1..], base, dev, Tightest(regs[1..], base, dev));
      assert [regs[0]] + regs[1..] == regs;
    }
  }

  lemma TightestNext(p: Probe, rest: seq<Probe>, base: Probe, dev: nat, r: Option<Probe>)
    requires IsTightest(rest, base, dev, r)
    ensures IsTightest([p] + rest, base, dev,
                       if p.Contains(dev) && (r.None? || p.range <= r.value.range) then Some(p) else r)
  {
    var all, more := rest + [base], [p] + rest + [base];
    assert more == [p] + all && more[0] == p;
    if r.None? {
      assert forall q :: q in more ==> q == p || q in all;
      assert forall j :: 0 < j < |more| ==> more[j] in all;
      assert p.Contains(dev) ==> BestAt(more, dev, 0);
    } else {
      var i :| 0 <= i < |all| && BestAt(all, dev, i) && all[i] == r.value;
      assert forall j :: 0 < j < |more| ==> more[j] == all[j - 1];
      assert if p.Contains(dev) && p.range <= r.value.range then BestAt(more, dev, 0) else BestAt(more, dev, i + 1);
    }
  }

  lemma {:induction false} FirstWithInsert(bucket: seq<Probe>, p: Probe, dev: nat)
    requires Sorted(bucket)
    ensures var first := FirstWith(bucket, dev);
            FirstWith(Insert(bucket, p), dev) ==
            if p.Contains(dev) && (first.None? || p.range <= first.value.range) then Some(p) else first
  {
    if bucket != [] {
      if bucket[0].range >= p.range {
        assert Insert(bucket, p)[1..] == bucket;
        FirstWithIn(bucket, dev);
      } else {
        FirstWithInsert(bucket[1..], p, dev);
        assert Insert(bucket, p)[1..] == Insert(bucket[1..], p);
      }
    }
  }

  lemma {:induction false} FirstWithIn(bucket: seq<Probe>, dev: nat)
    ensures var first := FirstWith(bucket, dev);
            first.Some? ==> first.value in bucket && first.value.Contains(dev)
  {
    if bucket != [] && !bucket[0].Contains(dev) {
      FirstWithIn(bucket[1..], dev);
    }
  }

  lemma {:induction false} FirstWithAt(bucket: seq<Probe>, dev: nat, k: nat)
    requires k <= |bucket| && forall i :: 0 <= i < k ==> !bucket[i].Contains(dev)
    requires k < |bucket| ==> bucket[k].Contains(dev)
    ensures FirstWith(bucket, dev) == if k < |bucket| then Some(bucket[k]) else None
  {
    if k > 0 {
      FirstWithAt(bucket[1..], dev, k - 1);
    }
  }

  /** Every number of the interval has its bucket among those the interval is entered in. */
  ghost predicate Reaches(p: Probe) {
    forall d: nat :: d < DEVICES && p.Contains(d) ==> p.In(Bucket(d))
  }

  /** The bucket agrees with brute force over all registrations. */
  lemma {:induction false} BucketFindsTightest(regs: seq<Probe>, base: Probe, dev: nat)
    requires base.range == U64 - 1 && dev < DEVICES
    requires forall p :: p in regs ==> p.Typed() && Reaches(p)
    ensures FirstWith(BucketOf(regs, base, Bucket(dev)), dev) == Tightest(regs, base, dev)
  {
    var b := Bucket(dev);
    if regs == [] {
      assert BucketOf(regs, base, b) == [base];
      assert FirstWith([base][1..], dev) == None;
    } else {
      BucketFindsTightest(regs[1..], base, dev);
      BucketShape(regs[1..], base, b);
      FirstWithInsert(BucketOf(regs[1..], base, b), regs[0], dev);
      assert regs[0] in regs && (regs[0].Contains(dev) ==> regs[0].In(b));
    }
  }

  /** Which intervals reach all their numbers: those that contain none, and those whose spread, cut
      to 32 bits as it is, still counts the major numbers they span. */
  predicate SpreadSuffices(p: Probe) {
    || p.Last() < p.dev
    || p.Spread() == BUCKETS
    || p.Spread() >= Major(Min(p.Last(), DEVICES - 1)) - Major(p.dev) + 1
  }

  lemma ReachesExactly(p: Probe)
    requires p.Typed()
    ensures Reaches(p) <==> SpreadSuffices(p)
  {
    if SpreadSuffices(p) {
      forall d: nat | d < DEVICES && p.Contains(d)
        ensures p.In(Bucket(d))
      {
        SpreadReaches(p, d);
      }
    } else {
      MissedNumber(p);
    }
  }

  lemma SpreadReaches(p: Probe, d: nat)
    requires p.Typed() && SpreadSuffices(p) && d < DEVICES && p.Contains(d)
    ensures p.In(Bucket(d))
  {
    var m, n := Major(p.dev), Major(d);
    MajorMonotone(p.dev, d);
    MajorMonotone(d, Min(p.Last(), DEVICES - 1));
    assert Bucket(d) == n % BUCKETS;
    BucketDistance(m, n - m);
    hide Major, Bucket;
    if p.Spread() == BUCKETS {
    } else {
      assert n - m < p.Spread();
    }
  }

  lemma MajorMonotone(d: nat, e: nat)
    requires d <= e < DEVICES
    ensures Major(d) <= Major(e)
  {
  }

  lemma WithinNext(b: nat, dev: nat, n: nat)
    requires n < BUCKETS && b < BUCKETS
    ensures Within(b, dev, n + 1) <==> Within(b, dev, n) || b == (Major(dev) + n) % BUCKETS
    ensures !Within((Major(dev) + n) % BUCKETS, dev, n)
  {
    hide Major;
    BucketIs(b, Major(dev), n);
    BucketDistance(Major(dev), n);
    DivIs(n, BUCKETS, 0, n);
  }

  /** A bucket is n steps from m exactly when n steps from m lead to it. */
  lemma BucketIs(b: nat, m: nat, n: nat)
    requires n < BUCKETS && b < BUCKETS
    ensures (b - m) % BUCKETS == n <==> b == (m + n) % BUCKETS
  {
    if (b - m) % BUCKETS == n {
      DivIs(m + n, BUCKETS, -((b - m) / BUCKETS), b);
    }
    if b == (m + n) % BUCKETS {
      DivIs(b - m, BUCKETS, -((m + n) / BUCKETS), n);
    }
  }

  lemma BucketDistance(m: nat, k: nat)
    ensures ((m + k) % BUCKETS - m) % BUCKETS == k % BUCKETS
  {
    DivIs((m + k) % BUCKETS - m, BUCKETS, k / BUCKETS - (m + k) / BUCKETS, k % BUCKETS);
  }

  lemma MissedNumber(p: Probe)
    requires p.Typed() && !SpreadSuffices(p)
    ensures exists d: nat :: d < DEVICES && p.Contains(d) && !p.In(Bucket(d))
  {
    var m: int, k: int := Major(p.dev), p.Spread();
    var d: nat := if k == 0 then p.dev else (m + k) * 0x10_0000;
    BucketDistance(m, k);
    MissedIs(p, m, k, d);
    assert !p.In(Bucket(d));
  }

  lemma MissedIs(p: Probe, m: nat, k: nat, d: nat)
    requires p.Typed() && m == Major(p.dev) && d == if k == 0 then p.dev else (m + k) * 0x10_0000
    requires p.dev <= p.Last() && m + k <= Major(Min(p.Last(), DEVICES - 1))
    ensures d < DEVICES && p.Contains(d) && Major(d) == m + k
  {
  }

  /** Intervals of 32-bit device numbers are among them. */
  lemma DeviceRangesReach(p: Probe)
    requires p.Typed() && 0 < p.range && p.dev + p.range <= DEVICES
    ensures Reaches(p)
  {
    hide Reaches;
    ReachesExactly(p);
    assert SpreadSuffices(p) by { DeviceSpread(p); }
  }

  lemma DeviceSpread(p: Probe)
    requires p.Typed() && 0 < p.range && p.dev + p.range <= DEVICES
    ensures SpreadSuffices(p)
  {
    var last := p.dev + p.range - 1;
    DivIs(last, U64, 0, last);
    MajorMonotone(p.dev, last);
    MajorSmall(last);
    MajorSmall(p.dev);
    hide Major;
    assert p.Last() == last;
    var n := Major(last) - Major(p.dev) + 1;
    DivIs(n, DEVICES, 0, n);
  }

  lemma MajorSmall(d: nat)
    requires d < DEVICES
    ensures Major(d) < 0x1000
  {
  }

  /** An interval of 2^52 numbers reaches only one bucket: a lookup in the next one misses it. */
  lemma HugeRangeMissed()
    ensures var p := Probe(0, 0x10_0000_0000_0001, 7);
            !Reaches(p) && p.Contains(0x10_0000)
            && Tightest([p], Base(0), 0x10_0000) == Some(p)
            && FirstWith(BucketOf([p], Base(0), Bucket(0x10_0000)), 0x10_0000) == Some(Base(0))
  {
    var p, d := Probe(0, 0x10_0000_0000_0001, 7), 0x10_0000;
    assert p.Last() == 0x10_0000_0000_0000 && Major(p.Last()) == 0 && p.Spread() == 1;
    assert Bucket(d) == 1 && !p.In(1);
    assert [p][1..] == [] && BucketOf([], Base(0), 1) == [Base(0)];
  }

  /** An empty range that contains anything is entered nowhere. */
  lemma EmptyRange(p: Probe, dev: nat, b: int)
    requires p.Typed() && p.range == 0 && p.Contains(dev)
    ensures !p.In(b)
  {
    DivIs(p.dev - 1, U64, if p.dev == 0 then -1 else 0, if p.dev == 0 then U64 - 1 else p.dev - 1);
    assert p.dev == 0 && p.Last() == U64 - 1;
    assert Major(U64 - 1) == DEVICES - 1 && Major(0) == 0;
  }
}
