/** drivers/base/map.c: 255 linked buckets of entries that all end in one shared base node. */
module KobjMaps {
  import opened Common
  import opened KobjRanges

  class Node {
    const probe: Probe
    /** The bucket a node is linked into; the base node belongs to none. */
    ghost const home: int
    var next: Node?

    constructor (probe: Probe, ghost home: int, next: Node?)
      ensures this.probe == probe && this.home == home && this.next == next
    {
      this.probe, this.home, this.next := probe, home, next;
    }
  }

  ghost function Probes(nodes: seq<Node>): (ps: seq<Probe>)
    ensures |ps| == |nodes| && forall i :: 0 <= i < |ps| ==> ps[i] == nodes[i].probe
  {
    seq(|nodes|, i requires 0 <= i < |nodes| => nodes[i].probe)
  }

  /** Bucket b once the loops have done the first n buckets of an interval. */
  ghost function Entered(regs: seq<Probe>, base: Probe, p: Probe, b: nat, n: nat): seq<Probe> {
    if Within(b, p.dev, n) then Insert(BucketOf(regs, base, b), p) else BucketOf(regs, base, b)
  }

  ghost function Withdrawn(regs: seq<Probe>, base: Probe, key: Probe, b: nat, n: nat): seq<Probe> {
    if Within(b, key.dev, n) then Remove(BucketOf(regs, base, b), key.dev, key.range) else BucketOf(regs, base, b)
  }

  lemma EnteredNext(regs: seq<Probe>, base: Probe, p: Probe, b: nat, n: nat)
    requires b < BUCKETS && n < BUCKETS
    ensures Entered(regs, base, p, b, n + 1) ==
            if b == (Major(p.dev) + n) % BUCKETS then Insert(Entered(regs, base, p, b, n), p)
            else Entered(regs, base, p, b, n)
  {
    WithinNext(b, p.dev, n);
  }

  lemma WithdrawnNext(regs: seq<Probe>, base: Probe, key: Probe, b: nat, n: nat)
    requires b < BUCKETS && n < BUCKETS
    ensures Withdrawn(regs, base, key, b, n + 1) ==
            if b == (Major(key.dev) + n) % BUCKETS then Remove(Withdrawn(regs, base, key, b, n), key.dev, key.range)
            else Withdrawn(regs, base, key, b, n)
  {
    WithinNext(b, key.dev, n);
  }

  lemma EnteredAll(regs: seq<Probe>, base: Probe, p: Probe, b: nat)
    ensures Entered(regs, base, p, b, p.Spread()) == BucketOf([p] + regs, base, b)
  {
    assert ([p] + regs)[1..] == regs;
  }

  lemma WithdrawnAll(regs: seq<Probe>, base: Probe, key: Probe, b: nat)
    requires key.Typed() && base == Base(base.get) && forall p :: p in regs ==> p.Typed()
    ensures Withdrawn(regs, base, key, b, key.Spread()) == BucketOf(Remove(regs, key.dev, key.range), base, b)
  {
    BaseSafe(key, base, b);
    RemoveFromBucket(regs, base, b, key);
  }

  lemma ReachIsIn(p: Probe, i: nat)
    requires i < p.Spread()
    ensures p.In((Major(p.dev) + i) % BUCKETS)
  {
    hide Major;
    BucketDistance(Major(p.dev), i);
  }

  /** The number of buckets both loops visit. */
  method CountBuckets(p: Probe) returns (n: nat)
    ensures n == p.Spread() && n <= BUCKETS
  {
    n := (Major((p.dev + p.range - 1) % U64) - Major(p.dev) + 1) % DEVICES;
    if n > BUCKETS {
      n := BUCKETS;
    }
  }

  ghost predicate Distinct(l: seq<Node>) {
    forall i, j :: 0 <= i < j < |l| ==> l[i] != l[j]
  }

  lemma SplicedDistinct(l: seq<Node>, k: nat, n: Node)
    requires Distinct(l) && k <= |l| && n !in l
    ensures Distinct(l[..k] + [n] + l[k..])
  {
  }

  lemma CutDistinct(l: seq<Node>, k: nat)
    requires Distinct(l) && k < |l|
    ensures Distinct(l[..k] + l[k + 1..])
  {
  }

  class KobjMap {
    const heads: array<Node?>
    const base: Node
    /** The nodes of each bucket in order, and all of them together. */
    ghost var lists: seq<seq<Node>>
    ghost var nodes: set<Node>
    /** The live registrations, newest first. */
    ghost var regs: seq<Probe>

    /** Bucket b is a chain from its head to the base node, through nodes of its own. */
    ghost predicate Chained(b: int)
      requires |lists| == BUCKETS == heads.Length && 0 <= b < BUCKETS
      reads this`lists, this`nodes, heads, nodes
    {
      var l := lists[b];
      && |l| > 0 && heads[b] == l[0] && l[|l| - 1] == base
      && (forall i :: 0 <= i < |l| ==> l[i] in nodes && l[i].probe.Typed())
      && (forall i :: 0 <= i < |l| - 1 ==> l[i].home == b && l[i].next == l[i + 1])
      && Distinct(l)
    }

    ghost predicate Shape()
      reads this`lists, this`nodes, heads, nodes
    {
      && |lists| == BUCKETS == heads.Length
      && base in nodes && base.home == -1 && base.next == null && base.probe == Base(base.probe.get)
      && forall b :: 0 <= b < BUCKETS ==> Chained(b)
    }

    ghost function View(b: int): seq<Probe>
      requires 0 <= b < |lists|
      reads this`lists
    {
      Probes(lists[b])
    }

    /** The buckets are those of the live registrations. */
    ghost predicate Valid()
      reads this, heads, nodes
    {
      && Shape() && (forall p :: p in regs ==> p.Typed())
      && forall b :: 0 <= b < BUCKETS ==> View(b) == BucketOf(regs, base.probe, b)
    }

    /** kobj_map_init. */
    constructor (get: nat)
      ensures Valid() && regs == [] && base.probe == Base(get) && fresh(nodes) && fresh(heads)
    {
      var node := new Node(Base(get), -1, null);
      base, nodes, regs := node, {node}, [];
      heads := new Node?[BUCKETS];
      lists := seq(BUCKETS, _ => [node]);
      new;
      for i := 0 to BUCKETS
        invariant forall j :: 0 <= j < i ==> heads[j] == base
        modifies heads
      {
        heads[i] := base;
      }
    }

    /** The node the search for `range` stops at, the one before it, and their position. */
    method Find(b: nat, range: nat) returns (prev: Node?, cur: Node?, ghost k: nat)
      requires Shape() && b < BUCKETS && range < U64
      ensures k < |lists[b]| && cur == lists[b][k] && Stops(View(b), range, k)
      ensures if k == 0 then prev == null else prev == lists[b][k - 1]
    {
      ghost var l := lists[b];
      assert Chained(b);
      prev, cur, k := null, heads[b], 0;
      while cur != null && cur.probe.range < range
        invariant 0 <= k < |l| && cur == l[k]
        invariant if k == 0 then prev == null else prev == l[k - 1]
        invariant forall i :: 0 <= i < k ==> l[i].probe.range < range
        decreases |l| - k
      {
        assert l[k] != base;
        prev, cur := cur, cur.next;
        k := k + 1;
      }
    }

    /** Links a new node in front of the first one whose range is not smaller. */
    method Link(b: nat, p: Probe)
      requires Shape() && b < BUCKETS && p.Typed()
      modifies this`lists, this`nodes, heads, nodes
      ensures Shape() && fresh(nodes - old(nodes)) && old(nodes) <= nodes
      ensures forall c :: 0 <= c < BUCKETS ==> View(c) == if c == b then Insert(old(View(c)), p) else old(View(c))
    {
      hide Chained, Insert, Stops;
      ghost var l := lists[b];
      var prev, cur;
      ghost var k;
      prev, cur, k := Find(b, p.range);
      InsertAt(View(b), p, k);
      Splice(b, prev, cur, p, k);
      assert View(b) == Probes(l)[..k] + [p] + Probes(l)[k..];
    }

    method Splice(b: nat, prev: Node?, cur: Node?, p: Probe, ghost k: nat)
      requires Shape() && b < BUCKETS && p.Typed()
      requires k < |lists[b]| && cur == lists[b][k]
      requires if k == 0 then prev == null else prev == lists[b][k - 1]
      modifies this`lists, this`nodes, heads, nodes
      ensures Shape() && fresh(nodes - old(nodes)) && old(nodes) <= nodes
      ensures |lists[b]| == |old(lists[b])| + 1 && lists[b][k].probe == p
      ensures lists[b] == old(lists[b])[..k] + [lists[b][k]] + old(lists[b])[k..]
      ensures forall c :: 0 <= c < BUCKETS && c != b ==> lists[c] == old(lists[c])
    {
      ghost var l := lists[b];
      assert Chained(b);
      var node := new Node(p, b, cur);
      if prev == null {
        heads[b] := node;
      } else {
        prev.next := node;
      }
      lists := lists[b := l[..k] + [node] + l[k..]];
      nodes := nodes + {node};
      SplicedDistinct(l, k, node);
      assert Chained(b);
      forall c | 0 <= c < BUCKETS && c != b
        ensures Chained(c)
      {
        assert old(Chained(c));
      }
    }

    /** kobj_map. Allocation may fail. */
    method Map(dev: nat, range: nat, get: nat, memory: bool) returns (ok: bool)
      requires Valid() && dev < DEVICES && range < U64
      modifies this, heads, nodes
      ensures Valid() && fresh(nodes - old(nodes)) && ok == memory
      ensures regs == if ok then [Probe(dev, range, get)] + old(regs) else old(regs)
    {
      hide Chained, Entered, BucketOf, Base;
      var p := Probe(dev, range, get);
      var n := CountBuckets(p);
      if !memory {
        return false;
      }
      LinkAll(p, n);
      regs := [p] + regs;
      forall b | 0 <= b < BUCKETS
        ensures View(b) == BucketOf(regs, base.probe, b)
      {
        EnteredAll(old(regs), base.probe, p, b);
      }
      return true;
    }

    /** Its loop over the buckets. */
    method LinkAll(p: Probe, n: nat)
      requires Valid() && p.Typed() && n <= BUCKETS
      modifies this`lists, this`nodes, heads, nodes
      ensures Shape() && fresh(nodes - old(nodes))
      ensures forall b :: 0 <= b < BUCKETS ==> View(b) == Entered(regs, base.probe, p, b, n)
    {
      hide Chained, Insert;
      var index := Major(p.dev);
      for i := 0 to n
        invariant Shape() && index == Major(p.dev) + i && fresh(nodes - old(nodes))
        invariant forall b :: 0 <= b < BUCKETS ==> View(b) == Entered(regs, base.probe, p, b, i)
      {
        hide *;
        forall b | 0 <= b < BUCKETS
          ensures Entered(regs, base.probe, p, b, i + 1) ==
                  if b == index % BUCKETS then Insert(View(b), p) else View(b)
        {
          EnteredNext(regs, base.probe, p, b, i);
        }
        Link(index % BUCKETS, p);
        index := index + 1;
      }
    }

    /** The first node of a bucket with the given interval, the one before it, and their position. */
    method FindMatch(b: nat, dev: nat, range: nat) returns (prev: Node?, cur: Node?, ghost k: nat)
      requires Shape() && b < BUCKETS
      ensures k <= |lists[b]| && forall i :: 0 <= i < k ==> !View(b)[i].Matches(dev, range)
      ensures if k == |lists[b]| then cur == null else cur == lists[b][k] && View(b)[k].Matches(dev, range)
      ensures if k == 0 then prev == null else prev == lists[b][k - 1]
    {
      ghost var l := lists[b];
      assert Chained(b);
      prev, cur, k := null, heads[b], 0;
      while cur != null
        invariant 0 <= k <= |l| && if k == |l| then cur == null else cur == l[k]
        invariant if k == 0 then prev == null else prev == l[k - 1]
        invariant forall i :: 0 <= i < k ==> !l[i].probe.Matches(dev, range)
        decreases |l| - k
      {
        if cur.probe.dev == dev && cur.probe.range == range {
          break;
        }
        assert l[k] == base ==> k == |l| - 1;
        prev, cur := cur, cur.next;
        k := k + 1;
      }
    }

    method Cut(b: nat, prev: Node?, cur: Node, ghost k: nat)
      requires Shape() && b < BUCKETS
      requires k < |lists[b]| && cur == lists[b][k] && cur != base
      requires if k == 0 then prev == null else prev == lists[b][k - 1]
      modifies this`lists, heads, nodes
      ensures Shape()
      ensures lists[b] == old(lists[b])[..k] + old(lists[b])[k + 1..]
      ensures forall c :: 0 <= c < BUCKETS && c != b ==> lists[c] == old(lists[c])
    {
      ghost var l := lists[b];
      assert Chained(b);
      if prev == null {
        heads[b] := cur.next;
      } else {
        prev.next := cur.next;
      }
      lists := lists[b := l[..k] + l[k + 1..]];
      CutDistinct(l, k);
      assert Chained(b);
      forall c | 0 <= c < BUCKETS && c != b
        ensures Chained(c)
      {
        assert old(Chained(c));
      }
    }

    method Unlink(b: nat, dev: nat, range: nat)
      requires Shape() && b < BUCKETS && !base.probe.Matches(dev, range)
      modifies this`lists, heads, nodes
      ensures Shape()
      ensures forall c :: 0 <= c < BUCKETS ==>
                View(c) == if c == b then Remove(old(View(c)), dev, range) else old(View(c))
    {
      hide Chained, Remove;
      ghost var l := lists[b];
      var prev, cur;
      ghost var k;
      prev, cur, k := FindMatch(b, dev, range);
      if cur == null {
        RemoveNone(View(b), dev, range);
        return;
      }
      RemoveAt(View(b), dev, range, k);
      Cut(b, prev, cur, k);
      assert View(b) == Probes(l)[..k] + Probes(l)[k + 1..];
    }

    /** kobj_unmap. */
    method Unmap(dev: nat, range: nat)
      requires Valid() && dev < DEVICES && range < U64
      modifies this, heads, nodes
      ensures Valid() && nodes == old(nodes)
      ensures regs == Remove(old(regs), dev, range)
    {
      hide Chained, Withdrawn, Remove, BucketOf, Base;
      var key := Probe(dev, range, 0);
      var n := CountBuckets(key);
      UnlinkAll(key, n);
      regs := Remove(regs, dev, range);
      RemoveSubset(old(regs), dev, range);
      forall b | 0 <= b < BUCKETS
        ensures View(b) == BucketOf(regs, base.probe, b)
      {
        WithdrawnAll(old(regs), base.probe, key, b);
      }
    }

    /** Its loop over the buckets. */
    method UnlinkAll(key: Probe, n: nat)
      requires Valid() && key.Typed() && n == key.Spread()
      modifies this`lists, heads, nodes
      ensures Shape()
      ensures forall b :: 0 <= b < BUCKETS ==> View(b) == Withdrawn(regs, base.probe, key, b, n)
    {
      hide Chained, Remove;
      var index := Major(key.dev);
      for i := 0 to n
        invariant Shape() && index == Major(key.dev) + i
        invariant forall b :: 0 <= b < BUCKETS ==> View(b) == Withdrawn(regs, base.probe, key, b, i)
      {
        hide *;
        forall b | 0 <= b < BUCKETS
          ensures Withdrawn(regs, base.probe, key, b, i + 1) ==
                  if b == index % BUCKETS then Remove(View(b), key.dev, key.range) else View(b)
        {
          WithdrawnNext(regs, base.probe, key, b, i);
        }
        ReachIsIn(key, i);
        BaseSafe(key, base.probe, index % BUCKETS);
        Unlink(index % BUCKETS, key.dev, key.range);
        index := index + 1;
      }
    }

    /** One pass of kobj_lookup: the first entry that contains the number, if it beats `best`. */
    method Scan(dev: nat, best: nat) returns (found: Node?)
      requires Shape()
      ensures var first := FirstWith(View(Bucket(dev)), dev);
              if first.Some? && (first.value.range - 1) % U64 < best then found != null && found.probe == first.value
              else found == null
    {
      ghost var b := Bucket(dev);
      ghost var l, k := lists[b], 0;
      assert Chained(b);
      var p := heads[Major(dev) % BUCKETS];
      while p != null
        invariant 0 <= k <= |l| && if k == |l| then p == null else p == l[k]
        invariant forall i :: 0 <= i < k ==> !l[i].probe.Contains(dev)
        decreases |l| - k
      {
        if p.probe.dev > dev || (p.probe.dev + p.probe.range - 1) % U64 < dev {
          assert l[k] == base ==> k == |l| - 1;
          p := p.next;
          k := k + 1;
          continue;
        }
        break;
      }
      FirstWithAt(View(b), dev, k);
      if p != null && (p.probe.range - 1) % U64 < best {
        return p;
      }
      return null;
    }

    /** kobj_lookup, for probe functions that leave the map alone: `answer` is what an entry's probe
        function gives, `asked` the entries asked. */
    method Lookup(dev: nat, answer: Probe -> Option<nat>)
      returns (kobj: Option<nat>, index: int, asked: seq<Probe>)
      requires Valid() && dev < DEVICES
      ensures var first := FirstWith(BucketOf(regs, base.probe, Bucket(dev)), dev);
              if first.None? then kobj == None && asked == []
              else kobj == answer(first.value) && asked == [first.value] && index == dev - first.value.dev
      ensures (forall p :: p in regs ==> Reaches(p)) ==>
                var first := FirstWith(BucketOf(regs, base.probe, Bucket(dev)), dev);
                first == Tightest(regs, base.probe, dev) && IsTightest(regs, base.probe, dev, first)
    {
      hide Chained, BucketOf, Reaches, Tightest, IsTightest;
      if forall p :: p in regs ==> Reaches(p) {
        BucketFindsTightest(regs, base.probe, dev);
        TightestIs(regs, base.probe, dev);
      }
      ghost var first := FirstWith(View(Bucket(dev)), dev);
      EntryRanges(regs, base.probe, dev);
      var best := U64 - 1;
      kobj, index, asked := None, 0, [];
      while true
        invariant kobj == None
        invariant if asked == [] then best == U64 - 1 else
                  && first.Some? && asked == [first.value] && best == first.value.range - 1
                  && answer(first.value) == None && index == dev - first.value.dev
        decreases best
      {
        var p := Scan(dev, best);
        if p == null {
          return;
        }
        best := (p.probe.range - 1) % U64;
        index := dev - p.probe.dev;
        kobj := answer(p.probe);
        asked := asked + [p.probe];
        if kobj != None {
          return;
        }
      }
    }
  }

  lemma BaseSafe(key: Probe, base: Probe, b: int)
    requires key.Typed() && base == Base(base.get)
    ensures key.In(b) ==> !base.Matches(key.dev, key.range)
  {
    if base.Matches(key.dev, key.range) {
      BaseIsOutOfReach(key, base.get, b);
    }
  }

  lemma {:induction false} RemoveSubset(regs: seq<Probe>, dev: nat, range: nat)
    ensures forall p :: p in Remove(regs, dev, range) ==> p in regs
  {
    if regs != [] {
      RemoveSubset(regs[1..], dev, range);
    }
  }

  /** The entry a lookup stops at has a range that is not empty, so it beats the initial bound. */
  lemma EntryRanges(regs: seq<Probe>, base: Probe, dev: nat)
    requires base == Base(base.get) && forall p :: p in regs ==> p.Typed()
    ensures var first := FirstWith(BucketOf(regs, base, Bucket(dev)), dev);
            first.Some? ==> 0 < first.value.range < U64
  {
    var bucket := BucketOf(regs, base, Bucket(dev));
    FirstWithIn(bucket, dev);
    var first := FirstWith(bucket, dev);
    BucketMembers(regs, base, Bucket(dev));
    if first.Some? && first.value.range == 0 {
      EmptyRange(first.value, dev, Bucket(dev));
    }
  }

  lemma {:induction false} BucketMembers(regs: seq<Probe>, base: Probe, b: nat)
    requires base.range == U64 - 1 && forall p :: p in regs ==> p.Typed()
    ensures forall p :: p in BucketOf(regs, base, b) ==> p == base || (p in regs && p.In(b))
  {
    if regs != [] {
      BucketMembers(regs[1..], base, b);
      BucketShape(regs[1..], base, b);
      InsertSorted(BucketOf(regs[1..], base, b), regs[0]);
    }
  }
}
