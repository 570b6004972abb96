/** Cluster chains of a FAT32 allocation table, as values: section "FAT Data Structure" of the
    Microsoft FAT32 File System Specification 1.03, and what allocation, append and release
    of fs/fat do to it. */
module FatChains {

  const FREE := 0
  const BAD := 0x0fff_fff7
  const EOF_MARK := 0x0fff_fff8

  type Table = seq<nat>
  type FileId = nat
  type Chains = map<FileId, seq<nat>>

  /** `cs` follows the links of `t` from its first cluster to an end-of-file mark. */
  ghost predicate IsChain(t: Table, cs: seq<nat>) {
    && |cs| > 0
    && (forall i :: 0 <= i < |cs| ==> 2 <= cs[i] < |t|)
    && (forall i :: 0 <= i < |cs| - 1 ==> t[cs[i]] == cs[i + 1])
    && t[cs[|cs| - 1]] >= EOF_MARK
  }

  ghost predicate Disjoint(a: seq<nat>, b: seq<nat>) {
    forall i, j :: 0 <= i < |a| && 0 <= j < |b| ==> a[i] != b[j]
  }

  /** The two reserved entries are taken, every file is empty or a chain, and no two files
      share a cluster. */
  ghost predicate ChainsOk(t: Table, m: Chains) {
    && 2 <= |t| <= BAD && t[0] != FREE && t[1] != FREE
    && (forall f :: f in m ==> m[f] == [] || IsChain(t, m[f]))
    && (forall f, g :: f in m && g in m && f != g ==> Disjoint(m[f], m[g]))
  }

  ghost predicate Owned(m: Chains, c: nat) {
    exists f :: f in m && c in m[f]
  }

  /** Every cluster that is neither free nor bad belongs to a file. */
  ghost predicate NoLeak(t: Table, m: Chains) {
    forall c :: 2 <= c < |t| && t[c] != FREE && t[c] != BAD ==> Owned(m, c)
  }

  ghost function FreeSet(t: Table): set<nat> {
    set c | 0 <= c < |t| && t[c] == FREE
  }

  ghost function Clusters(cs: seq<nat>): set<nat> {
    set i | 0 <= i < |cs| :: cs[i]
  }

  // ---------------------------------------------------------------- acyclicity

  /** A chain visits no cluster twice: two equal visits would never reach the end mark. */
  lemma {:induction false} ChainDistinct(t: Table, cs: seq<nat>, i: nat, j: nat)
    requires IsChain(t, cs) && |t| <= BAD && i < j < |cs|
    ensures cs[i] != cs[j]
    decreases |cs| - j
  {
    assert t[cs[i]] == cs[i + 1];
    if j + 1 < |cs| {
      assert t[cs[j]] == cs[j + 1];
      ChainDistinct(t, cs, i + 1, j + 1);
    }
  }

  lemma ChainTail(t: Table, cs: seq<nat>)
    requires IsChain(t, cs) && |cs| > 1
    ensures IsChain(t, cs[1..])
  {
  }

  /** The links alone determine the chain: two chains from one first cluster are one chain. */
  lemma {:induction false} ChainUnique(t: Table, a: seq<nat>, b: seq<nat>)
    requires IsChain(t, a) && IsChain(t, b) && |t| <= BAD && a[0] == b[0]
    ensures a == b
    decreases |a|
  {
    assert |a| > 1 ==> t[a[0]] == a[1];
    assert |b| > 1 ==> t[b[0]] == b[1];
    if |a| > 1 && |b| > 1 {
      ChainTail(t, a);
      ChainTail(t, b);
      ChainUnique(t, a[1..], b[1..]);
      assert a == [a[0]] + a[1..] && b == [b[0]] + b[1..];
    } else {
      assert a == [a[0]] && b == [b[0]];
    }
  }

  // ---------------------------------------------------------------- allocation and append

  /** What one first-fit allocation for file `f` does: the free cluster `c` becomes the end of
      the file, linked from the previous end if there is one. */
  function Extend(t: Table, cs: seq<nat>, c: nat, mark: nat): Table
    requires c < |t| && (cs == [] || cs[|cs| - 1] < |t|)
  {
    if cs == [] then t[c := mark] else t[cs[|cs| - 1] := c][c := mark]
  }

  lemma EntryTaken(t: Table, cs: seq<nat>, i: nat)
    requires IsChain(t, cs) && i < |cs|
    ensures t[cs[i]] != FREE
  {
    assert i + 1 < |cs| ==> t[cs[i]] == cs[i + 1];
  }

  lemma FreeIsUnowned(t: Table, m: Chains, c: nat)
    requires ChainsOk(t, m) && c < |t| && t[c] == FREE
    ensures 2 <= c && !Owned(m, c)
  {
    forall f, i | f in m && 0 <= i < |m[f]|
      ensures m[f][i] != c
    {
      EntryTaken(t, m[f], i);
    }
  }

  lemma ExtendChain(t: Table, cs: seq<nat>, c: nat, mark: nat)
    requires |t| <= BAD && (cs == [] || IsChain(t, cs))
    requires 2 <= c < |t| && c !in cs && mark >= EOF_MARK
    ensures IsChain(Extend(t, cs, c, mark), cs + [c])
  {
    var t', ds := Extend(t, cs, c, mark), cs + [c];
    forall i | 0 <= i < |ds| - 1
      ensures t'[ds[i]] == ds[i + 1]
    {
      if i < |cs| - 1 { ChainDistinct(t, cs, i, |cs| - 1); }
    }
  }

  /** A chain that meets neither cell an allocation writes is still a chain. */
  lemma ChainFrame(t: Table, t': Table, ds: seq<nat>)
    requires IsChain(t, ds) && |t'| == |t|
    requires forall i :: 0 <= i < |ds| ==> t'[ds[i]] == t[ds[i]]
    ensures IsChain(t', ds)
  {
  }

  /** Allocation keeps every chain a chain, keeps them apart, loses nothing and takes exactly
      one free cluster. */
  lemma ExtendKeeps(t: Table, m: Chains, f: FileId, c: nat, mark: nat)
    requires ChainsOk(t, m) && f in m && c < |t| && t[c] == FREE && mark >= EOF_MARK
    ensures var t', m' := Extend(t, m[f], c, mark), m[f := m[f] + [c]];
            && ChainsOk(t', m')
            && (NoLeak(t, m) ==> NoLeak(t', m'))
            && FreeSet(t') == FreeSet(t) - {c}
  {
    hide FreeSet, NoLeak;
    FreeIsUnowned(t, m, c);
    var cs := m[f];
    var t', m' := Extend(t, cs, c, mark), m[f := cs + [c]];
    ExtendChain(t, cs, c, mark);
    forall g | g in m' && g != f && m'[g] != []
      ensures IsChain(t', m'[g])
    {
      assert Disjoint(m[g], cs) && c !in m[g];
      ChainFrame(t, t', m[g]);
    }
    if NoLeak(t, m) { ExtendNoLeak(t, m, f, c, mark); }
    ExtendFree(t, m, f, c, mark);
  }

  lemma ExtendFree(t: Table, m: Chains, f: FileId, c: nat, mark: nat)
    requires ChainsOk(t, m) && f in m && 2 <= c < |t| && mark >= EOF_MARK
    ensures FreeSet(Extend(t, m[f], c, mark)) == FreeSet(t) - {c}
  {
    var cs := m[f];
    if cs != [] { EntryTaken(t, cs, |cs| - 1); }
  }

  lemma ExtendNoLeak(t: Table, m: Chains, f: FileId, c: nat, mark: nat)
    requires ChainsOk(t, m) && f in m && c < |t| && mark >= EOF_MARK && NoLeak(t, m)
    ensures NoLeak(Extend(t, m[f], c, mark), m[f := m[f] + [c]])
  {
    hide Disjoint, Owned;
    var cs := m[f];
    var t', m' := Extend(t, cs, c, mark), m[f := cs + [c]];
    forall k | 2 <= k < |t'| && t'[k] != FREE && t'[k] != BAD
      ensures Owned(m', k)
    {
      if k == c || (cs != [] && k == cs[|cs| - 1]) {
        OwnedBy(m', f, k);
      } else {
        OwnedStill(m, f, c, k);
      }
    }
  }

  lemma OwnedBy(m: Chains, f: FileId, k: nat)
    requires f in m && k in m[f]
    ensures Owned(m, k)
  {
  }

  lemma OwnedStill(m: Chains, f: FileId, c: nat, k: nat)
    requires f in m && Owned(m, k)
    ensures Owned(m[f := m[f] + [c]], k)
  {
    var g :| g in m && k in m[g];
    OwnedBy(m[f := m[f] + [c]], g, k);
  }

  /** Changing only entries no file owns leaves every chain alone. */
  lemma UnownedFrame(t: Table, t': Table, m: Chains)
    requires ChainsOk(t, m) && |t'| == |t| && t'[0] != FREE && t'[1] != FREE
    requires forall c :: 2 <= c < |t| && t'[c] != t[c] ==> !Owned(m, c)
    ensures ChainsOk(t', m)
  {
    forall g | g in m && m[g] != []
      ensures IsChain(t', m[g])
    {
      forall i | 0 <= i < |m[g]|
        ensures t'[m[g][i]] == t[m[g][i]]
      {
        assert Owned(m, m[g][i]);
      }
      ChainFrame(t, t', m[g]);
    }
  }

  // ---------------------------------------------------------------- release

  /** The table after freeing the clusters of `cs`. */
  function Freed(t: Table, cs: seq<nat>): (t': Table)
    requires forall i :: 0 <= i < |cs| ==> cs[i] < |t|
    ensures |t'| == |t|
    ensures forall k :: 0 <= k < |t| ==> t'[k] == if k in cs then FREE else t[k]
  {
    if cs == [] then t
    else
      assert cs == cs[..|cs| - 1] + [cs[|cs| - 1]];
      Freed(t, cs[..|cs| - 1])[cs[|cs| - 1] := FREE]
  }

  /** Releasing a file frees exactly its clusters and leaves every other file alone. */
  lemma ReleaseKeeps(t: Table, m: Chains, f: FileId)
    requires ChainsOk(t, m) && f in m
    ensures forall i :: 0 <= i < |m[f]| ==> m[f][i] < |t|
    ensures var t', m' := Freed(t, m[f]), m - {f};
            && ChainsOk(t', m')
            && (NoLeak(t, m) ==> NoLeak(t', m'))
            && FreeSet(t') == FreeSet(t) + Clusters(m[f])
  {
    hide NoLeak, FreeSet, Clusters;
    var t', m' := Freed(t, m[f]), m - {f};
    assert 0 !in m[f] && 1 !in m[f];
    forall g | g in m' && m'[g] != []
      ensures IsChain(t', m'[g])
    {
      assert Disjoint(m[g], m[f]);
      ChainFrame(t, t', m[g]);
    }
    if NoLeak(t, m) { ReleaseNoLeak(t, m, f); }
    ReleaseFree(t, m[f]);
  }

  lemma ReleaseNoLeak(t: Table, m: Chains, f: FileId)
    requires f in m && (forall i :: 0 <= i < |m[f]| ==> m[f][i] < |t|) && NoLeak(t, m)
    ensures NoLeak(Freed(t, m[f]), m - {f})
  {
    var t', m' := Freed(t, m[f]), m - {f};
    forall k | 2 <= k < |t'| && t'[k] != FREE && t'[k] != BAD
      ensures Owned(m', k)
    {
      var g :| g in m && k in m[g];
      assert g in m';
    }
  }

  lemma ReleaseFree(t: Table, cs: seq<nat>)
    requires forall i :: 0 <= i < |cs| ==> cs[i] < |t|
    ensures FreeSet(Freed(t, cs)) == FreeSet(t) + Clusters(cs)
  {
  }

  // ---------------------------------------------------------------- whole runs

  datatype State = State(t: Table, m: Chains)

  ghost predicate Good(s: State) { ChainsOk(s.t, s.m) && NoLeak(s.t, s.m) }

  ghost predicate Allocates(s: State, s': State, f: FileId, c: nat, mark: nat)
    requires ChainsOk(s.t, s.m)
  {
    && f in s.m && c < |s.t| && s.t[c] == FREE && mark >= EOF_MARK
    && s' == State(Extend(s.t, s.m[f], c, mark), s.m[f := s.m[f] + [c]])
  }

  ghost predicate Creates(s: State, s': State, f: FileId) {
    f !in s.m && s' == State(s.t, s.m[f := []])
  }

  ghost predicate Releases(s: State, s': State, f: FileId)
    requires ChainsOk(s.t, s.m)
  {
    f in s.m && s' == State(Freed(s.t, s.m[f]), s.m - {f})
  }

  /** One allocation, creation or release. */
  ghost predicate Step(s: State, s': State) {
    && ChainsOk(s.t, s.m)
    && ((exists f, c, mark :: Allocates(s, s', f, c, mark))
        || (exists f :: Creates(s, s', f)) || (exists f :: Releases(s, s', f)))
  }

  lemma CreateKeeps(t: Table, m: Chains, f: FileId)
    requires ChainsOk(t, m) && f !in m
    ensures ChainsOk(t, m[f := []])
    ensures NoLeak(t, m) ==> NoLeak(t, m[f := []])
  {
    hide IsChain;
    var m' := m[f := []];
    forall h, k | h in m' && k in m' && h != k
      ensures Disjoint(m'[h], m'[k])
    {
      assert h in m && k in m ==> Disjoint(m[h], m[k]);
    }
    forall c: nat | Owned(m, c)
      ensures Owned(m', c)
    {
      var h :| h in m && c in m[h];
      assert c in m'[h];
    }
  }

  lemma StepKeeps(s: State, s': State)
    requires Good(s) && Step(s, s')
    ensures Good(s')
  {
    hide ChainsOk, NoLeak, IsChain, Freed, Extend;
    if f, c, mark :| Allocates(s, s', f, c, mark) {
      ExtendKeeps(s.t, s.m, f, c, mark);
    } else if f :| Creates(s, s', f) {
      CreateKeeps(s.t, s.m, f);
    } else {
      var f :| Releases(s, s', f);
      ReleaseKeeps(s.t, s.m, f);
    }
  }

  /** Over every run of allocations, creations and releases no cluster is shared or lost. */
  lemma {:induction false} RunKeeps(run: seq<State>, n: nat)
    requires n < |run| && Good(run[0])
    requires forall i :: 0 <= i < |run| - 1 ==> Step(run[i], run[i + 1])
    ensures Good(run[n])
  {
    if n > 0 {
      RunKeeps(run, n - 1);
      StepKeeps(run[n - 1], run[n]);
    }
  }

  /** Cluster `c` is number `i` of file `f`. */
  ghost predicate Holds(m: Chains, f: FileId, i: nat, c: nat) {
    f in m && i < |m[f]| && m[f][i] == c
  }

  /** In a good state each cluster is free, or bad, or at exactly one place of one file. */
  lemma OneOwner(t: Table, m: Chains, c: nat)
    requires ChainsOk(t, m) && NoLeak(t, m) && 2 <= c < |t|
    ensures Owned(m, c) <==> t[c] != FREE && t[c] != BAD
    ensures forall f, g, i, j :: Holds(m, f, i, c) && Holds(m, g, j, c) ==> f == g && i == j
  {
    if Owned(m, c) {
      var f :| f in m && c in m[f];
      var i :| 0 <= i < |m[f]| && m[f][i] == c;
      EntryTaken(t, m[f], i);
      assert i + 1 < |m[f]| ==> t[m[f][i]] == m[f][i + 1];
    }
    forall f, g, i, j | Holds(m, f, i, c) && Holds(m, g, j, c)
      ensures f == g && i == j
    {
      assert f != g ==> Disjoint(m[f], m[g]);
      if f == g && i < j { ChainDistinct(t, m[f], i, j); }
      if f == g && j < i { ChainDistinct(t, m[f], j, i); }
    }
  }
}
