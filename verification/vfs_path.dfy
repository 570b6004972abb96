/** Path strings: how link_path_walk of fs/vfs/namei.c cuts them into components and what
    __prepend_path of fs/vfs/d_path.c prints. */
module VfsPath {
  import opened Common
  import opened VfsTree

  /** First index from `i` on that is not a slash. */
  function SkipSlashes(s: string, i: nat): (k: nat)
    requires i <= |s|
    ensures i <= k <= |s| && (k < |s| ==> s[k] != '/')
    ensures forall j :: i <= j < k ==> s[j] == '/'
    decreases |s| - i
  {
    if i < |s| && s[i] == '/' then SkipSlashes(s, i + 1) else i
  }

  /** First index from `i` on that is a slash. */
  function ComponentEnd(s: string, i: nat): (k: nat)
    requires i <= |s|
    ensures i <= k <= |s| && (k < |s| ==> s[k] == '/')
    ensures forall j :: i <= j < k ==> s[j] != '/'
    decreases |s| - i
  {
    if i < |s| && s[i] != '/' then ComponentEnd(s, i + 1) else i
  }

  function Components(s: string, i: nat): seq<string>
    requires i <= |s|
    decreases |s| - i
  {
    var j := SkipSlashes(s, i);
    if j == |s| then []
    else
      var k := ComponentEnd(s, j);
      [s[j..k]] + Components(s, k)
  }

  // ---------------------------------------------------------------- what the components of a string are

  /** Characters `from` to `to` of a string. */
  datatype Run = Run(from: nat, to: nat)

  /** A stretch without slashes that cannot be made longer. */
  predicate IsComponent(s: string, r: Run) {
    && r.from < r.to <= |s| && (forall x :: r.from <= x < r.to ==> s[x] != '/')
    && (r.from == 0 || s[r.from - 1] == '/') && (r.to == |s| || s[r.to] == '/')
  }

  predicate InRun(r: Run, x: nat) { r.from <= x < r.to }

  ghost predicate Covered(rs: seq<Run>, x: nat) {
    exists t :: 0 <= t < |rs| && InRun(rs[t], x)
  }

  ghost predicate AreComponents(s: string, i: nat, cs: seq<string>, rs: seq<Run>) {
    |rs| == |cs| && forall t :: 0 <= t < |rs| ==>
      IsComponent(s, rs[t]) && i <= rs[t].from && cs[t] == s[rs[t].from..rs[t].to]
  }

  ghost predicate InOrder(rs: seq<Run>) {
    forall t, u :: 0 <= t < u < |rs| ==> rs[t].to < rs[u].from
  }

  ghost predicate AllCovered(s: string, i: nat, rs: seq<Run>) {
    forall x: nat :: i <= x < |s| && s[x] != '/' ==> Covered(rs, x)
  }

  /** From position i on, `cs` are the stretches `rs`, from left to right, and every character that is no
      slash is in one. */
  ghost predicate Cuts(s: string, i: nat, cs: seq<string>, rs: seq<Run>) {
    AreComponents(s, i, cs, rs) && InOrder(rs) && AllCovered(s, i, rs)
  }

  /** The stretches that Components takes from position i on. */
  ghost function RunsFrom(s: string, i: nat): seq<Run>
    requires i <= |s|
    decreases |s| - i
  {
    var j := SkipSlashes(s, i);
    if j == |s| then []
    else
      var k := ComponentEnd(s, j);
      [Run(j, k)] + RunsFrom(s, k)
  }

  lemma CutsCons(s: string, i: nat, j: nat, k: nat, cs: seq<string>, rs: seq<Run>)
    requires i <= j < k <= |s| && IsComponent(s, Run(j, k)) && (forall x :: i <= x < j ==> s[x] == '/')
    requires Cuts(s, k, cs, rs) && (k == |s| || s[k] == '/')
    ensures Cuts(s, i, [s[j..k]] + cs, [Run(j, k)] + rs)
  {
    hide AllCovered, IsComponent;
    forall u | 0 <= u < |rs|
      ensures k < rs[u].from
    {
      Behind(s, k, rs[u]);
    }
    CoversMore(s, i, j, k, rs);
  }

  lemma Behind(s: string, k: nat, r: Run)
    requires k <= |s| && (k == |s| || s[k] == '/') && IsComponent(s, r) && k <= r.from
    ensures k < r.from
  {
  }

  lemma CoversMore(s: string, i: nat, j: nat, k: nat, rs: seq<Run>)
    requires i <= j < k <= |s| && (forall x :: i <= x < j ==> s[x] == '/') && AllCovered(s, k, rs)
    ensures AllCovered(s, i, [Run(j, k)] + rs)
  {
    var all := [Run(j, k)] + rs;
    forall x: nat | i <= x < |s| && s[x] != '/'
      ensures Covered(all, x)
    {
      if x < k {
        assert InRun(all[0], x);
      } else {
        assert Covered(rs, x);
        var t :| 0 <= t < |rs| && InRun(rs[t], x);
        assert InRun(all[t + 1], x);
      }
    }
  }

  lemma {:induction false} RunsCut(s: string, i: nat)
    requires i <= |s| && (i == 0 || i == |s| || s[i] == '/')
    ensures Cuts(s, i, Components(s, i), RunsFrom(s, i))
    decreases |s| - i
  {
    hide Cuts;
    var j := SkipSlashes(s, i);
    if j == |s| {
      NothingToCut(s, i);
    } else {
      var k := ComponentEnd(s, j);
      assert IsComponent(s, Run(j, k));
      RunsCut(s, k);
      CutsCons(s, i, j, k, Components(s, k), RunsFrom(s, k));
    }
  }

  lemma NothingToCut(s: string, i: nat)
    requires i <= |s| && forall x :: i <= x < |s| ==> s[x] == '/'
    ensures Cuts(s, i, [], [])
  {
  }

  /** The components of every string, relative or absolute, are exactly its longest stretches without
      slashes, in order: none is empty, none holds a slash, no other character is lost, neighbours stay
      together and a slash separates. */
  lemma ComponentsAre(s: string)
    ensures Cuts(s, 0, Components(s, 0), RunsFrom(s, 0))
  {
    RunsCut(s, 0);
  }

  lemma SameComponent(s: string, a: Run, b: Run, x: nat)
    requires IsComponent(s, a) && IsComponent(s, b) && InRun(a, x) && InRun(b, x)
    ensures a == b
  {
  }

  /** A component of one cut is a component of the other. */
  lemma InOther(s: string, i: nat, cs: seq<string>, rs: seq<Run>, r: Run) returns (u: nat)
    requires Cuts(s, i, cs, rs) && IsComponent(s, r) && i <= r.from
    ensures u < |rs| && rs[u] == r
  {
    assert s[r.from] != '/' && Covered(rs, r.from);
    u :| 0 <= u < |rs| && InRun(rs[u], r.from);
    SameComponent(s, r, rs[u], r.from);
  }

  /** That determines them. */
  lemma {:induction false} CutsAgree(s: string, i: nat, as_: seq<string>, ra: seq<Run>,
                                     bs: seq<string>, rb: seq<Run>, n: nat)
    requires Cuts(s, i, as_, ra) && Cuts(s, i, bs, rb) && n <= |ra|
    ensures n <= |rb| && forall t :: 0 <= t < n ==> rb[t] == ra[t]
  {
    if n > 0 {
      CutsAgree(s, i, as_, ra, bs, rb, n - 1);
      var u := InOther(s, i, bs, rb, ra[n - 1]);
      hide AllCovered;
      if u > n - 1 {
        var v := InOther(s, i, as_, ra, rb[n - 1]);
      }
    }
  }

  lemma CutsOnce(s: string, as_: seq<string>, ra: seq<Run>, bs: seq<string>, rb: seq<Run>)
    requires Cuts(s, 0, as_, ra) && Cuts(s, 0, bs, rb)
    ensures as_ == bs
  {
    CutsAgree(s, 0, as_, ra, bs, rb, |ra|);
    CutsAgree(s, 0, bs, rb, as_, ra, |rb|);
    assert ra == rb;
  }

  // ---------------------------------------------------------------- printing

  /** Each name behind a slash. */
  function Joined(ns: seq<string>): string {
    if ns == [] then "" else "/" + ns[0] + Joined(ns[1..])
  }

  function PathString(ns: seq<string>): string {
    if ns == [] then "/" else Joined(ns)
  }

  lemma {:induction false} JoinedSnoc(ns: seq<string>, n: string)
    ensures Joined(ns + [n]) == Joined(ns) + "/" + n
  {
    if ns == [] {
      assert ns + [n] == [n];
      assert Joined([n]) == "/" + n + Joined([]);
    } else {
      assert (ns + [n])[1..] == ns[1..] + [n];
      JoinedSnoc(ns[1..], n);
    }
  }

  /** Cutting a printed path gives back the names it was printed from. */
  lemma {:induction false} ComponentsOfJoined(pre: string, ns: seq<string>)
    requires AllNormal(ns)
    ensures Components(pre + Joined(ns), |pre|) == ns
    decreases |ns|
  {
    var s := pre + Joined(ns);
    if ns == [] {
      assert SkipSlashes(s, |pre|) == |s|;
    } else {
      var n, rest := ns[0], Joined(ns[1..]);
      assert s == pre + "/" + n + rest;
      var j, k := |pre| + 1, |pre| + 1 + |n|;
      assert s[|pre|] == '/' && s[j] == n[0] && s[j..k] == n;
      assert forall i :: j <= i < k ==> s[i] == n[i - j];
      assert rest == "" || rest[0] == '/';
      assert k < |s| ==> s[k] == rest[0];
      SkipIs(s, |pre|, j);
      EndIs(s, j, k);
      ComponentsOfJoined(pre + "/" + n, ns[1..]);
      assert s == (pre + "/" + n) + rest;
    }
  }

  lemma {:induction false} SkipIs(s: string, i: nat, j: nat)
    requires i <= j <= |s| && (j < |s| ==> s[j] != '/') && forall t :: i <= t < j ==> s[t] == '/'
    ensures SkipSlashes(s, i) == j
  {
  }

  lemma {:induction false} EndIs(s: string, i: nat, j: nat)
    requires i <= j <= |s| && (j < |s| ==> s[j] == '/') && forall t :: i <= t < j ==> s[t] != '/'
    ensures ComponentEnd(s, i) == j
  {
  }

  /** The root prints as "/", which has no components. */
  lemma ComponentsOfPath(ns: seq<string>)
    requires AllNormal(ns)
    ensures Components(PathString(ns), 0) == ns
  {
    if ns == [] {
      assert SkipSlashes("/", 0) == 1;
    } else {
      ComponentsOfJoined("", ns);
      assert "" + Joined(ns) == Joined(ns);
    }
  }

  /** The whole round trip. Wherever a walk of components from the root ends, the path printed
      there is a slash-separated list of the names met, and walking that path again ends at the same
      place. The printed path is the one walked exactly when every directory on the way has a child
      of the very name asked for, before any child whose name begins with it. */
  lemma PrintThenWalk(ds: Dentries, ms: Mounts, root: Place, cs: seq<string>)
    requires DTree(ds) && MTree(ds, ms) && InMount(ds, ms, root) && InTree(ds, ms, root)
    requires Walk(ds, ms, root, cs).Some? && AllNormal(cs)
    ensures var p, ns := Walk(ds, ms, root, cs).value, Met(ds, ms, root, cs);
            && Climb(ds, ms, root, p) == Reached(ns)
            && Walk(ds, ms, root, Components(PathString(ns), 0)) == Some(p)
            && (PathString(ns) == PathString(cs) <==> NamedAlong(ds, ms, root, cs))
  {
    hide *;
    WalkThenClimb(ds, ms, root, cs);
    MetIsAsked(ds, ms, root, cs);
    var ns := Met(ds, ms, root, cs);
    ComponentsOfPath(ns);
    ComponentsOfPath(cs);
  }

  /** In prefix-free directories that hold every component, the walk succeeds, the path printed is the
      path walked, and walking it again ends at the same place. */
  lemma PrefixFreeRoundTrip(ds: Dentries, ms: Mounts, root: Place, cs: seq<string>)
    requires DTree(ds) && MTree(ds, ms) && InMount(ds, ms, root) && InTree(ds, ms, root)
    requires AllNormal(cs) && ExistsAlong(ds, ms, root, cs)
    ensures Walk(ds, ms, root, cs).Some?
    ensures Climb(ds, ms, root, Walk(ds, ms, root, cs).value) == Reached(cs)
    ensures Walk(ds, ms, root, Components(PathString(cs), 0)) == Walk(ds, ms, root, cs)
  {
    hide *;
    PrefixFreeNames(ds, ms, root, cs);
    MetIsAsked(ds, ms, root, cs);
    PrintThenWalk(ds, ms, root, cs);
  }
}
