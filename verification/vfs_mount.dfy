/** Growing the trees: attaching a mount (fs/vfs/namespace.c) and adding a dentry (fs/vfs/dcache.c
    and the slow lookup of namei.c), as values. */
module VfsMount {
  import opened Common
  import opened VfsTree

  // ---------------------------------------------------------------- attaching a mount

  /** A mount just created: its own parent, sitting on its own root, without children. */
  ghost predicate Loose(ms: Mounts, c: MId) {
    c < |ms| && ms[c].parent == c && ms[c].children == []
  }

  /** mnt_set_mountpoint. */
  function Attach(ms: Mounts, top: Place, c: MId): Mounts
    requires c < |ms| && top.m < |ms|
  {
    var ms1 := ms[c := ms[c].(parent := top.m, mountpoint := top.d)];
    ms1[top.m := ms1[top.m].(children := ms1[top.m].children + [c])]
  }

  lemma CreateMountKeeps(ds: Dentries, ms: Mounts, root: DId, sb: nat)
    requires MTree(ds, ms) && root < |ds|
    ensures MTree(ds, ms + [Mount(root, |ms|, root, sb, [])])
  {
    var ms' := ms + [Mount(root, |ms|, root, sb, [])];
    forall m | 0 <= m < |ms'| && ms'[m].parent != m
      ensures m in ms'[ms'[m].parent].children
    {
      assert m in ms[ms[m].parent].children;
    }
  }

  /** Attaching a fresh mount to an uncovered place keeps the mounts a tree with at most one mount
      on each place. */
  lemma AttachKeeps(ds: Dentries, ms: Mounts, top: Place, c: MId)
    requires MTree(ds, ms) && InTree(ds, ms, top) && Loose(ms, c) && top.m < c
    requires LookupMnt(ds, ms, top).None?
    ensures MTree(ds, Attach(ms, top, c))
  {
    var ms' := Attach(ms, top, c);
    forall m | 0 <= m < |ms'| && ms'[m].parent != m
      ensures m in ms'[ms'[m].parent].children
    {
      AttachLists(ds, ms, top, c, m);
    }
    forall m, i | 0 <= m < |ms'| && 0 <= i < |ms'[m].children|
      ensures m < ms'[m].children[i] < |ms'| && ms'[ms'[m].children[i]].parent == m
    {
      OldChild(ds, ms, top, c, m, i);
    }
    forall m, i, j | 0 <= m < |ms'| && 0 <= i < j < |ms'[m].children|
      ensures ms'[ms'[m].children[i]].mountpoint != ms'[ms'[m].children[j]].mountpoint
    {
      AttachDistinct(ds, ms, top, c, m, i, j);
    }
  }

  lemma AttachLists(ds: Dentries, ms: Mounts, top: Place, c: MId, m: MId)
    requires MTree(ds, ms) && InTree(ds, ms, top) && Loose(ms, c) && top.m < c
    requires m < |ms| && Attach(ms, top, c)[m].parent != m
    ensures var ms' := Attach(ms, top, c); ms'[m].parent < |ms| && m in ms'[ms'[m].parent].children
  {
    var ms' := Attach(ms, top, c);
    var kids := ms[top.m].children;
    if m == c {
      assert ms'[top.m].children[|kids|] == c;
    } else {
      var q := ms[m].parent;
      var i :| 0 <= i < |ms[q].children| && ms[q].children[i] == m;
      assert ms'[q].children[i] == m;
    }
  }

  lemma AttachDistinct(ds: Dentries, ms: Mounts, top: Place, c: MId, m: MId, i: nat, j: nat)
    requires MTree(ds, ms) && InTree(ds, ms, top) && Loose(ms, c) && top.m < c
    requires LookupMnt(ds, ms, top).None?
    requires m < |ms| && i < j < |Attach(ms, top, c)[m].children|
    ensures var ms' := Attach(ms, top, c);
            && ms'[m].children[i] < |ms| && ms'[m].children[j] < |ms|
            && ms'[ms'[m].children[i]].mountpoint != ms'[ms'[m].children[j]].mountpoint
  {
    OldChild(ds, ms, top, c, m, i);
    OldChild(ds, ms, top, c, m, j);
    var kids := ms[m].children;
    hide LookupMnt;
    if j == |kids| {
      LookupMntIs(ds, ms, top, kids[i]);
    }
  }

  lemma OldChild(ds: Dentries, ms: Mounts, top: Place, c: MId, m: MId, i: nat)
    requires MTree(ds, ms) && InTree(ds, ms, top) && Loose(ms, c) && top.m < c
    requires m < |ms| && i < |Attach(ms, top, c)[m].children|
    ensures var ms' := Attach(ms, top, c); var k := ms'[m].children[i];
            if i < |ms[m].children|
            then && k == ms[m].children[i] && m < k < |ms| && k != c
                 && ms'[k].parent == m && ms'[k].mountpoint == ms[k].mountpoint
            else m == top.m && k == c && ms'[c].parent == m && ms'[c].mountpoint == top.d
  {
  }

  /** After attaching, the place itself holds the new mount; every other place holds what it held. */
  lemma LookupAfterAttach(ds: Dentries, ms: Mounts, top: Place, c: MId, p: Place)
    requires MTree(ds, ms) && InTree(ds, ms, top) && Loose(ms, c) && top.m < c && p.m < |ms|
    requires LookupMnt(ds, ms, top).None? && MTree(ds, Attach(ms, top, c))
    ensures LookupMnt(ds, Attach(ms, top, c), p) == if p == top then Some(c) else LookupMnt(ds, ms, p)
  {
    hide MTree;
    var ms' := Attach(ms, top, c);
    if p == top {
      LookupMntIs(ds, ms', p, c);
    } else {
      var r, r' := LookupMnt(ds, ms, p), LookupMnt(ds, ms', p);
      hide LookupMnt;
      if r.Some? {
        LookupMntIs(ds, ms, p, r.value);
        LookupMntIs(ds, ms', p, r.value);
      } else if r'.Some? {
        LookupMntIs(ds, ms, p, r'.value);
        LookupMntIs(ds, ms', p, r'.value);
      }
    }
  }

  /** Traversals that ended at the place now end at the new mount's root; all others are
      unchanged. */
  lemma {:induction false} TraverseAfterAttach(ds: Dentries, ms: Mounts, top: Place, c: MId, p: Place)
    requires MTree(ds, ms) && InTree(ds, ms, top) && Loose(ms, c) && top.m < c && p.m < |ms|
    requires LookupMnt(ds, ms, top).None? && MTree(ds, Attach(ms, top, c))
    ensures Traverse(ds, Attach(ms, top, c), p) ==
            if Traverse(ds, ms, p) == top then Place(ms[c].root, c) else Traverse(ds, ms, p)
    decreases |ms| - p.m
  {
    hide MTree, LookupMnt, Attach;
    var ms' := Attach(ms, top, c);
    SameRoots(ms, top, c);
    LookupAfterAttach(ds, ms, top, c, p);
    var r := LookupMnt(ds, ms, p);
    if p == top {
      var q := Place(ms[c].root, c);
      LookupAfterAttach(ds, ms, top, c, q);
      NoMountOnFresh(ds, ms, c);
    } else if r.Some? {
      TraverseAfterAttach(ds, ms, top, c, Place(ms[r.value].root, r.value));
    }
  }

  lemma SameRoots(ms: Mounts, top: Place, c: MId)
    requires c < |ms| && top.m < |ms|
    ensures |Attach(ms, top, c)| == |ms|
    ensures forall m :: 0 <= m < |ms| ==> Attach(ms, top, c)[m].root == ms[m].root
  {
  }

  lemma NoMountOnFresh(ds: Dentries, ms: Mounts, c: MId)
    requires MTree(ds, ms) && Loose(ms, c)
    ensures LookupMnt(ds, ms, Place(ms[c].root, c)).None?
  {
  }

  // ---------------------------------------------------------------- adding a dentry

  /** A new dentry behind the other children of `dir` (slow lookup). */
  function AddTail(ds: Dentries, dir: DId, name: string): Dentries
    requires dir < |ds|
  {
    ds[dir := ds[dir].(children := ds[dir].children + [|ds|])] + [Dentry(name, dir, [])]
  }

  /** A new dentry before the other children of `dir` (d_alloc). */
  function AddHead(ds: Dentries, dir: DId, name: string): Dentries
    requires dir < |ds|
  {
    ds[dir := ds[dir].(children := [|ds|] + ds[dir].children)] + [Dentry(name, dir, [])]
  }

  lemma AddTailKeeps(ds: Dentries, dir: DId, name: string)
    requires DTree(ds) && dir < |ds| && NormalName(name)
    ensures DTree(AddTail(ds, dir, name))
  {
    hide AddTail, NormalName;
    var ds' := AddTail(ds, dir, name);
    AddTailParents(ds, dir, name);
    forall d | 0 <= d < |ds'| && ds'[d].parent != d
      ensures d in ds'[ds'[d].parent].children
    {
      AddTailLists(ds, dir, name, d);
    }
    forall d, i | 0 <= d < |ds'| && 0 <= i < |ds'[d].children|
      ensures d < ds'[d].children[i] < |ds'| && ds'[ds'[d].children[i]].parent == d
    {
      AddTailLinks(ds, dir, name, d, i);
    }
  }

  lemma AddTailParents(ds: Dentries, dir: DId, name: string)
    requires DTree(ds) && dir < |ds| && NormalName(name)
    ensures var ds' := AddTail(ds, dir, name);
            && |ds'| == |ds| + 1 && (forall d :: 0 <= d < |ds'| ==> ds'[d].parent <= d)
            && forall d :: 0 <= d < |ds'| && ds'[d].parent != d ==> NormalName(ds'[d].name)
  {
    hide NormalName;
  }

  lemma AddTailLists(ds: Dentries, dir: DId, name: string, d: DId)
    requires DTree(ds) && dir < |ds| && d <= |ds| && AddTail(ds, dir, name)[d].parent != d
    ensures var ds' := AddTail(ds, dir, name); ds'[d].parent < |ds| && d in ds'[ds'[d].parent].children
  {
    var ds' := AddTail(ds, dir, name);
    if d == |ds| {
      assert ds'[dir].children[|ds[dir].children|] == d;
    } else {
      var q := ds[d].parent;
      var i :| 0 <= i < |ds[q].children| && ds[q].children[i] == d;
      assert ds'[q].children[i] == d;
    }
  }

  lemma AddTailLinks(ds: Dentries, dir: DId, name: string, d: DId, i: nat)
    requires DTree(ds) && dir < |ds| && d <= |ds| && i < |AddTail(ds, dir, name)[d].children|
    ensures var ds' := AddTail(ds, dir, name); var k := ds'[d].children[i]; d < k < |ds'| && ds'[k].parent == d
  {
  }

  lemma AddHeadKeeps(ds: Dentries, dir: DId, name: string)
    requires DTree(ds) && dir < |ds| && NormalName(name)
    ensures DTree(AddHead(ds, dir, name))
  {
    hide AddHead, NormalName;
    var ds' := AddHead(ds, dir, name);
    AddHeadParents(ds, dir, name);
    forall d | 0 <= d < |ds'| && ds'[d].parent != d
      ensures d in ds'[ds'[d].parent].children
    {
      AddHeadLists(ds, dir, name, d);
    }
    forall d, i | 0 <= d < |ds'| && 0 <= i < |ds'[d].children|
      ensures d < ds'[d].children[i] < |ds'| && ds'[ds'[d].children[i]].parent == d
    {
      AddHeadLinks(ds, dir, name, d, i);
    }
  }

  lemma AddHeadLinks(ds: Dentries, dir: DId, name: string, d: DId, i: nat)
    requires DTree(ds) && dir < |ds| && d <= |ds| && i < |AddHead(ds, dir, name)[d].children|
    ensures var ds' := AddHead(ds, dir, name); var k := ds'[d].children[i]; d < k < |ds'| && ds'[k].parent == d
  {
    var ds' := AddHead(ds, dir, name);
    assert d == dir && i > 0 ==> ds'[d].children[i] == ds[d].children[i - 1];
  }

  lemma AddHeadParents(ds: Dentries, dir: DId, name: string)
    requires DTree(ds) && dir < |ds| && NormalName(name)
    ensures var ds' := AddHead(ds, dir, name);
            && |ds'| == |ds| + 1 && (forall d :: 0 <= d < |ds'| ==> ds'[d].parent <= d)
            && forall d :: 0 <= d < |ds'| && ds'[d].parent != d ==> NormalName(ds'[d].name)
  {
    hide NormalName;
  }

  lemma AddHeadLists(ds: Dentries, dir: DId, name: string, d: DId)
    requires DTree(ds) && dir < |ds| && d <= |ds| && AddHead(ds, dir, name)[d].parent != d
    ensures var ds' := AddHead(ds, dir, name); ds'[d].parent < |ds| && d in ds'[ds'[d].parent].children
  {
    var ds' := AddHead(ds, dir, name);
    if d == |ds| {
      assert ds'[dir].children[0] == d;
    } else {
      var q := ds[d].parent;
      var i :| 0 <= i < |ds[q].children| && ds[q].children[i] == d;
      assert ds'[q].children[if q == dir then i + 1 else i] == d;
    }
  }

  lemma MoreDentries(ds: Dentries, ds': Dentries, ms: Mounts)
    requires MTree(ds, ms) && |ds| <= |ds'|
    ensures MTree(ds', ms)
  {
  }

  /** A dentry added behind the others hides nothing: what a lookup found it still finds. */
  lemma LookupAfterAddTail(ds: Dentries, dir: DId, name: string, e: DId, n: string)
    requires DTree(ds) && dir < |ds| && e < |ds| && DTree(AddTail(ds, dir, name))
    ensures DLookup(ds, e, n).Some? ==> DLookup(AddTail(ds, dir, name), e, n) == DLookup(ds, e, n)
  {
    var ds' := AddTail(ds, dir, name);
    var kids, kids' := ds[e].children, ds'[e].children;
    var k := FirstMatch(ds, kids, n, 0);
    SameNames(ds, dir, name, e);
    hide DTree, AddTail;
    if k < |kids| {
      FirstMatchIs(ds', kids', n, k);
    }
  }

  lemma SameNames(ds: Dentries, dir: DId, name: string, e: DId)
    requires DTree(ds) && dir < |ds| && e < |ds| && DTree(AddTail(ds, dir, name))
    ensures var ds' := AddTail(ds, dir, name); var kids, kids' := ds[e].children, ds'[e].children;
            && |ds'| == |ds| + 1 && |kids| <= |kids'|
            && (forall i :: 0 <= i < |kids'| ==> kids'[i] < |ds'|)
            && (forall i :: 0 <= i < |kids| ==>
                  kids[i] < |ds| && kids'[i] == kids[i] && ds'[kids[i]].name == ds[kids[i]].name)
  {
  }

  /** A name that was not found leads to the dentry just added for it. */
  lemma LookupAdded(ds: Dentries, dir: DId, name: string)
    requires DTree(ds) && dir < |ds| && DTree(AddTail(ds, dir, name)) && DLookup(ds, dir, name).None?
    ensures DLookup(AddTail(ds, dir, name), dir, name) == Some(|ds|)
  {
    var ds' := AddTail(ds, dir, name);
    var own, own' := ds[dir].children, ds'[dir].children;
    assert FirstMatch(ds, own, name, 0) == |own|;
    SameNames(ds, dir, name, dir);
    assert own'[|own|] == |ds| && |own'| == |own| + 1 && ds'[|ds|].name == name;
    hide DTree, AddTail;
    FirstMatchIs(ds', own', name, |own|);
  }

  /** Crossing mounts does not look at dentries. */
  lemma {:induction false} TraverseMoreDentries(ds: Dentries, ds': Dentries, ms: Mounts, p: Place)
    requires MTree(ds, ms) && MTree(ds', ms) && p.m < |ms|
    ensures Traverse(ds', ms, p) == Traverse(ds, ms, p)
    decreases |ms| - p.m
  {
    var r := LookupMnt(ds, ms, p);
    if r.Some? {
      TraverseMoreDentries(ds, ds', ms, Place(ms[r.value].root, r.value));
    }
  }

  lemma WalkOneAfterAddTail(ds: Dentries, ms: Mounts, dir: DId, name: string, p: Place, c: string)
    requires DTree(ds) && MTree(ds, ms) && dir < |ds| && NormalName(name) && InTree(ds, ms, p)
    requires DTree(AddTail(ds, dir, name)) && MTree(AddTail(ds, dir, name), ms)
    requires WalkOne(ds, ms, p, c).Some?
    ensures InTree(AddTail(ds, dir, name), ms, p)
    ensures WalkOne(AddTail(ds, dir, name), ms, p, c) == WalkOne(ds, ms, p, c)
  {
    hide DTree, MTree, DLookup, Traverse;
    var ds' := AddTail(ds, dir, name);
    if c != "." {
      LookupAfterAddTail(ds, dir, name, p.d, c);
      TraverseMoreDentries(ds, ds', ms, Place(DLookup(ds, p.d, c).value, p.m));
    }
  }

  /** Walks that succeeded before a slow lookup succeed after it and end at the same place. */
  lemma {:induction false} WalkAfterAddTail(ds: Dentries, ms: Mounts, dir: DId, name: string, p: Place, cs: seq<string>)
    requires DTree(ds) && MTree(ds, ms) && dir < |ds| && NormalName(name) && InTree(ds, ms, p)
    requires DTree(AddTail(ds, dir, name)) && MTree(AddTail(ds, dir, name), ms) && InTree(AddTail(ds, dir, name), ms, p)
    requires Walk(ds, ms, p, cs).Some?
    ensures Walk(AddTail(ds, dir, name), ms, p, cs) == Walk(ds, ms, p, cs)
  {
    hide DTree, MTree, WalkOne, AddTail;
    if cs != [] {
      WalkAfterAddTail(ds, ms, dir, name, p, cs[..|cs| - 1]);
      WalkOneAfterAddTail(ds, ms, dir, name, Walk(ds, ms, p, cs[..|cs| - 1]).value, cs[|cs| - 1]);
    }
  }
}
