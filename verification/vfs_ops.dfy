/** The operations on the live trees: fs/vfs/namei.c, namespace.c, dcache.c. */
module VfsOps {
  import opened Common
  import opened VfsTree
  import opened VfsPath
  import opened VfsMount

  const ENOENT: int := -2
  const EBUSY: int := -16

  /** A directory on disk: which names a slow lookup finds in which dentry. */
  type OnDisk = iset<(DId, string)>

  class Vfs {
    var ds: Dentries
    var ms: Mounts

    ghost predicate Valid()
      reads this
    {
      DTree(ds) && MTree(ds, ms)
    }

    constructor (root: Dentry, sb: nat)
      requires root.parent == 0 && root.children == []
      ensures Valid() && ds == [root] && ms == [Mount(0, 0, 0, sb, [])]
    {
      ds := [root];
      ms := [Mount(0, 0, 0, sb, [])];
    }

    // ---------------------------------------------------------------- dcache.c

    /** __d_lookup: the first child whose name begins with the name asked for. */
    method FindChild(dir: DId, name: string) returns (r: Option<DId>)
      requires Valid() && dir < |ds|
      ensures r == DLookup(ds, dir, name)
    {
      var kids := ds[dir].children;
      var i := 0;
      while i < |kids|
        invariant i <= |kids| && FirstMatch(ds, kids, name, 0) == FirstMatch(ds, kids, name, i)
      {
        if name <= ds[kids[i]].name {
          return Some(kids[i]);
        }
        i := i + 1;
      }
      return None;
    }

    /** d_alloc: a new child at the head of the list. */
    method DAlloc(dir: DId, name: string) returns (d: DId)
      requires Valid() && dir < |ds| && NormalName(name)
      modifies this`ds
      ensures Valid() && d == |old(ds)| && ds == AddHead(old(ds), dir, name)
      ensures DLookup(ds, dir, name) == Some(d)
    {
      AddHeadKeeps(ds, dir, name);
      d := |ds|;
      ds := ds[dir := ds[dir].(children := [d] + ds[dir].children)] + [Dentry(name, dir, [])];
      MoreDentries(old(ds), ds, ms);
      FirstMatchIs(ds, ds[dir].children, name, 0);
    }

    /** __lookup_slow: a child found on disk is added behind the others. */
    method LookupSlow(dir: DId, name: string, onDisk: OnDisk) returns (r: Option<DId>)
      requires Valid() && dir < |ds| && NormalName(name)
      modifies this`ds
      ensures Valid()
      ensures (dir, name) in onDisk ==> r == Some(|old(ds)|) && ds == AddTail(old(ds), dir, name)
      ensures (dir, name) !in onDisk ==> r == None && ds == old(ds)
    {
      if (dir, name) !in onDisk {
        return None;
      }
      AddTailKeeps(ds, dir, name);
      var d := |ds|;
      ds := ds[dir := ds[dir].(children := ds[dir].children + [d])] + [Dentry(name, dir, [])];
      MoreDentries(old(ds), ds, ms);
      r := Some(d);
    }

    // ---------------------------------------------------------------- namespace.c

    /** __lookup_mnt. */
    method FindMount(p: Place) returns (r: Option<MId>)
      requires Valid() && p.m < |ms|
      ensures r == LookupMnt(ds, ms, p)
    {
      var kids := ms[p.m].children;
      var i := 0;
      while i < |kids|
        invariant i <= |kids| && FirstMountAt(ms, kids, p.d, 0) == FirstMountAt(ms, kids, p.d, i)
      {
        var c := kids[i];
        if ms[c].parent == p.m && ms[c].mountpoint == p.d {
          return Some(c);
        }
        i := i + 1;
      }
      return None;
    }

    /** traverse_mounts, and the retry loop of lock_mount: cross every mount stacked on a place. */
    method TraverseMounts(start: Place) returns (p: Place)
      requires Valid() && InTree(ds, ms, start)
      ensures p == Traverse(ds, ms, start) && InTree(ds, ms, p)
    {
      hide DTree, LookupMnt;
      p := start;
      var mounted := FindMount(p);
      while mounted.Some?
        invariant InTree(ds, ms, p) && mounted == LookupMnt(ds, ms, p)
        invariant Traverse(ds, ms, p) == Traverse(ds, ms, start)
        decreases |ms| - p.m
      {
        p := Place(ms[mounted.value].root, mounted.value);
        mounted := FindMount(p);
      }
    }

    /** vfs_create_mount and clone_mnt: a mount of `root` that is attached nowhere. */
    method CreateMount(root: DId, sb: nat) returns (c: MId)
      requires Valid() && root < |ds|
      modifies this`ms
      ensures Valid() && c == |old(ms)| && Loose(ms, c)
      ensures ms == old(ms) + [Mount(root, c, root, sb, [])]
    {
      CreateMountKeeps(ds, ms, root, sb);
      c := |ms|;
      ms := ms + [Mount(root, c, root, sb, [])];
    }

    /** graft_tree down to mnt_set_mountpoint. */
    method Graft(c: MId, top: Place)
      requires Valid() && InTree(ds, ms, top) && Loose(ms, c) && top.m < c
      requires LookupMnt(ds, ms, top).None?
      modifies this`ms
      ensures Valid() && ms == Attach(old(ms), top, c)
    {
      AttachKeeps(ds, ms, top, c);
      ms := ms[c := ms[c].(mountpoint := top.d, parent := top.m)];
      ms := ms[top.m := ms[top.m].(children := ms[top.m].children + [c])];
    }

    /** do_new_mount_fc: a new mount of a file system on top of whatever covers `path`. Mounting the
        file system that already covers it is refused. */
    method NewMount(path: Place, root: DId, sb: nat) returns (err: int)
      requires Valid() && InTree(ds, ms, path) && root < |ds|
      modifies this`ms
      ensures Valid()
      ensures var top := Traverse(ds, old(ms), path);
              && (err == EBUSY <==> old(ms)[top.m].sb == sb && old(ms)[top.m].root == top.d)
              && (err == 0 || err == EBUSY)
              && (err == EBUSY ==> ms == old(ms) + [Mount(root, |old(ms)|, root, sb, [])])
              && (err == 0 ==> MountedAt(ds, old(ms), ms, top, root))
    {
      hide DTree, MTree, Traverse, Attach;
      ghost var ms0 := ms;
      var c := CreateMount(root, sb);
      TraverseMoreMounts(ds, ms0, ms, path);
      var top := TraverseMounts(path);
      if ms[top.m].sb == sb && ms[top.m].root == top.d {
        return EBUSY;
      }
      MountedByAttach(ds, ms0, ms, top, c, root);
      Graft(c, top);
      return 0;
    }

    /** do_loopback: a bind mount shows the dentry `old_` leads to at `path`; it is never refused. */
    method BindMount(path: Place, old_: Place)
      requires Valid() && InTree(ds, ms, path) && InTree(ds, ms, old_)
      modifies this`ms
      ensures Valid()
      ensures MountedAt(ds, old(ms), ms, Traverse(ds, old(ms), path), old_.d)
    {
      hide DTree, MTree, Traverse, Attach;
      ghost var ms0 := ms;
      var top := TraverseMounts(path);
      var c := CreateMount(old_.d, ms[old_.m].sb);
      TraverseMoreMounts(ds, ms0, ms, path);
      MountedByAttach(ds, ms0, ms, top, c, old_.d);
      Graft(c, top);
    }

    // ---------------------------------------------------------------- namei.c

    /** walk_component for a name or ".": the cached child, or one the slow lookup adds, and then
        across the mounts on it. */
    method WalkComponent(p: Place, c: string, onDisk: OnDisk) returns (r: Option<Place>)
      requires Valid() && InTree(ds, ms, p) && (c == "." || NormalName(c))
      modifies this`ds
      ensures Valid() && InTree(ds, ms, p)
      ensures r == WalkOne(ds, ms, p, c)
      ensures r == None <==> c != "." && DLookup(old(ds), p.d, c) == None && (p.d, c) !in onDisk
      ensures ds == old(ds) || (WalkOne(old(ds), ms, p, c).None? && ds == AddTail(old(ds), p.d, c))
      ensures ds == old(ds) || (c != "." && DLookup(old(ds), p.d, c).None? && (p.d, c) in onDisk)
    {
      hide DTree, MTree, Traverse, DLookup, AddTail;
      if c == "." {
        return Some(p);
      }
      var d := FindChild(p.d, c);
      if d.None? {
        ghost var ds0 := ds;
        d := LookupSlow(p.d, c, onDisk);
        if d.None? {
          return None;
        }
        LookupAdded(ds0, p.d, c);
        AddTailSize(ds0, p.d, c);
      }
      var q := TraverseMounts(Place(d.value, p.m));
      r := Some(q);
    }

    /** link_path_walk: walks all components but the last, which it hands back. */
    method LinkPathWalk(s: string, start: Place, onDisk: OnDisk)
      returns (err: int, p: Place, last: Option<string>)
      requires Valid() && InTree(ds, ms, start) && Plain(Components(s, 0))
      modifies this`ds
      ensures Valid() && InTree(ds, ms, start) && InTree(ds, ms, p) && |old(ds)| <= |ds|
      ensures err == 0 || err == ENOENT
      ensures GrownBy(old(ds), ds, onDisk)
      ensures err == ENOENT ==> Walk(ds, ms, start, Components(s, 0)) == None
      ensures err == ENOENT ==> Missing(ds, ms, start, Components(s, 0), onDisk)
      ensures err == 0 && Components(s, 0) == [] ==> last == None && p == start
      ensures err == 0 && Components(s, 0) != [] ==>
                var cs := Components(s, 0);
                last == Some(cs[|cs| - 1]) && Walk(ds, ms, start, cs[..|cs| - 1]) == Some(p)
    {
      hide DTree, MTree, WalkOne, Plain, Walk, GrownBy, Missing, DLookup, Components;
      p, last := start, None;
      NotGrown(ds, onDisk);
      ghost var cs, done: seq<string> := Components(s, 0), [];
      var i := SkipSlashesFrom(s, 0);
      if i == |s| {
        NoComponents(s, 0);
        return 0, p, None;
      }
      ComponentsSkip(s, 0);
      WalkNil(ds, ms, start);
      while true
        invariant i < |s| && s[i] != '/' && |old(ds)| <= |ds| && GrownBy(old(ds), ds, onDisk)
        invariant Valid() && InTree(ds, ms, start) && InTree(ds, ms, p)
        invariant cs == done + Components(s, i) && Walk(ds, ms, start, done) == Some(p)
        decreases |s| - i
      {
        var k := ComponentEndFrom(s, i);
        var c := s[i..k];
        last := Some(c);
        ghost var rest := Components(s, k);
        ComponentsNext(s, i);
        assert cs == done + [c] + rest;
        i := SkipSlashesFrom(s, k);
        if i == |s| {
          NoComponents(s, k);
          assert cs == done + [c];
          return 0, p, last;
        }
        ComponentsSkip(s, k);
        PlainAt(cs, done, c, rest);
        ghost var ds0 := ds;
        var q := WalkComponent(p, c, onDisk);
        WalkAfterStep(ds0, ds, ms, start, done, p, c);
        WalkSnoc(ds, ms, start, done, c);
        GrownNext(old(ds), ds0, ds, p.d, c, onDisk);
        if q.None? {
          WalkStops(ds, ms, start, done + [c], rest);
          MissingAt(ds, ms, start, done, p, c, rest, onDisk);
          return ENOENT, p, last;
        }
        p, done := q.value, done + [c];
      }
    }

    /** path_lookupat: from the root when the path begins with a slash, else from the working
        directory, through every component. */
    method PathLookup(s: string, root: Place, pwd: Place, onDisk: OnDisk) returns (err: int, p: Place)
      requires Valid() && InTree(ds, ms, root) && InTree(ds, ms, pwd) && Plain(Components(s, 0))
      modifies this`ds
      ensures Valid() && InTree(ds, ms, root) && InTree(ds, ms, pwd)
      ensures err == 0 || err == ENOENT
      ensures Walk(ds, ms, if s != "" && s[0] == '/' then root else pwd, Components(s, 0)) ==
              if err == 0 then Some(p) else None
      ensures GrownBy(old(ds), ds, onDisk)
      ensures err == ENOENT ==>
                Missing(ds, ms, if s != "" && s[0] == '/' then root else pwd, Components(s, 0), onDisk)
    {
      hide DTree, MTree, WalkOne, Plain, Components, GrownBy, Missing, DLookup;
      ghost var cs := Components(s, 0);
      var start := if s != "" && s[0] == '/' then root else pwd;
      var last;
      err, p, last := LinkPathWalk(s, start, onDisk);
      if err != 0 {
        return;
      }
      if last.None? {
        WalkNil(ds, ms, start);
        return;
      }
      ghost var n := |cs| - 1;
      assert cs == cs[..n] + [last.value] + [];
      PlainAt(cs, cs[..n], last.value, []);
      ghost var ds0 := ds;
      var q := WalkComponent(p, last.value, onDisk);
      WalkAfterStep(ds0, ds, ms, start, cs[..n], p, last.value);
      WalkSnoc(ds, ms, start, cs[..n], last.value);
      GrownNext(old(ds), ds0, ds, p.d, last.value, onDisk);
      if q.None? {
        MissingAt(ds, ms, start, cs[..n], p, last.value, [], onDisk);
        return ENOENT, p;
      }
      return 0, q.value;
    }
  }

  method SkipSlashesFrom(s: string, start: nat) returns (i: nat)
    requires start <= |s|
    ensures i == SkipSlashes(s, start)
  {
    i := start;
    while i < |s| && s[i] == '/'
      invariant start <= i <= |s| && SkipSlashes(s, i) == SkipSlashes(s, start)
    {
      i := i + 1;
    }
  }

  method ComponentEndFrom(s: string, start: nat) returns (i: nat)
    requires start <= |s|
    ensures i == ComponentEnd(s, start)
  {
    i := start;
    while i < |s| && s[i] != '/'
      invariant start <= i <= |s| && ComponentEnd(s, i) == ComponentEnd(s, start)
    {
      i := i + 1;
    }
  }

  lemma ComponentsSkip(s: string, i: nat)
    requires i <= |s|
    ensures Components(s, SkipSlashes(s, i)) == Components(s, i)
  {
    SkipIs(s, SkipSlashes(s, i), SkipSlashes(s, i));
  }

  lemma ComponentsNext(s: string, i: nat)
    requires i < |s| && s[i] != '/'
    ensures Components(s, i) == [s[i..ComponentEnd(s, i)]] + Components(s, ComponentEnd(s, i))
  {
    SkipIs(s, i, i);
  }

  lemma NoComponents(s: string, i: nat)
    requires i <= |s| && SkipSlashes(s, i) == |s|
    ensures Components(s, i) == []
  {
  }

  // ---------------------------------------------------------------- what a lookup adds

  /** The tree grew by names that are on disk and were in no cache: each is found under its name. The
      older dentries are as they were, with children added behind. */
  ghost predicate GrownBy(ds0: Dentries, ds: Dentries, onDisk: OnDisk) {
    && DTree(ds) && |ds0| <= |ds|
    && (forall d :: 0 <= d < |ds0| ==>
          ds[d].name == ds0[d].name && ds[d].parent == ds0[d].parent && ds0[d].children <= ds[d].children)
    && forall d :: |ds0| <= d < |ds| ==> Came(ds, d, onDisk)
  }

  /** The dentry stands for a name on the disk, and is found under that name. */
  ghost predicate Came(ds: Dentries, d: DId, onDisk: OnDisk)
    requires DTree(ds) && d < |ds|
  {
    (ds[d].parent, ds[d].name) in onDisk && DLookup(ds, ds[d].parent, ds[d].name) == Some(d)
  }

  lemma CameNext(ds: Dentries, dir: DId, c: string, d: DId, onDisk: OnDisk)
    requires DTree(ds) && dir < |ds| && DTree(AddTail(ds, dir, c)) && DLookup(ds, dir, c).None? && (dir, c) in onDisk
    requires d <= |ds| && (d < |ds| ==> Came(ds, d, onDisk))
    ensures Came(AddTail(ds, dir, c), d, onDisk)
  {
    AddTailAt(ds, dir, c);
    hide AddTail, DTree, DLookup;
    if d < |ds| {
      ParentBelow(ds, d);
      LookupAfterAddTail(ds, dir, c, ds[d].parent, ds[d].name);
    } else {
      LookupAdded(ds, dir, c);
    }
  }

  lemma NotGrown(ds: Dentries, onDisk: OnDisk)
    requires DTree(ds)
    ensures GrownBy(ds, ds, onDisk)
  {
  }

  lemma GrownNext(ds0: Dentries, ds: Dentries, ds': Dentries, dir: DId, c: string, onDisk: OnDisk)
    requires DTree(ds) && DTree(ds') && dir < |ds| && GrownBy(ds0, ds, onDisk)
    requires ds' == ds || (ds' == AddTail(ds, dir, c) && DLookup(ds, dir, c).None? && (dir, c) in onDisk)
    ensures GrownBy(ds0, ds', onDisk)
  {
    if ds' != ds {
      AddTailAt(ds, dir, c);
      hide AddTail, DTree, DLookup, Came;
      forall d | |ds0| <= d < |ds'|
        ensures Came(ds', d, onDisk)
      {
        CameNext(ds, dir, c, d, onDisk);
      }
    }
  }

  lemma ParentBelow(ds: Dentries, d: DId)
    requires DTree(ds) && d < |ds|
    ensures ds[d].parent < |ds|
  {
  }

  lemma AddTailAt(ds: Dentries, dir: DId, name: string)
    requires dir < |ds|
    ensures var ds' := AddTail(ds, dir, name);
            && |ds'| == |ds| + 1 && ds'[|ds|].name == name && ds'[|ds|].parent == dir
            && forall d :: 0 <= d < |ds| ==>
                 ds'[d].name == ds[d].name && ds'[d].parent == ds[d].parent && ds[d].children <= ds'[d].children
  {
  }

  /** Some component is neither in the directory the walk has come to nor on disk there. */
  ghost predicate Missing(ds: Dentries, ms: Mounts, start: Place, cs: seq<string>, onDisk: OnDisk)
    requires DTree(ds) && MTree(ds, ms) && InTree(ds, ms, start)
  {
    exists k, q :: 0 <= k < |cs| && IsMissing(ds, ms, start, cs, onDisk, k, q)
  }

  ghost predicate IsMissing(ds: Dentries, ms: Mounts, start: Place, cs: seq<string>, onDisk: OnDisk, k: nat, q: Place)
    requires DTree(ds) && MTree(ds, ms) && InTree(ds, ms, start) && k < |cs|
  {
    && Walk(ds, ms, start, cs[..k]) == Some(q) && cs[k] != "."
    && DLookup(ds, q.d, cs[k]).None? && (q.d, cs[k]) !in onDisk
  }

  lemma MissingAt(ds: Dentries, ms: Mounts, start: Place, done: seq<string>, p: Place, c: string, rest: seq<string>,
                  onDisk: OnDisk)
    requires DTree(ds) && MTree(ds, ms) && InTree(ds, ms, start) && Walk(ds, ms, start, done) == Some(p)
    requires c != "." && DLookup(ds, p.d, c).None? && (p.d, c) !in onDisk
    ensures Missing(ds, ms, start, done + [c] + rest, onDisk)
  {
    hide Walk, DTree, MTree, DLookup;
    var cs := done + [c] + rest;
    assert cs[..|done|] == done && cs[|done|] == c;
    assert IsMissing(ds, ms, start, cs, onDisk, |done|, p);
  }

  lemma WalkNil(ds: Dentries, ms: Mounts, p: Place)
    requires DTree(ds) && MTree(ds, ms) && InTree(ds, ms, p)
    ensures Walk(ds, ms, p, []) == Some(p)
  {
  }

  /** A walk that has failed stays failed. */
  lemma {:induction false} WalkStops(ds: Dentries, ms: Mounts, p: Place, cs: seq<string>, more: seq<string>)
    requires DTree(ds) && MTree(ds, ms) && InTree(ds, ms, p) && Walk(ds, ms, p, cs) == None
    ensures Walk(ds, ms, p, cs + more) == None
  {
    hide *;
    if more == [] {
      assert cs + more == cs;
    } else {
      var n := |more| - 1;
      WalkStops(ds, ms, p, cs, more[..n]);
      WalkSnoc(ds, ms, p, cs + more[..n], more[n]);
      assert cs + more == cs + more[..n] + [more[n]];
    }
  }

  /** Components that are names or ".", without "..". */
  predicate Plain(cs: seq<string>) {
    forall i :: 0 <= i < |cs| ==> cs[i] == "." || NormalName(cs[i])
  }

  lemma PlainAt(cs: seq<string>, done: seq<string>, c: string, rest: seq<string>)
    requires Plain(cs) && cs == done + [c] + rest
    ensures c == "." || NormalName(c)
  {
    assert cs[|done|] == c;
  }

  lemma AddTailSize(ds: Dentries, dir: DId, name: string)
    requires dir < |ds|
    ensures |AddTail(ds, dir, name)| == |ds| + 1
  {
  }

  /** The walk so far survives whatever the next component adds. */
  lemma WalkAfterStep(ds0: Dentries, ds: Dentries, ms: Mounts, start: Place, done: seq<string>, p: Place, c: string)
    requires DTree(ds0) && DTree(ds) && MTree(ds0, ms) && MTree(ds, ms)
    requires InTree(ds0, ms, start) && InTree(ds0, ms, p) && (c == "." || NormalName(c))
    requires Walk(ds0, ms, start, done) == Some(p)
    requires ds == ds0 || (WalkOne(ds0, ms, p, c).None? && ds == AddTail(ds0, p.d, c))
    ensures InTree(ds, ms, start) && InTree(ds, ms, p) && Walk(ds, ms, start, done) == Some(p)
    ensures |ds0| <= |ds|
  {
    if ds != ds0 {
      WalkDot(ds0, ms, p);
      AddTailSize(ds0, p.d, c);
      WalkAfterAddTail(ds0, ms, p.d, c, start, done);
    }
  }

  /** `ms` is `ms0` with a new mount of `root` at `top`: traversals that ended there now end at its
      root, every other traversal is unchanged. */
  ghost predicate MountedAt(ds: Dentries, ms0: Mounts, ms: Mounts, top: Place, root: DId)
    requires MTree(ds, ms0) && MTree(ds, ms)
  {
    && |ms| == |ms0| + 1
    && forall p: Place :: p.m < |ms0| ==>
         Traverse(ds, ms, p) == if Traverse(ds, ms0, p) == top then Place(root, |ms0|) else Traverse(ds, ms0, p)
  }

  lemma LookupMoreMounts(ds: Dentries, ms0: Mounts, ms: Mounts, p: Place)
    requires MTree(ds, ms0) && MTree(ds, ms) && |ms| == |ms0| + 1 && ms[..|ms0|] == ms0 && p.m < |ms0|
    ensures LookupMnt(ds, ms, p) == LookupMnt(ds, ms0, p)
  {
    var r, r' := LookupMnt(ds, ms0, p), LookupMnt(ds, ms, p);
    assert ms[p.m] == ms0[p.m];
    assert forall m :: 0 <= m < |ms0| ==> ms[m] == ms0[m];
    hide LookupMnt;
    if r.Some? {
      LookupMntIs(ds, ms0, p, r.value);
      LookupMntIs(ds, ms, p, r.value);
    } else if r'.Some? {
      LookupMntIs(ds, ms0, p, r'.value);
      LookupMntIs(ds, ms, p, r'.value);
      assert ms[p.m].children == ms0[p.m].children;
    }
  }

  /** A mount attached nowhere changes no traversal. */
  lemma {:induction false} TraverseMoreMounts(ds: Dentries, ms0: Mounts, ms: Mounts, p: Place)
    requires MTree(ds, ms0) && MTree(ds, ms) && |ms| == |ms0| + 1 && ms[..|ms0|] == ms0 && p.m < |ms0|
    ensures Traverse(ds, ms, p) == Traverse(ds, ms0, p)
    decreases |ms0| - p.m
  {
    hide MTree, LookupMnt;
    LookupMoreMounts(ds, ms0, ms, p);
    var r := LookupMnt(ds, ms0, p);
    if r.Some? {
      assert ms[r.value] == ms0[r.value];
      TraverseMoreMounts(ds, ms0, ms, Place(ms0[r.value].root, r.value));
    }
  }

  lemma MountedByAttach(ds: Dentries, ms0: Mounts, ms: Mounts, top: Place, c: MId, root: DId)
    requires MTree(ds, ms0) && MTree(ds, ms) && c == |ms0| && |ms| == |ms0| + 1 && ms[..|ms0|] == ms0
    requires Loose(ms, c) && ms[c].root == root
    requires InTree(ds, ms0, top) && LookupMnt(ds, ms, top).None?
    ensures MTree(ds, Attach(ms, top, c)) && MountedAt(ds, ms0, Attach(ms, top, c), top, root)
  {
    AttachKeeps(ds, ms, top, c);
    hide MTree, LookupMnt, Traverse, Attach;
    forall p: Place | p.m < |ms0|
      ensures Traverse(ds, Attach(ms, top, c), p) ==
              if Traverse(ds, ms0, p) == top then Place(root, c) else Traverse(ds, ms0, p)
    {
      TraverseMoreMounts(ds, ms0, ms, p);
      TraverseAfterAttach(ds, ms, top, c, p);
    }
    SameRoots(ms, top, c);
  }
}
