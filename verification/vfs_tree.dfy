/** Dentry trees, the mount tree over them, the descent of a path walk and the ascent of path
    printing, as values: fs/vfs/dcache.c, namespace.c, namei.c and d_path.c.
    Dentries and mounts are numbered in the order they were allocated. */
module VfsTree {
  import opened Common

  type DId = nat
  type MId = nat

  datatype Dentry = Dentry(name: string, parent: DId, children: seq<DId>)
  datatype Mount = Mount(root: DId, parent: MId, mountpoint: DId, sb: nat, children: seq<MId>)
  datatype Place = Place(d: DId, m: MId)

  type Dentries = seq<Dentry>
  type Mounts = seq<Mount>

  /** What a path component may be: not empty, not a dot entry, and free of slashes and of the
      string terminator. */
  predicate NormalName(s: string) {
    s != "" && s != "." && s != ".." && forall i :: 0 <= i < |s| ==> s[i] != '/' && s[i] != '\0'
  }

  /** Every dentry is a root or a named child of an older one, which lists it. */
  ghost predicate DTree(ds: Dentries) {
    && (forall d :: 0 <= d < |ds| ==> ds[d].parent <= d)
    && (forall d :: 0 <= d < |ds| && ds[d].parent != d ==>
          NormalName(ds[d].name) && d in ds[ds[d].parent].children)
    && (forall d, i :: 0 <= d < |ds| && 0 <= i < |ds[d].children| ==>
          d < ds[d].children[i] < |ds| && ds[ds[d].children[i]].parent == d)
  }

  /** Every mount is detached or hangs on an older one, which lists it; no two children of a mount
      sit on the same dentry. */
  ghost predicate MTree(ds: Dentries, ms: Mounts) {
    && (forall m :: 0 <= m < |ms| ==>
          ms[m].root < |ds| && ms[m].mountpoint < |ds| && ms[m].parent <= m)
    && (forall m :: 0 <= m < |ms| && ms[m].parent != m ==> m in ms[ms[m].parent].children)
    && (forall m, i :: 0 <= m < |ms| && 0 <= i < |ms[m].children| ==>
          m < ms[m].children[i] < |ms| && ms[ms[m].children[i]].parent == m)
    && (forall m, i, j :: 0 <= m < |ms| && 0 <= i < j < |ms[m].children| ==>
          ms[ms[m].children[i]].mountpoint != ms[ms[m].children[j]].mountpoint)
  }

  ghost predicate InTree(ds: Dentries, ms: Mounts, p: Place) {
    p.d < |ds| && p.m < |ms|
  }

  // ---------------------------------------------------------------- child lookup

  /** Index of the first child from `i` on whose name begins with `name`, or the list's length:
      the comparison is only as long as the name asked for. */
  function FirstMatch(ds: Dentries, kids: seq<DId>, name: string, i: nat): (k: nat)
    requires i <= |kids| && forall j :: 0 <= j < |kids| ==> kids[j] < |ds|
    ensures i <= k <= |kids|
    ensures k < |kids| ==> name <= ds[kids[k]].name
    ensures forall j :: i <= j < k ==> !(name <= ds[kids[j]].name)
    decreases |kids| - i
  {
    if i == |kids| || name <= ds[kids[i]].name then i else FirstMatch(ds, kids, name, i + 1)
  }

  ghost function DLookup(ds: Dentries, dir: DId, name: string): (r: Option<DId>)
    requires DTree(ds) && dir < |ds|
    ensures r.Some? ==> dir < r.value < |ds| && ds[r.value].parent == dir && name <= ds[r.value].name
  {
    var kids := ds[dir].children;
    var k := FirstMatch(ds, kids, name, 0);
    if k < |kids| then Some(kids[k]) else None
  }

  lemma FirstMatchIs(ds: Dentries, kids: seq<DId>, name: string, k: nat)
    requires forall j :: 0 <= j < |kids| ==> kids[j] < |ds|
    requires k <= |kids| && (k < |kids| ==> name <= ds[kids[k]].name)
    requires forall j :: 0 <= j < k ==> !(name <= ds[kids[j]].name)
    ensures FirstMatch(ds, kids, name, 0) == k
  {
  }

  /** A child is found under its own full name exactly when no earlier sibling's name begins with
      that name. */
  lemma LookupOwnName(ds: Dentries, dir: DId, k: nat)
    requires DTree(ds) && dir < |ds| && k < |ds[dir].children|
    ensures var kids := ds[dir].children;
            (DLookup(ds, dir, ds[kids[k]].name) == Some(kids[k])
             && FirstMatch(ds, kids, ds[kids[k]].name, 0) == k)
            <==> forall j :: 0 <= j < k ==> !(ds[kids[k]].name <= ds[kids[j]].name)
  {
    var kids := ds[dir].children;
    if forall j :: 0 <= j < k ==> !(ds[kids[k]].name <= ds[kids[j]].name) {
      FirstMatchIs(ds, kids, ds[kids[k]].name, k);
    }
  }

  /** Whatever name led to a child, its full name leads to the same child: an earlier match of the
      full name would have matched the shorter one first. */
  lemma LookupFullName(ds: Dentries, dir: DId, name: string)
    requires DTree(ds) && dir < |ds| && DLookup(ds, dir, name).Some?
    ensures DLookup(ds, dir, ds[DLookup(ds, dir, name).value].name) == DLookup(ds, dir, name)
  {
    var kids := ds[dir].children;
    var k := FirstMatch(ds, kids, name, 0);
    var full := ds[kids[k]].name;
    forall j | 0 <= j < k
      ensures !(full <= ds[kids[j]].name)
    {
      PrefixTrans(name, full, ds[kids[j]].name);
    }
    FirstMatchIs(ds, kids, full, k);
  }

  lemma PrefixTrans(a: string, b: string, c: string)
    requires a <= b
    ensures b <= c ==> a <= c
  {
  }

  // ---------------------------------------------------------------- crossing mounts

  function FirstMountAt(ms: Mounts, kids: seq<MId>, d: DId, i: nat): (k: nat)
    requires i <= |kids| && forall j :: 0 <= j < |kids| ==> kids[j] < |ms|
    ensures i <= k <= |kids|
    ensures k < |kids| ==> ms[kids[k]].mountpoint == d
    ensures forall j :: i <= j < k ==> ms[kids[j]].mountpoint != d
    decreases |kids| - i
  {
    if i == |kids| || ms[kids[i]].mountpoint == d then i else FirstMountAt(ms, kids, d, i + 1)
  }

  ghost function LookupMnt(ds: Dentries, ms: Mounts, p: Place): (r: Option<MId>)
    requires MTree(ds, ms) && p.m < |ms|
    ensures r.Some? ==> p.m < r.value < |ms| && ms[r.value].parent == p.m && ms[r.value].mountpoint == p.d
  {
    var kids := ms[p.m].children;
    var k := FirstMountAt(ms, kids, p.d, 0);
    if k < |kids| then Some(kids[k]) else None
  }

  /** At most one mount sits on a place, so the list scan finds whichever there is. */
  lemma LookupMntIs(ds: Dentries, ms: Mounts, p: Place, c: MId)
    requires MTree(ds, ms) && p.m < |ms|
    ensures LookupMnt(ds, ms, p) == Some(c) <==>
            c < |ms| && ms[c].parent == p.m && c != p.m && ms[c].mountpoint == p.d
  {
    if c < |ms| && ms[c].parent == p.m && c != p.m && ms[c].mountpoint == p.d {
      var kids := ms[p.m].children;
      var i :| 0 <= i < |kids| && kids[i] == c;
      var k := FirstMountAt(ms, kids, p.d, 0);
      assert k <= i;
      SameMountpoint(ds, ms, p.m, k, i);
    }
  }

  lemma SameMountpoint(ds: Dentries, ms: Mounts, m: MId, i: nat, j: nat)
    requires MTree(ds, ms) && m < |ms| && i <= j < |ms[m].children|
    requires ms[ms[m].children[i]].mountpoint == ms[ms[m].children[j]].mountpoint
    ensures i == j
  {
  }

  /** Where a place leads once all mounts stacked on it are crossed. */
  ghost function Traverse(ds: Dentries, ms: Mounts, p: Place): (r: Place)
    requires MTree(ds, ms) && p.m < |ms|
    ensures r.m < |ms| && (r == p || (p.m < r.m && r.d == ms[r.m].root))
    ensures LookupMnt(ds, ms, r).None?
    decreases |ms| - p.m
  {
    match LookupMnt(ds, ms, p)
    case None => p
    case Some(c) => Traverse(ds, ms, Place(ms[c].root, c))
  }

  // ---------------------------------------------------------------- walking down

  /** One component of a walk; the dentry found may be covered by mounts. */
  ghost function WalkOne(ds: Dentries, ms: Mounts, p: Place, c: string): (r: Option<Place>)
    requires DTree(ds) && MTree(ds, ms) && InTree(ds, ms, p)
    ensures r.Some? ==> InTree(ds, ms, r.value)
  {
    if c == "." then Some(p)
    else
      match DLookup(ds, p.d, c)
      case None => None
      case Some(k) => Some(Traverse(ds, ms, Place(k, p.m)))
  }

  ghost function Walk(ds: Dentries, ms: Mounts, p: Place, cs: seq<string>): (r: Option<Place>)
    requires DTree(ds) && MTree(ds, ms) && InTree(ds, ms, p)
    ensures r.Some? ==> InTree(ds, ms, r.value)
  {
    if cs == [] then Some(p)
    else
      match Walk(ds, ms, p, cs[..|cs| - 1])
      case None => None
      case Some(q) => WalkOne(ds, ms, q, cs[|cs| - 1])
  }

  /** A walk from a place no mount covers never ends below a mount. */
  lemma {:induction false} WalkUncovered(ds: Dentries, ms: Mounts, p: Place, cs: seq<string>)
    requires DTree(ds) && MTree(ds, ms) && InTree(ds, ms, p) && LookupMnt(ds, ms, p).None?
    requires Walk(ds, ms, p, cs).Some?
    ensures LookupMnt(ds, ms, Walk(ds, ms, p, cs).value).None?
  {
    hide DTree, MTree, LookupMnt, DLookup;
    if cs != [] {
      WalkUncovered(ds, ms, p, cs[..|cs| - 1]);
    }
  }

  // ---------------------------------------------------------------- climbing up

  datatype Climbed = Reached(names: seq<string>) | Detached(names: seq<string>) | Escaped(names: seq<string>)

  function AddName(c: Climbed, name: string): Climbed {
    c.(names := c.names + [name])
  }

  /** The names met on the way up from `p` to `root`, topmost first, or how the way ends. */
  ghost function Climb(ds: Dentries, ms: Mounts, root: Place, p: Place): Climbed
    requires DTree(ds) && MTree(ds, ms) && InTree(ds, ms, p)
    decreases p.m, p.d
  {
    if p == root then Reached([])
    else if p.d == ms[p.m].root then
      if ms[p.m].parent == p.m then Detached([])
      else Climb(ds, ms, root, Place(ms[p.m].mountpoint, ms[p.m].parent))
    else if ds[p.d].parent == p.d then Escaped([])
    else AddName(Climb(ds, ms, root, Place(ds[p.d].parent, p.m)), ds[p.d].name)
  }

  ghost predicate Descends(ds: Dentries, top: DId, d: DId)
    requires DTree(ds) && d < |ds|
  {
    d == top || (ds[d].parent != d && Descends(ds, top, ds[d].parent))
  }

  lemma {:induction false} DescendsOrder(ds: Dentries, top: DId, d: DId)
    requires DTree(ds) && d < |ds| && Descends(ds, top, d)
    ensures top <= d
  {
    if d != top { DescendsOrder(ds, top, ds[d].parent); }
  }

  /** How the way up through a mount without `root` ends: it escapes from a dentry outside the mount's part
      of the tree, is cut off in a mount attached nowhere, and else goes on below the mount. */
  lemma {:induction false} ClimbOut(ds: Dentries, ms: Mounts, root: Place, p: Place)
    requires DTree(ds) && MTree(ds, ms) && InTree(ds, ms, p) && root.m != p.m
    ensures var c, m := Climb(ds, ms, root, p), ms[p.m];
            if !Descends(ds, m.root, p.d) then c.Escaped?
            else if m.parent == p.m then c.Detached?
            else && InTree(ds, ms, Place(m.mountpoint, m.parent))
                 && GoesOn(c, Climb(ds, ms, root, Place(m.mountpoint, m.parent)))
    decreases p.d
  {
    if p.d != ms[p.m].root && ds[p.d].parent != p.d {
      ClimbOut(ds, ms, root, Place(ds[p.d].parent, p.m));
    }
  }

  /** `c` ends like `up`, with more names below. */
  predicate GoesOn(c: Climbed, up: Climbed) {
    up.names <= c.names && c.Reached? == up.Reached? && c.Detached? == up.Detached?
  }

  /** `p` lies in its mount's part of the dentry tree. */
  ghost predicate InMount(ds: Dentries, ms: Mounts, p: Place)
    requires DTree(ds)
  {
    InTree(ds, ms, p) && ms[p.m].root < |ds| && Descends(ds, ms[p.m].root, p.d)
  }

  /** `p` is where a walk from `root` may stand: in its own mount, and not above the start. */
  ghost predicate Below(ds: Dentries, ms: Mounts, root: Place, p: Place)
    requires DTree(ds)
  {
    InMount(ds, ms, p) && (root.m < p.m || (root.m == p.m && root.d <= p.d))
  }

  /** Crossing mounts downwards is undone by the ascent. */
  lemma {:induction false} ClimbTraverse(ds: Dentries, ms: Mounts, root: Place, x: Place)
    requires DTree(ds) && MTree(ds, ms) && InTree(ds, ms, x) && root.m <= x.m && x != root
    ensures var p := Traverse(ds, ms, x); InTree(ds, ms, p) && p != root
    ensures Climb(ds, ms, root, Traverse(ds, ms, x)) == Climb(ds, ms, root, x)
    decreases |ms| - x.m
  {
    var r := LookupMnt(ds, ms, x);
    if r.Some? {
      var y := Place(ms[r.value].root, r.value);
      ClimbTraverse(ds, ms, root, y);
      assert Climb(ds, ms, root, y) == Climb(ds, ms, root, x);
    }
  }

  // ---------------------------------------------------------------- down and up again

  /** The names of the dentries a walk steps on. */
  ghost function Met(ds: Dentries, ms: Mounts, root: Place, cs: seq<string>): seq<string>
    requires DTree(ds) && MTree(ds, ms) && InTree(ds, ms, root) && Walk(ds, ms, root, cs).Some?
  {
    if cs == [] then []
    else
      var n, c := |cs| - 1, cs[|cs| - 1];
      var q := Walk(ds, ms, root, cs[..n]).value;
      Met(ds, ms, root, cs[..n]) + if c == "." then [] else [ds[DLookup(ds, q.d, c).value].name]
  }

  lemma StepClimbs(ds: Dentries, ms: Mounts, root: Place, q: Place, c: string)
    requires DTree(ds) && MTree(ds, ms) && Below(ds, ms, root, q) && InTree(ds, ms, q)
    requires c != "." && WalkOne(ds, ms, q, c).Some?
    ensures var k := DLookup(ds, q.d, c).value; var p := WalkOne(ds, ms, q, c).value;
            && NormalName(ds[k].name)
            && Below(ds, ms, root, p)
            && Climb(ds, ms, root, p) == AddName(Climb(ds, ms, root, q), ds[k].name)
            && WalkOne(ds, ms, q, ds[k].name) == Some(p)
  {
    hide Descends, Traverse;
    var k := DLookup(ds, q.d, c).value;
    var x := Place(k, q.m);
    assert ds[k].parent == q.d && q.d < k;
    DescendsOrder(ds, ms[q.m].root, q.d);
    LookupFullName(ds, q.d, c);
    ClimbTraverse(ds, ms, root, x);
    ChildDescends(ds, ms[q.m].root, k);
    TraverseInMount(ds, ms, x);
  }

  lemma ChildDescends(ds: Dentries, top: DId, k: DId)
    requires DTree(ds) && k < |ds| && ds[k].parent != k && Descends(ds, top, ds[k].parent)
    ensures Descends(ds, top, k)
  {
  }

  lemma TraverseInMount(ds: Dentries, ms: Mounts, x: Place)
    requires DTree(ds) && MTree(ds, ms) && InMount(ds, ms, x)
    ensures InMount(ds, ms, Traverse(ds, ms, x))
  {
    var p := Traverse(ds, ms, x);
    if p != x { assert Descends(ds, ms[p.m].root, p.d); }
  }

  lemma WalkSnoc(ds: Dentries, ms: Mounts, root: Place, cs: seq<string>, c: string)
    requires DTree(ds) && MTree(ds, ms) && InTree(ds, ms, root)
    ensures Walk(ds, ms, root, cs).None? ==> Walk(ds, ms, root, cs + [c]).None?
    ensures Walk(ds, ms, root, cs).Some? ==>
              Walk(ds, ms, root, cs + [c]) == WalkOne(ds, ms, Walk(ds, ms, root, cs).value, c)
  {
    hide DTree, MTree, WalkOne;
    assert (cs + [c])[..|cs|] == cs;
  }

  lemma MetSnoc(ds: Dentries, ms: Mounts, root: Place, cs: seq<string>, c: string)
    requires DTree(ds) && MTree(ds, ms) && InTree(ds, ms, root) && Walk(ds, ms, root, cs + [c]).Some?
    ensures Walk(ds, ms, root, cs).Some?
    ensures c == "." ==> Met(ds, ms, root, cs + [c]) == Met(ds, ms, root, cs)
    ensures c != "." ==>
              var q := Walk(ds, ms, root, cs).value;
              DLookup(ds, q.d, c).Some? && c <= ds[DLookup(ds, q.d, c).value].name
              && Met(ds, ms, root, cs + [c]) == Met(ds, ms, root, cs) + [ds[DLookup(ds, q.d, c).value].name]
  {
    hide DTree, MTree, WalkOne, DLookup;
    WalkSnoc(ds, ms, root, cs, c);
    assert (cs + [c])[..|cs|] == cs;
    if c != "." { WalkOneHit(ds, ms, Walk(ds, ms, root, cs).value, c); }
  }

  /** Printing undoes walking. The ascent from wherever a walk ended meets exactly the dentries the
      walk stepped on, and walking their names once more ends at the same place. */
  lemma {:induction false} WalkThenClimb(ds: Dentries, ms: Mounts, root: Place, cs: seq<string>)
    requires DTree(ds) && MTree(ds, ms) && InMount(ds, ms, root) && InTree(ds, ms, root)
    requires Walk(ds, ms, root, cs).Some?
    ensures var p, ns := Walk(ds, ms, root, cs).value, Met(ds, ms, root, cs);
            && Below(ds, ms, root, p)
            && Climb(ds, ms, root, p) == Reached(ns)
            && Walk(ds, ms, root, ns) == Some(p)
            && AllNormal(ns)
  {
    if cs == [] {
      hide DTree, MTree;
      ClimbRoot(ds, ms, root);
    } else {
      hide *;
      var front, c := cs[..|cs| - 1], cs[|cs| - 1];
      assert cs == front + [c];
      WalkSnoc(ds, ms, root, front, c);
      MetSnoc(ds, ms, root, front, c);
      WalkThenClimb(ds, ms, root, front);
      var q, ns := Walk(ds, ms, root, front).value, Met(ds, ms, root, front);
      if c == "." {
        WalkDot(ds, ms, q);
      } else {
        var name := ds[DLookup(ds, q.d, c).value].name;
        StepClimbs(ds, ms, root, q, c);
        WalkSnoc(ds, ms, root, ns, name);
        AllNormalSnoc(ns, name);
        assert AddName(Reached(ns), name) == Reached(ns + [name]) by { AddNameIs(ns, name); }
      }
    }
  }

  predicate AllNormal(ns: seq<string>) {
    forall i :: 0 <= i < |ns| ==> NormalName(ns[i])
  }

  lemma AllNormalSnoc(ns: seq<string>, name: string)
    requires AllNormal(ns) && NormalName(name)
    ensures AllNormal(ns + [name])
  {
  }

  lemma AddNameIs(ns: seq<string>, name: string)
    ensures AddName(Reached(ns), name) == Reached(ns + [name])
  {
  }

  lemma WalkOneHit(ds: Dentries, ms: Mounts, q: Place, c: string)
    requires DTree(ds) && MTree(ds, ms) && InTree(ds, ms, q) && c != "." && WalkOne(ds, ms, q, c).Some?
    ensures DLookup(ds, q.d, c).Some? && c <= ds[DLookup(ds, q.d, c).value].name
  {
  }

  lemma WalkDot(ds: Dentries, ms: Mounts, q: Place)
    requires DTree(ds) && MTree(ds, ms) && InTree(ds, ms, q)
    ensures WalkOne(ds, ms, q, ".") == Some(q)
  {
  }

  lemma ClimbRoot(ds: Dentries, ms: Mounts, root: Place)
    requires DTree(ds) && MTree(ds, ms) && InMount(ds, ms, root)
    ensures Climb(ds, ms, root, root) == Reached([]) && Below(ds, ms, root, root)
  {
  }

  /** The directory has a child of this very name, and no earlier child's name begins with it. */
  ghost predicate NamesChild(ds: Dentries, dir: DId, name: string)
    requires DTree(ds) && dir < |ds|
  {
    var kids := ds[dir].children;
    exists k :: 0 <= k < |kids| && ds[kids[k]].name == name && forall j :: 0 <= j < k ==> !(name <= ds[kids[j]].name)
  }

  /** That is exactly when the lookup finds a dentry of the name asked for. */
  lemma NamesChildExact(ds: Dentries, dir: DId, name: string)
    requires DTree(ds) && dir < |ds|
    ensures NamesChild(ds, dir, name) <==>
            DLookup(ds, dir, name).Some? && ds[DLookup(ds, dir, name).value].name == name
  {
    var kids := ds[dir].children;
    if NamesChild(ds, dir, name) {
      var k :| 0 <= k < |kids| && ds[kids[k]].name == name && forall j :: 0 <= j < k ==> !(name <= ds[kids[j]].name);
      assert name <= name;
      FirstMatchIs(ds, kids, name, k);
    }
  }

  /** Every directory a path passes names the next component as a child. */
  ghost predicate NamedAlong(ds: Dentries, ms: Mounts, root: Place, cs: seq<string>)
    requires DTree(ds) && MTree(ds, ms) && InTree(ds, ms, root)
  {
    cs == []
    || (var n := |cs| - 1;
        && NamedAlong(ds, ms, root, cs[..n]) && Walk(ds, ms, root, cs[..n]).Some?
        && NamesChild(ds, Walk(ds, ms, root, cs[..n]).value.d, cs[n]))
  }

  lemma NamedAlongSnoc(ds: Dentries, ms: Mounts, root: Place, cs: seq<string>, c: string)
    requires DTree(ds) && MTree(ds, ms) && InTree(ds, ms, root)
    ensures NamedAlong(ds, ms, root, cs + [c]) <==>
            && NamedAlong(ds, ms, root, cs) && Walk(ds, ms, root, cs).Some?
            && NamesChild(ds, Walk(ds, ms, root, cs).value.d, c)
  {
    hide DTree, MTree, Walk, NamesChild;
    assert (cs + [c])[..|cs|] == cs;
  }

  /** A walk succeeds and meets exactly the names asked for if and only if every directory on the way
      names the next component. */
  lemma {:induction false} MetIsAsked(ds: Dentries, ms: Mounts, root: Place, cs: seq<string>)
    requires DTree(ds) && MTree(ds, ms) && InTree(ds, ms, root) && AllNormal(cs)
    ensures Walk(ds, ms, root, cs).Some? && Met(ds, ms, root, cs) == cs <==> NamedAlong(ds, ms, root, cs)
  {
    if cs == [] {
      hide DTree, MTree;
    } else {
      hide *;
      var front, c := cs[..|cs| - 1], cs[|cs| - 1];
      assert cs == front + [c];
      AllNormalFront(front, c);
      MetIsAsked(ds, ms, root, front);
      NamedAlongSnoc(ds, ms, root, front, c);
      WalkSnoc(ds, ms, root, front, c);
      if Walk(ds, ms, root, front).Some? {
        var q := Walk(ds, ms, root, front).value;
        NamesChildExact(ds, q.d, c);
        WalkOneFinds(ds, ms, q, c);
        if Walk(ds, ms, root, cs).Some? {
          MetSnoc(ds, ms, root, front, c);
          SnocEqual(Met(ds, ms, root, front), ds[DLookup(ds, q.d, c).value].name, front, c);
        }
      }
    }
  }

  lemma AllNormalFront(ns: seq<string>, name: string)
    requires AllNormal(ns + [name])
    ensures AllNormal(ns) && name != "."
  {
    assert forall i :: 0 <= i < |ns| ==> ns[i] == (ns + [name])[i];
    assert (ns + [name])[|ns|] == name;
  }

  lemma WalkOneFinds(ds: Dentries, ms: Mounts, q: Place, c: string)
    requires DTree(ds) && MTree(ds, ms) && InTree(ds, ms, q) && c != "."
    ensures WalkOne(ds, ms, q, c).Some? <==> DLookup(ds, q.d, c).Some?
  {
  }

  lemma SnocEqual(a: seq<string>, x: string, b: seq<string>, y: string)
    ensures a + [x] == b + [y] <==> a == b && x == y
  {
    if a + [x] == b + [y] {
      assert a == (a + [x])[..|a|] && b == (b + [y])[..|b|];
    }
  }

  /** No name in a directory begins with another. */
  ghost predicate PrefixFree(ds: Dentries, dir: DId)
    requires DTree(ds) && dir < |ds|
  {
    var kids := ds[dir].children;
    forall i, j :: 0 <= i < |kids| && 0 <= j < |kids| && kids[i] != kids[j] ==>
      !(ds[kids[i]].name <= ds[kids[j]].name)
  }

  /** In such a directory a name that exists is found under exactly that name. */
  lemma PrefixFreeExact(ds: Dentries, dir: DId, i: nat)
    requires DTree(ds) && dir < |ds| && PrefixFree(ds, dir) && i < |ds[dir].children|
    ensures DLookup(ds, dir, ds[ds[dir].children[i]].name) == Some(ds[dir].children[i])
  {
    var kids := ds[dir].children;
    var name := ds[kids[i]].name;
    var k := FirstMatch(ds, kids, name, 0);
    assert name <= name;
    assert k <= i;
  }

  ghost predicate HasChild(ds: Dentries, dir: DId, name: string)
    requires DTree(ds) && dir < |ds|
  {
    exists i :: 0 <= i < |ds[dir].children| && ds[ds[dir].children[i]].name == name
  }

  /** Every directory a path passes is prefix-free and has the next component as a child. */
  ghost predicate ExistsAlong(ds: Dentries, ms: Mounts, root: Place, cs: seq<string>)
    requires DTree(ds) && MTree(ds, ms) && InTree(ds, ms, root)
  {
    forall i :: 0 <= i < |cs| && Walk(ds, ms, root, cs[..i]).Some? ==>
      var dir := Walk(ds, ms, root, cs[..i]).value.d; PrefixFree(ds, dir) && HasChild(ds, dir, cs[i])
  }

  lemma {:induction false} PrefixFreeNames(ds: Dentries, ms: Mounts, root: Place, cs: seq<string>)
    requires DTree(ds) && MTree(ds, ms) && InTree(ds, ms, root) && AllNormal(cs) && ExistsAlong(ds, ms, root, cs)
    ensures NamedAlong(ds, ms, root, cs)
  {
    hide DTree, MTree, Walk, ExistsAlong, PrefixFree, HasChild, AllNormal;
    if cs != [] {
      hide *;
      var front, c := cs[..|cs| - 1], cs[|cs| - 1];
      assert cs == front + [c];
      ExistsFront(ds, ms, root, front, c);
      AllNormalFront(front, c);
      PrefixFreeNames(ds, ms, root, front);
      MetIsAsked(ds, ms, root, front);
      NamedAlongSnoc(ds, ms, root, front, c);
      FoundExactly(ds, Walk(ds, ms, root, front).value.d, c);
    }
  }

  lemma ExistsFront(ds: Dentries, ms: Mounts, root: Place, cs: seq<string>, c: string)
    requires DTree(ds) && MTree(ds, ms) && InTree(ds, ms, root) && ExistsAlong(ds, ms, root, cs + [c])
    ensures ExistsAlong(ds, ms, root, cs)
    ensures Walk(ds, ms, root, cs).Some? ==>
              var dir := Walk(ds, ms, root, cs).value.d; PrefixFree(ds, dir) && HasChild(ds, dir, c)
  {
    hide DTree, MTree, Walk, PrefixFree, HasChild;
    var all := cs + [c];
    assert all[..|cs|] == cs && all[|cs|] == c;
    assert forall i :: 0 <= i < |cs| ==> all[..i] == cs[..i] && all[i] == cs[i];
  }

  lemma FoundExactly(ds: Dentries, dir: DId, name: string)
    requires DTree(ds) && dir < |ds| && PrefixFree(ds, dir) && HasChild(ds, dir, name)
    ensures NamesChild(ds, dir, name)
  {
    var i :| 0 <= i < |ds[dir].children| && ds[ds[dir].children[i]].name == name;
    PrefixFreeExact(ds, dir, i);
    NamesChildExact(ds, dir, name);
  }

  /** Without that, a name can lead to another file: with children "ab" and "a" in this order,
      asking for "a" finds "ab". */
  lemma ShorterNameShadowed()
    ensures var ds := [Dentry("/", 0, [1, 2]), Dentry("ab", 0, []), Dentry("a", 0, [])];
            DTree(ds) && DLookup(ds, 0, "a") == Some(1)
  {
    var ds := [Dentry("/", 0, [1, 2]), Dentry("ab", 0, []), Dentry("a", 0, [])];
    assert "a" <= "ab";
    assert ds[0].children == [1, 2];
    assert 1 in ds[0].children && 2 in ds[0].children;
  }

  /** Nor is being prefix-free enough: with the one child "ab", asking for "a" finds "ab" too. */
  lemma OnlyChildShadows()
    ensures var ds := [Dentry("/", 0, [1]), Dentry("ab", 0, [])];
            DTree(ds) && PrefixFree(ds, 0) && DLookup(ds, 0, "a") == Some(1) && !NamesChild(ds, 0, "a")
  {
    var ds := [Dentry("/", 0, [1]), Dentry("ab", 0, [])];
    assert "a" <= "ab";
    assert ds[0].children == [1] && 1 in ds[0].children;
    NamesChildExact(ds, 0, "a");
  }
}
