/** fs/vfs/d_path.c: printing a place backwards into a buffer, and getcwd. */
module VfsPrint {
  import opened Common
  import opened VfsTree
  import opened VfsPath

  const PATH_MAX := 4096
  const ENAMETOOLONG: int := -36
  const ERANGE: int := -34
  const UNREACHABLE := "(unreachable)"
  const NUL: char := '\0'

  // ---------------------------------------------------------------- what is printed

  /** What getcwd shows for the end of an ascent. */
  function Shown(c: Climbed): string {
    match c
    case Reached(ns) => PathString(ns)
    case Detached(ns) => UNREACHABLE + PathString(ns)
    case Escaped(ns) => UNREACHABLE + "/"
  }

  /** A path is absolute exactly when the ascent reached the root; else it is marked, and absolute behind
      the mark. */
  lemma ShownAbsolute(c: Climbed)
    ensures "/" <= Shown(c) <==> c.Reached?
    ensures UNREACHABLE + "/" <= Shown(c) <==> !c.Reached?
  {
    PathAbsolute(c.names);
    hide PathString;
    if !c.Reached? {
      var path := if c.Detached? then PathString(c.names) else "/";
      assert path == "/" + path[1..];
      assert UNREACHABLE + path == UNREACHABLE + "/" + path[1..];
    }
    assert UNREACHABLE[0] == '(' == (UNREACHABLE + "/")[0];
    assert c.Reached? ==> Shown(c)[0] == '/';
    assert !c.Reached? ==> Shown(c)[0] == '(';
  }

  lemma PathAbsolute(ns: seq<string>)
    ensures "/" <= PathString(ns)
  {
  }

  /** The names of the ascent fit into `room` characters. */
  predicate NamesFit(c: Climbed, room: int) {
    |Joined(c.names)| <= room
  }

  lemma {:induction false} JoinedConcat(a: seq<string>, b: seq<string>)
    ensures Joined(a + b) == Joined(a) + Joined(b)
  {
    if b == [] {
      assert a + b == a;
    } else {
      var n := |b| - 1;
      assert a + b == (a + b[..n]) + [b[n]] && b == b[..n] + [b[n]];
      JoinedConcat(a, b[..n]);
      JoinedSnoc(a + b[..n], b[n]);
      JoinedSnoc(b[..n], b[n]);
      assert Joined(a) + Joined(b[..n]) + "/" + b[n] == Joined(a) + (Joined(b[..n]) + "/" + b[n]);
    }
  }

  // ---------------------------------------------------------------- the prepend buffer

  class PrependBuffer {
    const data: array<char>
    /** Index of the first character printed, and characters left; negative once it overflowed. */
    var buf: nat
    var len: int

    ghost predicate Valid()
      reads this
    {
      buf <= data.Length && (len >= 0 ==> buf == len)
    }

    ghost function Text(): string
      requires Valid()
      reads this, data
    {
      data[buf..]
    }

    constructor (size: nat)
      ensures Valid() && fresh(data) && data.Length == size && len == size && Text() == ""
    {
      data := new char[size];
      buf, len := size, size;
    }

    /** Copies `s` in front of the text. */
    method PutFront(s: string)
      requires |s| <= buf <= data.Length
      modifies this`buf, data
      ensures buf == old(buf) - |s| && data[buf..] == s + old(data[buf..])
    {
      ghost var was := data[buf..];
      buf := buf - |s|;
      var i := 0;
      while i < |s|
        invariant 0 <= i <= |s| && buf == old(buf) - |s|
        invariant data[buf..buf + i] == s[..i] && data[buf + |s|..] == was
      {
        data[buf + i] := s[i];
        i := i + 1;
      }
      assert s[..|s|] == s;
      assert data[buf..] == data[buf..buf + |s|] + data[buf + |s|..];
    }

    /** myos_prepend. */
    method Prepend(s: string)
      requires Valid()
      modifies this, data
      ensures Valid() && (old(len) < 0 ==> len == old(len))
      ensures old(len) >= 0 ==> len == old(len) - |s|
      ensures len >= 0 ==> Text() == s + old(Text())
    {
      if len < 0 {
        return;
      }
      len := len - |s|;
      if len >= 0 {
        PutFront(s);
      }
    }

    /** prepend_name: a slash and the name, copied up to its terminator. */
    method PrependName(name: string) returns (ok: bool)
      requires Valid() && len >= 0 && forall i :: 0 <= i < |name| ==> name[i] != '\0'
      modifies this, data
      ensures Valid() && ok == (len >= 0) && len == old(len) - |name| - 1
      ensures ok ==> Text() == "/" + name + old(Text())
    {
      len := len - (|name| + 1);
      if len < 0 {
        return false;
      }
      PutFront("/" + name);
      return true;
    }

    /** __prepend_path: the names from `start` up to `root`. It reports 0 when it got there or ran
        out of room, 2 from a mount attached nowhere, 3 from a dentry outside its mount. */
    method PrependUp(ds: Dentries, ms: Mounts, root: Place, start: Place) returns (code: int)
      requires Valid() && len >= 0 && DTree(ds) && MTree(ds, ms) && InTree(ds, ms, start)
      modifies this, data
      ensures Valid()
      ensures var c := Climb(ds, ms, root, start);
              if NamesFit(c, old(len)) then
                && len == old(len) - |Joined(c.names)| && Text() == Joined(c.names) + old(Text())
                && code == (match c case Reached(_) => 0 case Detached(_) => 2 case Escaped(_) => 3)
              else len < 0 && code == 0
    {
      hide DTree, MTree, Climb, Joined, AddNames, AddName, Shows;
      ghost var text0 := Text();
      var p := start;
      ghost var c, below: seq<string> := Climb(ds, ms, root, start), [];
      NoNames(c, text0);
      while p != root
        invariant Valid() && len >= 0 && InTree(ds, ms, p)
        invariant AddNames(Climb(ds, ms, root, p), below) == c
        invariant len == old(len) - |Joined(below)| && Shows(Text(), below, text0)
        decreases p.m, p.d
      {
        ClimbUp(ds, ms, root, p);
        ShowsMeans(Text(), below, text0);
        if p.d == ms[p.m].root {
          if ms[p.m].parent == p.m {
            return 2;
          }
          p := Place(ms[p.m].mountpoint, ms[p.m].parent);
        } else if ds[p.d].parent == p.d {
          return 3;
        } else {
          var name := ds[p.d].name;
          NamesGrow(Climb(ds, ms, root, Place(ds[p.d].parent, p.m)), name, below);
          ShowsGrow(Text(), name, below, text0);
          var ok := PrependName(name);
          if !ok {
            return 0;
          }
          below := [name] + below;
          p := Place(ds[p.d].parent, p.m);
        }
      }
      ClimbEnd(ds, ms, root);
      ShowsMeans(Text(), below, text0);
      return 0;
    }

    /** myos_prepend_path: prints the ascent, only a slash when nothing was printed, and drops what
        was printed when the ascent escaped. */
    method PrependPath(ds: Dentries, ms: Mounts, root: Place, start: Place) returns (code: int)
      requires Valid() && len >= 0 && DTree(ds) && MTree(ds, ms) && InTree(ds, ms, start)
      modifies this, data
      ensures Valid()
      ensures var c := Climb(ds, ms, root, start);
              if NamesFit(c, old(len)) then
                && len == old(len) - |Printed(c)| && (len >= 0 ==> Text() == Printed(c) + old(Text()))
                && code == (match c case Reached(_) => 0 case Detached(_) => 2 case Escaped(_) => 3)
              else len < 0 && code == 0
    {
      hide DTree, MTree, Climb, Joined;
      ghost var c, text0 := Climb(ds, ms, root, start), Text();
      EmptyPrints(c);
      var buf0, len0 := buf, len;
      code := PrependUp(ds, ms, root, start);
      if code == 3 {
        TailSame(data[..], buf, buf0, Joined(c.names), text0);
        buf, len := buf0, len0;
      }
      if len == len0 {
        if code != 3 { assert "" + text0 == text0; }
        Prepend("/");
      }
    }
  }

  /** What the ascent puts into the buffer. */
  function Printed(c: Climbed): string {
    if c.Escaped? then "/" else PathString(c.names)
  }

  lemma EmptyPrints(c: Climbed)
    ensures |Joined(c.names)| == 0 <==> c.names == []
    ensures c.names == [] ==> Joined(c.names) == ""
  {
  }

  lemma TailSame(data: string, lo: nat, hi: nat, front: string, tail: string)
    requires lo <= hi <= |data| && data[lo..] == front + tail && hi == lo + |front|
    ensures data[hi..] == tail
  {
    assert data[hi..] == data[lo..][|front|..];
  }

  /** getcwd for a process in `pwd` under `root`. The path comes back, with its terminator, exactly
      when it fits the kernel's buffer and the caller's. */
  method GetCwd(ds: Dentries, ms: Mounts, root: Place, pwd: Place, size: nat) returns (err: int, out: string)
    requires DTree(ds) && MTree(ds, ms) && InTree(ds, ms, pwd)
    ensures var c := Climb(ds, ms, root, pwd); var total := |Shown(c)| + 1;
            if !NamesFit(c, PATH_MAX - 1) || total > PATH_MAX then err == ENAMETOOLONG
            else if total > size then err == ERANGE
            else err == 0 && out == Shown(c) + [NUL]
  {
    hide DTree, MTree, Climb, Joined;
    out := "";
    var b := new PrependBuffer(PATH_MAX);
    b.Prepend([NUL]);
    var code := b.PrependPath(ds, ms, root, pwd);
    ghost var c := Climb(ds, ms, root, pwd);
    if code > 0 {
      b.Prepend(UNREACHABLE);
    }
    var n := PATH_MAX - b.len;
    if n > PATH_MAX {
      err := ENAMETOOLONG;
    } else if n > size {
      err := ERANGE;
    } else {
      err, out := 0, b.data[b.buf..];
      assert UNREACHABLE + (Printed(c) + [NUL]) == (UNREACHABLE + Printed(c)) + [NUL];
    }
  }

  /** getcwd after a walk prints a path that leads back: the string it returns, cut into components
      and walked from the root, ends where the walk ended. It is the path walked exactly when every
      directory on the way names its component. */
  lemma CwdLeadsBack(ds: Dentries, ms: Mounts, root: Place, cs: seq<string>)
    requires DTree(ds) && MTree(ds, ms) && InMount(ds, ms, root) && InTree(ds, ms, root)
    requires Walk(ds, ms, root, cs).Some? && AllNormal(cs)
    ensures var p := Walk(ds, ms, root, cs).value; var path := Shown(Climb(ds, ms, root, p));
            && Walk(ds, ms, root, Components(path, 0)) == Some(p)
            && (path == PathString(cs) <==> NamedAlong(ds, ms, root, cs))
  {
    hide Walk, Climb, Met, Components, PathString, DTree, MTree, InMount, InTree, AllNormal, NamedAlong;
    PrintThenWalk(ds, ms, root, cs);
  }

  /** `c` with the names `below` under the ones it has. */
  function AddNames(c: Climbed, below: seq<string>): Climbed {
    c.(names := c.names + below)
  }

  /** `text` is the names `below`, each behind a slash, in front of `tail`. */
  ghost predicate Shows(text: string, below: seq<string>, tail: string) {
    text == Joined(below) + tail
  }

  lemma ShowsMeans(text: string, below: seq<string>, tail: string)
    requires Shows(text, below, tail)
    ensures text == Joined(below) + tail
  {
  }

  lemma ShowsGrow(text: string, name: string, below: seq<string>, tail: string)
    requires Shows(text, below, tail)
    ensures Shows("/" + name + text, [name] + below, tail)
  {
    assert ([name] + below)[1..] == below;
    assert "/" + name + (Joined(below) + tail) == ("/" + name + Joined(below)) + tail;
  }

  lemma NoNames(c: Climbed, tail: string)
    ensures AddNames(c, []) == c && Joined([]) == "" && Shows(tail, [], tail)
  {
    assert "" + tail == tail;
  }

  lemma ClimbEnd(ds: Dentries, ms: Mounts, root: Place)
    requires DTree(ds) && MTree(ds, ms) && InTree(ds, ms, root)
    ensures Climb(ds, ms, root, root) == Reached([])
    ensures forall below :: AddNames(Reached([]), below) == Reached(below)
  {
    forall below: seq<string> ensures AddNames(Reached([]), below) == Reached(below) {
      assert [] + below == below;
    }
  }

  /** One step of the ascent, as the loop takes it. */
  lemma ClimbUp(ds: Dentries, ms: Mounts, root: Place, p: Place)
    requires DTree(ds) && MTree(ds, ms) && InTree(ds, ms, p) && p != root
    ensures ms[p.m].parent <= p.m && ds[p.d].parent <= p.d
    ensures InTree(ds, ms, Place(ms[p.m].mountpoint, ms[p.m].parent)) && InTree(ds, ms, Place(ds[p.d].parent, p.m))
    ensures p.d != ms[p.m].root && ds[p.d].parent != p.d ==>
              && NormalName(ds[p.d].name)
              && Climb(ds, ms, root, p) == AddName(Climb(ds, ms, root, Place(ds[p.d].parent, p.m)), ds[p.d].name)
    ensures p.d == ms[p.m].root && ms[p.m].parent != p.m ==>
              Climb(ds, ms, root, p) == Climb(ds, ms, root, Place(ms[p.m].mountpoint, ms[p.m].parent))
    ensures p.d == ms[p.m].root && ms[p.m].parent == p.m ==>
              forall below :: AddNames(Climb(ds, ms, root, p), below) == Detached(below)
    ensures p.d != ms[p.m].root && ds[p.d].parent == p.d ==>
              forall below :: AddNames(Climb(ds, ms, root, p), below) == Escaped(below)
  {
    forall below: seq<string>
      ensures AddNames(Detached([]), below) == Detached(below) && AddNames(Escaped([]), below) == Escaped(below)
    {
      assert [] + below == below;
    }
  }

  lemma NamesGrow(up: Climbed, name: string, below: seq<string>)
    ensures AddNames(AddName(up, name), below) == AddNames(up, [name] + below)
    ensures Joined([name] + below) == "/" + name + Joined(below)
    ensures |Joined(AddNames(AddName(up, name), below).names)| >= |Joined(below)| + |name| + 1
  {
    assert (up.names + [name]) + below == up.names + ([name] + below);
    assert ([name] + below)[1..] == below;
    JoinedConcat(up.names, [name] + below);
  }
}
