/** myloader/uefi/bootloader.c: the UEFI memory map becomes a Multiboot2 one. Neighbouring
    descriptors of one type are joined, then the entries are sorted by address. */
module MemoryMap {
  import opened Common

  const PAGE := 0x1000

  datatype Descriptor = Descriptor(kind: nat, start: nat, pages: nat) {
    function Size(): nat { pages * PAGE }

    /** Section 7.2.3 of UEFI 2.10: no page starts above the last one of the address space. */
    predicate Typed() { start + Size() <= U64 }

    /** It gives an entry: it is not empty and its type is known. */
    predicate Mapped() { pages > 0 && TypeOf(kind) != 0 }

    predicate Covers(a: nat) { start <= a < start + Size() }
  }

  datatype Entry = Entry(addr: nat, len: nat, kind: nat) {
    predicate Covers(a: nat) { addr <= a < addr + len }

    function End(): nat { Wrap(addr + len) }
  }

  /** The Multiboot2 type of a UEFI memory type, 0 for those the loader skips. */
  function TypeOf(kind: nat): (t: nat)
    ensures t <= 5
  {
    if kind in {0, 11, 12, 13} then 2
    else if kind == 8 then 5
    else if kind == 9 then 3
    else if kind in {1, 2, 3, 4, 5, 6, 7, 14} then 1
    else if kind == 10 then 4
    else 0
  }

  // ---------------------------------------------------------------- coverage

  /** How many descriptors of the given types cover an address. */
  function CoverIn(ds: seq<Descriptor>, a: nat, types: set<nat>): nat {
    if ds == [] then 0
    else
      CoverIn(ds[..|ds| - 1], a, types) + Part(ds[|ds| - 1], a, types)
  }

  /** How many entries do. */
  function CoverOut(es: seq<Entry>, a: nat, types: set<nat>): nat {
    if es == [] then 0
    else
      var e := es[|es| - 1];
      CoverOut(es[..|es| - 1], a, types) + if e.kind in types && e.Covers(a) then 1 else 0
  }

  /** How many descriptors of the given UEFI types cover an address. */
  function Count(ds: seq<Descriptor>, a: nat, kinds: set<nat>): nat {
    if ds == [] then 0
    else
      var d := ds[|ds| - 1];
      Count(ds[..|ds| - 1], a, kinds) + if d.kind in kinds && d.Covers(a) then 1 else 0
  }

  /** The UEFI types that become each Multiboot2 type, from usable memory to bad memory. */
  ghost predicate Becomes(t: nat, kinds: set<nat>) {
    || (t == 1 && kinds == {1, 2, 3, 4, 5, 6, 7, 14}) || (t == 2 && kinds == {0, 11, 12, 13})
    || (t == 3 && kinds == {9}) || (t == 4 && kinds == {10}) || (t == 5 && kinds == {8})
  }

  lemma {:induction false} CountIs(ds: seq<Descriptor>, a: nat, t: nat, kinds: set<nat>)
    requires Becomes(t, kinds)
    ensures CoverIn(ds, a, {t}) == Count(ds, a, kinds)
  {
    if ds != [] {
      CountIs(ds[..|ds| - 1], a, t, kinds);
      TypeIs(ds[|ds| - 1].kind, t, kinds);
    }
  }

  lemma TypeIs(kind: nat, t: nat, kinds: set<nat>)
    requires Becomes(t, kinds)
    ensures t != 0 && (TypeOf(kind) == t <==> kind in kinds)
  {
  }

  // ---------------------------------------------------------------- joining

  /** The descriptor continues the last entry. */
  predicate Joins(es: seq<Entry>, d: Descriptor) {
    es != [] && es[|es| - 1].kind == TypeOf(d.kind) && d.start == es[|es| - 1].End()
  }

  /** One round of the loop, with 64-bit lengths. */
  function Add(es: seq<Entry>, d: Descriptor): seq<Entry> {
    if !d.Mapped() then es
    else if Joins(es, d) then
      var last := es[|es| - 1];
      es[..|es| - 1] + [last.(len := Wrap(last.len + d.Size()))]
    else es + [Entry(d.start, Wrap(d.Size()), TypeOf(d.kind))]
  }

  function Converted(ds: seq<Descriptor>): seq<Entry> {
    if ds == [] then [] else Add(Converted(ds[..|ds| - 1]), ds[|ds| - 1])
  }

  /** The round wraps around the address space: the descriptor fills it, alone or with the entry it
      continues, or continues an entry past the top. */
  predicate Overflows(es: seq<Entry>, d: Descriptor) {
    && d.Mapped()
    && if Joins(es, d) then es[|es| - 1].addr + es[|es| - 1].len == U64 || es[|es| - 1].len + d.Size() == U64
       else d.Size() == U64
  }

  predicate NeverOverflows(ds: seq<Descriptor>) {
    ds == [] || (NeverOverflows(ds[..|ds| - 1]) && !Overflows(Converted(ds[..|ds| - 1]), ds[|ds| - 1]))
  }

  /** What a descriptor adds to the coverage of an address. */
  function Part(d: Descriptor, a: nat, types: set<nat>): nat {
    if d.Mapped() && TypeOf(d.kind) in types && d.Covers(a) then 1 else 0
  }

  ghost predicate AllTyped(ds: seq<Descriptor>) {
    forall d :: d in ds ==> d.Typed()
  }

  /** Entries below the top of the address space, none empty. */
  ghost predicate EntriesOk(es: seq<Entry>) {
    forall e :: e in es ==> 0 < e.len < U64 && e.addr + e.len <= U64 && 1 <= e.kind <= 5
  }

  lemma CoverOutLast(es: seq<Entry>, e: Entry, a: nat, types: set<nat>)
    ensures CoverOut(es + [e], a, types) == CoverOut(es, a, types) + if e.kind in types && e.Covers(a) then 1 else 0
  {
    assert (es + [e])[..|es|] == es;
  }

  /** A round that joins changes the last entry only. */
  lemma AddJoins(es: seq<Entry>, d: Descriptor, a: nat, types: set<nat>)
    requires d.Mapped() && Joins(es, d)
    ensures var last := es[|es| - 1];
            var joined := last.(len := Wrap(last.len + d.Size()));
            && Add(es, d) == es[..|es| - 1] + [joined]
            && CoverOut(es, a, types) ==
               CoverOut(es[..|es| - 1], a, types) + (if last.kind in types && last.Covers(a) then 1 else 0)
            && CoverOut(Add(es, d), a, types) ==
               CoverOut(es[..|es| - 1], a, types) + (if last.kind in types && joined.Covers(a) then 1 else 0)
  {
    hide TypeOf;
    var last := es[|es| - 1];
    CoverOutLast(es[..|es| - 1], last.(len := Wrap(last.len + d.Size())), a, types);
  }

  /** A round that does not wrap adds the coverage of its descriptor, at every address. */
  lemma AddCovers(es: seq<Entry>, d: Descriptor, a: nat, types: set<nat>)
    requires d.Typed() && EntriesOk(es) && !Overflows(es, d)
    ensures CoverOut(Add(es, d), a, types) == CoverOut(es, a, types) + Part(d, a, types)
  {
    hide TypeOf, CoverOut;
    if d.Mapped() {
      if Joins(es, d) {
        assert es[|es| - 1] in es;
        AddJoins(es, d, a, types);
      } else {
        CoverOutLast(es, Entry(d.start, Wrap(d.Size()), TypeOf(d.kind)), a, types);
      }
    }
  }

  lemma AddKeepsOk(es: seq<Entry>, d: Descriptor)
    requires d.Typed() && EntriesOk(es) && !Overflows(es, d)
    ensures EntriesOk(Add(es, d))
  {
    hide TypeOf;
    if d.Mapped() && Joins(es, d) {
      assert es[|es| - 1] in es;
    }
  }

  lemma {:induction false} ConvertedCovers(ds: seq<Descriptor>, a: nat, types: set<nat>)
    requires AllTyped(ds) && NeverOverflows(ds)
    ensures EntriesOk(Converted(ds))
    ensures CoverOut(Converted(ds), a, types) == CoverIn(ds, a, types)
  {
    if ds != [] {
      var n := |ds| - 1;
      hide CoverOut, Part, Add, EntriesOk, Overflows;
      ConvertedCovers(ds[..n], a, types);
      assert ds[n] in ds;
      AddCovers(Converted(ds[..n]), ds[n], a, types);
      AddKeepsOk(Converted(ds[..n]), ds[n]);
    }
  }

  /** No entry continues the one before it: all that could be joined is. */
  predicate AllJoined(es: seq<Entry>) {
    forall i :: 0 < i < |es| ==> es[i - 1].kind != es[i].kind || es[i - 1].End() != es[i].addr
  }

  lemma {:induction false} ConvertedJoins(ds: seq<Descriptor>)
    ensures AllJoined(Converted(ds))
  {
    hide Add, AllJoined;
    if ds != [] {
      ConvertedJoins(ds[..|ds| - 1]);
      AddJoined(Converted(ds[..|ds| - 1]), ds[|ds| - 1]);
    } else {
      AllJoinedNone();
    }
  }

  lemma AllJoinedNone()
    ensures AllJoined([])
  {
  }

  lemma AddJoined(es: seq<Entry>, d: Descriptor)
    requires AllJoined(es)
    ensures AllJoined(Add(es, d))
  {
    hide TypeOf, Entry.End, Wrap, Descriptor.Size;
    var n := |es| - 1;
    if d.Mapped() && Joins(es, d) {
      var es' := Add(es, d);
      assert |es'| == |es| && es'[..n] == es[..n] && es'[n].addr == es[n].addr && es'[n].kind == es[n].kind;
      assert forall i :: 0 <= i < n ==> es'[i] == es[i];
    } else if d.Mapped() {
      var es' := Add(es, d);
      assert |es'| == |es| + 1 && forall i :: 0 <= i < |es| ==> es'[i] == es[i];
    }
  }

  /** At address 0 no round gains more than its descriptor, and one that wraps gains less. */
  lemma AddAtZero(es: seq<Entry>, d: Descriptor, types: set<nat>)
    requires d.Typed()
    ensures CoverOut(Add(es, d), 0, types) <= CoverOut(es, 0, types) + Part(d, 0, types)
    ensures EntriesOk(es) && Overflows(es, d) && TypeOf(d.kind) in types ==>
              CoverOut(Add(es, d), 0, types) < CoverOut(es, 0, types) + Part(d, 0, types)
  {
    hide TypeOf, CoverOut;
    if d.Mapped() {
      if Joins(es, d) {
        assert es[|es| - 1] in es;
        AddJoins(es, d, 0, types);
      } else {
        CoverOutLast(es, Entry(d.start, Wrap(d.Size()), TypeOf(d.kind)), 0, types);
      }
    }
  }

  /** A map that wraps somewhere loses address 0. */
  lemma {:induction false} OverflowLoses(ds: seq<Descriptor>) returns (t: nat)
    requires AllTyped(ds) && !NeverOverflows(ds)
    ensures CoverOut(Converted(ds), 0, {t}) < CoverIn(ds, 0, {t})
  {
    var n := |ds| - 1;
    assert ds[n] in ds;
    if !NeverOverflows(ds[..n]) {
      t := OverflowLoses(ds[..n]);
      AddAtZero(Converted(ds[..n]), ds[n], {t});
    } else {
      t := TypeOf(ds[n].kind);
      ConvertedCovers(ds[..n], 0, {t});
      AddAtZero(Converted(ds[..n]), ds[n], {t});
    }
  }

  /** The entries cover every address as often as the descriptors do, type by type, if and only if no
      round wraps around the address space. */
  lemma CoverageExact(ds: seq<Descriptor>)
    requires AllTyped(ds)
    ensures NeverOverflows(ds) <==> forall a: nat, t: nat :: CoverOut(Converted(ds), a, {t}) == CoverIn(ds, a, {t})
  {
    if NeverOverflows(ds) {
      forall a: nat, t: nat
        ensures CoverOut(Converted(ds), a, {t}) == CoverIn(ds, a, {t})
      {
        ConvertedCovers(ds, a, {t});
      }
    } else {
      var t := OverflowLoses(ds);
    }
  }

  ghost predicate Below(es: seq<Entry>) {
    forall e :: e in es ==> e.addr + e.len < U64
  }

  lemma AddBelow(es: seq<Entry>, d: Descriptor)
    requires d.start + d.Size() < U64 && Below(es)
    ensures !Overflows(es, d) && Below(Add(es, d))
  {
    hide TypeOf;
    if d.Mapped() && Joins(es, d) {
      assert es[|es| - 1] in es;
    }
  }

  /** A map that ends below 2^64 never wraps. */
  lemma {:induction false} BelowTheTop(ds: seq<Descriptor>)
    requires forall d :: d in ds ==> d.start + d.Size() < U64
    ensures NeverOverflows(ds) && Below(Converted(ds))
  {
    if ds != [] {
      hide Add, Overflows, Below;
      var n := |ds| - 1;
      BelowTheTop(ds[..n]);
      assert ds[n] in ds;
      AddBelow(Converted(ds[..n]), ds[n]);
    } else {
      assert Converted(ds) == [];
    }
  }

  /** Two regions of free memory, the last page and the first: joined, the first page is lost. */
  lemma LastThenFirst()
    ensures var ds := [Descriptor(7, U64 - PAGE, 1), Descriptor(7, 0, 1)];
            AllTyped(ds) && !NeverOverflows(ds) && Converted(ds) == [Entry(U64 - PAGE, 2 * PAGE, 1)]
  {
    var first, second := Descriptor(7, U64 - PAGE, 1), Descriptor(7, 0, 1);
    assert [first, second][..1] == [first] && [first][..0] == [];
    assert Converted([first]) == [Entry(U64 - PAGE, PAGE, 1)];
    assert Overflows(Converted([first]), second);
  }

  // ---------------------------------------------------------------- order

  predicate Sorted(es: seq<Entry>) {
    forall i, j :: 0 <= i < j < |es| ==> es[i].addr <= es[j].addr
  }

  /** Coverage does not depend on order. */
  lemma {:induction false} CoverPermuted(es: seq<Entry>, fs: seq<Entry>, a: nat, types: set<nat>)
    requires multiset(es) == multiset(fs)
    ensures CoverOut(es, a, types) == CoverOut(fs, a, types)
  {
    hide CoverOut;
    if es == [] {
      assert |multiset(fs)| == |fs|;
    } else {
      var n := |es| - 1;
      assert es[n] in multiset(fs) by { assert es[n] in multiset(es); }
      var k :| 0 <= k < |fs| && fs[k] == es[n];
      WithoutOne(es, n);
      WithoutOne(fs, k);
      assert es[..n] + es[n + 1..] == es[..n];
      CoverPermuted(es[..n], fs[..k] + fs[k + 1..], a, types);
      CoverWithout(es, n, a, types);
      CoverWithout(fs, k, a, types);
    }
  }

  lemma WithoutOne(es: seq<Entry>, k: nat)
    requires k < |es|
    ensures multiset(es[..k] + es[k + 1..]) == multiset(es) - multiset{es[k]}
  {
    assert es == es[..k] + [es[k]] + es[k + 1..];
  }

  lemma {:induction false} CoverWithout(es: seq<Entry>, k: nat, a: nat, types: set<nat>)
    requires k < |es|
    ensures CoverOut(es, a, types) ==
            CoverOut(es[..k] + es[k + 1..], a, types) + if es[k].kind in types && es[k].Covers(a) then 1 else 0
  {
    hide CoverOut;
    var n := |es| - 1;
    var front, e := es[..n], es[n];
    CoverOutLast(front, e, a, types);
    assert es == front + [e];
    if k == n {
      assert es[..k] + es[k + 1..] == front;
    } else {
      var rest := front[..k] + front[k + 1..];
      CoverWithout(front, k, a, types);
      CoverOutLast(rest, e, a, types);
      assert es[..k] + es[k + 1..] == rest + [e];
    }
  }

  const KINDS: set<nat> := {1, 2, 3, 4, 5}

  /** Mapped descriptors that do not overlap. */
  ghost predicate Disjoint(ds: seq<Descriptor>) {
    forall i, j :: 0 <= i < j < |ds| && ds[i].Mapped() && ds[j].Mapped() ==>
      ds[i].start + ds[i].Size() <= ds[j].start || ds[j].start + ds[j].Size() <= ds[i].start
  }

  lemma {:induction false} CoveredOnce(ds: seq<Descriptor>, a: nat)
    requires Disjoint(ds)
    ensures CoverIn(ds, a, KINDS) <= 1
    ensures CoverIn(ds, a, KINDS) == 1 ==> exists i :: 0 <= i < |ds| && ds[i].Mapped() && ds[i].Covers(a)
  {
    if ds != [] {
      var n := |ds| - 1;
      CoveredOnce(ds[..n], a);
    }
  }

  lemma {:induction false} CoverTwice(es: seq<Entry>, i: nat, j: nat, a: nat, types: set<nat>)
    requires i < j < |es| && es[i].kind in types && es[j].kind in types && es[i].Covers(a) && es[j].Covers(a)
    ensures CoverOut(es, a, types) >= 2
  {
    CoverWithout(es, j, a, types);
    var rest := es[..j] + es[j + 1..];
    CoverWithout(rest, i, a, types);
    assert rest[i] == es[i];
  }

  /** Ranges that do not overlap stay apart, in order. */
  lemma SortedApart(ds: seq<Descriptor>, es: seq<Entry>, i: nat, j: nat)
    requires AllTyped(ds) && NeverOverflows(ds) && Disjoint(ds)
    requires multiset(es) == multiset(Converted(ds)) && Sorted(es) && i < j < |es|
    ensures es[i].addr + es[i].len <= es[j].addr
  {
    hide CoverOut, CoverIn, Converted, NeverOverflows, Disjoint, EntriesOk;
    var a := es[j].addr;
    ConvertedCovers(ds, a, KINDS);
    CoverPermuted(es, Converted(ds), a, KINDS);
    CoveredOnce(ds, a);
    MemberOk(es, Converted(ds), i);
    MemberOk(es, Converted(ds), j);
    if es[i].addr + es[i].len > a {
      CoverTwice(es, i, j, a, KINDS);
    }
  }

  lemma MemberOk(es: seq<Entry>, fs: seq<Entry>, i: nat)
    requires multiset(es) == multiset(fs) && EntriesOk(fs) && i < |es|
    ensures es[i].len > 0 && es[i].kind in KINDS
  {
    assert es[i] in multiset(es);
    assert es[i] in fs;
  }

  // ---------------------------------------------------------------- the loader's loops

  method TypeFor(kind: nat) returns (t: nat)
    ensures t == TypeOf(kind)
  {
    match kind
    case 0 | 11 | 12 | 13 => t := 2;
    case 8 => t := 5;
    case 9 => t := 3;
    case 1 | 2 | 3 | 4 | 5 | 6 | 7 | 14 => t := 1;
    case 10 => t := 4;
    case _ => t := 0;
  }

  /** One round of the first loop. `lastEnd` is where the last entry ends. */
  method AddEntry(out: array<Entry>, count: nat, end: nat, d: Descriptor) returns (n: nat, lastEnd: nat)
    requires count < out.Length && (count > 0 ==> end == out[count - 1].End())
    modifies out
    ensures count <= n <= count + 1 && out[..n] == Add(old(out[..count]), d)
    ensures n > 0 ==> lastEnd == out[n - 1].End()
  {
    hide TypeOf, Wrap;
    n, lastEnd := count, end;
    if d.pages == 0 {
      return;
    }
    var t := TypeFor(d.kind);
    if t == 0 {
      return;
    }
    ghost var was := out[..count];
    var size := Wrap(d.pages * PAGE);
    if n > 0 && out[n - 1].kind == t && d.start == lastEnd {
      WrapSum(out[n - 1].addr, out[n - 1].len, d.Size());
      out[n - 1] := out[n - 1].(len := Wrap(out[n - 1].len + size));
      lastEnd := Wrap(lastEnd + size);
      assert out[..n] == was[..n - 1] + [out[n - 1]];
    } else {
      WrapSum(d.start, 0, d.Size());
      out[n] := Entry(d.start, size, t);
      n := n + 1;
      lastEnd := Wrap(d.start + size);
      assert out[..n] == was + [out[n - 1]];
    }
  }

  lemma WrapSum(x: nat, y: nat, z: nat)
    ensures Wrap(y + Wrap(z)) == Wrap(y + z) && Wrap(x + Wrap(y + z)) == Wrap(Wrap(x + y) + Wrap(z))
  {
    hide Wrap;
    WrapTwice(y, z);
    WrapTwice(x, y + z);
    WrapTwice(z, x + y);
    WrapTwice(Wrap(x + y), z);
  }

  /** The first loop: fills the entries and counts them. */
  method Fill(ds: seq<Descriptor>, out: array<Entry>) returns (n: nat)
    requires |ds| <= out.Length
    modifies out
    ensures n <= |ds| && out[..n] == Converted(ds) && AllJoined(out[..n])
  {
    ConvertedJoins(ds);
    hide Add, AllJoined;
    n := 0;
    var lastEnd := 0;
    for i := 0 to |ds|
      invariant 0 <= n <= i && out[..n] == Converted(ds[..i])
      invariant n > 0 ==> lastEnd == out[n - 1].End()
    {
      assert ds[..i + 1][..i] == ds[..i];
      n, lastEnd := AddEntry(out, n, lastEnd, ds[i]);
    }
    assert ds[..|ds|] == ds;
  }

  /** The second: an exchange sort in place. */
  method Sort(out: array<Entry>, n: nat)
    requires n <= out.Length
    modifies out
    ensures Sorted(out[..n]) && multiset(out[..n]) == old(multiset(out[..n]))
    ensures out[n..] == old(out[n..])
  {
    for i := 0 to n
      invariant forall k, l :: 0 <= k < i && k < l < n ==> out[k].addr <= out[l].addr
      invariant multiset(out[..n]) == old(multiset(out[..n])) && out[n..] == old(out[n..])
    {
      for j := i + 1 to n
        invariant forall k, l :: 0 <= k < i && k < l < n ==> out[k].addr <= out[l].addr
        invariant forall l :: i < l < j ==> out[i].addr <= out[l].addr
        invariant multiset(out[..n]) == old(multiset(out[..n])) && out[n..] == old(out[n..])
      {
        if out[i].addr > out[j].addr {
          Swap(out, n, i, j);
        }
      }
    }
  }

  method Swap(out: array<Entry>, n: nat, i: nat, j: nat)
    requires i < j < n <= out.Length
    modifies out
    ensures out[i] == old(out[j]) && out[j] == old(out[i])
    ensures forall k :: 0 <= k < out.Length && k != i && k != j ==> out[k] == old(out[k])
    ensures multiset(out[..n]) == old(multiset(out[..n])) && out[n..] == old(out[n..])
  {
    ghost var was := out[..n];
    out[i], out[j] := out[j], out[i];
    assert out[..n] == was[i := was[j]][j := was[i]];
  }

  /** Both together. */
  method FillMap(ds: seq<Descriptor>, out: array<Entry>) returns (n: nat)
    requires |ds| <= out.Length
    modifies out
    ensures n <= out.Length && Sorted(out[..n]) && multiset(out[..n]) == multiset(Converted(ds))
    ensures AllTyped(ds) && NeverOverflows(ds) ==>
              forall a: nat, t: nat :: CoverOut(out[..n], a, {t}) == CoverIn(ds, a, {t})
    ensures AllTyped(ds) && NeverOverflows(ds) ==>
              forall a: nat, t: nat, kinds :: Becomes(t, kinds) ==> CoverOut(out[..n], a, {t}) == Count(ds, a, kinds)
    ensures AllTyped(ds) && NeverOverflows(ds) && Disjoint(ds) ==>
              forall i, j :: 0 <= i < j < n ==> out[i].addr + out[i].len <= out[j].addr
  {
    n := Fill(ds, out);
    Sort(out, n);
    if AllTyped(ds) && NeverOverflows(ds) {
      forall a: nat, t: nat
        ensures CoverOut(out[..n], a, {t}) == CoverIn(ds, a, {t})
      {
        CoverPermuted(out[..n], Converted(ds), a, {t});
        ConvertedCovers(ds, a, {t});
      }
      forall a: nat, t: nat, kinds | Becomes(t, kinds)
        ensures CoverOut(out[..n], a, {t}) == Count(ds, a, kinds)
      {
        CountIs(ds, a, t, kinds);
      }
      if Disjoint(ds) {
        forall i, j | 0 <= i < j < n
          ensures out[i].addr + out[i].len <= out[j].addr
        {
          SortedApart(ds, out[..n], i, j);
        }
      }
    }
  }
}
