/** fs/vfs/binfmt_elf.c: the loop of load_elf_binary over the program headers, and what it leaves
    behind: every segment in place at one common bias, and the break above them all. */
module ElfBinary {
  import opened Common
  import opened ElfImage
  import opened ElfLoad

  /** The segment's address, at the bias, and its end are addresses of user space. */
  ghost predicate Placed(p: Phdr, bias: nat) {
    p.Fits() && Wrap(bias + p.vaddr) + p.memsz <= TASK_SIZE
  }

  /** The pages two segments span have none in common. */
  ghost predicate PagesApart(p: Phdr, q: Phdr) {
    PageAlign(p.vaddr + p.memsz) <= PageStart(q.vaddr) || PageAlign(q.vaddr + q.memsz) <= PageStart(p.vaddr)
  }

  ghost predicate AllApart(phdrs: seq<Phdr>) {
    forall s, t :: 0 <= s < t < |phdrs| && phdrs[s].load && phdrs[t].load ==> PagesApart(phdrs[s], phdrs[t])
  }

  ghost predicate AllPlaced(phdrs: seq<Phdr>, n: nat, bias: nat)
    requires n <= |phdrs|
  {
    forall t :: 0 <= t < n && phdrs[t].load ==> Placed(phdrs[t], bias)
  }

  ghost predicate AllHeld(mem: Memory, file: seq<nat>, phdrs: seq<Phdr>, answers: seq<Answer>, n: nat, bias: nat)
    requires n <= |phdrs| == |answers|
  {
    forall t :: 0 <= t < n && phdrs[t].load ==>
      Holds(mem, file, phdrs[t], Wrap(bias + phdrs[t].vaddr), answers[t].clear)
  }

  ghost predicate NoLoad(phdrs: seq<Phdr>, n: nat)
    requires n <= |phdrs|
  {
    forall t :: 0 <= t < n ==> !phdrs[t].load
  }

  /** `top` is the highest end of the loaded segments. */
  ghost predicate IsTop(phdrs: seq<Phdr>, n: nat, top: nat)
    requires n <= |phdrs|
  {
    && (forall t :: 0 <= t < n && phdrs[t].load ==> phdrs[t].vaddr + phdrs[t].memsz <= top)
    && (NoLoad(phdrs, n) || exists t :: 0 <= t < n && phdrs[t].load && phdrs[t].vaddr + phdrs[t].memsz == top)
  }

  /** The lowest page and the highest end of the first n headers, as words. */
  function LowPage(phdrs: seq<Phdr>, n: nat): nat
    requires n <= |phdrs|
  {
    if n == 0 then U64 - 1
    else if phdrs[n - 1].load then Min(LowPage(phdrs, n - 1), PageStart(phdrs[n - 1].vaddr))
    else LowPage(phdrs, n - 1)
  }

  function HighEnd(phdrs: seq<Phdr>, n: nat): nat
    requires n <= |phdrs|
  {
    if n == 0 then 0
    else if phdrs[n - 1].load then Max(HighEnd(phdrs, n - 1), Wrap(phdrs[n - 1].vaddr + phdrs[n - 1].memsz))
    else HighEnd(phdrs, n - 1)
  }

  ghost function TotalSize(phdrs: seq<Phdr>): nat {
    if NoLoad(phdrs, |phdrs|) then 0 else Wrap(HighEnd(phdrs, |phdrs|) - LowPage(phdrs, |phdrs|))
  }

  lemma {:induction false} BoundsHold(phdrs: seq<Phdr>, n: nat, t: nat)
    requires t < n <= |phdrs| && phdrs[t].load
    ensures LowPage(phdrs, n) <= PageStart(phdrs[t].vaddr) && Wrap(phdrs[t].vaddr + phdrs[t].memsz) <= HighEnd(phdrs, n)
  {
    hide PageStart, Wrap;
    if t < n - 1 {
      BoundsHold(phdrs, n - 1, t);
    }
  }

  /** Both bounds are those of some header, once there is one. */
  lemma {:induction false} BoundsAreReached(phdrs: seq<Phdr>, n: nat)
    requires n <= |phdrs| && !NoLoad(phdrs, n) && forall p :: p in phdrs ==> p.Typed()
    ensures exists t :: 0 <= t < n && phdrs[t].load && PageStart(phdrs[t].vaddr) == LowPage(phdrs, n)
    ensures exists t :: 0 <= t < n && phdrs[t].load && Wrap(phdrs[t].vaddr + phdrs[t].memsz) == HighEnd(phdrs, n)
  {
    if NoLoad(phdrs, n - 1) {
      NoBounds(phdrs, n - 1);
      assert phdrs[n - 1] in phdrs;
      StartBelow(phdrs[n - 1].vaddr);
      hide PageStart, Wrap;
      assert phdrs[n - 1].load;
    } else {
      hide PageStart, Wrap;
      BoundsAreReached(phdrs, n - 1);
    }
  }

  lemma StartBelow(v: nat)
    requires v < U64
    ensures PageStart(v) <= U64 - PAGE
  {
  }

  lemma {:induction false} NoBounds(phdrs: seq<Phdr>, n: nat)
    requires n <= |phdrs| && NoLoad(phdrs, n)
    ensures LowPage(phdrs, n) == U64 - 1 && HighEnd(phdrs, n) == 0
  {
    if n > 0 { NoBounds(phdrs, n - 1); }
  }

  lemma {:induction false} BoundsAreWords(phdrs: seq<Phdr>, n: nat)
    requires n <= |phdrs|
    ensures LowPage(phdrs, n) < U64 && HighEnd(phdrs, n) < U64
  {
    if n > 0 {
      BoundsAreWords(phdrs, n - 1);
    }
  }

  /** The size has room for every segment whose end does not wrap, from its first page on. */
  lemma TotalHasRoom(phdrs: seq<Phdr>, p: Phdr)
    requires p in phdrs && p.load && p.vaddr + p.memsz < U64
    ensures PageOffset(p.vaddr) + p.memsz <= TotalSize(phdrs)
  {
    var n := |phdrs|;
    var t :| 0 <= t < n && phdrs[t] == p;
    BoundsHold(phdrs, n, t);
    BoundsAreWords(phdrs, n);
    PageStartIs(p.vaddr);
    WrapSmall(p.vaddr + p.memsz);
    WrapSmall(HighEnd(phdrs, n) - LowPage(phdrs, n));
    hide PageStart, Wrap, PageOffset, HighEnd, LowPage;
  }

  /** total_mapping_size. */
  method TotalMappingSize(phdrs: seq<Phdr>) returns (total: nat)
    ensures total == TotalSize(phdrs) < U64
    ensures forall p :: p in phdrs && p.load && p.vaddr + p.memsz < U64 ==> PageOffset(p.vaddr) + p.memsz <= total
    ensures NoLoad(phdrs, |phdrs|) ==> total == 0
    ensures !NoLoad(phdrs, |phdrs|) && (forall p :: p in phdrs ==> p.Typed()) ==> SpansFrom(phdrs, total)
  {
    hide PageStart, Wrap, PageOffset;
    var min, max, any := U64 - 1, 0, false;
    for i := 0 to |phdrs|
      invariant any == !NoLoad(phdrs, i) && min == LowPage(phdrs, i) && max == HighEnd(phdrs, i)
    {
      var p := phdrs[i];
      if p.load {
        if PageStart(p.vaddr) < min {
          min := PageStart(p.vaddr);
        }
        if Wrap(p.vaddr + p.memsz) > max {
          max := Wrap(p.vaddr + p.memsz);
        }
        any := true;
      }
    }
    total := if any then Wrap(max - min) else 0;
    forall p | p in phdrs && p.load && p.vaddr + p.memsz < U64
      ensures PageOffset(p.vaddr) + p.memsz <= total
    {
      TotalHasRoom(phdrs, p);
    }
    if any && forall p :: p in phdrs ==> p.Typed() { TotalSpans(phdrs, total); }
  }

  /** The size is the distance from the lowest page of a header to the highest end of one. */
  ghost predicate SpansFrom(phdrs: seq<Phdr>, total: nat) {
    exists lowest, highest :: Spans(phdrs, total, lowest, highest)
  }

  ghost predicate Spans(phdrs: seq<Phdr>, total: nat, lowest: Phdr, highest: Phdr) {
    && lowest in phdrs && highest in phdrs && lowest.load && highest.load
    && total == Wrap(Wrap(highest.vaddr + highest.memsz) - PageStart(lowest.vaddr))
    && forall p :: p in phdrs && p.load ==>
         PageStart(lowest.vaddr) <= PageStart(p.vaddr)
         && Wrap(p.vaddr + p.memsz) <= Wrap(highest.vaddr + highest.memsz)
  }

  lemma TotalSpans(phdrs: seq<Phdr>, total: nat)
    requires !NoLoad(phdrs, |phdrs|) && (forall p :: p in phdrs ==> p.Typed())
    requires total == Wrap(HighEnd(phdrs, |phdrs|) - LowPage(phdrs, |phdrs|))
    ensures SpansFrom(phdrs, total)
  {
    hide PageStart, Wrap, LowPage, HighEnd;
    var n := |phdrs|;
    BoundsAreReached(phdrs, n);
    var s :| 0 <= s < n && phdrs[s].load && PageStart(phdrs[s].vaddr) == LowPage(phdrs, n);
    var t :| 0 <= t < n && phdrs[t].load && Wrap(phdrs[t].vaddr + phdrs[t].memsz) == HighEnd(phdrs, n);
    forall p | p in phdrs && p.load
      ensures LowPage(phdrs, n) <= PageStart(p.vaddr) && Wrap(p.vaddr + p.memsz) <= HighEnd(phdrs, n)
    {
      var i :| 0 <= i < n && phdrs[i] == p;
      BoundsHold(phdrs, n, i);
    }
    assert Spans(phdrs, total, phdrs[s], phdrs[t]);
  }

  // ---------------------------------------------------------------- one segment

  /** A segment loaded at page r, where the bias asks for it. */
  lemma PlacedAt(p: Phdr, bias: nat, r: nat)
    requires p.Fits() && bias % PAGE == 0 && r % PAGE == 0
    requires r + PageOffset(p.vaddr) + p.memsz <= TASK_SIZE && r == PageStart(Wrap(bias + p.vaddr))
    ensures Wrap(bias + p.vaddr) == r + PageOffset(p.vaddr) && Placed(p, bias)
  {
    PageStartIs(Wrap(bias + p.vaddr));
    OffsetKept(bias, p.vaddr);
  }

  /** Nothing changes but on the pages the segment spans, or the whole image does. */
  ghost predicate Loads(mem: Memory, was: Memory, p: Phdr, bias: nat, total: nat) {
    var start := Wrap(bias + p.vaddr);
    var o := PageOffset(p.vaddr);
    o <= start && SameOutside(mem, was, start - o, start - o + Reach(p, total))
  }

  /** Loading header t may change this address. */
  ghost predicate MayChange(phdrs: seq<Phdr>, t: nat, dyn: bool, bias: nat, a: nat)
    requires t < |phdrs|
  {
    var r := Wrap(bias + phdrs[t].vaddr) - PageOffset(phdrs[t].vaddr);
    r <= a < r + Reach(phdrs[t], WholeSize(phdrs, t, dyn))
  }

  /** The size that the first header of a position-independent image asks for. */
  ghost function WholeSize(phdrs: seq<Phdr>, t: nat, dyn: bool): nat
    requires t <= |phdrs|
  {
    if dyn && NoLoad(phdrs, t) then TotalSize(phdrs) else 0
  }

  /** No other address changes. */
  ghost predicate FrameTo(mem: Memory, was: Memory, phdrs: seq<Phdr>, n: nat, dyn: bool, bias: nat)
    requires n <= |phdrs|
  {
    forall a: nat :: (forall t :: 0 <= t < n && phdrs[t].load ==> !MayChange(phdrs, t, dyn, bias, a)) ==>
      mem(a) == was(a)
  }

  lemma FrameNext(mem0: Memory, was: Memory, mem: Memory, phdrs: seq<Phdr>, i: nat, first: bool, dyn: bool,
                  bias0: nat, bias: nat)
    requires i < |phdrs| && phdrs[i].load && FrameTo(was, mem0, phdrs, i, dyn, bias0)
    requires first == NoLoad(phdrs, i) && (first || bias == bias0)
    requires Loads(mem, was, phdrs[i], bias, WholeSize(phdrs, i, dyn))
    ensures FrameTo(mem, mem0, phdrs, i + 1, dyn, bias)
  {
    hide Wrap, PageOffset, Reach, WholeSize;
    forall a: nat | forall t :: 0 <= t < i + 1 && phdrs[t].load ==> !MayChange(phdrs, t, dyn, bias, a)
      ensures mem(a) == mem0(a)
    {
      assert !MayChange(phdrs, i, dyn, bias, a);
      assert mem(a) == was(a);
      assert forall t :: 0 <= t < i && phdrs[t].load ==> !MayChange(phdrs, t, dyn, bias0, a);
    }
  }

  lemma FrameSkip(mem: Memory, was: Memory, phdrs: seq<Phdr>, i: nat, dyn: bool, bias: nat)
    requires i < |phdrs| && !phdrs[i].load && FrameTo(mem, was, phdrs, i, dyn, bias)
    ensures FrameTo(mem, was, phdrs, i + 1, dyn, bias)
  {
    hide MayChange;
    forall a: nat | forall t :: 0 <= t < i + 1 && phdrs[t].load ==> !MayChange(phdrs, t, dyn, bias, a)
      ensures mem(a) == was(a)
    {
      assert forall t :: 0 <= t < i && phdrs[t].load ==> !MayChange(phdrs, t, dyn, bias, a);
    }
  }

  /** Loading segment q leaves a segment p alone if they span different pages. */
  lemma LeavesAlone(mem: Memory, was: Memory, file: seq<nat>, p: Phdr, q: Phdr, bias: nat, clear: bool)
    requires bias < U64 && Placed(p, bias) && Placed(q, bias) && PagesApart(p, q)
    requires Holds(was, file, p, Wrap(bias + p.vaddr), clear)
    requires Loads(mem, was, q, bias, 0)
    ensures Holds(mem, file, p, Wrap(bias + p.vaddr), clear)
  {
    var r: nat := Wrap(bias + q.vaddr) - PageOffset(q.vaddr);
    SpansApart(p, q, bias, r);
    hide PageAlign, PageOffset, PageStart, Wrap, SegmentByte;
  }

  lemma SpansApart(p: Phdr, q: Phdr, bias: nat, r: nat)
    requires bias < U64 && Placed(p, bias) && Placed(q, bias) && PagesApart(p, q)
    requires r == Wrap(bias + q.vaddr) - PageOffset(q.vaddr)
    ensures var a := Wrap(bias + p.vaddr);
            a + p.memsz <= r || r + PageAlign(PageOffset(q.vaddr) + q.memsz) <= a
  {
    SameDistance(bias, p.vaddr, q.vaddr);
    PageStartIs(p.vaddr);
    PageStartIs(q.vaddr);
    PageAlignIs(p.vaddr + p.memsz);
    PageAlignShift(PageStart(q.vaddr), PageOffset(q.vaddr) + q.memsz);
    hide PageAlign, PageOffset, PageStart, Wrap;
  }

  /** The highest end, moved by the bias and rounded up, is above every segment. */
  lemma BreakIsAbove(phdrs: seq<Phdr>, bias: nat, top: nat, t: nat)
    requires bias < U64 && AllPlaced(phdrs, |phdrs|, bias) && IsTop(phdrs, |phdrs|, top)
    requires t < |phdrs| && phdrs[t].load
    ensures PageAlign(Wrap(bias + phdrs[t].vaddr) + phdrs[t].memsz) <= PageAlign(Wrap(bias + top))
  {
    hide PageAlign, Wrap;
    var s :| 0 <= s < |phdrs| && phdrs[s].load && phdrs[s].vaddr + phdrs[s].memsz == top;
    var p, q := phdrs[t], phdrs[s];
    assert Placed(p, bias) && Placed(q, bias);
    EndIs(q, bias);
    SameDistance(bias, p.vaddr, q.vaddr);
    PageAlignMonotone(Wrap(bias + p.vaddr) + p.memsz, Wrap(bias + top));
  }

  lemma EndIs(p: Phdr, bias: nat)
    requires Placed(p, bias)
    ensures Wrap(bias + p.vaddr + p.memsz) == Wrap(bias + p.vaddr) + p.memsz
  {
    WrapTwice(p.memsz, bias + p.vaddr);
    WrapSmall(Wrap(bias + p.vaddr) + p.memsz);
  }

  // ---------------------------------------------------------------- the loop

  /** The bias the first header is tried at, and the one it leaves. */
  function TryBias(p: Phdr, dyn: bool, hint: nat): nat { if dyn then PageStart(Wrap(hint - p.vaddr)) else 0 }

  function FirstBias(p: Phdr, dyn: bool, hint: nat, answer: Answer): nat {
    var low := TryBias(p, dyn, hint);
    var address := Wrap(low + p.vaddr);
    if dyn then Wrap(low + Wrap(SegmentPlace(address, p, answer) - PageStart(address))) else 0
  }

  ghost predicate FirstLoads(phdrs: seq<Phdr>, p: Phdr, dyn: bool, hint: nat, pinned: bool, answer: Answer) {
    && (dyn ==> TotalSize(phdrs) > 0)
    && SegmentLoads(Wrap(TryBias(p, dyn, hint) + p.vaddr), p, pinned || !dyn,
                    if dyn then TotalSize(phdrs) else 0, answer)
  }

  /** The first PT_LOAD header decides the bias. `hint` is the address the loader picked for a
      position-independent image, and `pinned` whether it insists on it. */
  method LoadFirst(space: AddressSpace, phdrs: seq<Phdr>, p: Phdr, dyn: bool, hint: nat, pinned: bool, answer: Answer)
    returns (ok: bool, bias: nat)
    requires (forall q :: q in phdrs ==> q.Typed()) && p in phdrs && p.load && hint < U64
    modifies space
    ensures bias < U64 && (!dyn ==> bias == 0)
    ensures p.Fits() ==> (ok <==> FirstLoads(phdrs, p, dyn, hint, pinned, answer))
    ensures ok && p.Fits() ==> bias == FirstBias(p, dyn, hint, answer)
    ensures ok && p.Fits() ==> bias % PAGE == 0 && Placed(p, bias)
    ensures ok && p.Fits() ==>
              && Holds(space.mem, space.file, p, Wrap(bias + p.vaddr), answer.clear)
              && Loads(space.mem, old(space.mem), p, bias, if dyn then TotalSize(phdrs) else 0)
  {
    hide PageAlign, PageOffset, PageStart, Wrap, Holds, TotalSize, SegmentLoads, SegmentPlace, Reach, SameOutside;
    bias := 0;
    var total := 0;
    if dyn {
      total := TotalMappingSize(phdrs);
      if total == 0 {
        return false, 0;
      }
      bias := PageStart(Wrap(hint - p.vaddr));
      PageStartIs(Wrap(hint - p.vaddr));
    }
    ghost var low := bias;
    var address := Wrap(bias + p.vaddr);
    var r := space.LoadSegment(address, p, pinned || !dyn, total, answer);
    if r >= TASK_SIZE {
      return false, bias;
    }
    if dyn {
      bias := Wrap(bias + Wrap(r - PageStart(Wrap(bias + p.vaddr))));
    }
    ok := true;
    if p.Fits() {
      if dyn {
        BiasPlaces(hint, p.vaddr, r, low, bias);
      } else {
        PlacedAt(p, 0, r);
      }
    }
  }

  /** Every later one is loaded at that bias. */
  method LoadNext(space: AddressSpace, p: Phdr, bias: nat, answer: Answer) returns (ok: bool)
    requires p.Typed() && bias < U64 && bias % PAGE == 0
    modifies space
    ensures p.Fits() ==> (ok <==> SegmentLoads(Wrap(bias + p.vaddr), p, true, 0, answer))
    ensures ok && p.Fits() ==>
              && Placed(p, bias) && Loads(space.mem, old(space.mem), p, bias, 0)
              && Holds(space.mem, space.file, p, Wrap(bias + p.vaddr), answer.clear)
  {
    hide PageAlign, PageOffset, PageStart, Wrap, Holds, SegmentLoads, Reach, SameOutside;
    var r := space.LoadSegment(Wrap(bias + p.vaddr), p, true, 0, answer);
    ok := r < TASK_SIZE;
    if ok && p.Fits() {
      PlacedAt(p, bias, r);
    }
  }

  lemma TopNext(phdrs: seq<Phdr>, i: nat, top: nat, next: nat)
    requires i < |phdrs| && phdrs[i].load && IsTop(phdrs, i, top) && (NoLoad(phdrs, i) ==> top == 0)
    requires next == if phdrs[i].vaddr + phdrs[i].memsz > top then phdrs[i].vaddr + phdrs[i].memsz else top
    ensures IsTop(phdrs, i + 1, next)
  {
  }

  /** What the loop keeps up to header i. */
  ghost predicate LoadedTo(phdrs: seq<Phdr>, i: nat, first: bool, bias: nat, top: nat)
    requires i <= |phdrs|
  {
    && first == NoLoad(phdrs, i) && bias < U64 && (if first then top == 0 else bias % PAGE == 0)
    && AllPlaced(phdrs, i, bias) && IsTop(phdrs, i, top)
  }

  lemma LoadedSkip(phdrs: seq<Phdr>, i: nat, first: bool, bias: nat, top: nat)
    requires i < |phdrs| && !phdrs[i].load && LoadedTo(phdrs, i, first, bias, top)
    ensures LoadedTo(phdrs, i + 1, first, bias, top)
  {
    hide Placed;
  }

  lemma LoadedNext(phdrs: seq<Phdr>, i: nat, first: bool, was: nat, bias: nat, top: nat, next: nat)
    requires i < |phdrs| && phdrs[i].load && LoadedTo(phdrs, i, first, was, top)
    requires bias < U64 && bias % PAGE == 0 && Placed(phdrs[i], bias) && (first || bias == was)
    requires next == if phdrs[i].vaddr + phdrs[i].memsz > top then phdrs[i].vaddr + phdrs[i].memsz else top
    ensures LoadedTo(phdrs, i + 1, false, bias, next)
  {
    hide Placed;
    TopNext(phdrs, i, top, next);
  }

  /** Loading header i keeps what the earlier ones put in memory. */
  lemma HeldNext(mem: Memory, was: Memory, file: seq<nat>, phdrs: seq<Phdr>, answers: seq<Answer>, i: nat,
                 first: bool, bias: nat)
    requires i < |phdrs| == |answers| && phdrs[i].load && AllApart(phdrs) && bias < U64
    requires Holds(mem, file, phdrs[i], Wrap(bias + phdrs[i].vaddr), answers[i].clear)
    requires first ==> NoLoad(phdrs, i)
    requires !first ==> AllPlaced(phdrs, i + 1, bias) && AllHeld(was, file, phdrs, answers, i, bias)
    requires !first ==> Loads(mem, was, phdrs[i], bias, 0)
    ensures AllHeld(mem, file, phdrs, answers, i + 1, bias)
  {
    hide Holds, Placed, PagesApart, Loads, Wrap;
    forall t | 0 <= t < i && phdrs[t].load
      ensures Holds(mem, file, phdrs[t], Wrap(bias + phdrs[t].vaddr), answers[t].clear)
    {
      LeavesAlone(mem, was, file, phdrs[t], phdrs[i], bias, answers[t].clear);
    }
  }

  /** The bias after n headers. */
  ghost function BiasAfter(phdrs: seq<Phdr>, n: nat, dyn: bool, hint: nat, answers: seq<Answer>): nat
    requires n <= |phdrs| == |answers|
  {
    if n == 0 then 0
    else if phdrs[n - 1].load && NoLoad(phdrs, n - 1) then FirstBias(phdrs[n - 1], dyn, hint, answers[n - 1])
    else BiasAfter(phdrs, n - 1, dyn, hint, answers)
  }

  /** Header t passes the checks and memory management grants what it asks for. */
  ghost predicate HeaderLoads(phdrs: seq<Phdr>, t: nat, dyn: bool, hint: nat, pinned: bool, answers: seq<Answer>)
    requires t < |phdrs| == |answers|
  {
    && phdrs[t].Fits()
    && if NoLoad(phdrs, t) then FirstLoads(phdrs, phdrs[t], dyn, hint, pinned, answers[t])
       else SegmentLoads(Wrap(BiasAfter(phdrs, t, dyn, hint, answers) + phdrs[t].vaddr), phdrs[t], true, 0, answers[t])
  }

  ghost predicate Loadable(phdrs: seq<Phdr>, n: nat, dyn: bool, hint: nat, pinned: bool, answers: seq<Answer>)
    requires n <= |phdrs| == |answers|
  {
    forall t :: 0 <= t < n && phdrs[t].load ==> HeaderLoads(phdrs, t, dyn, hint, pinned, answers)
  }

  lemma LoadableNext(phdrs: seq<Phdr>, i: nat, dyn: bool, hint: nat, pinned: bool, answers: seq<Answer>)
    requires i < |phdrs| == |answers|
    ensures Loadable(phdrs, i + 1, dyn, hint, pinned, answers) <==>
            && Loadable(phdrs, i, dyn, hint, pinned, answers)
            && (phdrs[i].load ==> HeaderLoads(phdrs, i, dyn, hint, pinned, answers))
  {
    hide HeaderLoads;
  }

  lemma LoadableBefore(phdrs: seq<Phdr>, n: nat, dyn: bool, hint: nat, pinned: bool, answers: seq<Answer>)
    requires n <= |phdrs| == |answers| && Loadable(phdrs, |phdrs|, dyn, hint, pinned, answers)
    ensures Loadable(phdrs, n, dyn, hint, pinned, answers)
  {
    hide HeaderLoads;
  }

  /** One round of the loop, for a PT_LOAD header: load it, then check it. */
  method LoadHeader(space: AddressSpace, phdrs: seq<Phdr>, i: nat, first: bool, was: nat,
                    dyn: bool, hint: nat, pinned: bool, answers: seq<Answer>)
    returns (good: bool, bias: nat)
    requires (forall p :: p in phdrs ==> p.Typed()) && |answers| == |phdrs| && hint < U64
    requires i < |phdrs| && phdrs[i].load && first == NoLoad(phdrs, i)
    requires was == BiasAfter(phdrs, i, dyn, hint, answers) < U64 && (!first ==> was % PAGE == 0) && (!dyn ==> was == 0)
    modifies space
    ensures good <==> HeaderLoads(phdrs, i, dyn, hint, pinned, answers)
    ensures good ==> bias == BiasAfter(phdrs, i + 1, dyn, hint, answers) && bias % PAGE == 0 && Placed(phdrs[i], bias)
    ensures bias < U64 && (!dyn ==> bias == 0) && (!first ==> bias == was)
    ensures good ==> Loads(space.mem, old(space.mem), phdrs[i], bias, WholeSize(phdrs, i, dyn))
    ensures good ==> Holds(space.mem, space.file, phdrs[i], Wrap(bias + phdrs[i].vaddr), answers[i].clear)
  {
    hide PageAlign, Wrap, Holds, Placed, Loads, FirstLoads, FirstBias, SegmentLoads, NoLoad, TotalSize;
    var p := phdrs[i];
    bias := was;
    if first {
      good, bias := LoadFirst(space, phdrs, p, dyn, hint, pinned, answers[i]);
    } else {
      good := LoadNext(space, p, bias, answers[i]);
    }
    if !good {
      return;
    }
    if p.vaddr >= TASK_SIZE || p.filesz > p.memsz || p.memsz > TASK_SIZE || TASK_SIZE - p.memsz < p.vaddr {
      good := false;
    }
  }

  /** The PT_LOAD loop, and the break it sets. It succeeds exactly when every PT_LOAD header passes the
      checks and is granted what it asks for. */
  method LoadBinary(space: AddressSpace, phdrs: seq<Phdr>, dyn: bool, hint: nat, pinned: bool, answers: seq<Answer>)
    returns (ok: bool, bias: nat, brk: nat)
    requires (forall p :: p in phdrs ==> p.Typed()) && |answers| == |phdrs| && hint < U64
    modifies space
    ensures bias < U64 && (!dyn ==> bias == 0)
    ensures ok <==> Loadable(phdrs, |phdrs|, dyn, hint, pinned, answers)
    ensures ok ==> bias == BiasAfter(phdrs, |phdrs|, dyn, hint, answers)
    ensures ok ==> AllPlaced(phdrs, |phdrs|, bias)
    ensures ok ==> forall p :: p in phdrs && p.load ==> PageAlign(Wrap(bias + p.vaddr) + p.memsz) <= brk
    ensures ok && !NoLoad(phdrs, |phdrs|) ==>
              exists p :: p in phdrs && p.load && brk == PageAlign(Wrap(bias + p.vaddr) + p.memsz)
    ensures ok && NoLoad(phdrs, |phdrs|) ==> brk == 0
    ensures ok && AllApart(phdrs) ==> AllHeld(space.mem, space.file, phdrs, answers, |phdrs|, bias)
    ensures ok ==> FrameTo(space.mem, old(space.mem), phdrs, |phdrs|, dyn, bias)
  {
    hide PageAlign, Wrap, Holds, Placed, Loads, LoadedTo, AllHeld, AllApart, Loadable, HeaderLoads, BiasAfter, NoLoad,
         FrameTo, WholeSize;
    ok, bias, brk := false, 0, 0;
    var top: nat, first := 0, true;
    ghost var mem0 := space.mem;
    StartOfLoop(space.mem, space.file, phdrs, answers, dyn);
    NothingLoaded(phdrs, dyn, hint, pinned, answers);
    for i := 0 to |phdrs|
      invariant LoadedTo(phdrs, i, first, bias, top) && bias < U64 && (!dyn ==> bias == 0)
      invariant Loadable(phdrs, i, dyn, hint, pinned, answers) && bias == BiasAfter(phdrs, i, dyn, hint, answers)
      invariant AllApart(phdrs) ==> AllHeld(space.mem, space.file, phdrs, answers, i, bias)
      invariant FrameTo(space.mem, mem0, phdrs, i, dyn, bias)
    {
      var p := phdrs[i];
      LoadableNext(phdrs, i, dyn, hint, pinned, answers);
      if !p.load {
        LoadedSkip(phdrs, i, first, bias, top);
        HeldSkip(space.mem, space.file, phdrs, answers, i, bias);
        FrameSkip(space.mem, mem0, phdrs, i, dyn, bias);
        BiasSkip(phdrs, i, dyn, hint, answers);
        continue;
      }
      LoadedMeans(phdrs, i, first, bias, top);
      ghost var was, low, before := space.mem, bias, top;
      var good;
      good, bias := LoadHeader(space, phdrs, i, first, bias, dyn, hint, pinned, answers);
      if !good {
        if Loadable(phdrs, |phdrs|, dyn, hint, pinned, answers) {
          LoadableBefore(phdrs, i + 1, dyn, hint, pinned, answers);
        }
        return;
      }
      if p.vaddr + p.memsz > top {
        top := p.vaddr + p.memsz;
      }
      LoadedNext(phdrs, i, first, low, bias, before, top);
      LoadedMeans(phdrs, i + 1, false, bias, top);
      FrameNext(mem0, was, space.mem, phdrs, i, first, dyn, low, bias);
      if AllApart(phdrs) {
        NotWhole(phdrs, i, dyn, first);
        HeldNext(space.mem, was, space.file, phdrs, answers, i, first, bias);
      }
      first := false;
    }
    LoadedMeans(phdrs, |phdrs|, first, bias, top);
    ok := true;
    brk := PageAlign(Wrap(bias + top));
    forall p | p in phdrs && p.load
      ensures PageAlign(Wrap(bias + p.vaddr) + p.memsz) <= brk
    {
      var t :| 0 <= t < |phdrs| && phdrs[t] == p;
      BreakIsAbove(phdrs, bias, top, t);
    }
    if first {
      NoBreak(phdrs, dyn, hint, answers, top);
    } else {
      BreakIsReached(phdrs, bias, top);
    }
  }

  /** The break is the end of one of the segments, rounded up. */
  lemma BreakIsReached(phdrs: seq<Phdr>, bias: nat, top: nat)
    requires AllPlaced(phdrs, |phdrs|, bias) && IsTop(phdrs, |phdrs|, top) && !NoLoad(phdrs, |phdrs|)
    ensures exists p :: p in phdrs && p.load && PageAlign(Wrap(bias + top)) == PageAlign(Wrap(bias + p.vaddr) + p.memsz)
  {
    hide PageAlign, Wrap;
    var s :| 0 <= s < |phdrs| && phdrs[s].load && phdrs[s].vaddr + phdrs[s].memsz == top;
    assert Placed(phdrs[s], bias) && phdrs[s] in phdrs;
    EndIs(phdrs[s], bias);
  }

  lemma {:induction false} NoBias(phdrs: seq<Phdr>, n: nat, dyn: bool, hint: nat, answers: seq<Answer>)
    requires n <= |phdrs| == |answers| && NoLoad(phdrs, n)
    ensures BiasAfter(phdrs, n, dyn, hint, answers) == 0
  {
    if n > 0 { NoBias(phdrs, n - 1, dyn, hint, answers); }
  }

  lemma NoBreak(phdrs: seq<Phdr>, dyn: bool, hint: nat, answers: seq<Answer>, top: nat)
    requires |answers| == |phdrs| && NoLoad(phdrs, |phdrs|) && top == 0
    ensures PageAlign(Wrap(BiasAfter(phdrs, |phdrs|, dyn, hint, answers) + top)) == 0
  {
    NoBias(phdrs, |phdrs|, dyn, hint, answers);
  }

  lemma NothingLoaded(phdrs: seq<Phdr>, dyn: bool, hint: nat, pinned: bool, answers: seq<Answer>)
    requires |answers| == |phdrs|
    ensures Loadable(phdrs, 0, dyn, hint, pinned, answers) && BiasAfter(phdrs, 0, dyn, hint, answers) == 0
  {
  }

  lemma BiasSkip(phdrs: seq<Phdr>, i: nat, dyn: bool, hint: nat, answers: seq<Answer>)
    requires i < |phdrs| == |answers| && !phdrs[i].load
    ensures BiasAfter(phdrs, i + 1, dyn, hint, answers) == BiasAfter(phdrs, i, dyn, hint, answers)
  {
  }

  lemma StartOfLoop(mem: Memory, file: seq<nat>, phdrs: seq<Phdr>, answers: seq<Answer>, dyn: bool)
    requires |answers| == |phdrs|
    ensures LoadedTo(phdrs, 0, true, 0, 0) && AllHeld(mem, file, phdrs, answers, 0, 0)
    ensures FrameTo(mem, mem, phdrs, 0, dyn, 0)
  {
  }

  lemma NotWhole(phdrs: seq<Phdr>, i: nat, dyn: bool, first: bool)
    requires i <= |phdrs| && first == NoLoad(phdrs, i)
    ensures !first ==> WholeSize(phdrs, i, dyn) == 0
  {
  }

  lemma LoadedMeans(phdrs: seq<Phdr>, i: nat, first: bool, bias: nat, top: nat)
    requires i <= |phdrs| && LoadedTo(phdrs, i, first, bias, top)
    ensures first == NoLoad(phdrs, i) && (if first then top == 0 else bias % PAGE == 0)
    ensures AllPlaced(phdrs, i, bias) && IsTop(phdrs, i, top)
  {
    hide Placed;
  }

  lemma HeldSkip(mem: Memory, file: seq<nat>, phdrs: seq<Phdr>, answers: seq<Answer>, i: nat, bias: nat)
    requires i < |phdrs| == |answers| && !phdrs[i].load
    ensures AllHeld(mem, file, phdrs, answers, i, bias) ==> AllHeld(mem, file, phdrs, answers, i + 1, bias)
  {
    hide Holds;
  }
}
