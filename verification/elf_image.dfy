/** What an ELF segment means, page arithmetic on 64-bit words, and mapped memory as a map from
    addresses to bytes: the ground under fs/vfs/binfmt_elf.c. */
module ElfImage {
  import opened Arith
  import opened Common

  const PAGE := 0x1000
  const TASK_SIZE := 0x8000_0000_0000 - PAGE

  function PageOffset(v: nat): nat { v % PAGE }

  function PageStart(v: nat): nat { v - v % PAGE }

  /** Rounds up to a page; the sum may wrap. */
  function PageAlign(v: nat): (w: nat)
    ensures w < U64
  {
    PageStart(Wrap(v + PAGE - 1))
  }

  datatype Phdr = Phdr(load: bool, writable: bool, offset: nat, vaddr: nat, filesz: nat, memsz: nat) {
    predicate Typed() { offset < U64 && vaddr < U64 && filesz < U64 && memsz < U64 }

    /** The check made after a segment is loaded. */
    predicate Fits() { vaddr < TASK_SIZE && filesz <= memsz <= TASK_SIZE && vaddr + memsz <= TASK_SIZE }
  }

  /** Memory: what is mapped at each address. */
  type Memory = nat -> Option<nat>

  function FileByte(file: seq<nat>, i: nat): nat { if i < |file| then file[i] else 0 }

  /** Byte i of a segment: from the file, then zero. */
  function SegmentByte(file: seq<nat>, p: Phdr, i: nat): nat {
    if i < p.filesz then FileByte(file, p.offset + i) else 0
  }

  /** Memory from `start` on holds the segment; unless the rest of the file part's last page could be
      cleared, without that rest. */
  ghost predicate Holds(mem: Memory, file: seq<nat>, p: Phdr, start: nat, clear: bool) {
    forall a: nat :: start <= a < start + p.memsz
                     && (clear || a < start + p.filesz || PageAlign(start + p.filesz) <= a) ==>
      mem(a) == Some(SegmentByte(file, p, a - start))
  }

  /** How much memory from its first page on loading a segment can change, when the whole image has
      `total` bytes. */
  function Reach(p: Phdr, total: nat): nat {
    Max(PageAlign(PageOffset(p.vaddr) + p.memsz), if total > 0 then PageAlign(total) else 0)
  }

  lemma HoldsAnyway(mem: Memory, file: seq<nat>, p: Phdr, start: nat, clear: bool)
    requires Holds(mem, file, p, start, true)
    ensures Holds(mem, file, p, start, clear)
  {
    hide PageAlign, SegmentByte;
  }

  /** Nothing outside [lo, hi) differs. */
  ghost predicate SameOutside(mem: Memory, was: Memory, lo: nat, hi: nat) {
    forall a: nat :: !(lo <= a < hi) ==> mem(a) == was(a)
  }

  function WithFile(mem: Memory, file: seq<nat>, start: nat, len: nat, off: nat): Memory {
    (a: nat) => if start <= a < start + len then Some(FileByte(file, off + a - start)) else mem(a)
  }

  function WithZeros(mem: Memory, start: nat, len: nat): Memory {
    (a: nat) => if start <= a < start + len then Some(0) else mem(a)
  }

  function Unmapped(mem: Memory, start: nat, len: nat): Memory {
    (a: nat) => if start <= a < start + len then None else mem(a)
  }

  // ---------------------------------------------------------------- page arithmetic

  lemma PageAlignIs(v: nat)
    requires v <= U64 - PAGE
    ensures v <= PageAlign(v) < v + PAGE && PageAlign(v) % PAGE == 0
  {
  }

  /** Whole pages round the same wherever they start. */
  lemma PageAlignShift(r: nat, v: nat)
    requires r % PAGE == 0 && r + v <= U64 - PAGE
    ensures PageAlign(r + v) == r + PageAlign(v)
  {
    hide PageAlign;
    PageAlignIs(r + v);
    PageAlignIs(v);
    PagesAdd(r, PageAlign(v));
    PagesEqual(PageAlign(r + v), r + PageAlign(v));
  }

  lemma PagesAdd(x: nat, y: nat)
    requires x % PAGE == 0 && y % PAGE == 0
    ensures (x + y) % PAGE == 0
  {
    DivIs(x + y, PAGE, x / PAGE + y / PAGE, 0);
  }

  lemma PagesEqual(x: nat, y: nat)
    requires x % PAGE == 0 && y % PAGE == 0 && x < y + PAGE && y < x + PAGE
    ensures x == y
  {
    assert x == PAGE * (x / PAGE) && y == PAGE * (y / PAGE);
  }

  lemma PageAlignMonotone(v: nat, w: nat)
    requires v <= w <= U64 - PAGE
    ensures PageAlign(v) <= PageAlign(w)
  {
  }

  /** Adding a whole number of pages, modulo 2^64, keeps the offset in the page. */
  lemma OffsetKept(bias: nat, v: nat)
    requires bias % PAGE == 0
    ensures PageOffset(Wrap(bias + v)) == PageOffset(v)
  {
  }

  /** Two words of user space at the same bias are as far apart as the addresses they come from. */
  lemma SameDistance(bias: nat, v: nat, w: nat)
    requires bias < U64 && v <= TASK_SIZE && w <= TASK_SIZE
    requires Wrap(bias + v) <= TASK_SIZE && Wrap(bias + w) <= TASK_SIZE
    ensures Wrap(bias + w) - Wrap(bias + v) == w - v
  {
  }

  lemma OffsetSmall(v: nat)
    ensures PageOffset(v) < PAGE
  {
  }

  /** The bias of a position-independent image, lowered by the first segment's address and moved to
      where that segment went, puts it exactly there. */
  lemma BiasPlaces(hint: nat, vaddr: nat, r: nat, low: nat, bias: nat)
    requires hint < U64 && vaddr < U64 && r < TASK_SIZE && r % PAGE == 0
    requires low == PageStart(Wrap(hint - vaddr))
    requires bias == Wrap(low + Wrap(r - PageStart(Wrap(low + vaddr))))
    ensures bias % PAGE == 0 && Wrap(bias + vaddr) == r + PageOffset(vaddr)
  {
    hide PageStart, PageOffset, Wrap;
    var word := Wrap(low + vaddr);
    var start := PageStart(word);
    OffsetSmall(vaddr);
    PageStartIs(Wrap(hint - vaddr));
    PageStartIs(word);
    OffsetKept(low, vaddr);
    WrapTwice(low, r - start);
    PagesSum(low, r, start);
    WrapPages(low + (r - start));
    WrapTwice(vaddr, low + (r - start));
    WrapBack(low + vaddr, word, r + PageOffset(vaddr));
  }

  lemma PageStartIs(v: nat)
    ensures PageStart(v) == v - PageOffset(v) && PageStart(v) % PAGE == 0 && PageOffset(v) < PAGE
  {
  }

  lemma PagesSum(x: nat, y: nat, z: nat)
    requires x % PAGE == 0 && y % PAGE == 0 && z % PAGE == 0
    ensures (x + (y - z)) % PAGE == 0
  {
  }

  lemma WrapPages(x: int)
    requires x % PAGE == 0
    ensures Wrap(x) % PAGE == 0
  {
  }

  lemma WrapBack(x: int, word: nat, y: nat)
    requires word == Wrap(x) && y < U64
    ensures Wrap(x - word + y) == y
  {
  }
}
