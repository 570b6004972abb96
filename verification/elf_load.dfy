/** fs/vfs/binfmt_elf.c: mapping the PT_LOAD segments of a program. The memory management calls are
    modelled by their effect on mapped memory; where they have a choice, the choice is an input. */
module ElfLoad {
  import opened Common
  import opened ElfImage

  const ENOMEM := U64 - 12
  const EFAULT := U64 - 14
  const EINVAL := U64 - 22

  /** What memory management answers for one segment: where mmap puts it, and whether brk and
      clear_user succeed. */
  datatype Answer = Answer(place: nat, brk: bool, clear: bool)

  ghost predicate Zeroed(mem: Memory, was: Memory, lo: nat, hi: nat) {
    forall a: nat :: mem(a) == if lo <= a < hi then Some(0) else was(a)
  }

  /** [r, r + len) shows the file from `off` on. */
  ghost predicate Shows(mem: Memory, file: seq<nat>, r: nat, len: nat, off: nat) {
    forall a: nat :: r <= a < r + len ==> mem(a) == Some(FileByte(file, off + a - r))
  }

  /** When vm_mmap can succeed, at `place`. */
  predicate MmapOk(addr: nat, len: nat, off: nat, fixed: bool, place: nat) {
    && off % PAGE == 0 && off + PageAlign(len) < U64 && PageAlign(len) > 0
    && place % PAGE == 0 && place + PageAlign(len) <= TASK_SIZE && (fixed ==> place == addr)
  }

  // ---------------------------------------------------------------- sizes that do not wrap

  lemma WrapSmall(x: int)
    ensures 0 <= x < U64 ==> Wrap(x) == x
  {
  }

  lemma SizeIs(p: Phdr)
    requires p.Fits() && p.filesz > 0
    ensures var o := PageOffset(p.vaddr);
            && Wrap(p.filesz + o) == o + p.filesz
            && 0 < PageAlign(o + p.filesz) <= TASK_SIZE + PAGE
            && PageAlign(PageAlign(o + p.filesz)) == PageAlign(o + p.filesz)
  {
    PageAlignIs(PageOffset(p.vaddr) + p.filesz);
    AlignedStays(PageAlign(PageOffset(p.vaddr) + p.filesz));
  }

  lemma AlignedStays(v: nat)
    requires v % PAGE == 0 && v <= U64 - PAGE
    ensures PageAlign(v) == v
  {
  }

  /** An offset that is a whole number of pages lies in the file. */
  lemma OffsetIs(p: Phdr)
    requires p.Typed()
    ensures var off := Wrap(p.offset - PageOffset(p.vaddr));
            off % PAGE == 0 ==> PageOffset(p.vaddr) <= p.offset && off == p.offset - PageOffset(p.vaddr)
  {
  }

  /** The size of the whole image, unless it wraps to zero, has room for the segment. */
  lemma WholeIs(p: Phdr, total: nat)
    requires p.Fits() && p.filesz > 0 && total < U64 && PageOffset(p.vaddr) + p.memsz <= total
    ensures var whole := PageAlign(total);
            PageAlign(whole) > 0 ==> PageAlign(whole) == whole && PageAlign(PageOffset(p.vaddr) + p.filesz) <= whole
  {
    if total <= U64 - PAGE {
      PageAlignIs(total);
      AlignedStays(PageAlign(total));
      PageAlignMonotone(PageOffset(p.vaddr) + p.filesz, total);
    }
  }

  /** The pages behind the file part, for a segment that starts o bytes into page r. */
  lemma TailIs(r: nat, o: nat, filesz: nat, memsz: nat)
    requires r % PAGE == 0 && r < TASK_SIZE && o < PAGE && filesz <= memsz <= TASK_SIZE
    ensures var zs, ze := r + o + filesz, r + o + memsz;
            && ze < U64 - PAGE && zs <= PageAlign(zs) <= PageAlign(ze) && ze <= PageAlign(ze)
            && PageAlign(zs) == r + PageAlign(o + filesz) && PageAlign(ze) == r + PageAlign(o + memsz)
            && PageAlign(PageAlign(ze) - PageAlign(zs)) == PageAlign(ze) - PageAlign(zs) < U64
  {
    var zs, ze := r + o + filesz, r + o + memsz;
    PageAlignIs(zs);
    PageAlignIs(ze);
    PageAlignMonotone(zs, ze);
    PageAlignShift(r, o + filesz);
    PageAlignShift(r, o + memsz);
    hide PageAlign;
    PagesSum(0, PageAlign(ze), PageAlign(zs));
    AlignedStays(PageAlign(ze) - PageAlign(zs));
  }

  /** Mapping the file part, clearing up to the end of its page and mapping zero pages behind it
      leave the segment in memory. */
  lemma LoadedHolds(file: seq<nat>, p: Phdr, r: nat, clear: bool, mapped: Memory, padded: Memory, full: Memory)
    requires p.Fits() && 0 < p.filesz && r % PAGE == 0 && r < TASK_SIZE && PageOffset(p.vaddr) <= p.offset
    requires Shows(mapped, file, r, PageOffset(p.vaddr) + p.filesz, p.offset - PageOffset(p.vaddr))
    requires var zs, ze := r + PageOffset(p.vaddr) + p.filesz, r + PageOffset(p.vaddr) + p.memsz;
             && (Zeroed(padded, mapped, zs, PageAlign(zs)) || (!clear && padded == mapped))
             && Zeroed(full, padded, PageAlign(zs), PageAlign(ze))
    ensures Holds(full, file, p, r + PageOffset(p.vaddr), clear)
  {
    hide PageAlign, PageOffset, Shows, Zeroed, SegmentByte;
    PageStartIs(p.vaddr);
    var o: nat := PageOffset(p.vaddr);
    TailIs(r, o, p.filesz, p.memsz);
    forall a: nat | r + o <= a < r + o + p.memsz
                    && (clear || a < r + o + p.filesz || PageAlign(r + o + p.filesz) <= a)
      ensures full(a) == Some(SegmentByte(file, p, a - (r + o)))
    {
      LoadedByte(file, p, r, o, PageAlign(r + o + p.filesz), PageAlign(r + o + p.memsz), clear,
                 mapped, padded, full, a);
    }
  }

  lemma LoadedByte(file: seq<nat>, p: Phdr, r: nat, o: nat, middle: nat, end: nat, clear: bool,
                   mapped: Memory, padded: Memory, full: Memory, a: nat)
    requires o <= p.offset && Shows(mapped, file, r, o + p.filesz, p.offset - o)
    requires r + o + p.filesz <= middle <= end && r + o + p.memsz <= end
    requires Zeroed(padded, mapped, r + o + p.filesz, middle) || (!clear && padded == mapped)
    requires Zeroed(full, padded, middle, end)
    requires r + o <= a < r + o + p.memsz && (clear || a < r + o + p.filesz || middle <= a)
    ensures full(a) == Some(SegmentByte(file, p, a - (r + o)))
  {
    if Zeroed(padded, mapped, r + o + p.filesz, middle) {
      assert padded(a) == if r + o + p.filesz <= a < middle then Some(0) else mapped(a);
    }
  }

  predicate TailFits(zeroStart: nat, zeroEnd: nat) {
    var zs, ze := PageAlign(zeroStart), PageAlign(zeroEnd);
    zs <= ze < U64 && PageAlign(ze - zs) == ze - zs
  }

  lemma ZeroPartIs(address: nat, p: Phdr, r: nat, zeroEnd: nat)
    requires r == PageStart(address) && zeroEnd == Wrap(r + PageOffset(p.vaddr) + p.memsz)
    ensures zeroEnd < U64 && r % PAGE == 0 && r <= address && PageOffset(p.vaddr) < PAGE
    ensures p.Fits() && r < TASK_SIZE ==>
              && zeroEnd == r + PageOffset(p.vaddr) + p.memsz && TailFits(r, zeroEnd) && PageAlign(r) == r
              && zeroEnd <= PageAlign(zeroEnd) == r + PageAlign(PageOffset(p.vaddr) + p.memsz)
              && (PageAlign(zeroEnd) == r ==> zeroEnd <= TASK_SIZE)
  {
    PageStartIs(address);
    PageStartIs(p.vaddr);
    if p.Fits() && r < TASK_SIZE {
      WrapSmall(r + PageOffset(p.vaddr) + p.memsz);
      AlignedStays(r);
      PageAlignIs(zeroEnd);
      PageAlignMonotone(r, zeroEnd);
      PageAlignShift(r, PageOffset(p.vaddr) + p.memsz);
      PagesSum(0, PageAlign(zeroEnd), r);
      AlignedStays(PageAlign(zeroEnd) - r);
    }
  }

  lemma ZerosHold(file: seq<nat>, p: Phdr, r: nat, was: Memory, mem: Memory)
    requires p.filesz == 0
    requires p.memsz > 0 ==> exists hi: nat :: r + PageOffset(p.vaddr) + p.memsz <= hi && Zeroed(mem, was, r, hi)
    ensures Holds(mem, file, p, r + PageOffset(p.vaddr), true)
  {
  }

  lemma FilePartIs(file: seq<nat>, p: Phdr, r: nat, mem: Memory)
    requires p.Fits() && p.filesz > 0 && r % PAGE == 0 && r < TASK_SIZE && PageOffset(p.vaddr) <= p.offset
    requires Shows(mem, file, r, PageAlign(PageOffset(p.vaddr) + p.filesz), p.offset - PageOffset(p.vaddr))
    ensures var o := PageOffset(p.vaddr);
            var zs, ze := r + o + p.filesz, r + o + p.memsz;
            && o < PAGE && Shows(mem, file, r, o + p.filesz, p.offset - o)
            && Wrap(r + p.filesz + o) == zs && Wrap(r + p.memsz + o) == ze < U64 - PAGE && TailFits(zs, ze)
            && zs <= PageAlign(zs) == r + PageAlign(o + p.filesz)
            && PageAlign(zs) <= PageAlign(ze) == r + PageAlign(o + p.memsz) && ze <= PageAlign(ze)
            && (p.memsz == p.filesz ==> Holds(mem, file, p, r + o, true))
  {
    hide PageAlign, Wrap, PageOffset;
    PageStartIs(p.vaddr);
    var o: nat := PageOffset(p.vaddr);
    TailIs(r, o, p.filesz, p.memsz);
    WrapSmall(r + p.filesz + o);
    WrapSmall(r + p.memsz + o);
  }

  // ---------------------------------------------------------------- when loading succeeds

  /** Zero pages up to `zeroEnd`, if there are any to map. */
  predicate TailOk(zeroStart: nat, zeroEnd: nat, ok: bool) {
    PageAlign(zeroStart) == PageAlign(zeroEnd) || (ok && PageAlign(zeroEnd) <= TASK_SIZE)
  }

  /** What elf_map asks of vm_mmap. */
  predicate MapOk(address: nat, p: Phdr, fixed: bool, total: nat, place: nat) {
    var o := PageOffset(p.vaddr);
    MmapOk(PageStart(address), if total > 0 then PageAlign(total) else PageAlign(o + p.filesz),
           Wrap(p.offset - o), fixed, place)
  }

  /** A segment that fits is loaded exactly when its file part can be mapped, the end of its last page
      cleared, unless it is not writable, and its zero pages mapped. */
  predicate SegmentLoads(address: nat, p: Phdr, fixed: bool, total: nat, answer: Answer) {
    var o := PageOffset(p.vaddr);
    if p.filesz > 0 then
      && MapOk(address, p, fixed, total, answer.place)
      && (p.memsz > p.filesz ==>
            var zeroStart := answer.place + o + p.filesz;
            && (PageOffset(zeroStart) == 0 || answer.clear || !p.writable)
            && TailOk(zeroStart, answer.place + o + p.memsz, answer.brk))
    else
      && PageStart(address) < TASK_SIZE
      && (p.memsz > 0 ==> TailOk(PageStart(address), PageStart(address) + o + p.memsz, answer.brk))
  }

  /** A segment whose address and offset lie equally far into their pages, and which stays in user
      space, is loaded when memory management grants all it asks for. */
  lemma GrantedLoads(address: nat, p: Phdr, answer: Answer)
    requires p.Typed() && p.Fits() && PageOffset(address) == PageOffset(p.vaddr) == PageOffset(p.offset)
    requires PageStart(address) < TASK_SIZE && p.offset + p.filesz + PAGE < U64
    requires PageStart(address) + PageAlign(PageOffset(p.vaddr) + p.memsz) <= TASK_SIZE
    requires answer.place == PageStart(address) && answer.brk && answer.clear
    ensures SegmentLoads(address, p, true, 0, answer)
  {
    var o, r := PageOffset(p.vaddr), PageStart(address);
    PageStartIs(address);
    PageStartIs(p.vaddr);
    if p.filesz > 0 {
      hide PageAlign, PageStart, PageOffset, Wrap;
      SizeIs(p);
      PageAlignIs(o + p.filesz);
      PageAlignMonotone(o + p.filesz, o + p.memsz);
      WholePages(p.offset);
      TailIs(r, o, p.filesz, p.memsz);
      WrapSmall(p.offset - o);
    } else {
      hide PageAlign, PageStart, PageOffset, Wrap;
      TailIs(r, o, 0, p.memsz);
    }
  }

  lemma WholePages(v: nat)
    ensures v - PageOffset(v) >= 0 && (v - PageOffset(v)) % PAGE == 0
  {
  }

  /** Where it is loaded then. */
  function SegmentPlace(address: nat, p: Phdr, answer: Answer): nat {
    if p.filesz > 0 then answer.place else PageStart(address)
  }

  class AddressSpace {
    const file: seq<nat>
    var mem: Memory

    constructor (file: seq<nat>)
      ensures this.file == file && forall a: nat :: mem(a) == None
    {
      this.file, mem := file, _ => None;
    }

    /** vm_mmap. */
    method Mmap(addr: nat, len: nat, off: nat, fixed: bool, place: nat) returns (r: nat)
      modifies this
      ensures r < TASK_SIZE <==> MmapOk(addr, len, off, fixed, place)
      ensures r < TASK_SIZE ==>
                && r == place
                && Shows(mem, file, r, PageAlign(len), off) && SameOutside(mem, old(mem), r, r + PageAlign(len))
      ensures r >= TASK_SIZE ==> mem == old(mem)
    {
      if !MmapOk(addr, len, off, fixed, place) {
        return EINVAL;
      }
      mem := WithFile(mem, file, place, PageAlign(len), off);
      return place;
    }

    method Munmap(start: nat, len: nat)
      modifies this
      ensures SameOutside(mem, old(mem), start, start + len)
      ensures forall a: nat :: start <= a < start + len ==> mem(a) == None
    {
      mem := Unmapped(mem, start, len);
    }

    /** vm_brk_flags: zero pages at a fixed address. */
    method Brk(addr: nat, request: nat, ok: bool) returns (error: nat)
      modifies this
      ensures error == 0 || (error >= TASK_SIZE && mem == old(mem))
      ensures error == 0 <==> PageAlign(request) >= request
                              && (PageAlign(request) == 0 || (ok && addr + PageAlign(request) <= TASK_SIZE))
      ensures error == 0 ==> Zeroed(mem, old(mem), addr, addr + PageAlign(request))
    {
      var len := PageAlign(request);
      if len < request {
        return ENOMEM;
      }
      if len == 0 {
        return 0;
      }
      if !ok || addr + len > TASK_SIZE {
        return ENOMEM;
      }
      mem := WithZeros(mem, addr, len);
      return 0;
    }

    /** padzero: clears from `bss` to the end of its page. */
    method PadZero(bss: nat, ok: bool) returns (failed: bool)
      requires bss < U64
      modifies this
      ensures failed <==> PageOffset(bss) != 0 && !ok
      ensures failed ==> mem == old(mem)
      ensures !failed && bss <= U64 - PAGE ==> Zeroed(mem, old(mem), bss, PageAlign(bss))
    {
      var nbyte := PageOffset(bss);
      if nbyte != 0 {
        nbyte := PAGE - nbyte;
        if !ok {
          return true;
        }
        mem := WithZeros(mem, bss, nbyte);
      }
      return false;
    }

    /** Maps `whole` bytes and gives back what lies behind the first `size`. */
    method MapWhole(addr: nat, size: int, whole: int, off: nat, fixed: bool, place: nat) returns (r: nat)
      requires 0 <= whole
      modifies this
      ensures r < TASK_SIZE <==> MmapOk(addr, whole, off, fixed, place)
      ensures r < TASK_SIZE && (PageAlign(whole) > 0 ==> 0 <= size <= whole == PageAlign(whole)) ==>
                && r == place && size <= whole == PageAlign(whole)
                && Shows(mem, file, r, size, off) && SameOutside(mem, old(mem), r, r + whole)
                && forall a: nat :: r + size <= a < r + whole ==> mem(a) == None
    {
      hide Wrap, PageAlign, FileByte;
      r := Mmap(addr, whole, off, fixed, place);
      if r < TASK_SIZE {
        WrapSmall(r + size);
        WrapSmall(whole - size);
        Munmap(Wrap(r + size), Wrap(whole - size));
      }
    }

    /** elf_map. */
    method ElfMap(address: nat, p: Phdr, fixed: bool, total: nat, place: nat) returns (r: nat)
      requires p.Typed() && p.filesz > 0 && address < U64 && total < U64
      requires total > 0 && p.Fits() ==> PageOffset(p.vaddr) + p.memsz <= total
      modifies this
      ensures p.Fits() ==> (r < TASK_SIZE <==> MapOk(address, p, fixed, total, place))
      ensures r < TASK_SIZE && p.Fits() ==>
                && r == place && Mapped(p, r) && (fixed ==> r == PageStart(address))
                && SameOutside(mem, old(mem), r,
                               r + if total > 0 then PageAlign(total) else PageAlign(PageOffset(p.vaddr) + p.filesz))
    {
      if p.Fits() {
        SizeIs(p);
        OffsetIs(p);
        if total > 0 {
          WholeIs(p, total);
        }
      }
      hide Wrap, PageAlign, PageOffset, PageStart;
      var size := Wrap(p.filesz + PageOffset(p.vaddr));
      var off := Wrap(p.offset - PageOffset(p.vaddr));
      var addr := PageStart(address);
      size := PageAlign(size);
      if size == 0 {
        return addr;
      }
      if total != 0 {
        r := MapWhole(addr, size, PageAlign(total), off, fixed, place);
      } else {
        r := Mmap(addr, size, off, fixed, place);
      }
    }

    /** The last part of elf_load: zero pages from the end of the file part's last page on. */
    method MapTail(r: nat, zeroStart: nat, zeroEnd: nat, ok: bool) returns (q: nat)
      requires zeroStart < U64 && zeroEnd < U64
      modifies this
      ensures q < TASK_SIZE ==> q == r
      ensures r < TASK_SIZE && TailFits(zeroStart, zeroEnd) ==> (q < TASK_SIZE <==> TailOk(zeroStart, zeroEnd, ok))
      ensures q < TASK_SIZE && TailFits(zeroStart, zeroEnd) ==>
                && Zeroed(mem, old(mem), PageAlign(zeroStart), PageAlign(zeroEnd))
                && (PageAlign(zeroStart) == PageAlign(zeroEnd) || PageAlign(zeroEnd) <= TASK_SIZE)
    {
      hide PageAlign, Wrap;
      var zs: int, ze: int := PageAlign(zeroStart), PageAlign(zeroEnd);
      WrapSmall(ze - zs);
      var error := Brk(zs, Wrap(ze - zs), ok);
      return if error != 0 then error else r;
    }

    /** elf_load. */
    method LoadSegment(address: nat, p: Phdr, fixed: bool, total: nat, answer: Answer) returns (r: nat)
      requires p.Typed() && address < U64 && total < U64
      requires total > 0 && p.Fits() ==> PageOffset(p.vaddr) + p.memsz <= total
      modifies this
      ensures p.Fits() ==> (r < TASK_SIZE <==> SegmentLoads(address, p, fixed, total, answer))
      ensures r < TASK_SIZE && p.Fits() ==>
                && r == SegmentPlace(address, p, answer)
                && r % PAGE == 0 && (fixed || p.filesz == 0 ==> r == PageStart(address))
                && r + PageOffset(p.vaddr) + p.memsz <= TASK_SIZE
                && Holds(mem, file, p, r + PageOffset(p.vaddr), answer.clear)
                && SameOutside(mem, old(mem), r, r + Reach(p, total))
    {
      hide PageAlign, PageStart, PageOffset, Holds, Wrap;
      if p.filesz != 0 {
        r := LoadFilePart(address, p, fixed, total, answer);
      } else {
        r := LoadZeroPart(address, p, answer);
        if r < TASK_SIZE && p.Fits() {
          HoldsAnyway(mem, file, p, r + PageOffset(p.vaddr), answer.clear);
        }
      }
    }

    method LoadZeroPart(address: nat, p: Phdr, answer: Answer) returns (r: nat)
      requires p.Typed() && address < U64 && p.filesz == 0
      modifies this
      ensures p.Fits() ==> (r < TASK_SIZE <==> SegmentLoads(address, p, true, 0, answer))
      ensures r < TASK_SIZE && p.Fits() ==>
                && r % PAGE == 0 && r == PageStart(address)
                && r + PageOffset(p.vaddr) + p.memsz <= TASK_SIZE
                && Holds(mem, file, p, r + PageOffset(p.vaddr), true)
                && SameOutside(mem, old(mem), r, r + PageAlign(PageOffset(p.vaddr) + p.memsz))
    {
      hide PageAlign, PageOffset, PageStart, Wrap, TailFits, Holds;
      r := PageStart(address);
      var zeroStart := r;
      var zeroEnd := Wrap(r + PageOffset(p.vaddr) + p.memsz);
      ZeroPartIs(address, p, r, zeroEnd);
      if p.memsz > p.filesz {
        r := MapTail(r, zeroStart, zeroEnd, answer.brk);
      }
      if r < TASK_SIZE && p.Fits() {
        ZerosHold(file, p, r, old(mem), mem);
      }
    }

    method LoadFilePart(address: nat, p: Phdr, fixed: bool, total: nat, answer: Answer) returns (r: nat)
      requires p.Typed() && address < U64 && total < U64 && p.filesz > 0
      requires total > 0 && p.Fits() ==> PageOffset(p.vaddr) + p.memsz <= total
      modifies this
      ensures p.Fits() ==> (r < TASK_SIZE <==> SegmentLoads(address, p, fixed, total, answer))
      ensures r < TASK_SIZE && p.Fits() ==>
                && r == answer.place && r % PAGE == 0 && (fixed ==> r == PageStart(address))
                && r + PageOffset(p.vaddr) + p.memsz <= TASK_SIZE
                && Holds(mem, file, p, r + PageOffset(p.vaddr), answer.clear)
                && SameOutside(mem, old(mem), r, r + Reach(p, total))
    {
      hide PageAlign, PageStart, Wrap, PageOffset, TailFits, Holds, Shows;
      r := ElfMap(address, p, fixed, total, answer.place);
      if r >= TASK_SIZE {
        return;
      }
      ghost var mapped := mem;
      if p.Fits() {
        FilePartIs(file, p, r, mem);
      }
      if p.memsz > p.filesz {
        var zeroStart := Wrap(r + p.filesz + PageOffset(p.vaddr));
        var zeroEnd := Wrap(r + p.memsz + PageOffset(p.vaddr));
        var failed := PadZero(zeroStart, answer.clear);
        if failed && p.writable {
          return EFAULT;
        }
        ghost var padded := mem;
        r := MapTail(r, zeroStart, zeroEnd, answer.brk);
        if r < TASK_SIZE && p.Fits() {
          LoadedHolds(file, p, r, answer.clear, mapped, padded, mem);
        }
      } else if p.Fits() {
        HoldsAnyway(mem, file, p, r + PageOffset(p.vaddr), answer.clear);
      }
    }

    /** The file part of a segment is mapped at r. */
    ghost predicate Mapped(p: Phdr, r: nat)
      reads this
    {
      var o := PageOffset(p.vaddr);
      && r % PAGE == 0 && r + PageAlign(o + p.filesz) <= TASK_SIZE && o <= p.offset
      && Shows(mem, file, r, PageAlign(o + p.filesz), p.offset - o)
    }
  }
}
