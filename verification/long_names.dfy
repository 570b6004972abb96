/** Long file names in FAT directories: the slots fs/fat/namei_vfat.c builds and the parser of
    fs/fat/myos_dir.c. A slot is 32 bytes: id, 5 characters, attribute, two bytes, 6 characters,
    two bytes, 2 characters; a character is 16 bits. */
module LongNames {
  import opened Common
  import opened FatDisk

  const SLOT := 32
  const ATTR_EXT := 15
  const LAST := 0x40

  // ---------------------------------------------------------------- what a slot says

  predicate HasLast(id: int) { id / LAST % 2 == 1 }

  /** The id of slot i of n, in a byte; the last slot of the name is marked. */
  function SlotId(n: nat, i: nat): byte {
    var id := i % 256;
    if i == n && !HasLast(id) then id + LAST else id
  }

  /** Character k of a name that is filled up with zeros. */
  function Padded(name: seq<byte>, k: nat): byte { if k < |name| then name[k] else 0 }

  /** m characters from position `off` on are those of the name from k on. */
  ghost predicate Spells(dir: seq<byte>, off: nat, name: seq<byte>, k: nat, m: nat) {
    && off + 2 * m <= |dir|
    && forall j :: 0 <= j < m ==> dir[off + 2 * j] == Padded(name, k + j) && dir[off + 2 * j + 1] == 0
  }

  /** The 32 bytes at `at` are slot i of n. */
  ghost predicate IsSlot(dir: seq<byte>, at: nat, name: seq<byte>, n: nat, i: nat, checksum: byte) {
    && 0 < i && at + SLOT <= |dir|
    && dir[at] == SlotId(n, i) && dir[at + 11] == ATTR_EXT && dir[at + 12] == 0 && dir[at + 13] == checksum
    && dir[at + 26] == 0 && dir[at + 27] == 0
    && Spells(dir, at + 1, name, 13 * (i - 1), 5)
    && Spells(dir, at + 14, name, 13 * (i - 1) + 5, 6)
    && Spells(dir, at + 28, name, 13 * (i - 1) + 11, 2)
  }

  function Slots(len: nat): nat { (len + 12) / 13 }

  /** Where slot i of n lies: the last of the name comes first. */
  function SlotAt(at: nat, n: nat, i: nat): nat
    requires i <= n
  {
    at + SLOT * (n - i)
  }

  /** The n slots of a name lie from `at` on. */
  ghost predicate AreSlots(dir: seq<byte>, at: nat, name: seq<byte>, n: nat, checksum: byte) {
    forall i :: 1 <= i <= n ==> IsSlot(dir, SlotAt(at, n, i), name, n, i, checksum)
  }

  // ---------------------------------------------------------------- what the parser reads

  /** FAT32_ent_empty, of an entry's first byte. */
  predicate EntryEmpty(first: byte) { first == 0xe5 || first == 0 || first == 5 }

  /** The characters of m 16-bit units, without fillers. */
  function Units(dir: seq<byte>, off: nat, m: nat): seq<byte>
    requires off + 2 * m <= |dir|
  {
    if m == 0 then []
    else
      var lo: int, hi: int := dir[off + 2 * (m - 1)], dir[off + 2 * (m - 1) + 1];
      Units(dir, off, m - 1) + if lo + 256 * hi == 0xffff || lo + 256 * hi == 0 then [] else [lo]
  }

  function SlotChars(dir: seq<byte>, at: nat): seq<byte>
    requires at + SLOT <= |dir|
  {
    Units(dir, at + 1, 5) + Units(dir, at + 14, 6) + Units(dir, at + 28, 2)
  }

  /** How many slots the parser takes, going back from `cursor`. */
  function SlotsBack(dir: seq<byte>, cursor: int): (n: nat)
    requires cursor + SLOT <= |dir|
    ensures SLOT * n <= cursor + SLOT || n == 0
    decreases cursor + SLOT
  {
    if cursor < 0 || dir[cursor + 11] != ATTR_EXT || EntryEmpty(dir[cursor]) then 0
    else if HasLast(dir[cursor]) then 1
    else 1 + SlotsBack(dir, cursor - SLOT)
  }

  /** The characters of x slots, going back from `cursor`. */
  function NameBack(dir: seq<byte>, cursor: int, x: nat): seq<byte>
    requires cursor + SLOT <= |dir| && (x == 0 || SLOT * x <= cursor + SLOT)
  {
    if x == 0 then [] else NameBack(dir, cursor, x - 1) + SlotChars(dir, cursor - SLOT * (x - 1))
  }

  // ---------------------------------------------------------------- the round trip

  predicate NulFree(name: seq<byte>) { forall c :: c in name ==> c != 0 }

  /** The part of the name between two positions. */
  function Part(name: seq<byte>, a: nat, b: nat): seq<byte>
    requires a <= b
  {
    name[Min(a, |name|)..Min(b, |name|)]
  }

  lemma PartJoin(name: seq<byte>, a: nat, b: nat, c: nat)
    requires a <= b <= c
    ensures Part(name, a, b) + Part(name, b, c) == Part(name, a, c)
  {
  }

  /** m units from `off` on are the name from k on and then fillers, 0x0000 or 0xffff. */
  ghost predicate Reads(dir: seq<byte>, off: nat, name: seq<byte>, k: nat, m: nat) {
    && off + 2 * m <= |dir|
    && forall j :: 0 <= j < m ==>
         var lo, hi := dir[off + 2 * j], dir[off + 2 * j + 1];
         if k + j < |name| then lo == name[k + j] && hi == 0 else lo == hi && (lo == 0 || lo == 0xff)
  }

  /** The parser takes the characters and skips the fillers. */
  lemma {:induction false} UnitsRead(dir: seq<byte>, off: nat, name: seq<byte>, k: nat, m: nat)
    requires NulFree(name) && Reads(dir, off, name, k, m)
    ensures Units(dir, off, m) == Part(name, k, k + m)
  {
    if m > 0 {
      UnitsRead(dir, off, name, k, m - 1);
      PartJoin(name, k, k + m - 1, k + m);
      var c := dir[off + 2 * (m - 1)];
      if k + m - 1 < |name| {
        assert c in name;
      }
      assert Part(name, k + m - 1, k + m) == if k + m - 1 < |name| then [c] else [];
    }
  }

  lemma UnitsSpell(dir: seq<byte>, off: nat, name: seq<byte>, k: nat, m: nat)
    requires NulFree(name) && Spells(dir, off, name, k, m)
    ensures Units(dir, off, m) == Part(name, k, k + m)
  {
    UnitsRead(dir, off, name, k, m);
  }

  lemma SlotSpells(dir: seq<byte>, at: nat, name: seq<byte>, n: nat, i: nat, checksum: byte)
    requires NulFree(name) && IsSlot(dir, at, name, n, i, checksum)
    ensures SlotChars(dir, at) == Part(name, 13 * (i - 1), 13 * i)
  {
    hide Units, Spells, Part, NulFree;
    var k: nat := 13 * (i - 1);
    UnitsSpell(dir, at + 1, name, k, 5);
    UnitsSpell(dir, at + 14, name, k + 5, 6);
    UnitsSpell(dir, at + 28, name, k + 11, 2);
    PartJoin(name, k, k + 5, k + 11);
    PartJoin(name, k, k + 11, k + 13);
  }

  lemma {:induction false} NameSpells(dir: seq<byte>, at: nat, name: seq<byte>, n: nat, checksum: byte,
                                      cursor: int, x: nat)
    requires NulFree(name) && AreSlots(dir, at, name, n, checksum) && x <= n && at + SLOT * n <= |dir|
    requires cursor == at + SLOT * n - SLOT
    ensures NameBack(dir, cursor, x) == Part(name, 0, 13 * x)
  {
    if x > 0 {
      hide *;
      var last := SlotAt(at, n, x);
      NameBackStep(dir, at, n, cursor, x, last);
      NameSpells(dir, at, name, n, checksum, cursor, x - 1);
      SlotOf(dir, at, name, n, checksum, x);
      SlotSpells(dir, last, name, n, x, checksum);
      PartJoin(name, 0, 13 * (x - 1), 13 * x);
    }
  }

  lemma NameBackStep(dir: seq<byte>, at: nat, n: nat, cursor: int, x: nat, last: nat)
    requires 0 < x <= n && at + SLOT * n <= |dir| && cursor == at + SLOT * n - SLOT && last == SlotAt(at, n, x)
    ensures last + SLOT <= |dir| && cursor + SLOT <= |dir| && SLOT * x <= cursor + SLOT
    ensures NameBack(dir, cursor, x) == NameBack(dir, cursor, x - 1) + SlotChars(dir, last)
  {
    hide SlotChars;
  }

  lemma SlotOf(dir: seq<byte>, at: nat, name: seq<byte>, n: nat, checksum: byte, i: nat)
    requires AreSlots(dir, at, name, n, checksum) && 1 <= i <= n
    ensures IsSlot(dir, SlotAt(at, n, i), name, n, i, checksum)
  {
    hide IsSlot;
  }

  /** Going back over slots i, i + 1, ... the parser stops behind slot n, or before slot 5. */
  lemma {:induction false} BackFrom(dir: seq<byte>, at: nat, name: seq<byte>, n: nat, checksum: byte, i: nat)
    requires AreSlots(dir, at, name, n, checksum) && 1 <= i <= Min(n, 5) && at + SLOT * n <= |dir|
    ensures SlotsBack(dir, SlotAt(at, n, i)) == if n <= 5 then n - i + 1 else 5 - i
    decreases n - i
  {
    hide Spells;
    assert IsSlot(dir, SlotAt(at, n, i), name, n, i, checksum);
    if i < Min(n, 5) {
      BackFrom(dir, at, name, n, checksum, i + 1);
    }
  }

  /** What comes back of a name without zero bytes: all of it up to 65 characters, else the first 52,
      because the id of the fifth slot reads as an empty entry. `cursor` is behind the name's short
      entry. */
  lemma RoundTrip(dir: seq<byte>, at: nat, name: seq<byte>, checksum: byte)
    requires NulFree(name) && |name| > 0 && AreSlots(dir, at, name, Slots(|name|), checksum)
    requires at + SLOT * Slots(|name|) <= |dir|
    ensures var cursor := at + SLOT * Slots(|name|) - SLOT;
            NameBack(dir, cursor, SlotsBack(dir, cursor)) == if |name| <= 65 then name else name[..52]
  {
    hide AreSlots, NameBack, SlotsBack, Slots, Part, NulFree;
    var n := Slots(|name|);
    var x := if n <= 5 then n else 4;
    WholeName(name, n, x);
    assert SlotAt(at, n, 1) == at + SLOT * n - SLOT;
    BackFrom(dir, at, name, n, checksum, 1);
    NameSpells(dir, at, name, n, checksum, at + SLOT * n - SLOT, x);
  }

  lemma WholeName(name: seq<byte>, n: nat, x: nat)
    requires |name| > 0 && n == Slots(|name|) && x == if n <= 5 then n else 4
    ensures n > 0 && Part(name, 0, 13 * x) == if |name| <= 65 then name else name[..52]
  {
  }

  /** The first n slots of a buffer are copied into a directory. */
  ghost predicate Copied(slots: seq<byte>, dir: seq<byte>, at: nat, n: nat) {
    && SLOT * n <= |slots| && at + SLOT * n <= |dir|
    && forall b :: 0 <= b < SLOT * n ==> slots[b] == dir[at + b]
  }

  /** Slots built in a buffer are the same slots in the directory they are copied to. */
  lemma SlotsCopied(slots: seq<byte>, dir: seq<byte>, at: nat, name: seq<byte>, n: nat, checksum: byte)
    requires AreSlots(slots, 0, name, n, checksum) && Copied(slots, dir, at, n)
    ensures AreSlots(dir, at, name, n, checksum)
  {
    hide IsSlot, Copied;
    forall i | 1 <= i <= n
      ensures IsSlot(dir, SlotAt(at, n, i), name, n, i, checksum)
    {
      SlotCopied(slots, dir, at, SlotAt(0, n, i), name, n, i, checksum);
    }
  }

  lemma SlotCopied(slots: seq<byte>, dir: seq<byte>, at: nat, from: nat, name: seq<byte>, n: nat, i: nat,
                   checksum: byte)
    requires Copied(slots, dir, at, n) && from + SLOT <= SLOT * n && IsSlot(slots, from, name, n, i, checksum)
    ensures IsSlot(dir, at + from, name, n, i, checksum)
  {
    hide Spells;
    SpellsCopied(slots, dir, at, n, from + 1, name, 13 * (i - 1), 5);
    SpellsCopied(slots, dir, at, n, from + 14, name, 13 * (i - 1) + 5, 6);
    SpellsCopied(slots, dir, at, n, from + 28, name, 13 * (i - 1) + 11, 2);
  }

  lemma SpellsCopied(slots: seq<byte>, dir: seq<byte>, at: nat, n: nat, off: nat, name: seq<byte>, k: nat, m: nat)
    requires Copied(slots, dir, at, n) && Spells(slots, off, name, k, m) && off + 2 * m <= SLOT * n
    ensures Spells(dir, at + off, name, k, m)
  {
    forall j | 0 <= j < m
      ensures dir[at + off + 2 * j] == Padded(name, k + j) && dir[at + off + 2 * j + 1] == 0
    {
      var b := off + 2 * j;
      assert slots[b] == dir[at + b] && slots[b + 1] == dir[at + (b + 1)];
    }
  }

  // ---------------------------------------------------------------- building

  /** ascii_to16. */
  method AsciiTo16(slots: array<byte>, off: nat, name: seq<byte>, k: nat, len: nat)
    requires off + 2 * len <= slots.Length && k + len <= |name|
    modifies slots
    ensures Spells(slots[..], off, name, k, len)
    ensures forall b :: 0 <= b < slots.Length && !(off <= b < off + 2 * len) ==> slots[b] == old(slots[b])
  {
    for i := 0 to len
      invariant forall j :: 0 <= j < i ==> slots[off + 2 * j] == name[k + j] && slots[off + 2 * j + 1] == 0
      invariant forall b :: 0 <= b < slots.Length && !(off <= b < off + 2 * i) ==> slots[b] == old(slots[b])
    {
      slots[off + 2 * i] := name[k + i];
      slots[off + 2 * i + 1] := 0;
    }
  }

  lemma SpellsFrame(dir: seq<byte>, was: seq<byte>, off: nat, name: seq<byte>, k: nat, m: nat, lo: nat, hi: nat)
    requires |dir| == |was| && Spells(was, off, name, k, m) && (off + 2 * m <= lo || hi <= off)
    requires forall b :: 0 <= b < |dir| && !(lo <= b < hi) ==> dir[b] == was[b]
    ensures Spells(dir, off, name, k, m)
  {
    forall j | 0 <= j < m
      ensures dir[off + 2 * j] == Padded(name, k + j) && dir[off + 2 * j + 1] == 0
    {
      assert dir[off + 2 * j] == was[off + 2 * j];
    }
  }

  /** A slot is not disturbed by changes outside its 32 bytes. */
  lemma SlotFrame(dir: seq<byte>, was: seq<byte>, at: nat, name: seq<byte>, n: nat, i: nat, checksum: byte,
                  lo: nat, hi: nat)
    requires |dir| == |was| && IsSlot(was, at, name, n, i, checksum) && (at + SLOT <= lo || hi <= at)
    requires forall b :: 0 <= b < |dir| && !(lo <= b < hi) ==> dir[b] == was[b]
    ensures IsSlot(dir, at, name, n, i, checksum)
  {
    hide Spells;
    SpellsFrame(dir, was, at + 1, name, 13 * (i - 1), 5, lo, hi);
    SpellsFrame(dir, was, at + 14, name, 13 * (i - 1) + 5, 6, lo, hi);
    SpellsFrame(dir, was, at + 28, name, 13 * (i - 1) + 11, 2, lo, hi);
  }

  /** Spelling the zero-filled copy is spelling the name. */
  lemma SpellsPadded(dir: seq<byte>, off: nat, name: seq<byte>, buf: seq<byte>, k: nat, m: nat)
    requires Spells(dir, off, buf, k, m) && forall j :: k <= j < k + m ==> Padded(buf, j) == Padded(name, j)
    ensures Spells(dir, off, name, k, m)
  {
  }

  /** The fields of one slot, in the order they are written. */
  method FillSlot(slots: array<byte>, at: nat, buf: seq<byte>, i: nat, checksum: byte)
    requires at + SLOT <= slots.Length && 0 < i && 13 * i <= |buf|
    modifies slots
    ensures slots[at] == i % 256 && slots[at + 11] == ATTR_EXT && slots[at + 12] == 0 && slots[at + 13] == checksum
    ensures slots[at + 26] == 0 && slots[at + 27] == 0
    ensures Spells(slots[..], at + 1, buf, 13 * (i - 1), 5)
    ensures Spells(slots[..], at + 14, buf, 13 * (i - 1) + 5, 6)
    ensures Spells(slots[..], at + 28, buf, 13 * (i - 1) + 11, 2)
    ensures forall b :: 0 <= b < slots.Length && !(at <= b < at + SLOT) ==> slots[b] == old(slots[b])
  {
    hide Spells;
    slots[at] := i % 256;
    slots[at + 11], slots[at + 12], slots[at + 13] := ATTR_EXT, 0, checksum;
    slots[at + 26], slots[at + 27] := 0, 0;
    var offset := (i - 1) * 13;
    AsciiTo16(slots, at + 1, buf, offset, 5);
    ghost var first := slots[..];
    AsciiTo16(slots, at + 14, buf, offset + 5, 6);
    ghost var second := slots[..];
    SpellsFrame(second, first, at + 1, buf, offset, 5, at + 14, at + 26);
    AsciiTo16(slots, at + 28, buf, offset + 11, 2);
    SpellsFrame(slots[..], second, at + 1, buf, offset, 5, at + 28, at + 32);
    SpellsFrame(slots[..], second, at + 14, buf, offset + 5, 6, at + 28, at + 32);
  }

  /** The long-name part of vfat_build_slots. */
  method BuildSlots(slots: array<byte>, name: seq<byte>, checksum: byte) returns (n: nat)
    requires |name| > 0 && SLOT * Slots(|name|) <= slots.Length
    modifies slots
    ensures n == Slots(|name|) && AreSlots(slots[..], 0, name, n, checksum)
  {
    hide IsSlot, Spells, Zeros, SamePadded;
    n := (|name| + 12) / 13;
    var buf := name + Zeros(n * 13 - |name|);
    PaddedSame(name, Zeros(n * 13 - |name|), buf);
    var i, ps := n, 0;
    while i > 0
      invariant 0 <= i <= n && ps == SLOT * (n - i)
      invariant forall k :: i < k <= n ==> IsSlot(slots[..], SlotAt(0, n, k), name, 0, k, checksum)
    {
      ghost var was := slots[..];
      FillSlot(slots, ps, buf, i, checksum);
      FilledIsSlot(slots[..], ps, name, buf, i, checksum);
      forall k | i < k <= n
        ensures IsSlot(slots[..], SlotAt(0, n, k), name, 0, k, checksum)
      {
        SlotFrame(slots[..], was, SlotAt(0, n, k), name, 0, k, checksum, ps, ps + SLOT);
      }
      i := i - 1;
      ps := ps + SLOT;
    }
    ghost var was := slots[..];
    SlotIdIs(was, SlotAt(0, n, n), name, 0, n, checksum);
    if !HasLast(slots[0]) {
      slots[0] := slots[0] + LAST;
    }
    forall k | 1 <= k <= n
      ensures IsSlot(slots[..], SlotAt(0, n, k), name, n, k, checksum)
    {
      MarkLast(slots[..], was, name, n, k, checksum);
    }
  }

  /** The buffer holds the name and then zeros. */
  ghost predicate SamePadded(name: seq<byte>, buf: seq<byte>) {
    forall j :: 0 <= j < |buf| ==> Padded(buf, j) == Padded(name, j)
  }

  lemma PaddedSame(name: seq<byte>, zeros: seq<byte>, buf: seq<byte>)
    requires buf == name + zeros && forall j :: 0 <= j < |zeros| ==> zeros[j] == 0
    ensures SamePadded(name, buf)
  {
    forall j | 0 <= j < |buf|
      ensures Padded(buf, j) == Padded(name, j)
    {
      assert buf[j] == if j < |name| then name[j] else zeros[j - |name|];
    }
  }

  /** A filled slot, not yet marked. */
  lemma FilledIsSlot(dir: seq<byte>, at: nat, name: seq<byte>, buf: seq<byte>, i: nat, checksum: byte)
    requires at + SLOT <= |dir| && 0 < i && 13 * i <= |buf| && SamePadded(name, buf)
    requires dir[at] == i % 256 && dir[at + 11] == ATTR_EXT && dir[at + 12] == 0 && dir[at + 13] == checksum
    requires dir[at + 26] == 0 && dir[at + 27] == 0
    requires Spells(dir, at + 1, buf, 13 * (i - 1), 5)
    requires Spells(dir, at + 14, buf, 13 * (i - 1) + 5, 6)
    requires Spells(dir, at + 28, buf, 13 * (i - 1) + 11, 2)
    ensures IsSlot(dir, at, name, 0, i, checksum)
  {
    hide Spells;
    SpellsPadded(dir, at + 1, name, buf, 13 * (i - 1), 5);
    SpellsPadded(dir, at + 14, name, buf, 13 * (i - 1) + 5, 6);
    SpellsPadded(dir, at + 28, name, buf, 13 * (i - 1) + 11, 2);
  }

  lemma SlotIdIs(dir: seq<byte>, at: nat, name: seq<byte>, n: nat, i: nat, checksum: byte)
    requires IsSlot(dir, at, name, n, i, checksum)
    ensures at + SLOT <= |dir| && dir[at] == SlotId(n, i)
  {
  }

  lemma MarkLast(dir: seq<byte>, was: seq<byte>, name: seq<byte>, n: nat, k: nat, checksum: byte)
    requires |dir| == |was| > 0 && 1 <= k <= n && IsSlot(was, SlotAt(0, n, k), name, 0, k, checksum)
    requires forall b :: 0 < b < |dir| ==> dir[b] == was[b]
    requires was[0] == n % 256
    requires dir[0] == if HasLast(was[0]) then was[0] else was[0] + LAST
    ensures IsSlot(dir, SlotAt(0, n, k), name, n, k, checksum)
  {
    var at: nat := SlotAt(0, n, k);
    hide Spells;
    if k < n {
      SlotFrame(dir, was, at, name, 0, k, checksum, 0, 1);
    } else {
      SpellsFrame(dir, was, at + 1, name, 13 * (k - 1), 5, 0, 1);
      SpellsFrame(dir, was, at + 14, name, 13 * (k - 1) + 5, 6, 0, 1);
      SpellsFrame(dir, was, at + 28, name, 13 * (k - 1) + 11, 2, 0, 1);
    }
  }

  // ---------------------------------------------------------------- parsing

  /** One of the three loops over the characters of a slot. */
  method AppendUnits(dir: array<byte>, off: nat, m: nat, name: seq<byte>) returns (r: seq<byte>)
    requires off + 2 * m <= dir.Length
    ensures r == name + Units(dir[..], off, m)
  {
    r := name;
    for j := 0 to m
      invariant r == name + Units(dir[..], off, j)
    {
      var unit: int, high: int := dir[off + 2 * j], dir[off + 2 * j + 1];
      unit := unit + 256 * high;
      if unit != 0xffff && unit != 0x0000 {
        r := r + [dir[off + 2 * j]];
      }
    }
  }

  /** The first loop of FAT32_parse_long: how many slots to take. */
  method CountBack(dir: array<byte>, start: nat) returns (i: nat)
    requires start + SLOT <= dir.Length
    ensures i == SlotsBack(dir[..], start)
  {
    var cursor: int := start;
    i := 0;
    while cursor >= 0 && dir[cursor + 11] == ATTR_EXT && !EntryEmpty(dir[cursor])
      invariant cursor <= start && i + SlotsBack(dir[..], cursor) == SlotsBack(dir[..], start)
      decreases cursor + SLOT
    {
      i := i + 1;
      if HasLast(dir[cursor]) {
        return;
      }
      cursor := cursor - SLOT;
    }
  }

  /** FAT32_parse_long, for an entry whose short part ends at `end`. */
  method ParseLong(dir: array<byte>, end: nat) returns (name: seq<byte>)
    requires 2 * SLOT <= end <= dir.Length + SLOT
    ensures var cursor := end - 2 * SLOT;
            name == NameBack(dir[..], cursor, SlotsBack(dir[..], cursor))
  {
    hide SlotsBack, Units;
    var start: nat := end - 2 * SLOT;
    var i := CountBack(dir, start);
    var cursor: int := start;
    name := [];
    for x := 0 to i
      invariant cursor == start - SLOT * x
      invariant name == NameBack(dir[..], start, x)
    {
      ghost var before := name;
      name := AppendUnits(dir, cursor + 1, 5, name);
      name := AppendUnits(dir, cursor + 14, 6, name);
      name := AppendUnits(dir, cursor + 28, 2, name);
      assert name == before + SlotChars(dir[..], cursor);
      cursor := cursor - SLOT;
    }
  }
}
