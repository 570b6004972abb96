/** Clocksource scaling: the fixed-point factors of time/clocksource.c. A counter value c stands for
    (c * mult) >> shift nanoseconds; all the arithmetic is on 32- and 64-bit words. */
module Clocksources {
  import opened Arith
  import opened Common

  const NSEC_PER_SEC := 1_000_000_000

  function Pow2(n: nat): (p: nat)
    ensures p >= 1
  {
    if n == 0 then 1 else 2 * Pow2(n - 1)
  }

  /** The length of n in binary. */
  function Bits(n: nat): (b: nat)
    ensures n < Pow2(b) && (n > 0 ==> b > 0 && Pow2(b - 1) <= n)
  {
    if n == 0 then 0 else 1 + Bits(n / 2)
  }

  lemma {:induction false} Pow2Add(a: nat, b: nat)
    ensures Pow2(a + b) == Pow2(a) * Pow2(b)
  {
    if a > 0 {
      Pow2Add(a - 1, b);
      Pow2Next(a - 1);
      Pow2Next(a - 1 + b);
      Assoc(2, Pow2(a - 1), Pow2(b));
    }
  }

  lemma Pow2Next(n: nat)
    ensures Pow2(n + 1) == 2 * Pow2(n)
  {
  }

  lemma {:induction false} Pow2Less(a: nat, b: nat)
    requires Pow2(a) < Pow2(b)
    ensures a < b
    decreases a
  {
    if a > 0 && b > 0 {
      Pow2Less(a - 1, b - 1);
    }
  }

  lemma WordSizes()
    ensures Pow2(30) == 0x4000_0000 && Pow2(32) == TWO32 && Pow2(64) == U64
  {
    assert Pow2(8) == 0x100 && Pow2(6) == 0x40;
    Pow2Add(8, 8);
    Pow2Add(6, 8);
    Pow2Add(14, 16);
    Pow2Add(16, 16);
    Pow2Add(32, 32);
  }

  /** A product of lower and upper bounds. */
  lemma MulLe(a: nat, b: nat, c: nat, d: nat)
    requires a <= c && b <= d
    ensures a * b <= c * d
  {
    assert c * d - a * b == c * (d - b) + (c - a) * b;
  }

  lemma FloorDiv(x: nat, d: nat)
    requires d > 0
    ensures d * (x / d) <= x < d * (x / d) + d
  {
  }

  // ---------------------------------------------------------------- the search for mult and shift

  /** to * 2^s / from, rounded to nearest. */
  function Rounded(from: nat, to: nat, s: nat): nat
    requires from > 0
  {
    (to * Pow2(s) + from / 2) / from
  }

  /** How many bits a factor may have if n is the largest counter value it will meet. */
  function Room(n: nat): nat
    requires n < U64
  {
    RoomBits(n);
    32 - Bits(n / TWO32)
  }

  lemma RoomBits(n: nat)
    requires n < U64
    ensures Bits(n / TWO32) <= 32
  {
    WordSizes();
    if n / TWO32 > 0 {
      Pow2Less(Bits(n / TWO32) - 1, 32);
    }
  }

  /** The overflow test at shift s. */
  ghost predicate Fits(from: nat, to: nat, maxsec: nat, s: nat)
    requires 0 < from && maxsec * from < U64
  {
    Rounded(from, to, s) < Pow2(Room(maxsec * from))
  }

  /** s is the largest shift up to 32 that passes the overflow test. */
  ghost predicate Best(from: nat, to: nat, maxsec: nat, s: nat)
    requires 0 < from && maxsec * from < U64
  {
    1 <= s <= 32 && Fits(from, to, maxsec, s) && forall t :: s < t <= 32 ==> !Fits(from, to, maxsec, t)
  }

  lemma RoundedAt(from: nat, to: nat, s: nat)
    requires from > 0
    ensures var q := Rounded(from, to, s);
            from * q <= to * Pow2(s) + from / 2 < from * q + from
  {
    FloorDiv(to * Pow2(s) + from / 2, from);
  }

  /** mult / 2^s is to / from, up to `slack` / (from * 2^s). */
  ghost predicate Close(mult: nat, from: nat, to: nat, s: nat, slack: nat) {
    mult * from <= to * Pow2(s) + slack && to * Pow2(s) <= mult * from + slack
  }

  /** The factors stand for the ratio to : from as closely as the shift allows. */
  lemma Accuracy(from: nat, to: nat, s: nat)
    requires from > 0
    ensures Close(Rounded(from, to, s), from, to, s, from / 2)
  {
    hide Rounded, Pow2;
    RoundedAt(from, to, s);
  }

  lemma {:induction false} FitsBelow(from: nat, to: nat, maxsec: nat, s: nat, t: nat)
    requires 0 < from && maxsec * from < U64 && s <= t && Fits(from, to, maxsec, t)
    ensures Fits(from, to, maxsec, s)
  {
    if s < t {
      RoundedGrows(from, to, s);
      RoundedMonotone(from, to, s, t);
    }
  }

  lemma RoundedGrows(from: nat, to: nat, s: nat)
    requires from > 0
    ensures Rounded(from, to, s) <= Rounded(from, to, s + 1)
  {
    var q: int, r: int := Rounded(from, to, s), Rounded(from, to, s + 1);
    hide Rounded, Pow2;
    RoundedAt(from, to, s);
    RoundedAt(from, to, s + 1);
    Doubled(to, s);
    MulSign(from, q - r);
    assert from * (q - r) == from * q - from * r;
  }

  lemma Doubled(to: nat, s: nat)
    ensures to * Pow2(s + 1) == 2 * (to * Pow2(s)) && to * Pow2(s) <= to * Pow2(s + 1)
  {
    assert Pow2(s + 1) == 2 * Pow2(s);
  }

  lemma {:induction false} RoundedMonotone(from: nat, to: nat, s: nat, t: nat)
    requires from > 0 && s <= t
    ensures Rounded(from, to, s) <= Rounded(from, to, t)
    decreases t - s
  {
    hide Rounded;
    if s < t {
      RoundedGrows(from, to, s);
      RoundedMonotone(from, to, s + 1, t);
    }
  }

  /** The largest counter value and the room left for the factor make up 64 bits. */
  lemma RoomIs(n: nat)
    requires n < U64
    ensures Room(n) <= 32 && n < Pow2(64 - Room(n))
  {
    var b := Bits(n / TWO32);
    RoomBits(n);
    assert n / TWO32 < Pow2(b);
    hide Bits, Pow2;
    WordSizes();
    FloorDiv(n, TWO32);
    MulLe(TWO32, n / TWO32 + 1, TWO32, Pow2(b));
    Pow2Add(32, b);
  }

  lemma Below(c: nat, m: nat, p: nat, q: nat)
    requires c < p && m < q
    ensures c * m < p * q
  {
    MulLe(c, m, c, q);
    assert c * q < p * q;
  }

  /** No conversion inside the promised range overflows 64 bits. */
  lemma NoOverflow(from: nat, to: nat, maxsec: nat, s: nat, c: nat)
    requires 0 < from && maxsec * from < U64 && Fits(from, to, maxsec, s) && c <= maxsec * from
    ensures c * Rounded(from, to, s) < U64
  {
    var room := Room(maxsec * from);
    hide Rounded, Room, Pow2;
    RoomIs(maxsec * from);
    Below(c, Rounded(from, to, s), Pow2(64 - room), Pow2(room));
    Pow2Add(64 - room, room);
    WordSizes();
  }

  /** The first loop: one bit less of room for each bit of n above 32. */
  method FindRoom(n: nat) returns (sftacc: nat)
    requires n < U64
    ensures sftacc == Room(n)
  {
    RoomBits(n);
    var tmp: nat := n / TWO32;
    sftacc := 32;
    while tmp != 0
      invariant Bits(tmp) + 32 - sftacc == Bits(n / TWO32)
      decreases tmp
    {
      tmp := tmp / 2;
      sftacc := sftacc - 1;
    }
  }

  lemma ShiftedIsWord(from: nat, to: nat, s: nat)
    requires from < TWO32 && to < TWO32 && s <= 32
    ensures to * Pow2(s) + from / 2 < U64
  {
    WordSizes();
    Pow2Add(s, 32 - s);
    var p, q: nat := Pow2(s), Pow2(32 - s);
    hide Pow2;
    MulLe(p, 1, p, q);
    MulLe(to, p, TWO32 - 1, TWO32);
  }

  /** One round of the second loop. */
  method TryShift(from: nat, to: nat, sftacc: nat, shift: nat) returns (tmp: nat, fits: bool)
    requires 0 < from < TWO32 && to < TWO32 && shift <= 32
    ensures tmp == Rounded(from, to, shift) && fits == (tmp < Pow2(sftacc))
  {
    hide Pow2, Rounded;
    tmp := RoundedFactor(from, to, shift);
    fits := tmp / Pow2(sftacc) == 0;
    QuotientZero(tmp, Pow2(sftacc));
  }

  /** Its division; the dividend is a 64-bit word. */
  method RoundedFactor(from: nat, to: nat, shift: nat) returns (tmp: nat)
    requires 0 < from < TWO32 && to < TWO32 && shift <= 32
    ensures tmp == Rounded(from, to, shift)
  {
    hide Pow2;
    tmp := to * Pow2(shift);
    tmp := tmp + from / 2;
    assert tmp < U64 by { ShiftedIsWord(from, to, shift); }
    tmp := tmp / from;
  }

  /** clocks_calc_mult_shift. */
  method CalcMultShift(from: nat, to: nat, maxsec: nat) returns (mult: nat, shift: nat)
    requires 0 < from < TWO32 && to < TWO32 && maxsec < TWO32
    ensures maxsec * from < U64 && mult < TWO32
    ensures shift >= 1 ==> Best(from, to, maxsec, shift) && mult == Rounded(from, to, shift)
    ensures shift == 0 ==> !Fits(from, to, maxsec, 1) && mult == Rounded(from, to, 1) % TWO32
  {
    hide Room, Bits, Pow2, Rounded;
    MulLe(maxsec, from, TWO32 - 1, TWO32 - 1);
    var sftacc := FindRoom(maxsec * from);
    RoomIs(maxsec * from);
    RoomIsWord(sftacc);
    var tmp: nat, fits := 0, false;
    shift := 32;
    while shift > 0
      invariant 0 <= shift <= 32
      invariant forall t :: shift < t <= 32 ==> !Fits(from, to, maxsec, t)
      invariant shift < 32 ==> tmp == Rounded(from, to, shift + 1)
    {
      tmp, fits := TryShift(from, to, sftacc, shift);
      if fits {
        break;
      }
      shift := shift - 1;
    }
    mult := tmp % TWO32;
  }

  lemma QuotientZero(x: nat, d: nat)
    requires d > 0
    ensures x / d == 0 <==> x < d
  {
  }

  lemma RoomIsWord(room: nat)
    requires room <= 32
    ensures Pow2(room) <= TWO32
  {
    WordSizes();
    Pow2Add(room, 32 - room);
    MulLe(Pow2(room), 1, Pow2(room), Pow2(32 - room));
  }

  /** A usable shift is found exactly when the test passes at shift 1. */
  lemma ShiftFound(from: nat, to: nat, maxsec: nat)
    requires 0 < from && maxsec * from < U64
    ensures (exists s :: Best(from, to, maxsec, s)) <==> Fits(from, to, maxsec, 1)
  {
    if Fits(from, to, maxsec, 1) {
      var s := 32;
      while s > 1 && !Fits(from, to, maxsec, s)
        invariant 1 <= s <= 32
        invariant forall t :: s < t <= 32 ==> !Fits(from, to, maxsec, t)
      {
        s := s - 1;
      }
      assert Best(from, to, maxsec, s);
    } else if s :| Best(from, to, maxsec, s) {
      FitsBelow(from, to, maxsec, 1, s);
    }
  }

  /** When no shift passes, the factor of shift 1 is returned with shift 0: here it is 0, so every
      counter value converts to 0. */
  lemma NoShiftPasses()
    ensures !Fits(1, 0x8000_0000, 1, 1) && Rounded(1, 0x8000_0000, 1) % TWO32 == 0
  {
    assert Bits(0) == 0;
    WordSizes();
    assert Pow2(1) == 2;
    assert Rounded(1, 0x8000_0000, 1) == TWO32;
  }

  // ---------------------------------------------------------------- adjusting and the safe range

  /** At most 11% of the factor. */
  function MaxAdjustment(mult: nat): (r: nat)
    ensures r <= mult
  {
    mult * 11 / 100
  }

  /** x >> shift. */
  function Shifted(x: nat, shift: nat): nat {
    if shift == 0 then x else Shifted(x / 2, shift - 1)
  }

  lemma {:induction false} ShiftedMonotone(x: nat, y: nat, shift: nat)
    requires x <= y
    ensures Shifted(x, shift) <= Shifted(y, shift)
  {
    if shift > 0 {
      ShiftedMonotone(x / 2, y / 2, shift - 1);
    }
  }

  lemma {:induction false} ShiftedIs(x: nat, shift: nat)
    ensures Shifted(x, shift) == x / Pow2(shift)
  {
    if shift > 0 {
      ShiftedIs(x / 2, shift - 1);
      HalfThen(x, Pow2(shift - 1));
      Pow2Next(shift - 1);
    }
  }

  lemma HalfThen(x: nat, p: nat)
    requires p > 0
    ensures x / 2 / p == x / (2 * p)
  {
    var q, r := x / 2 / p, x / 2 % p;
    assert x / 2 == p * q + r;
    assert p * q * 2 == 2 * p * q;
    DivIs(x, 2 * p, q, 2 * r + x % 2);
  }

  /** The extreme factors an adjustment can reach are safe. */
  ghost predicate Safe(mult: nat, maxadj: nat, shift: nat, cycles: nat, idle: nat) {
    && maxadj <= mult && cycles * (mult + maxadj) < U64
    && 2 * idle <= Shifted(cycles * (mult - maxadj), shift)
  }

  /** Then so is every factor between: no conversion of up to `cycles` overflows, and the idle time
      is at most half of what the factor makes of those cycles. */
  lemma SafeConversions(mult: nat, maxadj: nat, shift: nat, cycles: nat, idle: nat, c: nat, m: nat)
    requires Safe(mult, maxadj, shift, cycles, idle)
    requires c <= cycles && mult - maxadj <= m <= mult + maxadj
    ensures c * m < U64 && 2 * idle <= Shifted(cycles * m, shift)
  {
    hide Shifted;
    MulLe(c, m, cycles, mult + maxadj);
    MulLe(cycles, mult - maxadj, cycles, m);
    ShiftedMonotone(cycles * (mult - maxadj), cycles * m, shift);
  }

  /** One more cycle could overflow. */
  ghost predicate Maximal(cycles: nat, factor: nat) {
    U64 <= (cycles + 1) * factor
  }

  /** clocksource_cyc2ns: the product is a 64-bit word. */
  function CyclesToNs(cycles: nat, mult: nat, shift: nat): nat {
    Shifted(cycles * mult % U64, shift)
  }

  /** The most cycles that the largest factor converts in 64 bits, as far as the counter goes, and half
      of what the smallest factor makes of them. The sum of factor and adjustment is a 32-bit word. */
  ghost predicate Deferred(mult: nat, maxadj: nat, shift: nat, mask: nat, cycles: nat, idle: nat)
    requires maxadj <= mult
  {
    var largest := (mult + maxadj) % TWO32;
    && cycles <= mask && cycles * largest < U64 && (cycles < mask ==> Maximal(cycles, largest))
    && 2 * idle <= cycles * (mult - maxadj) % U64 / Pow2(shift) <= 2 * idle + 1
  }

  /** Without a wrap this is safe, and nothing larger is. */
  lemma DeferredIsBest(mult: nat, maxadj: nat, shift: nat, mask: nat, cycles: nat, idle: nat)
    requires maxadj <= mult && mult + maxadj < TWO32 && Deferred(mult, maxadj, shift, mask, cycles, idle)
    ensures Safe(mult, maxadj, shift, cycles, idle)
    ensures cycles < mask ==> Maximal(cycles, mult + maxadj)
    ensures cycles * (mult - maxadj) / Pow2(shift) <= 2 * idle + 1
  {
    hide Shifted, Pow2, Maximal;
    WordStays(mult + maxadj, TWO32);
    MulLe(cycles, mult - maxadj, cycles, mult + maxadj);
    WordStays(cycles * (mult - maxadj), U64);
    ShiftedIs(cycles * (mult - maxadj), shift);
  }

  lemma WordStays(x: nat, w: nat)
    requires x < w
    ensures x % w == x
  {
    DivIs(x, w, 0, x);
  }

  /** clocks_calc_max_nsecs. A 32-bit sum of zero divides by zero. */
  method CalcMaxNsecs(mult: nat, shift: nat, maxadj: nat, mask: nat) returns (idle: nat, cycles: nat)
    requires maxadj <= mult < TWO32 && shift < 64 && mask < U64
    requires (mult + maxadj) % TWO32 != 0
    ensures Deferred(mult, maxadj, shift, mask, cycles, idle)
    ensures mult + maxadj < TWO32 ==> Safe(mult, maxadj, shift, cycles, idle)
    ensures mult + maxadj < TWO32 && cycles < mask ==> Maximal(cycles, mult + maxadj)
  {
    hide Safe, Maximal, Shifted, Pow2;
    var divisor: nat := (mult + maxadj) % TWO32;
    cycles := (U64 - 1) / divisor;
    ghost var most := cycles;
    if cycles > mask {
      cycles := mask;
    }
    idle := CyclesToNs(cycles, mult - maxadj, shift);
    idle := idle / 2;
    MostCycles(divisor, most);
    MulLe(cycles, divisor, most, divisor);
    ShiftedIs(cycles * (mult - maxadj) % U64, shift);
    if mult + maxadj < TWO32 {
      DeferredIsBest(mult, maxadj, shift, mask, cycles, idle);
    }
  }

  lemma MostCycles(divisor: nat, most: nat)
    requires divisor > 0 && most == (U64 - 1) / divisor
    ensures most * divisor < U64 && Maximal(most, divisor)
  {
    FloorDiv(U64 - 1, divisor);
    MulNext(most, divisor);
  }

  // ---------------------------------------------------------------- a new frequency

  /** The seconds the conversion must cover: until the counter wraps, ten minutes for a wide one. */
  function RangeSeconds(mask: nat, freq: nat, scale: nat): nat
    requires freq > 0 && scale > 0
  {
    var sec := mask / freq / scale;
    if sec == 0 then 1 else if sec > 600 && mask > TWO32 - 1 then 600 else sec
  }

  /** It is the whole seconds until the counter wraps, at least one, and for a counter of more than 32
      bits at most 600. */
  lemma RangeIs(mask: nat, freq: nat, scale: nat)
    requires freq > 0 && scale > 0
    ensures var n, rate := RangeSeconds(mask, freq, scale), freq * scale;
            && 1 <= n && (n == 1 || n * rate <= mask) && (mask >= TWO32 ==> n <= 600)
            && (mask < (n + 1) * rate || (n == 600 && mask >= TWO32))
  {
    var rate, whole := freq * scale, mask / freq / scale;
    FloorDiv(mask, freq);
    FloorDiv(mask / freq, scale);
    WholeRate(mask, freq, scale);
    if RangeSeconds(mask, freq, scale) == 600 < whole { MulLe(600, rate, whole, rate); }
    if whole == 0 { MulLe(1, rate, 2, rate); }
  }

  lemma WholeRate(mask: nat, freq: nat, scale: nat)
    requires freq > 0 && scale > 0
    ensures var q := mask / freq / scale; q * (freq * scale) <= mask < (q + 1) * (freq * scale)
  {
    var a := mask / freq;
    WholeParts(mask, freq, scale, a, mask % freq, a / scale, a % scale);
  }

  lemma WholeParts(mask: nat, freq: nat, scale: nat, a: nat, m: nat, q: nat, r: nat)
    requires mask == freq * a + m && m < freq && a == scale * q + r && r < scale
    ensures q * (freq * scale) <= mask < (q + 1) * (freq * scale)
  {
    Product(freq, scale, q, r);
    MulLe(freq, r + 1, freq, scale);
    MulNext(q, freq * scale);
  }

  lemma Product(f: nat, s: nat, q: nat, r: nat)
    ensures f * (s * q + r) == q * (f * s) + f * r
  {
  }

  lemma RangeBound(mask: nat, freq: nat, scale: nat)
    requires 0 < freq < TWO32 && 1 <= scale <= 1_000_000 && mask < U64
    ensures var n := RangeSeconds(mask, freq, scale) * scale;
            1 <= n < TWO32 && (n <= 600 * scale || n * freq < TWO32)
  {
    var sec := RangeSeconds(mask, freq, scale);
    var whole := mask / freq / scale;
    FloorDiv(mask, freq);
    FloorDiv(mask / freq, scale);
    if sec <= 600 {
      MulLe(sec, scale, 600, scale);
      MulLe(1, scale, sec, scale);
    } else {
      assert sec == whole && mask < TWO32;
      MulLe(whole * scale, freq, mask / freq, freq);
      MulLe(whole * scale, 1, whole * scale, freq);
      MulLe(1, 1, whole, scale);
    }
  }

  /** For every frequency and every scale up to a million some shift passes, and leaves room for a
      factor of at least two bits. */
  lemma AlwaysFits(mask: nat, freq: nat, scale: nat)
    requires 0 < freq < TWO32 && 1 <= scale <= 1_000_000 && mask < U64
    ensures var n := RangeSeconds(mask, freq, scale) * scale;
            n * freq < U64 && Room(n * freq) >= 2 && Fits(freq, NSEC_PER_SEC / scale, n, 1)
  {
    hide RangeSeconds, Room, Rounded, Pow2, Bits, Fits;
    var n := RangeSeconds(mask, freq, scale) * scale;
    RangeBound(mask, freq, scale);
    ScaledRate(scale);
    ProductIsWord(n, freq);
    if n * freq < TWO32 {
      SmallFits(freq, NSEC_PER_SEC / scale, n);
    } else {
      LargeFits(freq, NSEC_PER_SEC / scale, n, scale);
    }
  }

  lemma ScaledRate(scale: nat)
    requires scale >= 1
    ensures NSEC_PER_SEC / scale <= NSEC_PER_SEC && scale * (NSEC_PER_SEC / scale) <= NSEC_PER_SEC
  {
    FloorDiv(NSEC_PER_SEC, scale);
    MulLe(1, NSEC_PER_SEC / scale, scale, NSEC_PER_SEC / scale);
  }

  lemma ProductIsWord(n: nat, m: nat)
    requires n < TWO32 && m < TWO32
    ensures n * m < U64
  {
    MulLe(n, m, TWO32 - 1, TWO32 - 1);
  }

  lemma SmallFits(freq: nat, to: nat, n: nat)
    requires 0 < freq && n * freq < TWO32 && to <= NSEC_PER_SEC
    ensures Room(n * freq) >= 2 && Fits(freq, to, n, 1)
  {
    hide Room, Rounded, Pow2;
    RoomOfWord(n * freq);
    RoundedSmall(freq, to, 32);
  }

  lemma LargeFits(freq: nat, to: nat, n: nat, scale: nat)
    requires 0 < freq < TWO32 && 1 <= n <= 600 * scale <= 600_000_000 && scale * to <= NSEC_PER_SEC
    requires TWO32 <= n * freq < U64
    ensures Room(n * freq) >= 2 && Fits(freq, to, n, 1)
  {
    hide Room, Rounded, Pow2, Fits;
    SixHundred(n, scale, to);
    MulLe(n, freq, 600_000_000, TWO32 - 1);
    MulLe(n, freq / 2, 600_000_000, TWO32 / 2);
    RoomTight(n * freq);
    RoomAtLeastTwo(n * freq);
    FitsFromBound(freq, to, n);
  }

  lemma SixHundred(n: nat, scale: nat, to: nat)
    requires n <= 600 * scale
    ensures n * to <= 600 * (scale * to)
  {
    MulLe(n, to, 600 * scale, to);
    assert 600 * scale * to == 600 * (scale * to);
  }

  lemma RoomOfWord(n: nat)
    requires n < TWO32
    ensures Room(n) == 32
  {
  }

  lemma RoundedSmall(from: nat, to: nat, room: nat)
    requires from > 0 && to <= NSEC_PER_SEC && room == 32
    ensures Rounded(from, to, 1) < Pow2(room)
  {
    assert Pow2(1) == 2;
    hide Rounded, Pow2;
    WordSizes();
    RoundedAt(from, to, 1);
    LessByFactor(from, Rounded(from, to, 1), TWO32);
  }

  /** The room is no smaller than the bits of n above 32 demand. */
  lemma RoomTight(n: nat)
    requires TWO32 <= n < U64
    ensures 2 * (n * Pow2(Room(n))) >= U64
  {
    var b := Bits(n / TWO32);
    RoomBits(n);
    assert Pow2(b - 1) <= n / TWO32;
    assert Pow2(b) == 2 * Pow2(b - 1);
    var room: nat := 32 - b;
    assert Room(n) == room;
    hide Bits, Pow2, Room;
    WordSizes();
    FloorDiv(n, TWO32);
    Pow2Add(32, b);
    Pow2Add(32 + b, room);
    assert Pow2(32 + b) <= 2 * n;
    MulLe(Pow2(32 + b), Pow2(room), 2 * n, Pow2(room));
    Assoc(2, n, Pow2(room));
  }

  lemma Assoc(a: nat, b: nat, c: nat)
    ensures a * b * c == a * (b * c)
  {
  }

  lemma LessByFactor(k: nat, x: nat, y: nat)
    requires k * x < k * y
    ensures x < y
  {
    if x >= y {
      MulLe(k, y, k, x);
    }
  }

  lemma RoomAtLeastTwo(n: nat)
    requires n <= 600_000_000 * (TWO32 - 1)
    ensures Room(n) >= 2
  {
    WordSizes();
    RoomBits(n);
    if n / TWO32 > 0 {
      Pow2Less(Bits(n / TWO32) - 1, 30);
    }
  }

  lemma FitsFromBound(from: nat, to: nat, maxsec: nat)
    requires 0 < from && 0 < maxsec && maxsec * from < U64
    requires 2 * (maxsec * from * Pow2(Room(maxsec * from))) >= U64
    requires 2 * (maxsec * to) + maxsec * (from / 2) < U64 / 2
    ensures Fits(from, to, maxsec, 1)
  {
    var p, q := Pow2(Room(maxsec * from)), Rounded(from, to, 1);
    var x: nat := 2 * to + from / 2;
    RoundedAt(from, to, 1);
    assert Pow2(1) == 2;
    hide Room, Rounded, Pow2;
    Spread(maxsec, to, from / 2);
    Assoc(maxsec, from, p);
    LessByFactor(maxsec, x, from * p);
    LessByFactor(from, q, p);
  }

  lemma Spread(k: nat, x: nat, y: nat)
    ensures k * (2 * x + y) == 2 * (k * x) + k * y
  {
  }

  /** The best shift has a factor that is not zero. */
  lemma BestIsPositive(from: nat, to: nat, maxsec: nat, s: nat)
    requires 0 < from < TWO32 && 1000 <= to && maxsec * from < U64
    requires Room(maxsec * from) >= 2 && Best(from, to, maxsec, s)
    ensures Rounded(from, to, s) > 0
  {
    RoundedAt(from, to, s);
    if s == 32 {
      WordSizes();
      MulLe(1000, TWO32, to, TWO32);
    } else {
      assert !Fits(from, to, maxsec, s + 1);
      RoomAtLeast(Room(maxsec * from));
      RoundedAt(from, to, s + 1);
      Doubled(to, s);
      MulLe(from, 4, from, Rounded(from, to, s + 1));
    }
  }

  lemma RoomAtLeast(room: nat)
    requires room >= 2
    ensures Pow2(room) >= 4
  {
    assert Pow2(room) == 2 * Pow2(room - 1) == 4 * Pow2(room - 2);
  }

  /** Halving the factor and the shift together loses less than one unit of the ratio. */
  lemma HalvedAccuracy(from: nat, to: nat, s: nat)
    requires from > 0 && s >= 1
    ensures Close(Rounded(from, to, s) / 2, from, to, s - 1, from)
  {
    var q := Rounded(from, to, s);
    Accuracy(from, to, s);
    Doubled(to, s - 1);
    hide Rounded, Pow2;
    FloorDiv(q, 2);
    assert q * from == 2 * (q / 2 * from) + q % 2 * from;
    MulLe(q % 2, from, 1, from);
  }

  /** The factors a frequency gets: those of the best shift, halved once if adding the adjustment
      to them would wrap. */
  ghost predicate Scaled(mask: nat, scale: nat, freq: nat, mult: nat, shift: nat)
    requires 0 < freq && 0 < scale
  {
    var n, to := RangeSeconds(mask, freq, scale) * scale, NSEC_PER_SEC / scale;
    n * freq < U64 && exists s :: Best(freq, to, n, s) && Halved(Rounded(freq, to, s), s, mult, shift)
  }

  ghost predicate Halved(m: nat, s: nat, mult: nat, shift: nat) {
    if m + MaxAdjustment(m) < TWO32 then mult == m && shift == s else mult == m / 2 && shift == s - 1
  }

  /** The counter values of the promised range. */
  function RangeCycles(mask: nat, freq: nat, scale: nat): nat
    requires 0 < freq && 0 < scale
  {
    RangeSeconds(mask, freq, scale) * scale * freq
  }

  /** Halved or not, the factors stand for nanoseconds per cycle, and convert every counter value of
      the promised range without overflow. */
  lemma ScaledConverts(mask: nat, scale: nat, freq: nat, mult: nat, shift: nat, c: nat)
    requires 0 < freq && 0 < scale && Scaled(mask, scale, freq, mult, shift)
    requires c <= RangeCycles(mask, freq, scale)
    ensures Close(mult, freq, NSEC_PER_SEC / scale, shift, freq)
    ensures c * mult < U64
  {
    var n, to := RangeSeconds(mask, freq, scale) * scale, NSEC_PER_SEC / scale;
    var s :| Best(freq, to, n, s) && Halved(Rounded(freq, to, s), s, mult, shift);
    hide Rounded, Pow2, Fits, RangeSeconds;
    Accuracy(freq, to, s);
    HalvedAccuracy(freq, to, s);
    NoOverflow(freq, to, n, s, c);
    MulLe(c, mult, c, Rounded(freq, to, s));
  }

  class Clocksource {
    const mask: nat
    var mult: nat
    var shift: nat
    var maxadj: nat
    var maxCycles: nat
    var maxIdleNs: nat

    constructor (mask: nat, mult: nat, shift: nat)
      ensures this.mask == mask && this.mult == mult && this.shift == shift
    {
      this.mask, this.mult, this.shift := mask, mult, shift;
      maxadj, maxCycles, maxIdleNs := 0, 0, 0;
    }

    /** The loop that makes room for the adjustment; the sums are 32-bit. */
    method Adjust()
      requires 0 < mult < TWO32 && 1 <= shift <= 32
      modifies this`mult, this`shift, this`maxadj
      ensures maxadj == MaxAdjustment(mult) && 0 < mult && mult + maxadj < TWO32
      ensures if old(mult) + MaxAdjustment(old(mult)) < TWO32 then mult == old(mult) && shift == old(shift)
              else mult == old(mult) / 2 && shift == old(shift) - 1
    {
      maxadj := MaxAdjustment(mult);
      while (mult + maxadj) % TWO32 < mult || mult - maxadj > mult
        invariant maxadj == MaxAdjustment(mult) && 0 < mult < TWO32
        invariant || (mult == old(mult) && shift == old(shift))
                  || (old(mult) + MaxAdjustment(old(mult)) >= TWO32 && mult == old(mult) / 2 && shift == old(shift) - 1)
        decreases mult
      {
        mult := mult / 2;
        shift := shift - 1;
        maxadj := MaxAdjustment(mult);
      }
    }

    /** __clocksource_update_freq_scale. */
    method UpdateFreqScale(scale: nat, freq: nat)
      requires freq < TWO32 && mask < U64
      requires freq > 0 ==> 1 <= scale <= 1_000_000
      requires freq == 0 ==> mult < TWO32 && shift < 64 && (mult + MaxAdjustment(mult)) % TWO32 != 0
      modifies this
      ensures maxadj == MaxAdjustment(mult) && 100 * maxadj <= 11 * mult < 100 * (maxadj + 1)
      ensures maxadj <= mult && Deferred(mult, maxadj, shift, mask, maxCycles, maxIdleNs)
      ensures mult + maxadj < TWO32 ==>
                && Safe(mult, maxadj, shift, maxCycles, maxIdleNs)
                && (maxCycles < mask ==> U64 <= (maxCycles + 1) * (mult + maxadj))
                && maxCycles * (mult - maxadj) / Pow2(shift) <= 2 * maxIdleNs + 1
      ensures freq == 0 ==> mult == old(mult) && shift == old(shift)
      ensures freq > 0 ==> 0 < mult && mult + maxadj < TWO32 && Scaled(mask, scale, freq, mult, shift)
    {
      hide Safe, Scaled, Deferred, Pow2;
      if freq != 0 {
        SetFactors(scale, freq);
        assert mult + maxadj < TWO32;
      } else {
        maxadj := MaxAdjustment(mult);
      }
      maxIdleNs, maxCycles := CalcMaxNsecs(mult, shift, maxadj, mask);
      if mult + maxadj < TWO32 {
        DeferredIsBest(mult, maxadj, shift, mask, maxCycles, maxIdleNs);
      }
    }

    /** Its first half: the factors of a frequency, with room for the adjustment. */
    method SetFactors(scale: nat, freq: nat)
      requires 0 < freq < TWO32 && mask < U64 && 1 <= scale <= 1_000_000
      modifies this`mult, this`shift, this`maxadj
      ensures maxadj == MaxAdjustment(mult) && 0 < mult && mult + maxadj < TWO32 && shift <= 32
      ensures Scaled(mask, scale, freq, mult, shift)
    {
      hide Pow2, Rounded, Room, Fits, RangeSeconds, MaxAdjustment, Scaled, Halved;
      var sec := PickRange(mask, freq, scale);
      var to := NSEC_PER_SEC / scale;
      ghost var n := sec * scale;
      AlwaysFits(mask, freq, scale);
      RangeBound(mask, freq, scale);
      Quotient(scale);
      mult, shift := CalcMultShift(freq, to, sec * scale % TWO32);
      ghost var s := shift;
      BestIsPositive(freq, to, n, s);
      Adjust();
      HalvedIs(Rounded(freq, to, s), s, mult, shift);
      ScaledIs(mask, scale, freq, mult, shift, s);
    }
  }

  method PickRange(mask: nat, freq: nat, scale: nat) returns (sec: nat)
    requires 0 < freq && 0 < scale
    ensures sec == RangeSeconds(mask, freq, scale)
  {
    sec := mask / freq;
    sec := sec / scale;
    if sec == 0 {
      sec := 1;
    } else if sec > 600 && mask > TWO32 - 1 {
      sec := 600;
    }
  }

  lemma HalvedIs(m: nat, s: nat, mult: nat, shift: nat)
    requires if m + MaxAdjustment(m) < TWO32 then mult == m && shift == s else mult == m / 2 && shift == s - 1
    ensures Halved(m, s, mult, shift)
  {
  }

  lemma ScaledIs(mask: nat, scale: nat, freq: nat, mult: nat, shift: nat, s: nat)
    requires 0 < freq && 0 < scale && RangeSeconds(mask, freq, scale) * scale * freq < U64
    requires Best(freq, NSEC_PER_SEC / scale, RangeSeconds(mask, freq, scale) * scale, s)
    requires Halved(Rounded(freq, NSEC_PER_SEC / scale, s), s, mult, shift)
    ensures Scaled(mask, scale, freq, mult, shift)
  {
    hide Best, Halved, Rounded, RangeSeconds;
  }

  lemma Quotient(scale: nat)
    requires 1 <= scale <= 1_000_000
    ensures 1000 <= NSEC_PER_SEC / scale <= NSEC_PER_SEC
  {
    FloorDiv(NSEC_PER_SEC, scale);
    MulSign(scale, NSEC_PER_SEC / scale - 1000);
  }
}
