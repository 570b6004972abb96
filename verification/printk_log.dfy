/** The kernel log ring of printk/printk.c, against an unbounded history of all characters ever
    logged. */
module PrintkLog {
  import opened Arith
  import opened Common
  import opened PrintkText

  const LOG_BUF_LEN := 0x80_0000

  function U32(x: int): (w: nat)
    ensures w < TWO32
  {
    x % TWO32
  }

  /** Masking a free-running 32-bit index gives the ring slot of the absolute index. */
  lemma SlotOfWrapped(i: nat)
    ensures U32(i) % LOG_BUF_LEN == i % LOG_BUF_LEN
  {
    DivIs(U32(i), LOG_BUF_LEN, i / LOG_BUF_LEN - 512 * (i / TWO32), i % LOG_BUF_LEN);
  }

  lemma WrappedDifference(a: nat, b: nat)
    requires a <= b && b - a < TWO32
    ensures U32(U32(b) - U32(a)) == b - a
  {
    DivIs(U32(b) - U32(a), TWO32, a / TWO32 - b / TWO32, b - a);
  }

  lemma WrappedMinus(a: nat, n: nat)
    requires n <= a
    ensures U32(U32(a) - n) == U32(a - n)
  {
    DivIs(U32(a) - n, TWO32, (a - n) / TWO32 - a / TWO32, U32(a - n));
  }

  lemma WrappedNext(a: nat)
    ensures U32(U32(a) + 1) == U32(a + 1)
  {
    DivIs(U32(a) + 1, TWO32, (a + 1) / TWO32 - a / TWO32, U32(a + 1));
  }

  lemma SlotsDiffer(i: nat, j: nat)
    requires i < j < i + LOG_BUF_LEN
    ensures i % LOG_BUF_LEN != j % LOG_BUF_LEN
  {
    if i % LOG_BUF_LEN == j % LOG_BUF_LEN {
      MulSign(LOG_BUF_LEN, j / LOG_BUF_LEN - i / LOG_BUF_LEN);
    }
  }

  /** `ring` holds the last LOG_BUF_LEN characters of the history, each in its slot. */
  ghost predicate Holds(ring: seq<char>, h: string) {
    && |ring| == LOG_BUF_LEN
    && forall i :: Max(0, |h| - LOG_BUF_LEN) <= i < |h| ==> ring[i % LOG_BUF_LEN] == h[i]
  }

  /** Writing the next character into its slot keeps the ring holding the history. */
  lemma HoldsNext(ring: seq<char>, h: string, c: char)
    requires Holds(ring, h)
    ensures Holds(ring[|h| % LOG_BUF_LEN := c], h + [c])
  {
    var ring', h' := ring[|h| % LOG_BUF_LEN := c], h + [c];
    forall i | Max(0, |h'| - LOG_BUF_LEN) <= i < |h'|
      ensures ring'[i % LOG_BUF_LEN] == h'[i]
    {
      if i < |h| { SlotsDiffer(i, |h|); }
    }
  }

  /** `start` is the 32-bit image of absolute index `from`, and the window from there to the end of
      the history fits in the ring. */
  ghost predicate Window(h: string, from: nat, start: nat) {
    from <= |h| && |h| - from <= LOG_BUF_LEN && start == U32(from)
  }

  /** Where the two windows begin in the history, and how many characters are kept. */
  datatype Marks = Begin(log: nat, con: nat, logged: nat)

  /** After n more characters the windows begin where they did, as far as the ring reaches back. */
  ghost predicate Moved(m: Marks, m': Marks, length: nat, n: nat) {
    && m'.log == Max(m.log, length - LOG_BUF_LEN) && m'.con == Max(m.con, length - LOG_BUF_LEN)
    && m'.logged == Min(m.logged + n, LOG_BUF_LEN)
  }

  lemma MovedThen(a: Marks, b: Marks, c: Marks, length: nat, n: nat, k: nat)
    requires Moved(a, b, length, n) && Moved(b, c, length + k, k)
    ensures Moved(a, c, length + k, n + k)
  {
  }

  /** Every index of a window reads the history's character through the masked 32-bit index. */
  lemma WindowReads(ring: seq<char>, h: string, from: nat, start: nat, k: nat)
    requires Holds(ring, h) && Window(h, from, start) && from + k < |h|
    ensures ring[U32(start + k) % LOG_BUF_LEN] == h[from + k]
  {
    assert U32(start + k) == U32(from + k) by {
      DivIs(start + k, TWO32, (from + k) / TWO32 - from / TWO32, U32(from + k));
    }
    SlotOfWrapped(from + k);
  }

  /** How emit_log_char moves a start index that the new end would leave too far behind. */
  function Pushed(start: nat, end: nat): nat {
    if U32(end - start) > LOG_BUF_LEN then U32(end - LOG_BUF_LEN) else start
  }

  lemma WindowNext(h: string, c: char, from: nat, start: nat)
    requires Window(h, from, start)
    ensures Window(h + [c], Max(from, |h| + 1 - LOG_BUF_LEN), Pushed(start, U32(|h| + 1)))
  {
    var end := |h| + 1;
    WrappedDifference(from, end);
    if end - from > LOG_BUF_LEN { WrappedMinus(end, LOG_BUF_LEN); }
  }

  // ---------------------------------------------------------------- driver writes

  /** The characters of `ring` that a driver is handed. */
  function Slice(ring: seq<char>, at: nat, n: nat): string
    requires at + n <= |ring|
  {
    ring[at..at + n]
  }

  /** The one or two driver writes for the range from `start` to `end` (_call_console_drivers). */
  function DriverWrites(ring: seq<char>, start: nat, end: nat): seq<(nat, nat)> {
    var s, e := start % LOG_BUF_LEN, end % LOG_BUF_LEN;
    if s > e then [(s, LOG_BUF_LEN - s), (0, e)] else [(s, U32(end - start))]
  }

  ghost predicate InRing(ws: seq<(nat, nat)>) {
    forall i :: 0 <= i < |ws| ==> ws[i].0 + ws[i].1 <= LOG_BUF_LEN
  }

  function Written(ring: seq<char>, ws: seq<(nat, nat)>): string
    requires |ring| == LOG_BUF_LEN && InRing(ws)
  {
    if ws == [] then "" else Slice(ring, ws[0].0, ws[0].1) + Written(ring, ws[1..])
  }

  /** Any range of the history still in the ring reaches the drivers unchanged, in one or two
      writes. The writes stay inside the buffer exactly when the range is shorter than the ring, or
      starts at its first slot. */
  lemma DriversGetHistory(ring: seq<char>, h: string, a: nat, b: nat)
    requires |ring| == LOG_BUF_LEN && Holds(ring, h) && a <= b <= |h| && |h| - a <= LOG_BUF_LEN
    ensures var ws := DriverWrites(ring, U32(a), U32(b));
            && (InRing(ws) <==> b - a < LOG_BUF_LEN || a % LOG_BUF_LEN == 0)
            && (InRing(ws) ==> Written(ring, ws) == h[a..b])
  {
    hide Holds;
    var ws := DriverWrites(ring, U32(a), U32(b));
    SlotOfWrapped(a);
    SlotOfWrapped(b);
    WrappedDifference(a, b);
    var s, e := a % LOG_BUF_LEN, b % LOG_BUF_LEN;
    SlotsOfRange(a, b);
    assert ws[0].0 + ws[0].1 <= LOG_BUF_LEN && |ws| == 2 ==> InRing(ws);
    if s > e {
      var mid := a + (LOG_BUF_LEN - s);
      RunIsHistory(ring, h, a, mid);
      RunIsHistory(ring, h, mid, b);
      assert h[a..b] == h[a..mid] + h[mid..b];
      assert ws[1..] == [(0, e)];
      assert Written(ring, [(0, e)]) == Slice(ring, 0, e) + "" == Slice(ring, 0, e);
    } else if InRing(ws) {
      assert ws[0] == (s, b - a);
      RunIsHistory(ring, h, a, b);
      assert Written(ring, ws) == Slice(ring, s, b - a) + "";
    }
  }

  /** Where the slots of a range no longer than the ring lie. */
  lemma SlotsOfRange(a: nat, b: nat)
    requires a <= b <= a + LOG_BUF_LEN
    ensures var s, e := a % LOG_BUF_LEN, b % LOG_BUF_LEN;
            if s > e then && b == a + (LOG_BUF_LEN - s) + e && b - a < LOG_BUF_LEN
                          && (a + (LOG_BUF_LEN - s)) % LOG_BUF_LEN == 0
            else (b - a < LOG_BUF_LEN ==> b - a == e - s) && (b - a == LOG_BUF_LEN ==> s == e)
  {
    var s := a % LOG_BUF_LEN;
    var q := a / LOG_BUF_LEN;
    if s + (b - a) < LOG_BUF_LEN {
      DivIs(b, LOG_BUF_LEN, q, s + (b - a));
    } else if b - a < LOG_BUF_LEN {
      DivIs(b, LOG_BUF_LEN, q + 1, s + (b - a) - LOG_BUF_LEN);
      DivIs(a + (LOG_BUF_LEN - s), LOG_BUF_LEN, q + 1, 0);
    } else {
      DivIs(b, LOG_BUF_LEN, q + 1, s);
    }
  }

  /** A run of slots that does not pass the end of the ring is that stretch of the history. */
  lemma RunIsHistory(ring: seq<char>, h: string, a: nat, b: nat)
    requires Holds(ring, h) && a <= b <= |h| && |h| - a <= LOG_BUF_LEN
    requires a % LOG_BUF_LEN + (b - a) <= LOG_BUF_LEN
    ensures ring[a % LOG_BUF_LEN..a % LOG_BUF_LEN + (b - a)] == h[a..b]
  {
    var s := a % LOG_BUF_LEN;
    forall j | s <= j < s + (b - a)
      ensures ring[j] == h[a + (j - s)]
    {
      DivIs(a + (j - s), LOG_BUF_LEN, a / LOG_BUF_LEN, j);
    }
  }

  // ---------------------------------------------------------------- the log

  class Log {
    const ring: array<char>
    var logStart: nat
    var conStart: nat
    var logEnd: nat
    var loggedChars: nat
    var newTextLine: bool
    /** Everything ever logged, and the absolute indices the two start indices stand for. */
    ghost var history: string
    ghost var logFrom: nat
    ghost var conFrom: nat

    ghost predicate Valid()
      reads this, ring
    {
      && ring.Length == LOG_BUF_LEN && Holds(ring[..], history)
      && logEnd == U32(|history|)
      && Window(history, logFrom, logStart) && Window(history, conFrom, conStart)
      && loggedChars <= LOG_BUF_LEN
    }

    /** The flag says that the next character starts a line, and every line so far is tagged. */
    ghost predicate Tagged()
      reads this
    {
      newTextLine == AtLineStart(history) && AllTagged(history)
    }

    ghost function Marks(): Marks
      reads this
    {
      Begin(logFrom, conFrom, loggedChars)
    }

    constructor ()
      ensures Valid() && Tagged() && fresh(ring) && history == "" && logFrom == 0 && conFrom == 0 && loggedChars == 0
    {
      ring := new char[LOG_BUF_LEN];
      logStart, conStart, logEnd, loggedChars, newTextLine := 0, 0, 0, 0, true;
      history, logFrom, conFrom := "", 0, 0;
    }

    /** emit_log_char. */
    method Emit(c: char)
      requires Valid()
      modifies this`logStart, this`conStart, this`logEnd, this`loggedChars,
               this`history, this`logFrom, this`conFrom, ring
      ensures Valid() && history == old(history) + [c]
      ensures Moved(old(Marks()), Marks(), |history|, 1)
    {
      hide Holds, Window, Pushed, U32, Max;
      ghost var h := history;
      SlotOfWrapped(|h|);
      HoldsNext(ring[..], h, c);
      WindowNext(h, c, logFrom, logStart);
      WindowNext(h, c, conFrom, conStart);
      WrappedNext(|h|);
      ring[logEnd % LOG_BUF_LEN] := c;
      assert ring[..] == old(ring[..])[|h| % LOG_BUF_LEN := c];
      logEnd := U32(logEnd + 1);
      PushedIs(logStart, logEnd);
      PushedIs(conStart, logEnd);
      if U32(logEnd - logStart) > LOG_BUF_LEN {
        logStart := U32(logEnd - LOG_BUF_LEN);
      }
      if U32(logEnd - conStart) > LOG_BUF_LEN {
        conStart := U32(logEnd - LOG_BUF_LEN);
      }
      if loggedChars < LOG_BUF_LEN {
        loggedChars := loggedChars + 1;
      }
      history := history + [c];
      logFrom := Max(logFrom, |history| - LOG_BUF_LEN);
      conFrom := Max(conFrom, |history| - LOG_BUF_LEN);
    }

    lemma NotMoved()
      requires Valid()
      ensures Moved(Marks(), Marks(), |history|, 0)
    {
    }

    method EmitAll(s: string)
      requires Valid()
      modifies this`logStart, this`conStart, this`logEnd, this`loggedChars,
               this`history, this`logFrom, this`conFrom, ring
      ensures Valid() && history == old(history) + s && Moved(old(Marks()), Marks(), |history|, |s|)
    {
      hide Holds, Window, Moved;
      NotMoved();
      for i := 0 to |s|
        invariant Valid() && history == old(history) + s[..i]
        invariant Moved(old(Marks()), Marks(), |history|, i)
      {
        ghost var was := Marks();
        Emit(s[i]);
        MovedThen(old(Marks()), was, Marks(), |history| - 1, i, 1);
        assert s[..i + 1] == s[..i] + [s[i]];
      }
      assert s[..|s|] == s;
    }

    method EmitTwo(s: string, t: string)
      requires Valid()
      modifies this`logStart, this`conStart, this`logEnd, this`loggedChars,
               this`history, this`logFrom, this`conFrom, ring
      ensures Valid() && history == old(history) + s + t && Moved(old(Marks()), Marks(), |history|, |s| + |t|)
    {
      hide Holds, Window, Moved;
      EmitAll(s);
      ghost var was := Marks();
      EmitAll(t);
      MovedThen(old(Marks()), was, Marks(), |old(history) + s|, |s|, |t|);
    }

    /** vprintk up to the console flush, for a formatted message. */
    method Vprintk(msg: string, clock: nat -> nat) returns (printedLen: nat)
      requires Valid() && Tagged()
      modifies this, ring
      ensures Valid() && Tagged()
      ensures history == old(history) + Logged(AtLineStart(old(history)), msg, clock)
      ensures Moved(old(Marks()), Marks(), |history|, |history| - |old(history)|)
      ensures printedLen + |Parse(msg).text| + (if Parse(msg).starts && !AtLineStart(old(history)) then 1 else 0) ==
              |msg| + |history| - |old(history)|
    {
      hide Holds, Window, AllTagged, Render, Lines, AtLineStart, Moved;
      NotMoved();
      ghost var h0, m := history, Parse(msg);
      LoggedKeepsTags(h0, msg, clock);
      printedLen := |msg|;
      var prefix := LogPrefix(msg);
      var text, tag := msg, DefaultTag();
      if !prefix.NoPrefix? {
        text := msg[prefix.len..];
        if prefix.Level? { tag := msg[..prefix.len]; }
        if !(prefix.Special? && prefix.special == 'c') {
          if !newTextLine {
            Emit('\n');
            newTextLine := true;
            EndsWith(history, '\n');
          }
        }
      }
      assert text == m.text && tag == m.tag;
      ghost var goal := h0 + Logged(AtLineStart(h0), msg, clock);
      assert history + Render(newTextLine, Lines(text), tag, clock, 0) == goal by {
        if m.starts && !AtLineStart(h0) {
          var r := Render(true, Lines(text), tag, clock, 0);
          assert h0 + ("\n" + r) == (h0 + "\n") + r;
        }
      }
      ghost var was, n := Marks(), |history|;
      var more := CopyText(text, tag, clock, goal);
      MovedThen(old(Marks()), was, Marks(), n, n - |h0|, |history| - n);
      printedLen := printedLen + more;
    }

    /** The copy loop of vprintk. */
    method CopyText(text: string, tag: string, clock: nat -> nat, ghost goal: string) returns (more: nat)
      requires Valid() && newTextLine == AtLineStart(history)
      requires history + Render(newTextLine, Lines(text), tag, clock, 0) == goal
      modifies this, ring
      ensures Valid() && newTextLine == AtLineStart(history) && history == goal
      ensures more + |text| == |history| - |old(history)| && Moved(old(Marks()), Marks(), |history|, more + |text|)
    {
      hide Holds, Window, Render, Lines, Stamp, AtLineStart, Moved;
      NotMoved();
      more := 0;
      var lines := 0;
      for p := 0 to |text|
        invariant Valid() && newTextLine == AtLineStart(history)
        invariant history + Render(newTextLine, Lines(text[p..]), tag, clock, lines) == goal
        invariant more + p == |history| - |old(history)|
        invariant Moved(old(Marks()), Marks(), |history|, more + p)
      {
        ghost var h, nl, was := history, newTextLine, Marks();
        var c := text[p];
        assert text[p..] == [c] + text[p + 1..];
        RenderChar(nl, c, text[p + 1..], tag, clock, lines);
        ghost var rest := Render(c == '\n', Lines(text[p + 1..]), tag, clock, if nl then lines + 1 else lines);
        ghost var pre := if nl then tag + Stamp(clock(lines)) else "";
        if newTextLine {
          newTextLine := false;
          var stamp := Stamp(clock(lines));
          EmitTwo(tag, stamp);
          MovedThen(old(Marks()), was, Marks(), |h|, more + p, |tag| + |stamp|);
          more := more + |tag| + |stamp|;
          lines := lines + 1;
        }
        was := Marks();
        Emit(c);
        MovedThen(old(Marks()), was, Marks(), |history| - 1, more + p, 1);
        newTextLine := c == '\n';
        EndsWith(history, c);
        assert history == h + pre + [c];
        assert h + (pre + [c] + rest) == (h + pre + [c]) + rest;
      }
      assert text[|text|..] == "";
      RenderNothing(newTextLine, tag, clock, lines);
      assert history + "" == history;
    }

    /** _call_console_drivers on a range of the history that the ring still holds. */
    method CallDrivers(start: nat, end: nat, ghost a: nat, ghost b: nat) returns (out: string)
      requires Valid() && a <= b <= |history| && |history| - a <= LOG_BUF_LEN
      requires start == U32(a) && end == U32(b)
      requires b - a < LOG_BUF_LEN || a % LOG_BUF_LEN == 0
      ensures out == history[a..b]
    {
      DriversGetHistory(ring[..], history, a, b);
      hide Holds, Window, U32;
      var s, e := start % LOG_BUF_LEN, end % LOG_BUF_LEN;
      if s > e {
        out := ring[s..LOG_BUF_LEN] + ring[0..e];
        WrittenTwo(ring[..], s, LOG_BUF_LEN - s, 0, e);
      } else {
        var n := U32(end - start);
        WrittenOne(ring[..], s, n);
        out := ring[s..s + n];
      }
    }
  }

  lemma PushedIs(start: nat, end: nat)
    ensures Pushed(start, end) == if U32(end - start) > LOG_BUF_LEN then U32(end - LOG_BUF_LEN) else start
  {
  }

  lemma EndsWith(h: string, c: char)
    requires h != "" && h[|h| - 1] == c
    ensures AtLineStart(h) == (c == '\n')
  {
  }

  lemma RenderNothing(fresh_: bool, tag: string, clock: nat -> nat, k: nat)
    ensures Render(fresh_, Lines(""), tag, clock, k) == ""
  {
  }

  lemma WrittenOne(ring: seq<char>, at: nat, n: nat)
    requires |ring| == LOG_BUF_LEN && InRing([(at, n)])
    ensures at + n <= LOG_BUF_LEN && Written(ring, [(at, n)]) == ring[at..at + n]
  {
    assert [(at, n)][0] == (at, n);
  }

  lemma WrittenTwo(ring: seq<char>, at: nat, n: nat, at2: nat, n2: nat)
    requires |ring| == LOG_BUF_LEN && at + n <= LOG_BUF_LEN && at2 + n2 <= LOG_BUF_LEN
    ensures InRing([(at, n), (at2, n2)])
    ensures Written(ring, [(at, n), (at2, n2)]) == ring[at..at + n] + ring[at2..at2 + n2]
  {
    assert [(at, n), (at2, n2)][1..] == [(at2, n2)];
    assert InRing([(at2, n2)]);
    WrittenOne(ring, at2, n2);
  }
}
