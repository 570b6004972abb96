/** What vprintk writes into the log, as text: the syslog prefix parser, the time stamp, and lines
    with their tags. printk/printk.c. */
module PrintkText {
  import opened Arith
  import opened Common

  const DEFAULT_LEVEL := 4

  // ---------------------------------------------------------------- log_prefix

  predicate IsDigit(c: char) { '0' <= c <= '9' }

  /** Number of digits from index `i` on. */
  function DigitRun(s: string, i: nat): (k: nat)
    requires i <= |s|
    ensures i + k <= |s| && forall j :: i <= j < i + k ==> IsDigit(s[j])
    ensures i + k < |s| ==> !IsDigit(s[i + k])
    decreases |s| - i
  {
    if i < |s| && IsDigit(s[i]) then 1 + DigitRun(s, i + 1) else 0
  }

  function Value(s: string): nat
    requires forall j :: 0 <= j < |s| ==> IsDigit(s[j])
  {
    if s == "" then 0
    else
      var c := s[|s| - 1];
      assert IsDigit(c);
      10 * Value(s[..|s| - 1]) + (c as int - '0' as int)
  }

  /** A recognised prefix: its length, and the level or the special character it carries. */
  datatype Prefix = NoPrefix | Level(len: nat, level: nat) | Special(len: nat, special: char)

  /** log_prefix with both results asked for. The test meant to reject a first character that is
      no digit can never succeed, so "<>" counts as level 0. */
  function LogPrefix(p: string): (r: Prefix)
    ensures !r.NoPrefix? ==> 2 <= r.len <= |p|
  {
    if |p| < 2 || p[0] != '<' then NoPrefix
    else if |p| > 2 && p[2] == '>' then
      if '0' <= p[1] <= '7' then Level(3, p[1] as int - '0' as int)
      else if p[1] == 'c' || p[1] == 'd' then Special(3, p[1])
      else NoPrefix
    else
      var k := DigitRun(p, 1);
      if 1 + k < |p| && p[1 + k] == '>' then Level(k + 2, Value(p[1..1 + k]) % 8) else NoPrefix
  }

  /** A level tag: digits in angle brackets. */
  ghost predicate IsTag(s: string) {
    |s| >= 2 && s[0] == '<' && s[|s| - 1] == '>' && forall i :: 1 <= i < |s| - 1 ==> IsDigit(s[i])
  }

  /** `p` starts with a level tag of length `n` that the parser accepts: a one-digit tag must be a
      level, and an empty one must not be followed by another bracket. */
  ghost predicate StartsWithTag(p: string, n: nat) {
    n <= |p| && IsTag(p[..n]) && (n == 3 ==> p[1] <= '7') && (n == 2 && |p| > 2 ==> p[2] != '>')
  }

  lemma PrefixIsTag(p: string)
    ensures LogPrefix(p).Level? ==> StartsWithTag(p, LogPrefix(p).len) && LogPrefix(p).level < 8
    ensures LogPrefix(p).Level? ==>
              var digits := p[1..LogPrefix(p).len - 1];
              (forall i :: 0 <= i < |digits| ==> IsDigit(digits[i])) && LogPrefix(p).level == Value(digits) % 8
    ensures LogPrefix(p).Special? <==> |p| > 2 && (p[..3] == "<c>" || p[..3] == "<d>")
    ensures LogPrefix(p).Special? ==> LogPrefix(p).len == 3 && LogPrefix(p).special == p[1]
    ensures (exists n: nat :: StartsWithTag(p, n)) ==> LogPrefix(p).Level?
  {
    if n: nat :| StartsWithTag(p, n) {
      assert p[..n][0] == '<' && p[..n][n - 1] == '>';
      assert forall i :: 1 <= i < n - 1 ==> p[..n][i] == p[i];
      if n != 3 {
        DigitRunIs(p, 1, n - 2);
      }
    }
  }

  lemma {:induction false} DigitRunIs(s: string, i: nat, k: nat)
    requires i + k < |s| && !IsDigit(s[i + k]) && forall j :: i <= j < i + k ==> IsDigit(s[j])
    ensures DigitRun(s, i) == k
    decreases k
  {
    if k > 0 { DigitRunIs(s, i + 1, k - 1); }
  }

  // ---------------------------------------------------------------- time stamps

  function Digit(d: nat): char
    requires d < 10
  {
    '0' + d as char
  }

  function Decimal(n: nat): (s: string)
    ensures s != "" && forall i :: 0 <= i < |s| ==> IsDigit(s[i])
  {
    if n < 10 then [Digit(n)] else Decimal(n / 10) + [Digit(n % 10)]
  }

  function PadLeft(s: string, width: nat, fill: char): (r: string)
    ensures |r| >= width && |r| >= |s|
    ensures forall i :: 0 <= i < |r| ==> r[i] == fill || r[i] in s
    decreases width - |s|
  {
    if |s| >= width then s else PadLeft([fill] + s, width, fill)
  }

  /** "[%5lu.%06lu] " of a clock reading in nanoseconds. */
  function Stamp(t: nat): string {
    "[" + PadLeft(Decimal(t / 1_000_000_000), 5, ' ') + "." + PadLeft(Decimal(t % 1_000_000_000 / 1000), 6, '0') + "] "
  }

  lemma {:induction false} DecimalReads(n: nat)
    ensures Value(Decimal(n)) == n
  {
    if n >= 10 {
      DecimalReads(n / 10);
      var s := Decimal(n / 10) + [Digit(n % 10)];
      assert s[..|s| - 1] == Decimal(n / 10) && s[|s| - 1] == Digit(n % 10);
    } else {
      assert [Digit(n)][..0] == "";
    }
  }

  /** No more digits than needed, so none is a leading zero. */
  lemma {:induction false} DecimalIsShort(n: nat, k: nat, limit: nat)
    requires k >= 1 && limit == PowerOfTen(k) && n < limit
    ensures |Decimal(n)| <= k
    decreases k
  {
    if n >= 10 { DecimalIsShort(n / 10, k - 1, PowerOfTen(k - 1)); }
  }

  function PowerOfTen(k: nat): nat { if k == 0 then 1 else 10 * PowerOfTen(k - 1) }

  /** `s` is n in decimal, filled on the left to the width. */
  ghost predicate Shows(s: string, width: nat, fill: char, n: nat, blank: nat) {
    && blank < |s| && (forall i :: 0 <= i < blank ==> s[i] == fill) && (blank > 0 ==> |s| == width) && |s| >= width
    && (forall i :: blank <= i < |s| ==> IsDigit(s[i])) && Value(s[blank..]) == n
    && (|s| > blank + 1 ==> n >= 10)
  }

  lemma ShowsAt(s: string, width: nat, fill: char, n: nat, blank: nat, digits: string)
    requires blank < |s| && s[blank..] == digits && |s| >= width && (blank > 0 ==> |s| == width)
    requires (forall i :: 0 <= i < blank ==> s[i] == fill) && (forall i :: 0 <= i < |digits| ==> IsDigit(digits[i]))
    requires Value(digits) == n && (|digits| > 1 ==> n >= 10)
    ensures Shows(s, width, fill, n, blank)
  {
    hide Value;
    assert forall i :: blank <= i < |s| ==> s[i] == digits[i - blank];
  }

  lemma {:induction false} PadLeftShows(s: string, width: nat, fill: char, n: nat, blank: nat, digits: string)
    requires blank < |s| && (blank > 0 ==> |s| <= width) && s[blank..] == digits
    requires (forall i :: 0 <= i < blank ==> s[i] == fill) && (forall i :: 0 <= i < |digits| ==> IsDigit(digits[i]))
    requires Value(digits) == n && (|digits| > 1 ==> n >= 10)
    ensures Shows(PadLeft(s, width, fill), width, fill, n, if |s| < width then blank + width - |s| else blank)
    ensures |s| <= width ==> |PadLeft(s, width, fill)| == width
    decreases width - |s|
  {
    hide Value, Shows;
    if |s| >= width {
      ShowsAt(s, width, fill, n, blank, digits);
    } else {
      var t := [fill] + s;
      assert t[blank + 1..] == digits;
      PadLeftShows(t, width, fill, n, blank + 1, digits);
      assert PadLeft(s, width, fill) == PadLeft(t, width, fill);
    }
  }

  lemma DecimalShows(n: nat, width: nat, fill: char)
    ensures Shows(PadLeft(Decimal(n), width, fill), width, fill, n, Max(0, width - |Decimal(n)|))
    ensures |Decimal(n)| <= width ==> |PadLeft(Decimal(n), width, fill)| == width
  {
    DecimalReads(n);
    hide Value, Decimal;
    assert Decimal(n)[0..] == Decimal(n);
    OneDigit(n);
    PadLeftShows(Decimal(n), width, fill, n, 0, Decimal(n));
  }

  lemma OneDigit(n: nat)
    ensures |Decimal(n)| > 1 ==> n >= 10
  {
  }

  /** A stamp names the seconds and, in six digits, the microseconds of its clock reading. */
  ghost predicate Says(s: string, seconds: nat, micros: nat, a: string, b: string) {
    && s == "[" + a + "." + b + "] " && |b| == 6
    && (exists blank: nat :: Shows(a, 5, ' ', seconds, blank)) && exists blank: nat :: Shows(b, 6, '0', micros, blank)
  }

  lemma SaysWhat(st: string, s: nat, u: nat, a: string, b: string, i: nat, j: nat)
    requires st == "[" + a + "." + b + "] " && |b| == 6 && Shows(a, 5, ' ', s, i) && Shows(b, 6, '0', u, j)
    ensures Says(st, s, u, a, b)
  {
    hide Shows;
  }

  lemma MicrosOf(t: nat)
    ensures var u := t % 1_000_000_000 / 1000; u == t / 1000 % 1_000_000 && |Decimal(u)| <= 6
  {
    hide Decimal;
    var q, r := t / 1_000_000_000, t % 1_000_000_000;
    DivIs(t, 1000, q * 1_000_000 + r / 1000, r % 1000);
    DivIs(t / 1000, 1_000_000, q, r / 1000);
    SixZeros();
    DecimalIsShort(r / 1000, 6, 1_000_000);
  }

  lemma SixZeros()
    ensures PowerOfTen(6) == 1_000_000
  {
    assert PowerOfTen(3) == 1000;
  }

  lemma StampSays(t: nat)
    ensures exists a, b :: Says(Stamp(t), t / 1_000_000_000, t / 1000 % 1_000_000, a, b)
  {
    hide Says;
    var s, u := t / 1_000_000_000, t % 1_000_000_000 / 1000;
    hide Decimal, PadLeft, Shows;
    MicrosOf(t);
    DecimalShows(s, 5, ' ');
    DecimalShows(u, 6, '0');
    var a, b := PadLeft(Decimal(s), 5, ' '), PadLeft(Decimal(u), 6, '0');
    SaysWhat(Stamp(t), s, u, a, b, Max(0, 5 - |Decimal(s)|), Max(0, 6 - |Decimal(u)|));
  }

  lemma StampHasNoNewline(t: nat)
    ensures '\n' !in Stamp(t)
  {
    var a, b := PadLeft(Decimal(t / 1_000_000_000), 5, ' '), PadLeft(Decimal(t % 1_000_000_000 / 1000), 6, '0');
    assert '\n' !in Decimal(t / 1_000_000_000) && '\n' !in Decimal(t % 1_000_000_000 / 1000);
    assert '\n' !in a && '\n' !in b;
  }

  // ---------------------------------------------------------------- lines

  /** The text cut behind each newline. */
  function Lines(text: string): seq<string> {
    if text == "" then []
    else
      var c, rest := text[0], Lines(text[1..]);
      if c == '\n' || rest == [] then [[c]] + rest else [[c] + rest[0]] + rest[1..]
  }

  /** Lines with a tag and a stamp in front of each; the first only when it starts a line. */
  function Render(fresh_: bool, ls: seq<string>, tag: string, clock: nat -> nat, k: nat): string
    decreases |ls|
  {
    if ls == [] then ""
    else if fresh_ then tag + Stamp(clock(k)) + ls[0] + Render(true, ls[1..], tag, clock, k + 1)
    else ls[0] + Render(true, ls[1..], tag, clock, k)
  }

  /** A new line begins at index `i`. */
  predicate LineStart(h: string, i: nat) {
    i < |h| && (i == 0 || h[i - 1] == '\n')
  }

  /** A level tag and a time stamp stand at index `i`. */
  ghost predicate TaggedAt(h: string, i: nat) {
    i <= |h| && exists tag, t :: IsTag(tag) && tag + Stamp(t) <= h[i..]
  }

  /** Every line of the log begins with a level tag and a time stamp. */
  ghost predicate AllTagged(h: string) {
    forall i: nat :: LineStart(h, i) ==> TaggedAt(h, i)
  }

  predicate AtLineStart(h: string) {
    h == "" || h[|h| - 1] == '\n'
  }

  /** Only the last character of a line may be a newline. */
  predicate IsLine(l: string) {
    l != "" && forall i :: 0 <= i < |l| - 1 ==> l[i] != '\n'
  }

  predicate EndsInNewline(ls: seq<string>) {
    ls != [] && ls[|ls| - 1] != "" && ls[|ls| - 1][|ls[|ls| - 1]| - 1] == '\n'
  }

  /** Lines that follow each other: all but the last end in a newline. */
  predicate LineSeq(ls: seq<string>) {
    && (forall i :: 0 <= i < |ls| ==> IsLine(ls[i]))
    && forall i :: 0 <= i < |ls| - 1 ==> ls[i][|ls[i]| - 1] == '\n'
  }

  lemma {:induction false} LinesAreLines(text: string)
    ensures LineSeq(Lines(text))
    ensures Lines(text) == [] <==> text == ""
  {
    if text != "" {
      hide LineSeq, IsLine;
      LinesAreLines(text[1..]);
      LineSeqGrows(text[0], Lines(text[1..]));
    }
  }

  lemma LineSeqGrows(c: char, rest: seq<string>)
    requires LineSeq(rest)
    ensures LineSeq(if c == '\n' || rest == [] then [[c]] + rest else [[c] + rest[0]] + rest[1..])
  {
    if c == '\n' || rest == [] {
      var ls := [[c]] + rest;
      assert forall i :: 0 < i < |ls| ==> ls[i] == rest[i - 1];
    } else {
      var ls := [[c] + rest[0]] + rest[1..];
      assert forall i :: 0 < i < |ls| ==> ls[i] == rest[i];
      assert forall i :: 0 < i < |ls[0]| ==> ls[0][i] == rest[0][i - 1];
      assert IsLine(rest[0]);
    }
  }

  lemma LineSeqTail(ls: seq<string>)
    requires LineSeq(ls) && ls != []
    ensures ls[0] != "" && IsLine(ls[0]) && LineSeq(ls[1..]) && (|ls| > 1 ==> ls[0][|ls[0]| - 1] == '\n')
    ensures EndsInNewline(ls) == if |ls| > 1 then EndsInNewline(ls[1..]) else ls[0][|ls[0]| - 1] == '\n'
  {
  }

  /** The lines of a text put together are the text. */
  lemma {:induction false} LinesConcat(text: string)
    ensures Concat(Lines(text)) == text
  {
    if text != "" {
      LinesConcat(text[1..]);
      var c, rest := text[0], Lines(text[1..]);
      if c == '\n' || rest == [] {
        assert ([[c]] + rest)[1..] == rest;
      } else {
        assert ([[c] + rest[0]] + rest[1..])[1..] == rest[1..];
      }
    }
  }

  function Concat(ls: seq<string>): string {
    if ls == [] then "" else ls[0] + Concat(ls[1..])
  }

  lemma TaggedGrows(h: string, more: string, i: nat)
    requires TaggedAt(h, i)
    ensures TaggedAt(h + more, i)
  {
    var tag, t :| IsTag(tag) && tag + Stamp(t) <= h[i..];
    assert (h + more)[i..] == h[i..] + more;
    assert tag + Stamp(t) <= (h + more)[i..];
  }

  lemma NoStartInside(h: string, l: string, i: nat)
    requires IsLine(l) && |h| < i < |h + l|
    ensures !LineStart(h + l, i)
  {
    assert (h + l)[i - 1] == l[i - 1 - |h|];
  }

  /** Appending a line to a tagged log keeps it tagged, if it continues a line or itself begins with
      a tag. */
  lemma AppendLine(h: string, l: string)
    requires l != "" && AllTagged(h) && IsLine(l) && (AtLineStart(h) ==> TaggedAt(l, 0))
    ensures AllTagged(h + l)
    ensures AtLineStart(h + l) <==> l[|l| - 1] == '\n'
  {
    forall i: nat | |h| < i < |h + l|
      ensures !LineStart(h + l, i)
    {
      NoStartInside(h, l, i);
    }
    forall i: nat | LineStart(h + l, i) && i <= |h|
      ensures TaggedAt(h + l, i)
    {
      if i < |h| {
        assert LineStart(h, i);
        TaggedGrows(h, l, i);
      } else {
        var tag, t :| IsTag(tag) && tag + Stamp(t) <= l[0..];
        assert (h + l)[i..] == l[0..];
      }
    }
  }

  lemma TaggedLine(tag: string, t: nat, l: string)
    requires l != "" && IsTag(tag) && IsLine(l)
    ensures IsLine(tag + Stamp(t) + l) && TaggedAt(tag + Stamp(t) + l, 0)
    ensures (tag + Stamp(t) + l)[|tag + Stamp(t) + l| - 1] == l[|l| - 1]
  {
    var s := tag + Stamp(t) + l;
    StampHasNoNewline(t);
    assert '\n' !in tag;
    assert forall i :: 0 <= i < |s| - 1 ==>
      s[i] == (if i < |tag| then tag[i]
               else if i < |tag| + |Stamp(t)| then Stamp(t)[i - |tag|]
               else l[i - |tag| - |Stamp(t)|]);
    assert s[0..] == s && tag + Stamp(t) <= s;
  }

  /** What the first line of a rendering puts into the log. */
  function FirstOut(fresh_: bool, l: string, tag: string, t: nat): string {
    if fresh_ then tag + Stamp(t) + l else l
  }

  lemma RenderStep(h: string, ls: seq<string>, tag: string, clock: nat -> nat, k: nat)
    requires AllTagged(h) && LineSeq(ls) && IsTag(tag) && ls != []
    ensures var l := FirstOut(AtLineStart(h), ls[0], tag, clock(k));
            && Render(AtLineStart(h), ls, tag, clock, k) ==
               l + Render(true, ls[1..], tag, clock, if AtLineStart(h) then k + 1 else k)
            && AllTagged(h + l) && LineSeq(ls[1..])
            && (|ls| > 1 ==> AtLineStart(h + l) && EndsInNewline(ls) == EndsInNewline(ls[1..]))
            && (|ls| == 1 ==> AtLineStart(h + l) == EndsInNewline(ls))
  {
    hide *;
    LineSeqTail(ls);
    RenderUnfold(AtLineStart(h), ls, tag, clock, k);
    FirstOutIsLine(AtLineStart(h), ls[0], tag, clock(k));
    AppendLine(h, FirstOut(AtLineStart(h), ls[0], tag, clock(k)));
  }

  lemma RenderUnfold(fresh_: bool, ls: seq<string>, tag: string, clock: nat -> nat, k: nat)
    requires ls != []
    ensures Render(fresh_, ls, tag, clock, k) ==
            FirstOut(fresh_, ls[0], tag, clock(k)) + Render(true, ls[1..], tag, clock, if fresh_ then k + 1 else k)
  {
    hide Stamp;
  }

  lemma FirstOutIsLine(fresh_: bool, l: string, tag: string, t: nat)
    requires IsTag(tag) && IsLine(l) && l != ""
    ensures FirstOut(fresh_, l, tag, t) != "" && IsLine(FirstOut(fresh_, l, tag, t))
    ensures fresh_ ==> TaggedAt(FirstOut(fresh_, l, tag, t), 0)
    ensures FirstOut(fresh_, l, tag, t)[|FirstOut(fresh_, l, tag, t)| - 1] == l[|l| - 1]
  {
    hide Stamp, IsTag, TaggedAt, IsLine;
    if fresh_ { TaggedLine(tag, t, l); }
  }

  /** Rendered lines keep a log tagged, and leave it at a line start exactly when they end in a
      newline, or there were none and it was at one before. */
  lemma {:induction false} RenderTagged(h: string, ls: seq<string>, tag: string, clock: nat -> nat, k: nat)
    requires AllTagged(h) && LineSeq(ls) && IsTag(tag)
    ensures AllTagged(h + Render(AtLineStart(h), ls, tag, clock, k))
    ensures AtLineStart(h + Render(AtLineStart(h), ls, tag, clock, k)) <==>
            if ls == [] then AtLineStart(h) else EndsInNewline(ls)
    decreases |ls|
  {
    if ls == [] {
      assert h + Render(AtLineStart(h), ls, tag, clock, k) == h;
    } else {
      hide *;
      RenderStep(h, ls, tag, clock, k);
      var l := FirstOut(AtLineStart(h), ls[0], tag, clock(k));
      var k' := if AtLineStart(h) then k + 1 else k;
      var rest := Render(true, ls[1..], tag, clock, k');
      assert h + (l + rest) == (h + l) + rest;
      if |ls| > 1 {
        RenderTagged(h + l, ls[1..], tag, clock, k');
      } else {
        RenderNone(ls[1..], tag, clock, k');
        assert (h + l) + "" == h + l;
      }
    }
  }

  lemma RenderNone(ls: seq<string>, tag: string, clock: nat -> nat, k: nat)
    requires ls == []
    ensures Render(true, ls, tag, clock, k) == ""
  {
  }

  // ---------------------------------------------------------------- whole messages

  /** The tag of messages that bring none. */
  function DefaultTag(): string { "<" + [Digit(DEFAULT_LEVEL)] + ">" }

  /** What a message brings: its tag, its text, and whether it asks to start a line. */
  datatype Message = Message(tag: string, text: string, starts: bool)

  function Parse(msg: string): Message {
    match LogPrefix(msg)
    case NoPrefix => Message(DefaultTag(), msg, false)
    case Level(n, _) => Message(msg[..n], msg[n..], true)
    case Special(n, sp) => Message(DefaultTag(), msg[n..], sp != 'c')
  }

  /** What one vprintk call adds to a log that is, or is not, at the start of a line. */
  function Logged(atStart: bool, msg: string, clock: nat -> nat): string {
    var m := Parse(msg);
    if m.starts && !atStart then "\n" + Render(true, Lines(m.text), m.tag, clock, 0)
    else Render(atStart, Lines(m.text), m.tag, clock, 0)
  }

  /** Nothing of a message is lost: it is its prefix and its text. A level prefix is its tag; other
      messages get level 4. */
  lemma ParseSplits(msg: string)
    ensures var m := Parse(msg);
            var n := |msg| - |m.text|;
            && n >= 0 && m.text == msg[n..] && (n > 0 ==> LogPrefix(msg).Level? || LogPrefix(msg).Special?)
            && (LogPrefix(msg).Level? ==> n == LogPrefix(msg).len && m.tag == msg[..n] && m.starts)
            && (!LogPrefix(msg).Level? ==> m.tag == "<4>")
            && (LogPrefix(msg).Special? ==> n == 3 && (m.starts <==> msg[1] == 'd'))
            && (LogPrefix(msg).NoPrefix? ==> n == 0 && !m.starts)
  {
    PrefixIsTag(msg);
  }

  lemma BehindLine(h: string, pre: string, tail: string)
    requires AtLineStart(h) && pre != ""
    ensures LineStart(h + (pre + tail), |h|) && pre <= (h + (pre + tail))[|h|..]
  {
    assert (h + (pre + tail))[|h|..] == pre + tail;
  }

  /** A message that starts a line stands at the start of one, behind its tag and a stamp. */
  lemma StartsItsLine(h: string, msg: string, clock: nat -> nat)
    requires Parse(msg).starts && Parse(msg).text != ""
    ensures var m, all := Parse(msg), h + Logged(AtLineStart(h), msg, clock);
            var at := if AtLineStart(h) then |h| else |h| + 1;
            && LineStart(all, at) && m.tag + Stamp(clock(0)) + m.text[..1] <= all[at..]
  {
    hide Parse, LogPrefix, Stamp;
    var m := Parse(msg);
    var c, rest := m.text[0], m.text[1..];
    assert m.text == [c] + rest;
    assert m.text[..1] == [c];
    var pre := m.tag + Stamp(clock(0)) + [c];
    var r := Render(true, Lines(m.text), m.tag, clock, 0);
    RenderChar(true, c, rest, m.tag, clock, 0);
    hide Lines, Render;
    var tail := Render(c == '\n', Lines(rest), m.tag, clock, 1);
    assert r == pre + tail;
    var h1 := if AtLineStart(h) then h else h + "\n";
    var all := h + Logged(AtLineStart(h), msg, clock);
    assert all == h1 + r;
    BehindLine(h1, pre, tail);
  }

  /** One that continues a line puts nothing between the line and its first character. */
  lemma ContinuesLine(h: string, msg: string, clock: nat -> nat)
    requires !Parse(msg).starts && Parse(msg).text != "" && !AtLineStart(h)
    ensures Parse(msg).text[..1] <= Logged(AtLineStart(h), msg, clock)
  {
    hide Parse, LogPrefix, Stamp;
    var m := Parse(msg);
    var c, rest := m.text[0], m.text[1..];
    assert m.text == [c] + rest;
    RenderChar(false, c, rest, m.tag, clock, 0);
  }

  lemma ParseTag(msg: string)
    ensures IsTag(Parse(msg).tag)
  {
    PrefixIsTag(msg);
  }

  /** Whatever is printed, every line of the log begins with a level tag and a time stamp. */
  lemma LoggedKeepsTags(h: string, msg: string, clock: nat -> nat)
    requires AllTagged(h)
    ensures AllTagged(h + Logged(AtLineStart(h), msg, clock))
  {
    var m := Parse(msg);
    ParseTag(msg);
    LinesAreLines(m.text);
    hide Parse, IsTag, Lines, LineSeq, AllTagged, Render, LogPrefix;
    var h1 := if m.starts && !AtLineStart(h) then h + "\n" else h;
    if m.starts && !AtLineStart(h) {
      assert IsLine("\n");
      AppendLine(h, "\n");
    }
    assert AtLineStart(h1) == (m.starts || AtLineStart(h));
    var r := Render(AtLineStart(h1), Lines(m.text), m.tag, clock, 0);
    assert h + Logged(AtLineStart(h), msg, clock) == h1 + r;
    RenderTagged(h1, Lines(m.text), m.tag, clock, 0);
  }

  /** Over every run of messages, split over calls in any way, the whole log is tagged. */
  lemma {:induction false} RunKeepsTags(h: string, msgs: seq<string>, clocks: nat -> nat -> nat)
    requires AllTagged(h)
    ensures AllTagged(LogAfter(h, msgs, clocks))
    decreases |msgs|
  {
    if msgs != [] {
      var n := |msgs| - 1;
      RunKeepsTags(h, msgs[..n], clocks);
      LoggedKeepsTags(LogAfter(h, msgs[..n], clocks), msgs[n], clocks(n));
    }
  }

  function LogAfter(h: string, msgs: seq<string>, clocks: nat -> nat -> nat): string
    decreases |msgs|
  {
    if msgs == [] then h
    else
      var before := LogAfter(h, msgs[..|msgs| - 1], clocks);
      before + Logged(AtLineStart(before), msgs[|msgs| - 1], clocks(|msgs| - 1))
  }

  /** Rendering one character at a time, as the copy loop does. */
  lemma RenderChar(fresh_: bool, c: char, rest: string, tag: string, clock: nat -> nat, k: nat)
    ensures Render(fresh_, Lines([c] + rest), tag, clock, k) ==
            (if fresh_ then tag + Stamp(clock(k)) else "") + [c]
            + Render(c == '\n', Lines(rest), tag, clock, if fresh_ then k + 1 else k)
  {
    hide *;
    var ls, all := Lines(rest), Lines([c] + rest);
    LinesStep(c, rest);
    var k' := if fresh_ then k + 1 else k;
    var pre := if fresh_ then tag + Stamp(clock(k)) else "";
    RenderUnfold(fresh_, all, tag, clock, k);
    FirstOutIs(fresh_, all[0], tag, clock(k));
    if c == '\n' || ls == [] {
      assert all[1..] == ls;
      RenderEmpty(ls, tag, clock, k');
    } else {
      assert all[1..] == ls[1..];
      RenderUnfold(false, ls, tag, clock, k');
      FirstOutIs(false, ls[0], tag, clock(k'));
      Regroup(pre, [c], ls[0], Render(true, ls[1..], tag, clock, k'));
    }
  }

  lemma Regroup(a: string, b: string, c: string, d: string)
    ensures (a + (b + c)) + d == a + b + ("" + c + d)
  {
    assert "" + c == c;
  }

  lemma LinesStep(c: char, rest: string)
    ensures var ls := Lines(rest);
            Lines([c] + rest) == if c == '\n' || ls == [] then [[c]] + ls else [[c] + ls[0]] + ls[1..]
  {
    assert ([c] + rest)[1..] == rest;
  }

  lemma FirstOutIs(fresh_: bool, l: string, tag: string, t: nat)
    ensures FirstOut(fresh_, l, tag, t) == (if fresh_ then tag + Stamp(t) else "") + l
  {
    hide Stamp;
  }

  lemma RenderEmpty(ls: seq<string>, tag: string, clock: nat -> nat, k: nat)
    ensures ls == [] ==> Render(true, ls, tag, clock, k) == Render(false, ls, tag, clock, k)
  {
  }
}
