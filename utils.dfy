/** The subtitle formatter of src/utils.js: zero padding, timestamp rendering in the
    SRT and WebVTT styles, and the serialiser that turns a list of captions into the
    text of an SRT file. Timestamps are whole milliseconds from midnight; caption
    times are non-negative seconds. */
module Utils {
  import opened Decimal

  // ---------------------------------------------------------------------------
  // padLeft
  // ---------------------------------------------------------------------------

  /** `padLeft(value, length = 2)`: the decimal numeral of `value`, left-padded
      with '0' to at least `length` characters. */
  function PadLeft(value: nat, length: nat := 2): (r: string)
    ensures var s := NatToString(value);
      r == Fill('0', if |s| >= length then 0 else length - |s|) + s
    ensures |r| == if |NatToString(value)| >= length then |NatToString(value)| else length
    ensures AllDigits(r)
  {
    var s := NatToString(value);
    ZerosThenDigits(if |s| >= length then 0 else length - |s|, s);
    PadStart(s, length, '0')
  }

  /** Padding does not change the number a numeral denotes. */
  lemma PadLeftValue(value: nat, length: nat)
    ensures DigitsValue(PadLeft(value, length)) == value
  {
    var s := NatToString(value);
    NatToStringValue(value);
    LeadingZerosValue(Fill('0', if |s| >= length then 0 else length - |s|), s);
  }

  /** A value below 10^length is padded to exactly `length` characters. */
  lemma PadLeftWidth(value: nat, length: nat)
    requires 1 <= length && value < Pow10(length)
    ensures |PadLeft(value, length)| == length
  {
    NatToStringLength(value, length);
  }

  /** The widths of the timestamp fields: two digits below 100, three below 1000,
      more than three from 1000 on. */
  lemma PadLeftTwoWide(value: nat)
    requires value < 100
    ensures |PadLeft(value)| == 2
  {
    PadLeftWidth(value, 2);
  }

  lemma PadLeftThreeWide(value: nat)
    requires value < 1000
    ensures |PadLeft(value, 3)| == 3
  {
    PadLeftWidth(value, 3);
  }

  lemma PadLeftPastThree(value: nat)
    requires 1000 <= value
    ensures |PadLeft(value, 3)| > 3
  {
    assert Pow10(3) == 1000;
    NatToStringLengthAtLeast(value, 3);
  }

  /** Padding to a fixed width is injective: equal paddings come from equal values,
      whether or not the values fit in the width. */
  lemma PadLeftInjective(a: nat, b: nat, length: nat)
    requires PadLeft(a, length) == PadLeft(b, length)
    ensures a == b
  {
    PadLeftValue(a, length);
    PadLeftValue(b, length);
  }

  /** Padding a numeral one position wider than it is puts one more '0' in front. */
  lemma PadLeftStep(value: nat, length: nat)
    requires |NatToString(value)| < length
    ensures PadLeft(value, length) == "0" + PadLeft(value, length - 1)
  {
    PadStartStep(NatToString(value), length, '0');
  }

  /** Width-2 padding of a number below 100 is its two decimal digits. */
  lemma PadLeftTwoDigits(v: nat)
    requires v < 100
    ensures PadLeft(v) == [DigitChar(v / 10), DigitChar(v % 10)]
  {
    if v < 10 {
      PadLeftBelow10(v);
      assert v / 10 == 0 && v % 10 == v;
    } else {
      NatToStringTwoDigits(v);
    }
  }

  lemma PadLeftBelow10(v: nat)
    requires v < 10
    ensures PadLeft(v) == [DigitChar(0), DigitChar(v)]
  {
    NatToStringOneDigit(v);
    PadLeftStep(v, 2);
  }

  /** Width-3 padding of a number below 1000 is its three decimal digits. */
  lemma PadLeftThreeDigits(v: nat)
    requires v < 1000
    ensures PadLeft(v, 3) == [DigitChar(v / 100), DigitChar((v / 10) % 10), DigitChar(v % 10)]
  {
    if v < 100 {
      PadLeftBelow100(v);
      assert v / 100 == 0 && (v / 10) % 10 == v / 10;
    } else {
      NatToStringThreeDigits(v);
    }
  }

  lemma PadLeftBelow100(v: nat)
    requires v < 100
    ensures PadLeft(v, 3) == [DigitChar(0), DigitChar(v / 10), DigitChar(v % 10)]
  {
    if v < 10 { NatToStringOneDigit(v); } else { NatToStringTwoDigits(v); }
    PadLeftStep(v, 3);
    PadLeftTwoDigits(v);
  }

  // ---------------------------------------------------------------------------
  // formatTimestamp
  // ---------------------------------------------------------------------------

  /** The milliseconds of one day, 24 * 3600000: the offsets whose rendering has
      the fixed twelve-character layout. */
  const DayMillis: nat := 86400000

  /** The `format` option: 'WebVTT', or anything else, which formats as SRT. */
  datatype Format = SRT | WebVTT

  /** The option string as the formatter reads it: only the exact string
      "WebVTT" selects WebVTT. */
  function FormatOption(name: string): (f: Format)
    ensures f == WebVTT <==> name == "WebVTT"
    ensures f == SRT <==> name != "WebVTT"
  {
    if name == "WebVTT" then WebVTT else SRT
  }

  /** The character between seconds and milliseconds: '.' for WebVTT cue timings,
      ',' for SRT. */
  function Separator(format: Format): (ch: char)
    ensures ch == '.' <==> format == WebVTT
    ensures ch == ',' <==> format == SRT
  {
    match format
    case WebVTT => '.'
    case SRT => ','
  }

  /** The four fields of a rendered timestamp. */
  datatype Clock = Clock(hours: nat, minutes: nat, seconds: nat, millis: nat)

  /** Fields within their ranges, hours being hours of one day. */
  predicate ValidClock(c: Clock) {
    c.hours < 24 && c.minutes < 60 && c.seconds < 60 && c.millis < 1000
  }

  /** The millisecond offset the fields denote. */
  function ClockMillis(c: Clock): nat {
    c.hours * 3600000 + c.minutes * 60000 + c.seconds * 1000 + c.millis
  }

  /** Hours of the day, minutes and seconds by integer division account for all
      of `t` but its last 1000 milliseconds and its whole days. */
  lemma DivModFields(t: nat)
    ensures var f := (t / 3600000) % 24 * 3600000 + (t / 60000) % 60 * 60000 + (t / 1000) % 60 * 1000;
      f <= t && t - f == t % 1000 + t / 86400000 * 86400000
  {
    var q, ms := t / 1000, t % 1000;
    assert t == 1000 * q + ms;
    var q2, s := q / 60, q % 60;
    assert q == 60 * q2 + s;
    assert t == 60000 * q2 + (1000 * s + ms);
    assert t / 60000 == q2;
    var q3, m := q2 / 60, q2 % 60;
    assert q2 == 60 * q3 + m;
    assert t == 3600000 * q3 + (60000 * m + 1000 * s + ms);
    assert t / 3600000 == q3;
    var d, h := q3 / 24, q3 % 24;
    assert q3 == 24 * d + h;
    assert t == 86400000 * d + (3600000 * h + 60000 * m + 1000 * s + ms);
    assert t / 86400000 == d;
  }

  /** The fields `formatTimestamp` reads off its `Date`. `new Date(0, 0, 0, 0, 0, 0, t)` is midnight
      plus `t` milliseconds, so its hours are those of the day (they wrap at 24), its
      minutes and seconds those of the hour and the minute; the milliseconds are
      what is left once those are subtracted from `t`, which is `t % 1000` within
      a day and also holds the whole days past it. */
  function Decompose(t: nat): (c: Clock)
    ensures c.hours < 24 && c.minutes < 60 && c.seconds < 60
    ensures ClockMillis(c) == t
    ensures c.millis == t % 1000 + t / 86400000 * 86400000
    ensures t < DayMillis ==> ValidClock(c)
  {
    var hours := (t / 3600000) % 24;
    var minutes := (t / 60000) % 60;
    var seconds := (t / 1000) % 60;
    DivModFields(t);
    var rest := t - (hours * 3600000 + minutes * 60000 + seconds * 1000);
    Clock(hours, minutes, seconds, rest)
  }

  /** Within a day the decomposition is plain division and remainder. */
  lemma DecomposeWithinDay(t: nat)
    requires t < DayMillis
    ensures var c := Decompose(t);
      && c.hours == t / 3600000 && c.minutes == (t / 60000) % 60
      && c.seconds == (t / 1000) % 60 && c.millis == t % 1000
  {
    assert t / 3600000 < 24;
    assert t / 86400000 == 0;
  }

  /** The in-range fields of an offset are unique: `Decompose` is the only
      decomposition there is. */
  lemma ClockUnique(c: Clock, t: nat)
    requires t < DayMillis
    requires ValidClock(c) && ClockMillis(c) == t
    ensures c == Decompose(t)
  {
    var r := c.minutes * 60000 + c.seconds * 1000 + c.millis;
    assert t == c.hours * 3600000 + r && r < 3600000;
    assert c.hours == t / 3600000 && c.hours % 24 == c.hours;
    assert t / 60000 == c.hours * 60 + c.minutes by {
      assert t == (c.hours * 60 + c.minutes) * 60000 + (c.seconds * 1000 + c.millis);
    }
    assert t / 1000 == c.hours * 3600 + c.minutes * 60 + c.seconds by {
      assert t == (c.hours * 3600 + c.minutes * 60 + c.seconds) * 1000 + c.millis;
    }
  }

  /** Where the pieces of `HH:MM:SS<sep>mmm` sit, for any pieces of the widths
      of the first three fields and any millisecond field. */
  lemma FieldsLayout(h: string, m: string, s: string, sep: char, ms: string)
    requires |h| == 2 && |m| == 2 && |s| == 2
    ensures var r := h + ":" + m + ":" + s + [sep] + ms;
      && |r| == 9 + |ms|
      && r[0..2] == h && r[2] == ':' && r[3..5] == m && r[5] == ':' && r[6..8] == s
      && r[8] == sep && r[9..] == ms
      && r[..8] == h + ":" + m + ":" + s
    ensures AllDigits(h) && AllDigits(m) && AllDigits(s) && AllDigits(ms) ==>
      var r := h + ":" + m + ":" + s + [sep] + ms;
      forall i | 0 <= i < |r| && i != 2 && i != 5 && i != 8 :: IsDigit(r[i])
  {
    var p := h + ":" + m + ":" + s + [sep];
    assert p == [h[0], h[1], ':', m[0], m[1], ':', s[0], s[1], sep];
    var r := p + ms;
    assert r[9..] == ms;
    assert forall i | 9 <= i < |r| :: r[i] == ms[i - 9];
  }

  /** The timestamp template filled with the fields of `c`: `HH:MM:SS<sep>mmm`,
      the millisecond field at least three digits wide. */
  function Render(c: Clock, format: Format): (r: string)
    requires c.hours < 100 && c.minutes < 100 && c.seconds < 100
    ensures |r| >= 12
    ensures r[2] == ':' && r[5] == ':'
    ensures r[8] == (if format == WebVTT then '.' else ',')
    ensures forall i | 0 <= i < |r| && i != 2 && i != 5 && i != 8 :: IsDigit(r[i])
  {
    RenderShape(c, format);
    PadLeft(c.hours) + ":" + PadLeft(c.minutes) + ":" + PadLeft(c.seconds)
      + [Separator(format)] + PadLeft(c.millis, 3)
  }

  lemma RenderShape(c: Clock, format: Format)
    requires c.hours < 100 && c.minutes < 100 && c.seconds < 100
    ensures var r := PadLeft(c.hours) + ":" + PadLeft(c.minutes) + ":" + PadLeft(c.seconds)
        + [Separator(format)] + PadLeft(c.millis, 3);
      && |r| >= 12 && r[2] == ':' && r[5] == ':' && r[8] == Separator(format)
      && forall i | 0 <= i < |r| && i != 2 && i != 5 && i != 8 :: IsDigit(r[i])
  {
    PadLeftTwoWide(c.hours);
    PadLeftTwoWide(c.minutes);
    PadLeftTwoWide(c.seconds);
    TemplateShape(PadLeft(c.hours), PadLeft(c.minutes), PadLeft(c.seconds), Separator(format), PadLeft(c.millis, 3));
  }

  /** The shape of the template for digit fields of the right widths. */
  lemma TemplateShape(h: string, m: string, s: string, sep: char, ms: string)
    requires |h| == 2 && |m| == 2 && |s| == 2 && |ms| >= 3
    requires AllDigits(h) && AllDigits(m) && AllDigits(s) && AllDigits(ms)
    ensures var r := h + ":" + m + ":" + s + [sep] + ms;
      && |r| >= 12 && r[2] == ':' && r[5] == ':' && r[8] == sep
      && forall i | 0 <= i < |r| && i != 2 && i != 5 && i != 8 :: IsDigit(r[i])
  {
    FieldsLayout(h, m, s, sep, ms);
  }

  /** `formatTimestamp(t, { format })`: the fields of `t` in the template. */
  function FormatTimestamp(t: nat, format: Format := SRT): (r: string)
    ensures |r| >= 12
    ensures r[2] == ':' && r[5] == ':'
    ensures r[8] == (if format == WebVTT then '.' else ',')
    ensures forall i | 0 <= i < |r| && i != 2 && i != 5 && i != 8 :: IsDigit(r[i])
  {
    Render(Decompose(t), format)
  }

  /** A timestamp is exactly twelve characters long when the offset is less than a
      day; from one day on, the days spill into the millisecond field. */
  lemma FormatTimestampLength(t: nat, format: Format)
    ensures |FormatTimestamp(t, format)| == 12 <==> t < DayMillis
  {
    var c := Decompose(t);
    PadLeftTwoWide(c.hours);
    PadLeftTwoWide(c.minutes);
    PadLeftTwoWide(c.seconds);
    FieldsLayout(PadLeft(c.hours), PadLeft(c.minutes), PadLeft(c.seconds), Separator(format), PadLeft(c.millis, 3));
    if t < DayMillis {
      PadLeftThreeWide(c.millis);
    } else {
      PadLeftPastThree(c.millis);
    }
  }

  /** The numbers written in the four fields of a rendered timestamp; defined on
      any string with its layout, the millisecond field running to the end. */
  function TimestampFields(s: string): (c: Clock)
    requires |s| >= 12
    requires forall i | 0 <= i < |s| && i != 2 && i != 5 && i != 8 :: IsDigit(s[i])
  {
    Clock(DigitsValue(s[0..2]), DigitsValue(s[3..5]), DigitsValue(s[6..8]), DigitsValue(s[9..]))
  }

  /** The rendering of the offset of an in-range clock reading shows that
      reading's own digits. */
  lemma FormatClock(c: Clock, format: Format)
    requires ValidClock(c)
    ensures ClockMillis(c) < DayMillis
    ensures FormatTimestamp(ClockMillis(c), format) == [
      DigitChar(c.hours / 10), DigitChar(c.hours % 10), ':',
      DigitChar(c.minutes / 10), DigitChar(c.minutes % 10), ':',
      DigitChar(c.seconds / 10), DigitChar(c.seconds % 10), Separator(format),
      DigitChar(c.millis / 100), DigitChar((c.millis / 10) % 10), DigitChar(c.millis % 10)]
  {
    ClockUnique(c, ClockMillis(c));
    FormatTimestampDigits(ClockMillis(c), format);
  }

  /** The twelve characters of a timestamp, one by one: the two digits of the
      hours, of the minutes and of the seconds, and the three digits of the
      milliseconds, with the colons and the separator between them. */
  lemma FormatTimestampDigits(t: nat, format: Format)
    requires t < DayMillis
    ensures var c := Decompose(t);
      FormatTimestamp(t, format) == [
        DigitChar(c.hours / 10), DigitChar(c.hours % 10), ':',
        DigitChar(c.minutes / 10), DigitChar(c.minutes % 10), ':',
        DigitChar(c.seconds / 10), DigitChar(c.seconds % 10), Separator(format),
        DigitChar(c.millis / 100), DigitChar((c.millis / 10) % 10), DigitChar(c.millis % 10)]
  {
    var c := Decompose(t);
    PadLeftTwoDigits(c.hours);
    PadLeftTwoDigits(c.minutes);
    PadLeftTwoDigits(c.seconds);
    PadLeftThreeDigits(c.millis);
    var h0, h1 := DigitChar(c.hours / 10), DigitChar(c.hours % 10);
    var m0, m1 := DigitChar(c.minutes / 10), DigitChar(c.minutes % 10);
    var s0, s1 := DigitChar(c.seconds / 10), DigitChar(c.seconds % 10);
    var u0, u1, u2 := DigitChar(c.millis / 100), DigitChar((c.millis / 10) % 10), DigitChar(c.millis % 10);
    assert [h0, h1] + ":" + [m0, m1] + ":" + [s0, s1] + [Separator(format)] + [u0, u1, u2]
      == [h0, h1, ':', m0, m1, ':', s0, s1, Separator(format), u0, u1, u2];
  }

  /** Reading the fields back out of a rendered timestamp gives the decomposition
      of the offset, in either format. */
  lemma FormatTimestampFields(t: nat, format: Format)
    ensures TimestampFields(FormatTimestamp(t, format)) == Decompose(t)
  {
    var c := Decompose(t);
    PadLeftTwoWide(c.hours);
    PadLeftTwoWide(c.minutes);
    PadLeftTwoWide(c.seconds);
    FieldsLayout(PadLeft(c.hours), PadLeft(c.minutes), PadLeft(c.seconds), Separator(format), PadLeft(c.millis, 3));
    PadLeftValue(c.hours, 2);
    PadLeftValue(c.minutes, 2);
    PadLeftValue(c.seconds, 2);
    PadLeftValue(c.millis, 3);
  }

  /** The offset a rendered timestamp denotes is the offset it was rendered from. */
  lemma FormatTimestampRoundTrip(t: nat, format: Format)
    ensures ClockMillis(TimestampFields(FormatTimestamp(t, format))) == t
  {
    FormatTimestampFields(t, format);
  }

  /** Distinct offsets give distinct timestamps, whatever the formats. */
  lemma FormatTimestampInjective(t1: nat, f1: Format, t2: nat, f2: Format)
    requires FormatTimestamp(t1, f1) == FormatTimestamp(t2, f2)
    ensures t1 == t2
  {
    FormatTimestampRoundTrip(t1, f1);
    FormatTimestampRoundTrip(t2, f2);
  }

  /** The SRT and WebVTT renderings of one offset differ at the separator only. */
  lemma FormatsDifferOnlyInSeparator(t: nat)
    ensures var srt, vtt := FormatTimestamp(t, SRT), FormatTimestamp(t, WebVTT);
      && |srt| == |vtt|
      && srt[..8] == vtt[..8] && srt[9..] == vtt[9..]
      && srt[8] == ',' && vtt[8] == '.'
  {
    var c := Decompose(t);
    PadLeftTwoWide(c.hours);
    PadLeftTwoWide(c.minutes);
    PadLeftTwoWide(c.seconds);
    FieldsLayout(PadLeft(c.hours), PadLeft(c.minutes), PadLeft(c.seconds), ',', PadLeft(c.millis, 3));
    FieldsLayout(PadLeft(c.hours), PadLeft(c.minutes), PadLeft(c.seconds), '.', PadLeft(c.millis, 3));
  }

  // ---------------------------------------------------------------------------
  // captionToString
  // ---------------------------------------------------------------------------

  /** A caption time: a non-negative number of seconds, possibly fractional. */
  type Seconds = x: real | 0.0 <= x

  /** A caption: start and end times in seconds, and its text. */
  datatype Caption = Caption(start: Seconds, end: Seconds, text: string)

  /** The whole milliseconds of a non-negative offset, which is what
      `formatTimestamp` renders of a fractional one: `new Date` truncates its
      millisecond argument and `Math.floor` drops the fraction of what is left once
      the hours, minutes and seconds are subtracted. */
  function WholeMillis(t: real): (n: nat)
    requires 0.0 <= t
    ensures n as real <= t < n as real + 1.0
  {
    t.Floor
  }

  /** `r` is laid out as a block: the index `n`, a newline, the start time `a`, the
      arrow, the end time `b`, a newline, the text and the blank line, each at its
      own offset. */
  predicate BlockLines(r: string, n: string, a: string, b: string, text: string) {
    var i, j := |n| + 1 + |a|, |n| + 6 + |a| + |b|;
    && |r| == j + |text| + 3
    && r[..|n|] == n && r[|n|] == '\n'
    && r[|n| + 1..i] == a && r[i..i + 5] == " --> " && r[i + 5..j] == b
    && r[j] == '\n' && r[j + 1..|r| - 2] == text && r[|r| - 2..] == "\n\n"
  }

  /** The SRT block of the caption numbered `index`: the index line, the timing
      line with the start and end times converted to whole milliseconds and
      rendered in the SRT style, the text and a blank line. */
  function Block(index: nat, c: Caption): (r: string)
    ensures BlockLines(r, NatToString(index), FormatTimestamp(WholeMillis(c.start * 1000.0)),
      FormatTimestamp(WholeMillis(c.end * 1000.0)), c.text)
  {
    BlockText(NatToString(index), FormatTimestamp(WholeMillis(c.start * 1000.0)),
      FormatTimestamp(WholeMillis(c.end * 1000.0)), c.text)
  }

  /** The block template `n\na --> b\ntext\n\n` on its pieces. */
  function BlockText(n: string, a: string, b: string, text: string): (r: string)
    ensures BlockLines(r, n, a, b, text)
  {
    LinesLayout(n, a, b, text);
    n + "\n" + a + " --> " + b + "\n" + text + "\n\n"
  }

  /** Where each piece of the block template sits, for any pieces. */
  lemma LinesLayout(n: string, a: string, b: string, text: string)
    ensures BlockLines(n + "\n" + a + " --> " + b + "\n" + text + "\n\n", n, a, b, text)
  {
    var q := n + "\n" + a + " --> ";
    var p := q + b + "\n";
    var r := p + text + "\n\n";
    assert r[..|p|] == p && r[|p|..|r| - 2] == text && r[|r| - 2..] == "\n\n";
    assert p[..|q|] == q && p[|q|..|p| - 1] == b;
    assert q[..|n| + 1 + |a|] == n + "\n" + a && q[|n| + 1 + |a|..] == " --> ";
    var na := n + "\n" + a;
    assert na[..|n|] == n && na[|n| + 1..] == a;
  }

  /** `render(first, xs[0]) + render(first + 1, xs[1]) + ...`: the pieces of `xs`,
      in order, numbered from `first` on. */
  function ConcatNumbered<T>(render: (nat, T) -> string, xs: seq<T>, first: nat): string
    decreases |xs|
  {
    if xs == [] then "" else render(first, xs[0]) + ConcatNumbered(render, xs[1..], first + 1)
  }

  /** Numbered concatenation distributes over `+`, the numbering of the second part
      going on from the first. */
  lemma {:induction false} ConcatNumberedAppend<T>(render: (nat, T) -> string, xs: seq<T>, ys: seq<T>, first: nat)
    ensures ConcatNumbered(render, xs + ys, first)
      == ConcatNumbered(render, xs, first) + ConcatNumbered(render, ys, first + |xs|)
    decreases |xs|
  {
    if xs == [] {
      assert xs + ys == ys;
    } else {
      assert (xs + ys)[0] == xs[0] && (xs + ys)[1..] == xs[1..] + ys;
      ConcatNumberedAppend(render, xs[1..], ys, first + 1);
    }
  }

  /** The whole SRT text of `xs`: its blocks numbered 1, 2, ... */
  function Serialize(xs: seq<Caption>): (r: string)
    ensures r == "" <==> xs == []
  {
    if xs == [] then "" else
      var first := Block(1, xs[0]);
      assert ConcatNumbered(Block, xs, 1) == first + ConcatNumbered(Block, xs[1..], 2);
      assert |first| >= 9;
      ConcatNumbered(Block, xs, 1)
  }

  /** No captions, no text. */
  lemma SerializeEmpty()
    ensures Serialize([]) == ""
  {
  }

  /** Appending a caption appends exactly its block, numbered one past the
      captions before it. */
  lemma SerializeAppend(xs: seq<Caption>, c: Caption)
    ensures Serialize(xs + [c]) == Serialize(xs) + Block(|xs| + 1, c)
  {
    ConcatNumberedAppend(Block, xs, [c], 1);
    assert [c][1..] == [];
    assert ConcatNumbered(Block, [c], |xs| + 1) == Block(|xs| + 1, c) + "";
    assert Block(|xs| + 1, c) + "" == Block(|xs| + 1, c);
  }

  /** The serialisation of a concatenation is that of its first part followed by
      the blocks of the second part, numbered on from `|xs| + 1`. */
  lemma SerializeConcat(xs: seq<Caption>, ys: seq<Caption>)
    ensures Serialize(xs + ys) == Serialize(xs) + ConcatNumbered(Block, ys, |xs| + 1)
  {
    ConcatNumberedAppend(Block, xs, ys, 1);
  }

  /** Serialisation of a longer list extends that of the shorter one. */
  lemma SerializePrefix(xs: seq<Caption>, ys: seq<Caption>)
    ensures Serialize(xs) <= Serialize(xs + ys)
  {
    SerializeConcat(xs, ys);
  }

  /** Block number `i + 1` of the serialisation is the block of `xs[i]`: the
      blocks before it are those of `xs[..i]`, the ones after it are those of
      `xs[i + 1..]`, numbered on. */
  lemma SerializeAt(xs: seq<Caption>, i: nat)
    requires i < |xs|
    ensures Serialize(xs)
      == Serialize(xs[..i]) + Block(i + 1, xs[i]) + ConcatNumbered(Block, xs[i + 1..], i + 2)
  {
    ConcatNumberedAt(Block, xs, i, 1);
  }

  lemma ConcatNumberedAt<T>(render: (nat, T) -> string, xs: seq<T>, i: nat, first: nat)
    requires i < |xs|
    ensures ConcatNumbered(render, xs, first)
      == ConcatNumbered(render, xs[..i], first) + render(first + i, xs[i])
         + ConcatNumbered(render, xs[i + 1..], first + i + 1)
  {
    assert xs == xs[..i] + ([xs[i]] + xs[i + 1..]);
    ConcatNumberedAppend(render, xs[..i], [xs[i]] + xs[i + 1..], first);
    ConcatNumberedAppend(render, [xs[i]], xs[i + 1..], first + i);
    assert [xs[i]][1..] == [];
    var before, here, after := ConcatNumbered(render, xs[..i], first), render(first + i, xs[i]),
      ConcatNumbered(render, xs[i + 1..], first + i + 1);
    assert before + (here + after) == before + here + after;
  }

  /** `captionToString(data)`: appends one block per caption, in order, with a
      running 1-based counter. */
  method CaptionToString(data: seq<Caption>) returns (content: string)
    ensures content == Serialize(data)
  {
    content := "";
    var id: nat := 0;
    for k := 0 to |data|
      invariant id == k
      invariant content == Serialize(data[..k])
    {
      var cap := data[k];
      id := id + 1;
      SerializeNext(data, k);
      content := content + Block(id, cap);
    }
    assert data[..|data|] == data;
  }

  /** The serialisation of a prefix one caption longer adds that caption's block. */
  lemma SerializeNext(xs: seq<Caption>, k: nat)
    requires k < |xs|
    ensures Serialize(xs[..k + 1]) == Serialize(xs[..k]) + Block(k + 1, xs[k])
  {
    var prefix := xs[..k];
    assert xs[..k + 1] == prefix + [xs[k]];
    SerializeAppend(prefix, xs[k]);
  }


  // ---------------------------------------------------------------------------
  // Examples
  // ---------------------------------------------------------------------------

  /** The characters of the ten digits. */
  lemma DigitChars()
    ensures DigitChar(0) == '0' && DigitChar(1) == '1' && DigitChar(2) == '2'
    ensures DigitChar(3) == '3' && DigitChar(4) == '4' && DigitChar(5) == '5'
    ensures DigitChar(6) == '6' && DigitChar(7) == '7' && DigitChar(8) == '8'
    ensures DigitChar(9) == '9'
  {
  }

  lemma PadLeftExampleShort()
    ensures PadLeft(5) == "05"
  {
    PadLeftTwoDigits(5);
    DigitChars();
  }

  lemma PadLeftExampleLong()
    ensures PadLeft(123, 2) == "123"
  {
    NatToStringThreeDigits(123);
    DigitChars();
  }

  lemma PadLeftExampleWidth3()
    ensures PadLeft(7, 3) == "007"
  {
    PadLeftThreeDigits(7);
    DigitChars();
  }
}
