# autosub subtitle formatting, modelled in Dafny

This project models `src/utils.js` of autosub, the browser tool that turns
recognised speech into subtitle files. Three functions are modelled:

- `padLeft(value, length = 2)` writes a number in decimal and pads it on the
  left with `'0'`.
- `formatTimestamp(t, { format })` splits a millisecond offset into hours,
  minutes, seconds and milliseconds, then renders them as `HH:MM:SS<sep>mmm`.
  The separator `<sep>` is `'.'` for WebVTT and `','` for SRT.
- `captionToString(data)` numbers the captions from 1 and concatenates one SRT
  block per caption: the number, then `START --> END`, then the text, then a
  blank line.

The project has two files:

- `decimal.dfy` (module `Decimal`) models the two JavaScript built-ins the code
  relies on: `Number.prototype.toString()` on non-negative integers below 2^53
  (`NatToString`) and `String.prototype.padStart` with a one-character fill
  (`PadStart`).
- `utils.dfy` (module `Utils`) models the three functions.

The pure functions become Dafny functions. `captionToString` keeps its loop:
`CaptionToString` is a method whose `for` loop carries the `id` counter and the
accumulated `content`. It is proved equal to `Serialize`, a recursive definition
of the whole file text. The lemmas about `Serialize` state the append law and
what the text looks like around each caption.

Timestamps are `nat` milliseconds. `Decompose` follows what
`new Date(0, 0, 0, 0, 0, 0, t)` and its getters yield:

- the hours are `(t / 3600000) % 24`;
- the minutes are `(t / 60000) % 60`;
- the seconds are `(t / 1000) % 60`;
- the millisecond field is what line 14 leaves once those are subtracted from `t`.

Within a day (`t < 86400000`) this is plain division and remainder, and the
rendering is exactly twelve characters long. From one day on, the hours wrap
and the whole days stay in the millisecond field, so the rendering gets longer.
`FormatTimestampLength` proves both directions. A pure duration formatter
would let the hours grow past 23; the code does not, and neither does the
model, up to the largest offset a `Date` can hold (see the last section).

Caption times are non-negative seconds, possibly fractional, as in the code. The
block multiplies them by 1000, as line 27 does. `WholeMillis` then keeps the
whole milliseconds, which is what `formatTimestamp` renders of a fractional
offset: the `Date` constructor truncates its millisecond argument, and
`Math.floor` on line 13 drops the fraction of the remainder.

## Model

| member | source | states |
|---|---|---|
| Decimal.NatToString | src/utils.js:2 | `value.toString()`: a non-empty string of decimal digits, beginning with '0' exactly when the number is 0 |
| Decimal.NatToStringValue | src/utils.js:2 | reading the numeral back gives the number |
| Decimal.NatToStringInjective | src/utils.js:2 | distinct numbers have distinct numerals |
| Decimal.NatToStringLength | src/utils.js:2 | a number below 10^k has at most k digits |
| Decimal.NatToStringLengthAtLeast | src/utils.js:2 | a number of at least 10^k has more than k digits |
| Decimal.PadStart | src/utils.js:2 | `padStart(length, fill)` is `s` preceded by `length - \|s\|` copies of `fill`, or by none when `s` is already that long; its length is the larger of the two |
| Decimal.PadStartStep | src/utils.js:2 | padding one position wider puts one more fill character in front |
| Utils.PadLeft | src/utils.js:1-2 | the numeral of `value` preceded by just enough '0's to reach `length` (default 2), unchanged when already long enough; all digits |
| Utils.PadLeftValue | src/utils.js:1-2 | the padded string still denotes `value` |
| Utils.PadLeftWidth | src/utils.js:1-2 | a value below 10^length is padded to exactly `length` characters |
| Utils.PadLeftInjective | src/utils.js:1-2 | equal paddings to one width come from equal values |
| Utils.PadLeftStep | src/utils.js:1-2 | one more position of width adds one more leading '0' |
| Utils.PadLeftTwoDigits | src/utils.js:17 | `padLeft(v)` of a value below 100 is its tens digit followed by its units digit |
| Utils.PadLeftThreeDigits | src/utils.js:19 | `padLeft(v, 3)` of a value below 1000 is its hundreds, tens and units digits |
| Utils.PadLeftExampleShort | src/utils.js:1-2 | `padLeft(5)` is "05" |
| Utils.PadLeftExampleLong | src/utils.js:1-2 | `padLeft(123, 2)` is "123", unchanged |
| Utils.PadLeftExampleWidth3 | src/utils.js:1-2 | `padLeft(7, 3)` is "007" |
| Utils.FormatOption | src/utils.js:18 | the format is WebVTT if and only if the option is exactly "WebVTT"; anything else is SRT |
| Utils.Separator | src/utils.js:18 | the separator is '.' exactly for WebVTT and ',' exactly for SRT |
| Utils.DivModFields | src/utils.js:13-15 | the hours, minutes and seconds never exceed `t`, and what line 14 leaves is `t % 1000` plus the whole days |
| Utils.Decompose | src/utils.js:8-15 | hours below 24, minutes and seconds below 60; the four fields add back up to `t`; the millisecond field is `t % 1000` plus the whole days; within a day every field is in range |
| Utils.DecomposeWithinDay | src/utils.js:8-15 | below one day the fields are `t / 3600000`, `(t / 60000) % 60`, `(t / 1000) % 60` and `t % 1000` |
| Utils.ClockUnique | src/utils.js:8-15 | in-range fields that add up to `t` are the decomposition of `t`: the decomposition is unique |
| Utils.Render | src/utils.js:17-19 | the template is at least 12 characters long, with ':' at positions 2 and 5, the separator of the format at 8 and digits everywhere else |
| Utils.FormatTimestamp | src/utils.js:4-20 | the same layout for the fields of any offset `t` |
| Utils.FormatTimestampLength | src/utils.js:8-19 | the timestamp is exactly 12 characters if and only if `t` is less than one day |
| Utils.FormatTimestampFields | src/utils.js:4-20 | reading the four fields back out of a timestamp gives the decomposition of `t`, in either format |
| Utils.FormatTimestampRoundTrip | src/utils.js:4-20 | the fields read back out of a timestamp denote `t` |
| Utils.FormatTimestampInjective | src/utils.js:4-20 | distinct offsets give distinct timestamps, whatever the formats |
| Utils.FormatsDifferOnlyInSeparator | src/utils.js:17-19 | the SRT and WebVTT timestamps of one offset agree everywhere except position 8, which holds ',' in one and '.' in the other |
| Utils.FormatTimestampDigits | src/utils.js:4-20 | below one day, the timestamp is the tens and units digits of the hours, minutes and seconds and the three digits of the milliseconds, with the colons and the separator between them |
| Utils.FormatClock | src/utils.js:4-20 | the timestamp of the offset of any in-range clock reading shows that reading's own digits |
| Utils.WholeMillis | src/utils.js:8-15 | the whole milliseconds of a non-negative offset: at most the offset and less than one more |
| Utils.Block | src/utils.js:27 | the block of caption `c` numbered `index`: the numeral of `index`, a newline, the SRT timestamp of the whole milliseconds of its start, " --> ", that of its end, a newline, the text and a blank line, each piece at its own offset |
| Utils.BlockText | src/utils.js:27 | the template `${id}\n${start} --> ${end}\n${text}\n\n` places each of its pieces at its own offset, for any pieces |
| Utils.Serialize | src/utils.js:22-31 | the whole file text: the blocks of the captions in order, numbered from 1; it is empty exactly when there are no captions |
| Utils.ConcatNumberedAppend | src/utils.js:26-28 | numbered concatenation over `xs + ys` is that over `xs` followed by that over `ys`, numbered on from `\|xs\|` |
| Utils.SerializeEmpty | src/utils.js:23-30 | no captions give the empty text |
| Utils.SerializeAppend | src/utils.js:26-28 | one more caption appends exactly its block, numbered `\|xs\| + 1` |
| Utils.SerializeConcat | src/utils.js:26-28 | the text of two lists is the text of the first followed by the blocks of the second, numbered on |
| Utils.SerializePrefix | src/utils.js:26-28 | the text of a list is a prefix of the text of any longer list that begins with it |
| Utils.SerializeAt | src/utils.js:26-28 | block number `i + 1` of the text is the block of caption `i`, between the blocks of the captions before it and those after it |
| Utils.SerializeNext | src/utils.js:26-28 | the text of one more caption of `data` adds that caption's block |
| Utils.CaptionToString | src/utils.js:22-31 | the loop with its `id` counter returns the numbered SRT blocks of all captions in order (`Serialize(data)`); its invariants keep `id` equal to the number of captions done and `content` equal to their text |

## Left out

- `download` (src/utils.js:33-44) is left out: it builds a DOM link and clicks it, which is browser I/O with no result to state.
- `NatToString` writes every number out in full. From 2^53 on, JavaScript's `toString()` prints the shortest digits that read back to the same double instead: `(2 ** 60).toString()` is "1152921504606847000", not "1152921504606846976". From 10^21 on it switches to exponent notation, as in "1e+21". The formatter's own calls do not reach numbers that large.
- `FormatTimestamp` is defined for every offset. In the code, `new Date(0, 0, 0, 0, 0, 0, t)` stands for 31 December 1899 plus `t` milliseconds. Past about 8.6422 × 10^15 ms that goes beyond the ±8.64 × 10^15 ms that a `Date` can hold, and the date is invalid. Every getter then returns NaN, so the result is "NaN:NaN:NaN,NaN" for every such offset. The all-digits layout of `FormatTimestamp`, `FormatTimestampInjective` and the round trip hold only below that bound.
- Time zones are left out. `Decompose` treats `new Date(0, 0, 0, 0, 0, 0, t)` as midnight plus `t` milliseconds, with the days rolling over. That holds in a time zone without daylight-saving or offset changes during the span concerned.
- Floating point is left out. Caption times are exact non-negative reals, so the model does not capture rounding when `cap.start * 1000` is computed in binary floating point. Non-finite and negative inputs are left out too.
- Negative timestamps are left out: they are `nat`. So are non-integer values passed to `padLeft` (`Number.prototype.toString()` of a negative or fractional number), and fill strings longer than one character (`padLeft` always pads with `'0'`).
- The `options` object is left out; the model uses the value of its `format` field. `FormatOption` maps any string other than "WebVTT" to SRT. A missing `format` field is not a string and also gives SRT in the code. `formatTimestamp(t, null)` throws a TypeError when line 18 reads `options.format`, because the default object applies only when the argument is `undefined`. The model has no such error.
- The documented examples are not stated as separate lemmas:
  - `formatTimestamp(0)`, `formatTimestamp(3661001)` and `formatTimestamp(3661001, { format: 'WebVTT' })` are instances of `FormatClock`, which gives the digits of any in-range clock reading.
  - `captionToString([{ start: 0, end: 1.5, text: "Hi" }])` is an instance of `Block` and `Serialize`.

  The proof of a timestamp with fixed digits unfolds the whole rendering and is too costly to state concretely.
