# k4l-video-trimmer: the timecode and label layer of `TrimVideoUtils`

The video trimmer cuts a clip by running an external ffmpeg binary. It does
not re-encode: it passes `-c copy`. Before the call, `TrimVideoUtils` turns
the millisecond positions the user picked into text:

- `convertSecondsToTime` writes a second count as an ffmpeg timecode:
  - `"00:00"` for a count of zero or less;
  - `"00:MM:SS"` below one hour;
  - `"HH:MM:SS"` up to 99 hours;
  - the clamp value `"99:59:59"` beyond that.
- `unitFormat` gives the values 0..9 a leading zero.
- `genVideoUsingMp4Parser2` puts the start and duration timecodes into the
  nine-element argument array `-ss START -i SRC -t DURATION -c copy DST`.
- `startTrim` names the output file `dst + "MP4_" + stamp + ".mp4"`.
- `stringForTime` writes the UI label: `H:MM:SS` when there are whole hours,
  `MM:SS` otherwise.

The model has three modules:

- `JavaInts` (`java_ints.dfy`) states Java's integer semantics over unbounded
  integers:
  - division and remainder truncate toward zero;
  - the narrowing cast `(int)` keeps the low 32 bits;
  - `long` arithmetic wraps modulo 2^64.
- `Decimal` (`decimal.dfy`) models decimal rendering, that is `Integer.toString`,
  `"" + i`, `%d` and `%0Nd`, together with the reading of digit strings
  back into numbers.
- `TrimVideoUtils` (`trim_video_utils.dfy`) models the operations themselves.
  It also has a reader for `[H...:]MM:SS` clock text (`ParseClockTime`) and a
  reader for the argument array (`ParseTrimCommand`). The round-trip
  properties are stated against these two readers.

## Model

Source paths are relative to the repository root.

| member | source | states |
|---|---|---|
| JavaInts.Quot | k4l-video-trimmer/src/main/java/life/knowledge4/videotrimmer/utils/TrimVideoUtils.java:137-141 | Java's `/` by a positive divisor leaves a remainder `a - b*q` in [0, b) for a non-negative dividend, so it is floor division there. For a negative dividend the remainder lies in (-b, 0]: the quotient rounds toward zero. |
| JavaInts.Rem | k4l-video-trimmer/src/main/java/life/knowledge4/videotrimmer/utils/TrimVideoUtils.java:139-140 | Java's `%` completes `a == b * (a / b) + a % b`. It lies in [0, b) for a non-negative dividend and in (-b, 0] for a negative one. |
| JavaInts.ToInt | k4l-video-trimmer/src/main/java/life/knowledge4/videotrimmer/utils/TrimVideoUtils.java:111 | The cast `(int)` yields an int that is congruent to its operand modulo 2^32. It leaves an operand already in int range unchanged. |
| JavaInts.ToLong | k4l-video-trimmer/src/main/java/life/knowledge4/videotrimmer/utils/TrimVideoUtils.java:61 | `long` subtraction yields a long congruent to the exact difference modulo 2^64. It is exact when the difference is in range. |
| Decimal.IntToString | k4l-video-trimmer/src/main/java/life/knowledge4/videotrimmer/utils/TrimVideoUtils.java:130-132 | `Integer.toString(i)` and `"" + i` are non-empty. They are all digits exactly when `i >= 0`, start with `-` exactly when `i < 0`, and have no leading zero when `i > 0`. |
| Decimal.IntToStringRoundTrip | k4l-video-trimmer/src/main/java/life/knowledge4/videotrimmer/utils/TrimVideoUtils.java:130-132 | A non-negative int renders as digits that read back as the int, one digit exactly when it is below ten (so 0 is `"0"`). A negative int renders as a minus sign followed by the digits of its magnitude, with no leading zero. |
| Decimal.NatToStringRoundTrip | k4l-video-trimmer/src/main/java/life/knowledge4/videotrimmer/utils/TrimVideoUtils.java:132 | The shortest digit string of a natural number denotes that number. The proof is by induction on the number of digits. |
| Decimal.FormatZeroPadded | k4l-video-trimmer/src/main/java/life/knowledge4/videotrimmer/utils/TrimVideoUtils.java:145-147 | `%0Nd` is at least N characters long. For `i >= 0` it is digits denoting `i`; for `i` in 0..99 and width 2 it is exactly the tens digit followed by the units digit. A negative value starts with `-`. |
| Decimal.FormatZeroPaddedDenotes | k4l-video-trimmer/src/main/java/life/knowledge4/videotrimmer/utils/TrimVideoUtils.java:145-147 | `%0Nd` is exactly as long as the wider of N and the unpadded `%d` text, sign included. After the minus sign of a negative value come digits denoting its magnitude. |
| TrimVideoUtils.UnitFormat | k4l-video-trimmer/src/main/java/life/knowledge4/videotrimmer/utils/TrimVideoUtils.java:127-134 | For 0..99 the result is exactly two digits, the tens digit and then the units digit, and it denotes the value. A negative value gives a minus sign and at least two characters. |
| TrimVideoUtils.UnitFormatDenotes | k4l-video-trimmer/src/main/java/life/knowledge4/videotrimmer/utils/TrimVideoUtils.java:127-134 | Every non-negative value is written with at least two digits that denote it, with a leading zero exactly when the value is below ten. A negative value is written as a minus sign followed by the digits of its magnitude, with no leading zero. |
| TrimVideoUtils.UnitFormatIsFormat02d | k4l-video-trimmer/src/main/java/life/knowledge4/videotrimmer/utils/TrimVideoUtils.java:127-134 | `unitFormat(i)` is the same text as `String.format("%02d", i)` for every int, negative ones included. |
| TrimVideoUtils.ConvertSecondsToTimeAsWritten | k4l-video-trimmer/src/main/java/life/knowledge4/videotrimmer/utils/TrimVideoUtils.java:103-125 | This is the method with the long narrowed to int before `/ 60` and `% 60`. For every count up to 2^31 - 1 it returns the same timecode as the corrected definition. |
| TrimVideoUtils.ConvertSecondsToTime | k4l-video-trimmer/src/main/java/life/knowledge4/videotrimmer/utils/TrimVideoUtils.java:103-125 | A count of zero or less gives exactly `"00:00"`. Every positive count gives 8 characters with `:` at indices 2 and 5. Below one hour the text starts with `"00:"`, and past 99:59:59 it is exactly `"99:59:59"`. |
| TrimVideoUtils.TimecodeRoundTrip | k4l-video-trimmer/src/main/java/life/knowledge4/videotrimmer/utils/TrimVideoUtils.java:103-125 | Reading any timecode back gives the count clamped to [0, 99:59:59]. So from 1 to 99:59:59 the fields are in range and `h*3600 + m*60 + s` reconstructs the input. |
| TrimVideoUtils.TimecodeSaturates | k4l-video-trimmer/src/main/java/life/knowledge4/videotrimmer/utils/TrimVideoUtils.java:116-118 | The timecode is `"99:59:59"` if and only if the count is at least 99:59:59. |
| TrimVideoUtils.TimecodeAtMax | k4l-video-trimmer/src/main/java/life/knowledge4/videotrimmer/utils/TrimVideoUtils.java:116-121 | Exactly 99:59:59 seconds falls through the clamp test (hour 99) and is written `"99:59:59"` by the field branch. |
| TrimVideoUtils.ParseSaturated | k4l-video-trimmer/src/main/java/life/knowledge4/videotrimmer/utils/TrimVideoUtils.java:118 | The clamp value `"99:59:59"` denotes 359999 seconds. |
| TrimVideoUtils.CastBeforeDivisionWraps | k4l-video-trimmer/src/main/java/life/knowledge4/videotrimmer/utils/TrimVideoUtils.java:111 | 2^32 + 5 seconds gives `"00:00:05"` as written, where the clamp intends `"99:59:59"`. |
| TrimVideoUtils.TrimCommand | k4l-video-trimmer/src/main/java/life/knowledge4/videotrimmer/utils/TrimVideoUtils.java:60-80 | For any long start and end, the argument array has 9 elements with `-ss`, `-i` SRC, `-t`, `-c`, `copy` in their places and the destination path last. For `startMs >= 0` the start is the timecode of `startMs / 1000`; for `0 <= startMs <= endMs` the duration is the timecode of `(endMs - startMs) / 1000`. A start or duration under one second, or negative, is written `"00:00"`. |
| TrimVideoUtils.StreamCopyArgs | k4l-video-trimmer/src/main/java/life/knowledge4/videotrimmer/utils/TrimVideoUtils.java:74-80 | The array literal holds each given piece at its own index and the fixed flags in between. |
| TrimVideoUtils.TrimCommandRoundTrip | k4l-video-trimmer/src/main/java/life/knowledge4/videotrimmer/utils/TrimVideoUtils.java:60-80 | For 0 <= startMs <= endMs, reading the array back gives the source and the destination. It also gives the whole-second start `startMs / 1000` and duration `(endMs - startMs) / 1000`, each clamped to 99:59:59. |
| TrimVideoUtils.TrimCommandTenSecondsAtTwenty | k4l-video-trimmer/src/main/java/life/knowledge4/videotrimmer/utils/TrimVideoUtils.java:63-80 | Cutting 20 s to 30 s asks for `-ss 00:00:20` and `-t 00:00:10`, the example in the method's own comment. |
| TrimVideoUtils.TrimCommandSubSecond | k4l-video-trimmer/src/main/java/life/knowledge4/videotrimmer/utils/TrimVideoUtils.java:108-109 | A range shorter than one second, starting at zero, asks for the two-field `"00:00"` as both start and duration. |
| TrimVideoUtils.TrimCommandPastNinetyNineHours | k4l-video-trimmer/src/main/java/life/knowledge4/videotrimmer/utils/TrimVideoUtils.java:117-118 | A duration of 100 hours and one second is passed as `"99:59:59"`. |
| TrimVideoUtils.OutputFilePath | k4l-video-trimmer/src/main/java/life/knowledge4/videotrimmer/utils/TrimVideoUtils.java:49-51 | The path is the destination prefix, then `MP4_`, the time stamp, and `.mp4`. Each part is recovered by its slice, and the length is the sum of the parts. |
| TrimVideoUtils.DisplayFields | k4l-video-trimmer/src/main/java/life/knowledge4/videotrimmer/utils/TrimVideoUtils.java:137-141 | For a non-negative time, hours are non-negative and minutes and seconds are in [0, 59]. Hours are positive exactly from 3600000 ms on. |
| TrimVideoUtils.DisplayFieldsDenote | k4l-video-trimmer/src/main/java/life/knowledge4/videotrimmer/utils/TrimVideoUtils.java:137-141 | For a non-negative time, `hours*3600 + minutes*60 + seconds == timeMs / 1000`. |
| TrimVideoUtils.StringForTime | k4l-video-trimmer/src/main/java/life/knowledge4/videotrimmer/utils/TrimVideoUtils.java:136-149 | Below one hour a non-negative time gives 5 characters with `:` at index 2. From one hour on it gives at least 7 characters, and the first is not `0`. |
| TrimVideoUtils.ClockLabel | k4l-video-trimmer/src/main/java/life/knowledge4/videotrimmer/utils/TrimVideoUtils.java:143-148 | With minutes and seconds in [0, 59], the `%02d:%02d` form is 5 characters with `:` at index 2. The `%d:%02d:%02d` form for positive hours is at least 7 characters and starts with a non-zero digit. |
| TrimVideoUtils.StringForTimeShape | k4l-video-trimmer/src/main/java/life/knowledge4/videotrimmer/utils/TrimVideoUtils.java:136-149 | Below one hour the label is two two-digit fields with `:` at index 2. From one hour on the colons stand 6 and 3 characters from the end, whatever the width of the hours, and the hours have no leading zero. |
| TrimVideoUtils.StringForTimeRoundTrip | k4l-video-trimmer/src/main/java/life/knowledge4/videotrimmer/utils/TrimVideoUtils.java:136-149 | For every non-negative int, reading the label back gives the whole seconds `timeMs / 1000`. |
| TrimVideoUtils.StringForTimeOneHour | k4l-video-trimmer/src/main/java/life/knowledge4/videotrimmer/utils/TrimVideoUtils.java:144-145 | 3661000 ms is labelled `1:01:01`, with no zero before a one-digit hour. |
| TrimVideoUtils.StringForTimeOneMinute | k4l-video-trimmer/src/main/java/life/knowledge4/videotrimmer/utils/TrimVideoUtils.java:146-147 | 61000 ms is labelled `01:01`. |
| TrimVideoUtils.StringForTimeNegative | k4l-video-trimmer/src/main/java/life/knowledge4/videotrimmer/utils/TrimVideoUtils.java:137-147 | -61000 ms has minutes and seconds -1 under Java's truncating `/` and `%`, and `%02d` writes -1 as `"-1"`, so the label is `-1:-1`. |
| TrimVideoUtils.StringForTimeNegativeHours | k4l-video-trimmer/src/main/java/life/knowledge4/videotrimmer/utils/TrimVideoUtils.java:141-147 | A negative hour count is never shown: -7200000 ms is -2 hours with no minutes or seconds, fails `hours > 0` and is labelled `00:00`. |

## Left out

- `startTrim` reads the wall clock with `SimpleDateFormat("yyyyMMdd_HHmmss")` and `new Date()`. The stamp is a parameter of `OutputFilePath`, so its format is not modelled.
- `startTrim` also creates the parent directory (`mkdirs`) and logs. Both are I/O.
- Running ffmpeg (`FFmpeg.getInstance(...).execute`) is a call into an external asynchronous library, and so is loading its binary.
- The callback relay (`onStart`, `onSuccess`, `onFailure` forwarded to the listener) exists only inside that asynchronous call.
- The swallowed `FFmpegCommandAlreadyRunningException` is a concurrency guard owned by the external library.
- The Android screens of the sample app are platform plumbing with no logic of their own.
- `java.util.Formatter` is modelled only for `%d` and `%0Nd` with ASCII digits. The default locale's digit set and grouping are not modelled.
- `File.getAbsolutePath()` is taken as the path text itself: `TrimCommand` receives the source and destination paths already absolute.
- TrimVideoUtils.TrimCommand: builds its timecodes with the corrected `ConvertSecondsToTime`, so for a start or duration above 2^31 - 1 seconds it does not reproduce the wrapped text the as-written method would pass; `ConvertSecondsToTimeAsWritten` models that text.
- TrimVideoUtils.StringForTimeRoundTrip: stated for non-negative times only, because a negative time has no clock reading; the negative behaviour is shown by `StringForTimeNegative` and by `FormatZeroPaddedDenotes`.

## Findings

| source | as written | input that shows it | evidently intended | confidence | as-written member | corrected member |
|---|---|---|---|---|---|---|
| k4l-video-trimmer/src/main/java/life/knowledge4/videotrimmer/utils/TrimVideoUtils.java:111 | `(int) seconds / 60` narrows the long to an int before dividing, and line 113 does the same before `% 60`, so counts above 2^31 - 1 wrap around | `seconds = 4294967301` (2^32 + 5) gives `"00:00:05"` | divide the whole count, so that anything past 99 hours is clamped to `"99:59:59"` | not executed | TrimVideoUtils.CastBeforeDivisionWraps | TrimVideoUtils.ConvertSecondsToTime |
