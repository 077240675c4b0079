/** The pure translation layer of the trimmer's utility class: millisecond
    positions become the timecodes handed to an external ffmpeg binary, the
    argument vector of a stream-copy trim, the name of the output file, and the
    time labels shown in the UI. */
module TrimVideoUtils {
  import opened JavaInts
  import opened Decimal

  datatype Option<T> = None | Some(value: T)

  /** The second count of the clamp value "99:59:59". */
  const MAX_TIMECODE_SECONDS: nat := 99 * 3600 + 59 * 60 + 59

  /** What a timecode of `seconds` denotes: non-positive counts read as zero,
      counts past 99:59:59 saturate there. */
  function ClampTimecode(seconds: int): nat
  {
    if seconds <= 0 then 0
    else if seconds > MAX_TIMECODE_SECONDS then MAX_TIMECODE_SECONDS
    else seconds
  }

  // ---------------------------------------------------------------------------
  // Two-digit fields

  /** `unitFormat`: a value 0..9 gets a leading zero, any other value is written
      in plain decimal (a negative value with its minus sign). */
  function UnitFormat(i: int): (r: string)
    ensures 0 <= i <= 99 ==> r == [DigitChar(i / 10), DigitChar(i % 10)]
    ensures 0 <= i <= 99 ==> |r| == 2 && PairAt(r, 0) && PairValueAt(r, 0) == i
    ensures i < 0 ==> |r| >= 2 && r[0] == '-'
  {
    if 0 <= i < 10 then
      "0" + IntToString(i)
    else
      assert 10 <= i <= 99 ==> NatToString(i) == [DigitChar(i / 10), DigitChar(i % 10)];
      IntToString(i)
  }

  /** Every non-negative value is written with at least two digits that denote it,
      and only values below ten get a leading zero; a negative value is a minus
      sign followed by the digits of its magnitude, with no leading zero. */
  lemma UnitFormatDenotes(i: int)
    ensures i >= 0 ==> |UnitFormat(i)| >= 2 && AllDigits(UnitFormat(i)) && DigitsValue(UnitFormat(i)) == i
    ensures i >= 0 ==> (UnitFormat(i)[0] == '0' <==> i < 10)
    ensures i < 0 ==> var r := UnitFormat(i);
      |r| >= 2 && r[0] == '-' && AllDigits(r[1..]) && DigitsValue(r[1..]) == -i && r[1] != '0'
  {
    if i < 0 {
      IntToStringRoundTrip(i);
    } else if i < 10 {
      PairDigitsValue(UnitFormat(i));
    } else {
      NatToStringRoundTrip(i);
    }
  }

  /** `unitFormat` writes exactly what `Formatter`'s `%02d` writes, for every int. */
  lemma UnitFormatIsFormat02d(i: int)
    ensures UnitFormat(i) == FormatZeroPadded(i, 2)
  {
    if i < 0 {
      assert |NatToString(-i)| >= 1;
    }
  }

  // ---------------------------------------------------------------------------
  // Reading a clock time back

  /** The seconds a `[H...:]MM:SS` clock text denotes: minutes and seconds are
      exactly two digits below 60, the optional hours field is one or more
      digits; `None` for any other text. */
  function ParseClockTime(r: string): Option<nat>
  {
    var n := |r|;
    if n >= 5 && PairAt(r, n - 5) && r[n - 3] == ':' && PairAt(r, n - 2) then
      var mm := PairValueAt(r, n - 5);
      var ss := PairValueAt(r, n - 2);
      if mm >= 60 || ss >= 60 then None
      else if n == 5 then Some(mm * 60 + ss)
      else if n >= 7 && r[n - 6] == ':' && AllDigits(r[..n - 6]) then
        Some(DigitsValue(r[..n - 6]) * 3600 + mm * 60 + ss)
      else None
    else None
  }

  /** Reading `hh:mm:ss` built from three fields gives back the total they denote. */
  lemma ParseClockOfFields(hh: string, mm: string, ss: string, total: nat)
    requires |hh| >= 1 && AllDigits(hh)
    requires |mm| == 2 && PairAt(mm, 0) && PairValueAt(mm, 0) < 60
    requires |ss| == 2 && PairAt(ss, 0) && PairValueAt(ss, 0) < 60
    requires DigitsValue(hh) * 3600 + PairValueAt(mm, 0) * 60 + PairValueAt(ss, 0) == total
    ensures ParseClockTime(hh + ":" + mm + ":" + ss) == Some(total)
  {
    ClockFieldsLayout(hh, mm, ss);
    ParseClockWithHours(hh + ":" + mm + ":" + ss, total);
  }

  /** Where the pieces of `hh:mm:ss` sit, counted from the end. */
  lemma ClockFieldsLayout(hh: string, mm: string, ss: string)
    requires |mm| == 2 && |ss| == 2
    ensures var r := hh + ":" + mm + ":" + ss;
      |r| == |hh| + 6 && r[..|r| - 6] == hh && r[|r| - 6] == ':' && r[|r| - 3] == ':' &&
      r[|r| - 5] == mm[0] && r[|r| - 4] == mm[1] && r[|r| - 2] == ss[0] && r[|r| - 1] == ss[1]
  {
    var r := hh + ":" + mm + ":" + ss;
    assert r[..|hh|] == hh;
  }

  lemma ParseClockWithHours(r: string, total: nat)
    requires |r| >= 7 && r[|r| - 6] == ':' && r[|r| - 3] == ':'
    requires AllDigits(r[..|r| - 6]) && PairAt(r, |r| - 5) && PairAt(r, |r| - 2)
    requires PairValueAt(r, |r| - 5) < 60 && PairValueAt(r, |r| - 2) < 60
    requires DigitsValue(r[..|r| - 6]) * 3600 + PairValueAt(r, |r| - 5) * 60 + PairValueAt(r, |r| - 2) == total
    ensures ParseClockTime(r) == Some(total)
  {
  }

  /** Reading `mm:ss` gives back the total its two fields denote. */
  lemma ParseClockOfMinutes(mm: string, ss: string, total: nat)
    requires |mm| == 2 && PairAt(mm, 0) && PairValueAt(mm, 0) < 60
    requires |ss| == 2 && PairAt(ss, 0) && PairValueAt(ss, 0) < 60
    requires PairValueAt(mm, 0) * 60 + PairValueAt(ss, 0) == total
    ensures ParseClockTime(mm + ":" + ss) == Some(total)
  {
    var r := mm + ":" + ss;
    assert r[0] == mm[0] && r[1] == mm[1] && r[3] == ss[0] && r[4] == ss[1];
  }

  /** Splitting a second count into hours, minutes and seconds the way both
      `convertSecondsToTime` and `stringForTime` do it. */
  lemma SplitSeconds(t: int)
    requires t >= 0
    ensures (t / 60) / 60 == t / 3600
    ensures 0 <= (t / 60) % 60 < 60 && 0 <= t % 60 < 60
    ensures t == (t / 3600) * 3600 + ((t / 60) % 60) * 60 + t % 60
  {
    var q, s := t / 60, t % 60;
    var h, m := q / 60, q % 60;
    assert t == 60 * q + s;
    assert q == 60 * h + m;
    assert t == 3600 * h + (60 * m + s);
    assert 0 <= 60 * m + s < 3600;
  }

  // ---------------------------------------------------------------------------
  // Timecodes for ffmpeg

  /** `convertSecondsToTime` exactly as written: `(int) seconds / 60` narrows the
      long to an int BEFORE dividing, so counts above 2^31 - 1 wrap around. */
  function ConvertSecondsToTimeAsWritten(seconds: int): (r: string)
    requires IsLong(seconds)
    ensures seconds <= INT_MAX ==> r == ConvertSecondsToTime(seconds)
  {
    if seconds <= 0 then "00:00"
    else
      var minute := Quot(ToInt(seconds), 60);
      if minute < 60 then
        var second := Rem(ToInt(seconds), 60);
        "00:" + UnitFormat(minute) + ":" + UnitFormat(second)
      else
        var hour := Quot(minute, 60);
        if hour > 99 then "99:59:59"
        else
          // hour <= 99 and minute % 60 <= 59, so the int products cannot overflow
          var minute' := Rem(minute, 60);
          var second := ToInt(seconds - hour * 3600 - minute' * 60);
          UnitFormat(hour) + ":" + UnitFormat(minute') + ":" + UnitFormat(second)
  }

  /** `convertSecondsToTime` with the division done on the whole count, as the
      clamp to "99:59:59" intends: the two-field "00:00" for non-positive counts,
      "00:MM:SS" below one hour, "HH:MM:SS" up to 99 hours, "99:59:59" beyond. */
  function ConvertSecondsToTime(seconds: int): (r: string)
    ensures seconds <= 0 ==> r == "00:00"
    ensures seconds > 0 ==> |r| == 8 && r[2] == ':' && r[5] == ':'
    ensures 0 < seconds < 3600 ==> r[..3] == "00:"
    ensures seconds > MAX_TIMECODE_SECONDS ==> r == "99:59:59"
  {
    if seconds <= 0 then "00:00"
    else
      SplitSeconds(seconds);
      var minute := seconds / 60;
      if minute < 60 then
        TimecodeLayout("00", UnitFormat(minute), UnitFormat(seconds % 60));
        assert "00:" + UnitFormat(minute) == "00" + ":" + UnitFormat(minute);
        "00:" + UnitFormat(minute) + ":" + UnitFormat(seconds % 60)
      else
        var hour := minute / 60;
        if hour > 99 then "99:59:59"
        else
          var minute' := minute % 60;
          assert seconds - hour * 3600 - minute' * 60 == seconds % 60;
          TimecodeLayout(UnitFormat(hour), UnitFormat(minute'), UnitFormat(seconds % 60));
          UnitFormat(hour) + ":" + UnitFormat(minute') + ":" + UnitFormat(seconds - hour * 3600 - minute' * 60)
  }

  /** Three two-character fields joined by colons make an eight-character timecode. */
  lemma TimecodeLayout(hh: string, mm: string, ss: string)
    requires |hh| == 2 && |mm| == 2 && |ss| == 2
    ensures var r := hh + ":" + mm + ":" + ss;
      |r| == 8 && r[..2] == hh && r[2] == ':' && r[3..5] == mm && r[5] == ':' && r[6..] == ss
  {
    var r := hh + ":" + mm + ":" + ss;
    assert r[..2] == hh && r[3..5] == mm && r[6..] == ss;
  }

  /** Every timecode reads back as the clamped count it was made from: exactly
      the input from 1 to 99:59:59 (so its fields are in range and reconstruct
      it), zero for non-positive input, 99:59:59 past it. */
  lemma TimecodeRoundTrip(seconds: int)
    ensures ParseClockTime(ConvertSecondsToTime(seconds)) == Some(ClampTimecode(seconds))
  {
    if seconds <= 0 {
      assert "00" + ":" + "00" == "00:00";
      ParseClockOfMinutes("00", "00", ClampTimecode(seconds));
    } else if seconds > MAX_TIMECODE_SECONDS {
      assert ClampTimecode(seconds) == MAX_TIMECODE_SECONDS;
      ParseSaturated();
    } else if seconds < 3600 {
      UnderAnHourRoundTrip(seconds);
    } else {
      HoursRoundTrip(seconds);
    }
  }

  lemma UnderAnHourRoundTrip(seconds: int)
    requires 0 < seconds < 3600
    ensures ParseClockTime(ConvertSecondsToTime(seconds)) == Some(ClampTimecode(seconds))
  {
    var minute := seconds / 60;
    var mm, ss := UnitFormat(minute), UnitFormat(seconds % 60);
    assert ConvertSecondsToTime(seconds) == "00:" + mm + ":" + ss == "00" + ":" + mm + ":" + ss;
    PairDigitsValue("00");
    ParseClockOfFields("00", mm, ss, ClampTimecode(seconds));
  }

  lemma HoursRoundTrip(seconds: int)
    requires 3600 <= seconds <= MAX_TIMECODE_SECONDS
    ensures ParseClockTime(ConvertSecondsToTime(seconds)) == Some(ClampTimecode(seconds))
  {
    SplitSeconds(seconds);
    var minute := seconds / 60;
    var hour, minute' := minute / 60, minute % 60;
    assert seconds - hour * 3600 - minute' * 60 == seconds % 60;
    var r := UnitFormat(hour) + ":" + UnitFormat(minute') + ":" + UnitFormat(seconds % 60);
    assert ConvertSecondsToTime(seconds) == r;
    PairDigitsValue(UnitFormat(hour));
    ParseClockOfFields(UnitFormat(hour), UnitFormat(minute'), UnitFormat(seconds % 60), ClampTimecode(seconds));
  }

  /** The clamp value "99:59:59" reads as 99 hours, 59 minutes and 59 seconds. */
  lemma ParseSaturated()
    ensures ParseClockTime("99:59:59") == Some(MAX_TIMECODE_SECONDS)
  {
    PairDigitsValue("99");
    assert "99" + ":" + "59" + ":" + "59" == "99:59:59";
    ParseClockOfFields("99", "59", "59", MAX_TIMECODE_SECONDS);
  }

  /** "99:59:59" comes out exactly for the counts from 99:59:59 on: below it the
      timecode is exact, so nothing else saturates. */
  lemma TimecodeSaturates(seconds: int)
    ensures ConvertSecondsToTime(seconds) == "99:59:59" <==> seconds >= MAX_TIMECODE_SECONDS
  {
    if seconds == MAX_TIMECODE_SECONDS {
      TimecodeAtMax();
    }
    TimecodeRoundTrip(seconds);
    ParseSaturated();
  }

  lemma TimecodeAtMax()
    ensures ConvertSecondsToTime(MAX_TIMECODE_SECONDS) == "99:59:59"
  {
    var seconds := MAX_TIMECODE_SECONDS;
    assert seconds / 60 / 60 == 99 && seconds / 60 % 60 == 59;
    assert seconds - 99 * 3600 - 59 * 60 == 59;
    assert UnitFormat(99) == "99" && UnitFormat(59) == "59";
  }

  /** The wrap-around of the as-written cast: 2^32 + 5 seconds, far past 99
      hours, comes out as five seconds instead of the clamp. */
  lemma CastBeforeDivisionWraps()
    ensures ConvertSecondsToTimeAsWritten(0x1_0000_0005) == "00:00:05"
    ensures ConvertSecondsToTime(0x1_0000_0005) == "99:59:59"
  {
    assert ToInt(0x1_0000_0005) == 5;
    assert UnitFormat(0) == "00" && UnitFormat(5) == "05";
  }

  // ---------------------------------------------------------------------------
  // The ffmpeg argument vector

  /** What ffmpeg is asked to do: cut `durationSeconds` from `startSeconds` of
      `source` into `output`, copying the streams. */
  datatype TrimInvocation = TrimInvocation(startSeconds: nat, source: string, durationSeconds: nat, output: string)

  /** The argument vector of `genVideoUsingMp4Parser2`: start and duration are
      whole seconds (Java long division, so for a request 0 <= startMs <= endMs
      the floor of the millisecond counts), a start or duration under one second
      or negative is written "00:00", `-c copy` keeps the streams as they are and
      the destination path comes last. */
  function TrimCommand(src: string, dst: string, startMs: int, endMs: int): (args: seq<string>)
    requires IsLong(startMs) && IsLong(endMs)
    ensures |args| == 9 && args[|args| - 1] == dst
    ensures args[0] == "-ss" && args[2] == "-i" && args[3] == src && args[4] == "-t"
    ensures args[6] == "-c" && args[7] == "copy"
    ensures 0 <= startMs ==> args[1] == ConvertSecondsToTime(startMs / 1000)
    ensures startMs < 1000 ==> args[1] == "00:00"
    ensures 0 <= startMs <= endMs ==> args[5] == ConvertSecondsToTime((endMs - startMs) / 1000)
    ensures IsLong(endMs - startMs) && endMs - startMs < 1000 ==> args[5] == "00:00"
  {
    var start := Quot(startMs, 1000);
    var duration := Quot(ToLong(endMs - startMs), 1000);
    assert 0 <= startMs ==> start == startMs / 1000;
    assert 0 <= startMs <= endMs ==> duration == (endMs - startMs) / 1000;
    StreamCopyArgs(ConvertSecondsToTime(start), src, ConvertSecondsToTime(duration), dst)
  }

  /** The argument array `-ss START -i SRC -t DURATION -c copy DST`. */
  function StreamCopyArgs(start: string, src: string, duration: string, dst: string): (args: seq<string>)
    ensures |args| == 9 && args[1] == start && args[3] == src && args[5] == duration && args[8] == dst
    ensures args[0] == "-ss" && args[2] == "-i" && args[4] == "-t" && args[6] == "-c" && args[7] == "copy"
  {
    ["-ss", start, "-i", src, "-t", duration, "-c", "copy", dst]
  }

  /** How the external transcoder reads `-ss START -i INPUT -t DURATION -c copy OUTPUT`. */
  function ParseTrimCommand(args: seq<string>): Option<TrimInvocation>
  {
    if |args| == 9 && args[0] == "-ss" && args[2] == "-i" && args[4] == "-t" && args[6] == "-c" && args[7] == "copy" then
      match (ParseClockTime(args[1]), ParseClockTime(args[5]))
      case (Some(start), Some(duration)) => Some(TrimInvocation(start, args[3], duration, args[8]))
      case _ => None
    else None
  }

  /** For a trim request 0 <= startMs <= endMs the transcoder reads back the
      source, the destination and the whole-second start and duration, each
      clamped to 99:59:59. */
  lemma TrimCommandRoundTrip(src: string, dst: string, startMs: int, endMs: int)
    requires 0 <= startMs <= endMs <= LONG_MAX
    ensures ParseTrimCommand(TrimCommand(src, dst, startMs, endMs))
         == Some(TrimInvocation(ClampTimecode(startMs / 1000), src, ClampTimecode((endMs - startMs) / 1000), dst))
  {
    var start, duration := startMs / 1000, (endMs - startMs) / 1000;
    assert Quot(startMs, 1000) == start;
    assert IsLong(endMs - startMs);
    var d := ToLong(endMs - startMs);
    assert Quot(d, 1000) == duration;
    var args := TrimCommand(src, dst, startMs, endMs);
    assert args[1] == ConvertSecondsToTime(start);
    assert args[5] == ConvertSecondsToTime(duration);
    TimecodeRoundTrip(start);
    TimecodeRoundTrip(duration);
  }

  /** Trimming 20 s to 30 s asks for start 00:00:20 and duration 00:00:10. */
  lemma TrimCommandTenSecondsAtTwenty()
    ensures TrimCommand("in.mp4", "out.mp4", 20000, 30000)
         == ["-ss", "00:00:20", "-i", "in.mp4", "-t", "00:00:10", "-c", "copy", "out.mp4"]
  {
    TimecodesOfTwentyAndTen();
    var args := TrimCommand("in.mp4", "out.mp4", 20000, 30000);
    StreamCopyLayout(args, "00:00:20", "in.mp4", "00:00:10", "out.mp4");
  }

  /** Nine arguments with the stream-copy flags in place are that argument array. */
  lemma StreamCopyLayout(args: seq<string>, start: string, src: string, duration: string, dst: string)
    requires |args| == 9 && args[1] == start && args[3] == src && args[5] == duration && args[8] == dst
    requires args[0] == "-ss" && args[2] == "-i" && args[4] == "-t" && args[6] == "-c" && args[7] == "copy"
    ensures args == ["-ss", start, "-i", src, "-t", duration, "-c", "copy", dst]
  {
  }

  lemma TimecodesOfTwentyAndTen()
    ensures ConvertSecondsToTime(20) == "00:00:20" && ConvertSecondsToTime(10) == "00:00:10"
  {
    assert UnitFormat(0) == "00" && UnitFormat(20) == "20" && UnitFormat(10) == "10" by {
      assert DigitChar(0) == '0' && DigitChar(1) == '1' && DigitChar(2) == '2';
    }
    assert ConvertSecondsToTime(20) == "00:" + UnitFormat(0) + ":" + UnitFormat(20);
    assert ConvertSecondsToTime(10) == "00:" + UnitFormat(0) + ":" + UnitFormat(10);
  }

  /** A sub-second range asks for the two-field duration "00:00". */
  lemma TrimCommandSubSecond()
    ensures TrimCommand("in.mp4", "out.mp4", 0, 500)
         == ["-ss", "00:00", "-i", "in.mp4", "-t", "00:00", "-c", "copy", "out.mp4"]
  {
  }

  /** A range of 100 hours and one second is clamped to 99:59:59. */
  lemma TrimCommandPastNinetyNineHours()
    ensures TrimCommand("in.mp4", "out.mp4", 0, (100 * 3600 + 1) * 1000)[5] == "99:59:59"
  {
  }

  // ---------------------------------------------------------------------------
  // Output file name

  /** `dst + "MP4_" + timeStamp + ".mp4"`, with the wall-clock stamp passed in. */
  function OutputFilePath(dst: string, timeStamp: string): (path: string)
    ensures |path| == |dst| + |timeStamp| + 8
    ensures path[..|dst|] == dst
    ensures path[|dst|..|dst| + 4] == "MP4_"
    ensures path[|dst| + 4..|path| - 4] == timeStamp
    ensures path[|path| - 4..] == ".mp4"
  {
    dst + "MP4_" + timeStamp + ".mp4"
  }

  // ---------------------------------------------------------------------------
  // UI time labels

  /** The hours, minutes and seconds `stringForTime` computes with Java int
      arithmetic; for a non-negative time the minutes and seconds are below 60
      and there are hours exactly from one hour on. */
  function DisplayFields(timeMs: int): (f: (int, int, int))
    ensures timeMs >= 0 ==> f.0 >= 0 && 0 <= f.1 < 60 && 0 <= f.2 < 60
    ensures timeMs >= 0 ==> (f.0 > 0 <==> timeMs >= 3600000)
  {
    var totalSeconds := Quot(timeMs, 1000);
    (Quot(totalSeconds, 3600), Rem(Quot(totalSeconds, 60), 60), Rem(totalSeconds, 60))
  }

  /** For a non-negative time the three fields are the clock reading of its
      whole seconds. */
  lemma DisplayFieldsDenote(timeMs: int)
    requires timeMs >= 0
    ensures var f := DisplayFields(timeMs); f.0 * 3600 + f.1 * 60 + f.2 == timeMs / 1000
  {
    var t := timeMs / 1000;
    assert Quot(timeMs, 1000) == t;
    SplitSeconds(t);
  }

  /** `stringForTime`: "%d:%02d:%02d" when there are whole hours, "%02d:%02d"
      otherwise. A non-negative time below one hour gives "MM:SS"; from one hour
      on it gives at least "H:MM:SS", with no leading zero on the hours. */
  function StringForTime(timeMs: int): (r: string)
    requires IsInt(timeMs)
    ensures 0 <= timeMs < 3600000 ==> |r| == 5 && r[2] == ':'
    ensures timeMs >= 3600000 ==> |r| >= 7 && r[0] != '0'
  {
    var f := DisplayFields(timeMs);
    ClockLabel(f.0, f.1, f.2)
  }

  /** The format step of `stringForTime`: `%d:%02d:%02d` when `hours` is
      positive, `%02d:%02d` otherwise. With minutes and seconds below 60 the
      short form is "MM:SS" and the long form starts with the hours' first
      digit, which is not a zero. */
  function ClockLabel(hours: int, minutes: int, seconds: int): (r: string)
    ensures 0 <= minutes < 60 && 0 <= seconds < 60 && hours <= 0 ==> |r| == 5 && r[2] == ':'
    ensures 0 <= minutes < 60 && 0 <= seconds < 60 && hours > 0 ==> |r| >= 7 && r[0] != '0'
  {
    var mm := FormatZeroPadded(minutes, 2);
    var ss := FormatZeroPadded(seconds, 2);
    assert 0 <= minutes < 60 && 0 <= seconds < 60 ==> |mm| == 2 && |ss| == 2 by {
      if 0 <= minutes < 60 && 0 <= seconds < 60 {
        PaddedField(minutes);
        PaddedField(seconds);
      }
    }
    if hours > 0 then
      var hh := IntToString(hours);
      assert (hh + ":" + mm + ":" + ss)[0] == hh[0];
      hh + ":" + mm + ":" + ss
    else mm + ":" + ss
  }

  /** Where the separators of a label for a non-negative time fall: one colon
      after the two-digit minutes below an hour; from one hour on, the colons
      stand three and six characters from the end, whatever the width of the
      hours. */
  lemma StringForTimeShape(timeMs: int)
    requires 0 <= timeMs <= INT_MAX
    ensures var r := StringForTime(timeMs);
      timeMs < 3600000 ==> |r| == 5 && r[2] == ':' && PairAt(r, 0) && PairAt(r, 3)
    ensures var r := StringForTime(timeMs);
      timeMs >= 3600000 ==> |r| >= 7 && r[|r| - 6] == ':' && r[|r| - 3] == ':' && r[0] != '0'
  {
    if timeMs >= 3600000 {
      ShapeWithHours(timeMs);
    } else {
      ShapeWithoutHours(timeMs);
    }
  }

  lemma ShapeWithHours(timeMs: int)
    requires 3600000 <= timeMs <= INT_MAX
    ensures var r := StringForTime(timeMs);
      |r| >= 7 && r[|r| - 6] == ':' && r[|r| - 3] == ':' && r[0] != '0'
  {
    var f := DisplayFields(timeMs);
    var hh, mm, ss := IntToString(f.0), FormatZeroPadded(f.1, 2), FormatZeroPadded(f.2, 2);
    assert |mm| == 2 && |ss| == 2 by {
      PaddedField(f.1);
      PaddedField(f.2);
    }
    assert StringForTime(timeMs) == hh + ":" + mm + ":" + ss by {
      LabelWithHours(timeMs);
    }
    ClockShape(StringForTime(timeMs), hh, mm, ss);
  }

  lemma ShapeWithoutHours(timeMs: int)
    requires 0 <= timeMs < 3600000
    ensures var r := StringForTime(timeMs); |r| == 5 && r[2] == ':' && PairAt(r, 0) && PairAt(r, 3)
  {
    var f := DisplayFields(timeMs);
    var mm, ss := FormatZeroPadded(f.1, 2), FormatZeroPadded(f.2, 2);
    PaddedField(f.1);
    PaddedField(f.2);
    MinutesLabel(timeMs, mm, ss);
    TwoFieldShape(mm, ss);
  }

  /** Below one hour the label is the two fields `%02d:%02d`. */
  lemma LabelWithoutHours(timeMs: int)
    requires IsInt(timeMs) && DisplayFields(timeMs).0 <= 0
    ensures var f := DisplayFields(timeMs);
      StringForTime(timeMs) == FormatZeroPadded(f.1, 2) + ":" + FormatZeroPadded(f.2, 2)
  {
  }

  /** From one hour on the label is the three fields `%d:%02d:%02d`. */
  lemma LabelWithHours(timeMs: int)
    requires 3600000 <= timeMs <= INT_MAX
    ensures var f := DisplayFields(timeMs);
      StringForTime(timeMs) == IntToString(f.0) + ":" + FormatZeroPadded(f.1, 2) + ":" + FormatZeroPadded(f.2, 2)
  {
  }

  lemma ClockShape(r: string, hh: string, mm: string, ss: string)
    requires r == hh + ":" + mm + ":" + ss
    requires |hh| >= 1 && hh[0] != '0' && |mm| == 2 && |ss| == 2
    ensures |r| >= 7 && r[|r| - 6] == ':' && r[|r| - 3] == ':' && r[0] != '0'
  {
  }

  lemma TwoFieldShape(mm: string, ss: string)
    requires |mm| == 2 && PairAt(mm, 0) && |ss| == 2 && PairAt(ss, 0)
    ensures var r := mm + ":" + ss; |r| == 5 && r[2] == ':' && PairAt(r, 0) && PairAt(r, 3)
  {
  }

  /** A minute or second field is written as exactly two digits denoting it. */
  lemma PaddedField(x: int)
    requires 0 <= x < 60
    ensures var p := FormatZeroPadded(x, 2); |p| == 2 && PairAt(p, 0) && PairValueAt(p, 0) == x
  {
  }

  /** A label read back gives the whole seconds of the time it was made from. */
  lemma StringForTimeRoundTrip(timeMs: int)
    requires 0 <= timeMs <= INT_MAX
    ensures ParseClockTime(StringForTime(timeMs)) == Some(timeMs / 1000)
  {
    if timeMs >= 3600000 {
      LabelWithHoursRoundTrip(timeMs);
    } else {
      LabelWithoutHoursRoundTrip(timeMs);
    }
  }

  lemma LabelWithHoursRoundTrip(timeMs: int)
    requires 3600000 <= timeMs <= INT_MAX
    ensures ParseClockTime(StringForTime(timeMs)) == Some(timeMs / 1000)
  {
    DisplayFieldsDenote(timeMs);
    var f := DisplayFields(timeMs);
    var hh := IntToString(f.0);
    var mm := FormatZeroPadded(f.1, 2);
    var ss := FormatZeroPadded(f.2, 2);

    IntToStringRoundTrip(f.0);
    PaddedField(f.1);
    PaddedField(f.2);
    LabelWithHours(timeMs);
    ParseClockOfFields(hh, mm, ss, timeMs / 1000);
  }

  lemma LabelWithoutHoursRoundTrip(timeMs: int)
    requires 0 <= timeMs < 3600000
    ensures ParseClockTime(StringForTime(timeMs)) == Some(timeMs / 1000)
  {
    DisplayFieldsDenote(timeMs);
    var f := DisplayFields(timeMs);
    var mm := FormatZeroPadded(f.1, 2);
    var ss := FormatZeroPadded(f.2, 2);
    PaddedField(f.1);
    PaddedField(f.2);
    LabelWithoutHours(timeMs);
    ParseClockOfMinutes(mm, ss, timeMs / 1000);
  }

  lemma OnePaddedToTwo()
    ensures FormatZeroPadded(1, 2) == "01"
  {
    assert NatToString(1) == "1";
    assert Zeros(1) == "0";
    assert PadLeftZeros("1", 2) == "01";
  }

  /** 3661000 ms is labelled "1:01:01". */
  lemma StringForTimeOneHour()
    ensures StringForTime(3661000) == "1:01:01"
  {
    var f := DisplayFields(3661000);
    assert f == (1, 1, 1);
    OnePaddedToTwo();
    assert IntToString(1) == "1";
    LabelWithHours(3661000);
  }

  /** 61000 ms is labelled "01:01". */
  lemma StringForTimeOneMinute()
    ensures StringForTime(61000) == "01" + ":" + "01"
  {
    OneMinuteFields();
    OnePaddedToTwo();
    MinutesLabel(61000, "01", "01");
  }

  lemma MinutesLabel(timeMs: int, mm: string, ss: string)
    requires IsInt(timeMs) && DisplayFields(timeMs).0 <= 0
    requires FormatZeroPadded(DisplayFields(timeMs).1, 2) == mm && FormatZeroPadded(DisplayFields(timeMs).2, 2) == ss
    ensures StringForTime(timeMs) == mm + ":" + ss
  {
    LabelWithoutHours(timeMs);
  }

  lemma OneMinuteFields()
    ensures DisplayFields(61000) == (0, 1, 1)
  {
    assert Quot(61000, 1000) == 61;
  }

  /** -61000 ms has minutes and seconds -1 under Java's truncating `/` and `%`,
      and `%02d` writes -1 as "-1", so the label is "-1:-1". */
  lemma StringForTimeNegative()
    ensures StringForTime(-61000) == "-1" + ":" + "-1"
  {
    NegativeFields();
    MinusOnePaddedToTwo();
    MinutesLabel(-61000, "-1", "-1");
  }

  /** A negative hour count is never shown: -7200000 ms is -2 hours and no
      minutes or seconds, which takes the `%02d:%02d` branch as "00:00". */
  lemma StringForTimeNegativeHours()
    ensures StringForTime(-7200000) == "00" + ":" + "00"
  {
    NegativeHoursFields();
    ZeroPaddedToTwo();
    MinutesLabel(-7200000, "00", "00");
  }

  lemma NegativeHoursFields()
    ensures DisplayFields(-7200000) == (-2, 0, 0)
  {
    assert Quot(-7200000, 1000) == -7200;
    assert Quot(-7200, 3600) == -2 && Quot(-7200, 60) == -120 && Rem(-120, 60) == 0 && Rem(-7200, 60) == 0;
  }

  lemma ZeroPaddedToTwo()
    ensures FormatZeroPadded(0, 2) == "00"
  {
    assert DigitChar(0) == '0';
  }

  lemma NegativeFields()
    ensures DisplayFields(-61000) == (0, -1, -1)
  {
    assert Quot(-61000, 1000) == -61;
    assert Quot(-61, 60) == -1 && Rem(-1, 60) == -1 && Rem(-61, 60) == -1 && Quot(-61, 3600) == 0;
  }

  lemma MinusOnePaddedToTwo()
    ensures FormatZeroPadded(-1, 2) == "-1"
  {
    assert NatToString(1) == "1";
    assert PadLeftZeros("1", 1) == "1";
  }
}
