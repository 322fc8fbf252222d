/**
 * Cue times. Python's `datetime.time` is a time of day down to the
 * microsecond; subtitle files carry milliseconds. Rendering is
 * `strftime("%H:%M:%S.%f")[:-3]` (microseconds truncated to milliseconds)
 * and parsing is `time.fromisoformat` on what the timing pattern matched.
 */
module Timing {
  import opened Results
  import opened Strings

  datatype RawTime = RawTime(hour: nat, minute: nat, second: nat, micro: nat)

  /** A valid `datetime.time` (no time zone, no fold). */
  type Time = t: RawTime | t.hour < 24 && t.minute < 60 && t.second < 60 && t.micro < 1000000
    witness RawTime(0, 0, 0, 0)

  /** Why a timestamp could not be read; Python raises `ValueError` for each. */
  datatype TimeError =
    | WrongPartCount(parts: nat)
    | InvalidIsoFormat(text: string)

  /** The time with its microseconds cut down to whole milliseconds. */
  function TruncateToMillis(t: Time): (r: Time)
    ensures r.hour == t.hour && r.minute == t.minute && r.second == t.second
    ensures r.micro % 1000 == 0 && r.micro <= t.micro < r.micro + 1000
  {
    t.(micro := t.micro / 1000 * 1000)
  }

  /** Milliseconds since midnight, the resolution subtitle files carry. */
  function Millis(t: Time): (ms: nat)
    ensures ms < 86400000
  {
    ((t.hour * 60 + t.minute) * 60 + t.second) * 1000 + t.micro / 1000
  }

  function Pad2(n: nat): (r: string)
    requires n < 100
    ensures |r| == 2 && AllDigits(r)
  {
    [DigitChar(n / 10), DigitChar(n % 10)]
  }

  function Pad3(n: nat): (r: string)
    requires n < 1000
    ensures |r| == 3 && AllDigits(r)
  {
    [DigitChar(n / 100), DigitChar(n / 10 % 10), DigitChar(n % 10)]
  }

  /**
   * `HH:MM:SS<sep>mmm`: `strftime("%H:%M:%S.%f")[:-3]` for `sep == '.'`, and
   * the SubRip form for `sep == ','`.
   */
  function FormatTime(t: Time, sep: char): (r: string)
    ensures |r| == 12 && r[2] == ':' && r[5] == ':' && r[8] == sep
  {
    Pad2(t.hour) + ":" + Pad2(t.minute) + ":" + Pad2(t.second) + [sep] + Pad3(t.micro / 1000)
  }

  function Value2(a: char, b: char): nat
    requires IsDigit(a) && IsDigit(b)
  {
    DigitValue(a) * 10 + DigitValue(b)
  }

  /** `HH:MM:SS.fff`: the timing expression's shape with hours. */
  predicate LongShape(s: string) {
    |s| == 12 && s[2] == ':' && s[5] == ':' && s[8] == '.'
    && IsDigit(s[0]) && IsDigit(s[1]) && IsDigit(s[3]) && IsDigit(s[4])
    && IsDigit(s[6]) && IsDigit(s[7])
    && IsDigit(s[9]) && IsDigit(s[10]) && IsDigit(s[11])
  }

  /** `AA:BB.fff`: the timing expression's shape without hours. */
  predicate ShortShape(s: string) {
    |s| == 9 && s[2] == ':' && s[5] == '.'
    && IsDigit(s[0]) && IsDigit(s[1]) && IsDigit(s[3]) && IsDigit(s[4])
    && IsDigit(s[6]) && IsDigit(s[7]) && IsDigit(s[8])
  }

  /** The three millisecond digits that end a time of either shape. */
  function Milli(s: string): (ms: nat)
    requires |s| >= 3 && IsDigit(s[|s| - 3]) && IsDigit(s[|s| - 2]) && IsDigit(s[|s| - 1])
    ensures ms < 1000
  {
    DigitValue(s[|s| - 3]) * 100 + Value2(s[|s| - 2], s[|s| - 1])
  }

  /**
   * `time.fromisoformat` (the C implementation) on the two shapes the timing
   * expression lets through. `HH:MM:SS.fff` is read as it stands. In the
   * hour-less `AA:BB.fff` the parser stops at the `.` after the second
   * field, so `AA` is read as hours and `BB` as minutes, with no seconds.
   * An hour of 24 or more raises, as does every other text; no other text
   * reaches this reader.
   */
  function ParseIsoTime(s: string): (r: Result<Time, TimeError>)
    ensures r.Ok? ==> r.value.micro % 1000 == 0
    ensures r.Ok? <==>
      (LongShape(s) && Value2(s[0], s[1]) < 24 && Value2(s[3], s[4]) < 60 && Value2(s[6], s[7]) < 60)
      || (ShortShape(s) && Value2(s[0], s[1]) < 24 && Value2(s[3], s[4]) < 60)
    ensures r.Ok? && LongShape(s) ==> r.value == RawTime(Value2(s[0], s[1]), Value2(s[3], s[4]), Value2(s[6], s[7]), Milli(s) * 1000)
    ensures r.Ok? && ShortShape(s) ==> r.value == RawTime(Value2(s[0], s[1]), Value2(s[3], s[4]), 0, Milli(s) * 1000)
  {
    if LongShape(s) then
      var hour := Value2(s[0], s[1]);
      var minute := Value2(s[3], s[4]);
      var second := Value2(s[6], s[7]);
      if hour < 24 && minute < 60 && second < 60 then
        Ok(RawTime(hour, minute, second, Milli(s) * 1000))
      else
        Err(InvalidIsoFormat(s))
    else if ShortShape(s) then
      var hour := Value2(s[0], s[1]);
      var minute := Value2(s[3], s[4]);
      if hour < 24 && minute < 60 then
        Ok(RawTime(hour, minute, 0, Milli(s) * 1000))
      else
        Err(InvalidIsoFormat(s))
    else
      Err(InvalidIsoFormat(s))
  }

  /** Rendering with `.` and reading back loses exactly the sub-millisecond part. */
  lemma ParseFormatTime(t: Time)
    ensures ParseIsoTime(FormatTime(t, '.')) == Ok(TruncateToMillis(t))
  {
    var r := FormatTime(t, '.');
    Pad2Value(t.hour);
    Pad2Value(t.minute);
    Pad2Value(t.second);
    Pad3Value(t.micro / 1000);
    FormatTimeChars(t, '.');
    assert Value2(r[0], r[1]) == t.hour;
    assert Value2(r[3], r[4]) == t.minute;
    assert Value2(r[6], r[7]) == t.second;
    assert DigitValue(r[9]) * 100 + Value2(r[10], r[11]) == t.micro / 1000;
  }

  /** The characters of a rendered time, part by part. */
  lemma FormatTimeChars(t: Time, sep: char)
    ensures var r := FormatTime(t, sep);
      r[0..2] == Pad2(t.hour) && r[3..5] == Pad2(t.minute) && r[6..8] == Pad2(t.second) && r[9..12] == Pad3(t.micro / 1000)
  {
  }

  lemma Pad2Value(n: nat)
    requires n < 100
    ensures Value2(Pad2(n)[0], Pad2(n)[1]) == n
  {
  }

  lemma Pad3Value(n: nat)
    requires n < 1000
    ensures DigitValue(Pad3(n)[0]) * 100 + Value2(Pad3(n)[1], Pad3(n)[2]) == n
  {
    assert n / 100 * 100 + (n / 10 % 10 * 10 + n % 10) == n;
  }

  lemma Pad2Digits(a: char, b: char)
    requires IsDigit(a) && IsDigit(b)
    ensures Pad2(Value2(a, b)) == [a, b]
  {
    var n := Value2(a, b);
    assert n / 10 == DigitValue(a) && n % 10 == DigitValue(b);
  }

  lemma Pad3Digits(a: char, b: char, c: char)
    requires IsDigit(a) && IsDigit(b) && IsDigit(c)
    ensures Pad3(DigitValue(a) * 100 + Value2(b, c)) == [a, b, c]
  {
    var x, y, z := DigitValue(a), DigitValue(b), DigitValue(c);
    ThreeDigits(x, y, z);
    assert DigitChar(x) == a && DigitChar(y) == b && DigitChar(z) == c;
  }

  lemma ThreeDigits(x: nat, y: nat, z: nat)
    requires x < 10 && y < 10 && z < 10
    ensures (x * 100 + (y * 10 + z)) / 100 == x
    ensures (x * 100 + (y * 10 + z)) / 10 % 10 == y
    ensures (x * 100 + (y * 10 + z)) % 10 == z
  {
    var n := x * 100 + (y * 10 + z);
    assert n / 10 == x * 10 + y;
  }

  /** A time of the long shape renders back to its own text. */
  lemma FormatOfLong(d: string)
    requires LongShape(d) && Value2(d[0], d[1]) < 24 && Value2(d[3], d[4]) < 60 && Value2(d[6], d[7]) < 60
    ensures var t: Time := RawTime(Value2(d[0], d[1]), Value2(d[3], d[4]), Value2(d[6], d[7]), Milli(d) * 1000);
      FormatTime(t, '.') == d
  {
    var t: Time := RawTime(Value2(d[0], d[1]), Value2(d[3], d[4]), Value2(d[6], d[7]), Milli(d) * 1000);
    Pad2Digits(d[0], d[1]);
    Pad2Digits(d[3], d[4]);
    Pad2Digits(d[6], d[7]);
    assert t.micro / 1000 == Milli(d);
    Pad3Digits(d[9], d[10], d[11]);
    var r := FormatTime(t, '.');
    FormatTimeChars(t, '.');
    assert r[0..2] == d[0..2] && r[3..5] == d[3..5] && r[6..8] == d[6..8] && r[9..12] == d[9..12];
    forall k | 0 <= k < 12
      ensures r[k] == d[k]
    {
      if k < 2 {
        assert r[k] == r[0..2][k];
      } else if 3 <= k < 5 {
        assert r[k] == r[3..5][k - 3];
      } else if 6 <= k < 8 {
        assert r[k] == r[6..8][k - 6];
      } else if 9 <= k {
        assert r[k] == r[9..12][k - 9];
      }
    }
  }

  /** An hour-less time with a zero second field inserted: `AA:BB.fff` becomes `AA:BB:00.fff`. */
  lemma ZeroSecondsLong(s: string)
    requires ShortShape(s)
    ensures var d := s[..5] + ":00" + s[5..];
      LongShape(d) && Value2(d[0], d[1]) == Value2(s[0], s[1]) && Value2(d[3], d[4]) == Value2(s[3], s[4])
      && Value2(d[6], d[7]) == 0 && Milli(d) == Milli(s)
  {
  }

  /**
   * What the reader accepts renders back: a long-shape text to itself, and
   * an hour-less text to the same fields with `:00` seconds inserted, so
   * `AA:BB.fff` is read as `AA:BB:00.fff`.
   */
  lemma FormatParseIsoTime(s: string)
    requires ParseIsoTime(s).Ok?
    ensures LongShape(s) || ShortShape(s)
    ensures LongShape(s) ==> FormatTime(ParseIsoTime(s).value, '.') == s
    ensures ShortShape(s) ==> FormatTime(ParseIsoTime(s).value, '.') == s[..5] + ":00" + s[5..]
  {
    if LongShape(s) {
      FormatOfLong(s);
    } else {
      var d := s[..5] + ":00" + s[5..];
      ZeroSecondsLong(s);
      FormatOfLong(d);
    }
  }

  /**
   * The cue-time reading the timing expression's optional hours evidently
   * intend, as in the WebVTT cue-timings syntax: the hour-less `MM:SS.fff`
   * is minutes and seconds. Texts with hours are read as `fromisoformat`
   * reads them.
   */
  function ParseCueTime(s: string): (r: Result<Time, TimeError>)
    ensures LongShape(s) ==> r == ParseIsoTime(s)
    ensures ShortShape(s) ==> (r.Ok? <==> ParseIsoTime("00:" + s).Ok?) && (r.Ok? ==> r == ParseIsoTime("00:" + s))
    ensures !LongShape(s) && !ShortShape(s) ==> r.Err?
  {
    if LongShape(s) then ParseIsoTime(s)
    else if ShortShape(s) then
      var minute := Value2(s[0], s[1]);
      var second := Value2(s[3], s[4]);
      var d := "00:" + s;
      assert d[3..] == s && LongShape(d);
      assert Value2(d[0], d[1]) == 0 && Value2(d[3], d[4]) == minute && Value2(d[6], d[7]) == second && Milli(d) == Milli(s);
      if minute < 60 && second < 60 then
        Ok(RawTime(0, minute, second, Milli(s) * 1000))
      else
        Err(InvalidIsoFormat(s))
    else
      Err(InvalidIsoFormat(s))
  }

  /** Under the intended reading, every accepted cue time renders back to its text, with `00:` hours added to the short shape. */
  lemma FormatParseCueTime(s: string)
    requires ParseCueTime(s).Ok?
    ensures LongShape(s) ==> FormatTime(ParseCueTime(s).value, '.') == s
    ensures ShortShape(s) ==> FormatTime(ParseCueTime(s).value, '.') == "00:" + s
  {
    if LongShape(s) {
      FormatParseIsoTime(s);
    } else {
      assert ("00:" + s)[3..] == s && LongShape("00:" + s);
      FormatParseIsoTime("00:" + s);
    }
  }

  /**
   * The short cue time `00:01.000`, one second under the intended reading,
   * is read by `fromisoformat` as one minute.
   */
  lemma ShortCueTimeAsWritten()
    ensures ParseIsoTime("00:01.000") == Ok(RawTime(0, 1, 0, 0))
    ensures ParseCueTime("00:01.000") == Ok(RawTime(0, 0, 1, 0))
  {
    var s := "00:01.000";
    assert ShortShape(s) && !LongShape(s);
    assert Value2(s[0], s[1]) == 0 && Value2(s[3], s[4]) == 1 && Milli(s) == 0;
  }

  /**
   * `split_timestamp` / `split_subtitles_timestamp` / `_split_timestamp`:
   * `,` becomes `.`, the text must split on `" --> "` into exactly two
   * parts, and each part goes through `time.fromisoformat`.
   */
  function SplitTimestamp(timestamp: string): (r: Result<(Time, Time), TimeError>)
    ensures r.Ok? ==> r.value.0.micro % 1000 == 0 && r.value.1.micro % 1000 == 0
  {
    var parts := Split(Replace(timestamp, ",", "."), " --> ");
    if |parts| != 2 then
      Err(WrongPartCount(|parts|))
    else
      var start :- ParseIsoTime(parts[0]);
      var end :- ParseIsoTime(parts[1]);
      Ok((start, end))
  }

  /** A time of the hour-less shape holds no comma and no blank. */
  lemma ShortShapeChars(s: string)
    requires ShortShape(s)
    ensures ',' !in s && ' ' !in s
  {
    forall k | 0 <= k < |s|
      ensures s[k] != ',' && s[k] != ' '
    {
      assert k == 2 || k == 5 || IsDigit(s[k]);
    }
  }

  /**
   * A timing line with two hour-less times is read, side by side, the way
   * `fromisoformat` reads each of them: as hours and minutes.
   */
  lemma {:induction false} SplitShortTimestamp(a: string, b: string)
    requires ShortShape(a) && ShortShape(b)
    ensures SplitTimestamp(a + " --> " + b).Ok? <==> ParseIsoTime(a).Ok? && ParseIsoTime(b).Ok?
    ensures SplitTimestamp(a + " --> " + b).Ok? ==>
      SplitTimestamp(a + " --> " + b).value == (ParseIsoTime(a).value, ParseIsoTime(b).value)
  {
    ShortShapeChars(a);
    ShortShapeChars(b);
    ReplaceCharConcat(a + " --> ", b, ',', ".");
    ReplaceCharConcat(a, " --> ", ',', ".");
    ReplaceCharAbsent(a, ',', ".");
    ReplaceCharAbsent(b, ',', ".");
    ReplaceCharAbsent(" --> ", ',', ".");
    SplitAt(a, b, " --> ");
    SplitWithout(b, " --> ");
    assert Split(Replace(a + " --> " + b, ",", "."), " --> ") == [a, b];
  }

  lemma FormatTimeNoComma(t: Time)
    ensures ',' !in FormatTime(t, '.') && ' ' !in FormatTime(t, '.')
  {
  }

  lemma {:induction false} ReplaceCommaInTime(t: Time, sep: char)
    requires sep == '.' || sep == ','
    ensures Replace(FormatTime(t, sep), ",", ".") == FormatTime(t, '.')
  {
    var head := Pad2(t.hour) + ":" + Pad2(t.minute) + ":" + Pad2(t.second);
    var tail := Pad3(t.micro / 1000);
    assert FormatTime(t, sep) == head + [sep] + tail;
    assert FormatTime(t, '.') == head + ['.'] + tail;
    assert ',' !in head && ',' !in tail;
    ReplaceCharConcat(head + [sep], tail, ',', ".");
    ReplaceCharConcat(head, [sep], ',', ".");
    ReplaceCharAbsent(head, ',', ".");
    ReplaceCharAbsent(tail, ',', ".");
    assert [sep][..1] == [sep];
  }

  lemma {:induction false} ReplaceCommaInTimingLine(start: Time, end: Time, sep: char)
    requires sep == '.' || sep == ','
    ensures Replace(FormatTime(start, sep) + " --> " + FormatTime(end, sep), ",", ".")
            == FormatTime(start, '.') + " --> " + FormatTime(end, '.')
  {
    ReplaceCharConcat(FormatTime(start, sep) + " --> ", FormatTime(end, sep), ',', ".");
    ReplaceCharConcat(FormatTime(start, sep), " --> ", ',', ".");
    ReplaceCommaInTime(start, sep);
    ReplaceCommaInTime(end, sep);
    ReplaceCharAbsent(" --> ", ',', ".");
  }

  /**
   * The timing line a caption renders is read back by `SplitTimestamp`,
   * with either millisecond separator, to the millisecond-truncated times.
   */
  lemma {:induction false} SplitFormattedTimestamp(start: Time, end: Time, sep: char)
    requires sep == '.' || sep == ','
    ensures SplitTimestamp(FormatTime(start, sep) + " --> " + FormatTime(end, sep))
            == Ok((TruncateToMillis(start), TruncateToMillis(end)))
  {
    var a := FormatTime(start, '.');
    var b := FormatTime(end, '.');
    ReplaceCommaInTimingLine(start, end, sep);
    FormatTimeNoComma(start);
    FormatTimeNoComma(end);
    SplitAt(a, b, " --> ");
    SplitWithout(b, " --> ");
    var parts := Split(a + " --> " + b, " --> ");
    assert parts == [a, b];
    ParseFormatTime(start);
    ParseFormatTime(end);
  }
}
