/**
 * `format_timestamp` of the speaker-diarization script: a duration is rendered
 * with Python's `str(timedelta)` and then rewritten into `HH:MM:SS.mmm`.
 * Durations are whole microseconds, the resolution `timedelta` keeps.
 */
module Timestamp {
  import opened Wrappers
  import opened Decimal

  /** A `timedelta` as Python normalises it: days, seconds within the day, microseconds. */
  datatype Timedelta = Timedelta(days: nat, seconds: nat, microseconds: nat)

  /**
   * `timedelta(microseconds = us)` for a non-negative duration: 86400 seconds
   * to the day, 1000000 microseconds to the second.
   */
  function FromMicros(us: nat): (td: Timedelta)
    ensures td.seconds < 86400 && td.microseconds < 1000000
    ensures (td.days * 86400 + td.seconds) * 1000000 + td.microseconds == us
  {
    Timedelta(us / 86400000000, us / 1000000 % 86400, us % 1000000)
  }

  /**
   * `str(td)`: `H:MM:SS`, preceded by `"D day, "` or `"D days, "` when there
   * are days, and followed by `.ffffff` when the microseconds are not zero.
   */
  function TimedeltaStr(td: Timedelta): (s: string)
    ensures '.' in s <==> td.microseconds != 0
  {
    var clock := HourField(td) + MinutesSeconds(td);
    assert NoDot(clock);
    if td.microseconds != 0 then clock + "." + FixedDigits(td.microseconds, 6) else clock
  }

  /**
   * What `str(td)` writes before the first colon: the hours, after the day
   * count when there is one.
   */
  function HourField(td: Timedelta): (s: string)
    ensures NoDot(s) && NoColon(s) && |s| >= 1
  {
    var hours := NatToString(td.seconds / 60 / 60);
    if td.days != 0 then DayPrefix(td.days) + hours else hours
  }

  /** `:MM:SS`, the minutes and seconds within the hour, each padded to two digits. */
  function MinutesSeconds(td: Timedelta): (s: string)
    ensures NoDot(s) && |s| == 6 && s[0] == ':'
  {
    ":" + FixedDigits(td.seconds / 60 % 60, 2) + ":" + FixedDigits(td.seconds % 60, 2)
  }

  /** `"%d day%s, "` with the plural `s` for every count but one. */
  function DayPrefix(days: nat): (s: string)
    ensures NoDot(s) && NoColon(s) && |s| > |NatToString(days)|
    ensures s[|NatToString(days)|] == ' '
  {
    NatToString(days) + (if days != 1 then " days, " else " day, ")
  }

  predicate NoDot(s: string) {
    forall i :: 0 <= i < |s| ==> s[i] != '.'
  }

  predicate NoColon(s: string) {
    forall i :: 0 <= i < |s| ==> s[i] != ':'
  }

  /** `s.split(sep)[0]`: everything before the first `sep`, or all of `s`. */
  function SplitFirst(s: string, sep: char): (r: string)
    ensures r <= s
    ensures forall i :: 0 <= i < |r| ==> r[i] != sep
    ensures |r| < |s| ==> s[|r|] == sep
  {
    if s == [] || s[0] == sep then [] else [s[0]] + SplitFirst(s[1..], sep)
  }

  /** `s[:-k]`. */
  function DropLast(s: string, k: nat): (r: string)
    ensures |r| == if |s| >= k then |s| - k else 0
    ensures r <= s
  {
    if |s| >= k then s[..|s| - k] else []
  }

  /**
   * `format_timestamp`: append `.000` when there is no fractional part,
   * otherwise cut the six microsecond digits to three; then put a `0` before
   * an hour field of one character.
   */
  function FormatTimestamp(us: nat): string {
    FormatDelta(FromMicros(us))
  }

  /** The two rewrites applied to `str(td)`. */
  function FormatDelta(td: Timedelta): string {
    PadHour(FixFraction(TimedeltaStr(td)))
  }

  /** The first rewrite: `.000` appended, or the last three digits dropped. */
  function FixFraction(time: string): string {
    if '.' !in time then time + ".000" else DropLast(time, 3)
  }

  /**
   * The second rewrite: a `0` before a one-character hour field. Any
   * non-empty field before the first colon comes out with at least two
   * characters, and a field of any length but one is left alone.
   */
  function PadHour(time: string): (r: string)
    ensures SplitFirst(time, ':') != [] ==> |SplitFirst(r, ':')| >= 2
    ensures |SplitFirst(time, ':')| != 1 ==> r == time
  {
    if |SplitFirst(time, ':')| == 1 then
      assert ("0" + time)[1..] == time;
      "0" + time
    else time
  }

  /** The `HH:MM:SS.mmm` the formatter's documentation promises, from the duration. */
  function ClockField(us: nat): string {
    FixedDigits(us / 3600000000, 2) + ":" + FixedDigits(us / 60000000 % 60, 2) + ":"
      + FixedDigits(us / 1000000 % 60, 2) + "." + FixedDigits(us / 1000 % 1000, 3)
  }

  /** Twelve characters: two-digit hours, minutes and seconds, three-digit milliseconds. */
  predicate IsClockShape(s: string) {
    |s| == 12 && s[2] == ':' && s[5] == ':' && s[8] == '.'
    && IsDigit(s[0]) && IsDigit(s[1]) && IsDigit(s[3]) && IsDigit(s[4]) && IsDigit(s[6])
    && IsDigit(s[7]) && IsDigit(s[9]) && IsDigit(s[10]) && IsDigit(s[11])
  }

  function Digit(c: char): int {
    c as int - '0' as int
  }

  /** Reads an `HH:MM:SS.mmm` string back as a number of milliseconds. */
  function ParseTimestamp(s: string): (r: Option<int>)
    ensures r.Some? ==> IsClockShape(s)
  {
    if IsClockShape(s) then
      var hours := Digit(s[0]) * 10 + Digit(s[1]);
      var minutes := Digit(s[3]) * 10 + Digit(s[4]);
      var seconds := Digit(s[6]) * 10 + Digit(s[7]);
      var millis := Digit(s[9]) * 100 + Digit(s[10]) * 10 + Digit(s[11]);
      Some(((hours * 60 + minutes) * 60 + seconds) * 1000 + millis)
    else None
  }

  lemma SplitFirstAt(a: string, b: string, sep: char)
    requires forall i :: 0 <= i < |a| ==> a[i] != sep
    requires |b| > 0 && b[0] == sep
    ensures SplitFirst(a + b, sep) == a
  {
    if a != [] {
      assert (a + b)[1..] == a[1..] + b;
      SplitFirstAt(a[1..], b, sep);
    }
  }

  /** With no `.` present, the first rewrite appends `.000`. */
  lemma FixFractionWhole(clock: string)
    requires NoDot(clock)
    ensures FixFraction(clock) == clock + ".000"
  {
  }

  /** With a six-digit fraction present, the first rewrite keeps its leading three digits. */
  lemma FixFractionCut(clock: string, six: string)
    requires |six| == 6
    ensures FixFraction(clock + "." + six) == clock + "." + six[..3]
  {
    var time := clock + "." + six;
    assert time[|clock|] == '.';
    assert time[..|time| - 3] == clock + "." + six[..3];
  }

  /** The first rewrite leaves exactly three fractional digits, the leading three of six. */
  lemma FixFractionParts(td: Timedelta)
    ensures FixFraction(TimedeltaStr(td))
      == HourField(td) + MinutesSeconds(td) + "." + FixedDigits(td.microseconds / 1000, 3)
  {
    var clock := HourField(td) + MinutesSeconds(td);
    if td.microseconds == 0 {
      FixFractionWhole(clock);
      assert FixedDigits(0, 3) == "000";
    } else {
      SixDigitsTruncated(td.microseconds);
      FixFractionCut(clock, FixedDigits(td.microseconds, 6));
    }
  }

  /** The second rewrite pads a one-character hour field and leaves the rest alone. */
  lemma PadHourParts(time: string, head: string, minutesSeconds: string, millis: string)
    requires NoColon(head) && |minutesSeconds| > 0 && minutesSeconds[0] == ':'
    requires time == head + minutesSeconds + "." + millis
    ensures PadHour(time) == (if |head| == 1 then "0" else "") + head + minutesSeconds + "." + millis
  {
    var rest := minutesSeconds + "." + millis;
    assert time == head + rest;
    SplitFirstAt(head, rest, ':');
  }

  /** The millisecond digits are the top three of the six microsecond digits. */
  lemma MillisOfMicros(us: nat)
    ensures us % 1000000 / 1000 == us / 1000 % 1000
  {
    var q, r := us / 1000000, us % 1000000;
    var t, u := r / 1000, r % 1000;
    assert us == 1000 * (1000 * q + t) + u;
    assert us / 1000 == 1000 * q + t;
    assert (1000 * q + t) % 1000 == t;
  }

  /** The hour field after the second rewrite: one character gets a leading `0`. */
  function PaddedHourField(td: Timedelta): (s: string)
    ensures NoColon(s) && |s| >= 2
  {
    var head := HourField(td);
    (if |head| == 1 then "0" else "") + head
  }

  lemma FormatDeltaParts(td: Timedelta)
    ensures FormatDelta(td)
      == PaddedHourField(td) + MinutesSeconds(td) + "." + FixedDigits(td.microseconds / 1000, 3)
  {
    FixFractionParts(td);
    PadHourParts(FixFraction(TimedeltaStr(td)), HourField(td), MinutesSeconds(td),
      FixedDigits(td.microseconds / 1000, 3));
  }

  /**
   * The rewrites of `format_timestamp` on any duration: the hour field (padded
   * to two characters when it has one), minutes and seconds, and exactly three
   * millisecond digits, truncated rather than rounded.
   */
  lemma FormatParts(us: nat)
    ensures FormatTimestamp(us)
      == PaddedHourField(FromMicros(us)) + MinutesSeconds(FromMicros(us)) + "." + FixedDigits(us / 1000 % 1000, 3)
  {
    FormatDeltaParts(FromMicros(us));
    MillisOfMicros(us);
  }

  /** Below one day the fields of the `timedelta` are the hours, minutes and seconds of the clock. */
  lemma ClockArithmetic(us: nat)
    requires us < 86400000000
    ensures FromMicros(us).days == 0
    ensures FromMicros(us).seconds / 60 / 60 == us / 3600000000 < 24
    ensures FromMicros(us).seconds / 60 % 60 == us / 60000000 % 60
    ensures FromMicros(us).seconds % 60 == us / 1000000 % 60
  {
    var seconds := us / 1000000;
    assert FromMicros(us).seconds == seconds;
    assert seconds / 60 == us / 60000000;
    assert seconds / 60 / 60 == us / 3600000000;
  }

  /** Without days, the padded hour field is the hours in two digits. */
  lemma PaddedHoursWithoutDays(td: Timedelta)
    requires td.days == 0 && td.seconds < 86400
    ensures PaddedHourField(td) == FixedDigits(td.seconds / 60 / 60, 2)
  {
    var h := td.seconds / 60 / 60;
    assert HourField(td) == NatToString(h);
    TwoDigitField(h);
  }

  /** Regrouping the joined fields, kept apart so that the callers see only string variables. */
  lemma Reassociate(a: string, b: string, c: string, d: string)
    ensures a + (":" + b + ":" + c) + "." + d == a + ":" + b + ":" + c + "." + d
  {
  }

  /** Without days, the rewrites give two-digit hours, minutes and seconds and three-digit milliseconds. */
  lemma DeltaWithoutDays(td: Timedelta)
    requires td.days == 0 && td.seconds < 86400
    ensures FormatDelta(td)
      == FixedDigits(td.seconds / 60 / 60, 2) + ":" + FixedDigits(td.seconds / 60 % 60, 2) + ":"
         + FixedDigits(td.seconds % 60, 2) + "." + FixedDigits(td.microseconds / 1000, 3)
  {
    FormatDeltaParts(td);
    PaddedHoursWithoutDays(td);
    Reassociate(FixedDigits(td.seconds / 60 / 60, 2), FixedDigits(td.seconds / 60 % 60, 2),
      FixedDigits(td.seconds % 60, 2), FixedDigits(td.microseconds / 1000, 3));
  }

  /** Below one day the result is exactly the documented `HH:MM:SS.mmm`. */
  lemma FormatUnderOneDay(us: nat)
    requires us < 86400000000
    ensures FormatTimestamp(us) == ClockField(us)
  {
    DeltaWithoutDays(FromMicros(us));
    ClockArithmetic(us);
    MillisOfMicros(us);
  }

  /** Two-digit hours, minutes and seconds and three-digit milliseconds, joined, have the clock shape. */
  lemma ClockShapeOf(hh: string, mm: string, ss: string, mmm: string)
    requires |hh| == 2 && |mm| == 2 && |ss| == 2 && |mmm| == 3
    requires AllDigits(hh) && AllDigits(mm) && AllDigits(ss) && AllDigits(mmm)
    ensures var s := hh + ":" + mm + ":" + ss + "." + mmm;
      IsClockShape(s) && s[0] == hh[0] && s[1] == hh[1] && s[3] == mm[0] && s[4] == mm[1]
      && s[6] == ss[0] && s[7] == ss[1] && s[9] == mmm[0] && s[10] == mmm[1] && s[11] == mmm[2]
  {
    assert IsDigit(hh[0]) && IsDigit(hh[1]) && IsDigit(mm[0]) && IsDigit(mm[1]);
    assert IsDigit(ss[0]) && IsDigit(ss[1]) && IsDigit(mmm[0]) && IsDigit(mmm[1]) && IsDigit(mmm[2]);
  }

  /** Below one day the result has the `HH:MM:SS.mmm` shape. */
  lemma ShapeUnderOneDay(us: nat)
    requires us < 86400000000
    ensures IsClockShape(FormatTimestamp(us))
  {
    FormatUnderOneDay(us);
    ClockShapeOf(FixedDigits(us / 3600000000, 2), FixedDigits(us / 60000000 % 60, 2),
      FixedDigits(us / 1000000 % 60, 2), FixedDigits(us / 1000 % 1000, 3));
  }

  /** The last four characters of a string ending in a dot and three characters; kept apart for the same reason as `Reassociate`. */
  lemma LastFour(f: string, s: string, mmm: string)
    requires |mmm| == 3 && f == s + "." + mmm
    ensures |f| >= 4 && f[|f| - 4..] == "." + mmm
  {
  }

  /** The last four characters are a dot and the milliseconds, truncated rather than rounded. */
  lemma FormatMilliseconds(us: nat)
    ensures |FormatTimestamp(us)| >= 4
    ensures FormatTimestamp(us)[|FormatTimestamp(us)| - 4..] == "." + FixedDigits(us / 1000 % 1000, 3)
  {
    var td := FromMicros(us);
    FormatParts(us);
    LastFour(FormatTimestamp(us), PaddedHourField(td) + MinutesSeconds(td), FixedDigits(us / 1000 % 1000, 3));
  }

  lemma WholeSecondMillis(us: nat)
    requires us % 1000000 == 0
    ensures FixedDigits(us / 1000 % 1000, 3) == "000"
  {
    MillisOfMicros(us);
    assert FixedDigits(0, 3) == "000";
  }

  /** A whole number of seconds ends in `.000`. */
  lemma FormatWholeSeconds(us: nat)
    requires us % 1000000 == 0
    ensures |FormatTimestamp(us)| >= 4 && FormatTimestamp(us)[|FormatTimestamp(us)| - 4..] == ".000"
  {
    FormatMilliseconds(us);
    WholeSecondMillis(us);
  }

  lemma SplitFirstBeforeMinutes(hh: string, mmss: string, mmm: string)
    requires NoColon(hh) && |mmss| > 0 && mmss[0] == ':'
    ensures SplitFirst(hh + mmss + "." + mmm, ':') == hh
  {
    assert hh + mmss + "." + mmm == hh + (mmss + "." + mmm);
    SplitFirstAt(hh, mmss + "." + mmm, ':');
  }

  /** The field before the first colon never has fewer than two characters. */
  lemma HourFieldPadded(us: nat)
    ensures |SplitFirst(FormatTimestamp(us), ':')| >= 2
  {
    var td := FromMicros(us);
    FormatParts(us);
    SplitFirstBeforeMinutes(PaddedHourField(td), MinutesSeconds(td), FixedDigits(us / 1000 % 1000, 3));
  }

  lemma MillisecondsSplit(us: nat)
    requires us < 86400000000
    ensures ((us / 3600000000 * 60 + us / 60000000 % 60) * 60 + us / 1000000 % 60) * 1000
      + us / 1000 % 1000 == us / 1000
  {
    var millis := us / 1000;
    var seconds := millis / 1000;
    var minutes := seconds / 60;
    assert seconds == us / 1000000;
    assert minutes == us / 60000000;
    assert minutes / 60 == us / 3600000000;
    assert millis == seconds * 1000 + millis % 1000;
    assert seconds == minutes * 60 + seconds % 60;
    assert minutes == minutes / 60 * 60 + minutes % 60;
  }

  /** Two fixed digits read back as the number they hold. */
  lemma TwoDigitsRead(n: nat)
    requires n < 100
    ensures Digit(FixedDigits(n, 2)[0]) * 10 + Digit(FixedDigits(n, 2)[1]) == n
  {
    assert FixedDigits(n, 2) == [DigitChar(n / 10 % 10), DigitChar(n % 10)];
  }

  /** Three fixed digits read back as the number they hold. */
  lemma ThreeDigitsRead(n: nat)
    requires n < 1000
    ensures Digit(FixedDigits(n, 3)[0]) * 100 + Digit(FixedDigits(n, 3)[1]) * 10 + Digit(FixedDigits(n, 3)[2]) == n
  {
    assert FixedDigits(n / 10, 2) == [DigitChar(n / 10 / 10 % 10), DigitChar(n / 10 % 10)];
    assert FixedDigits(n, 3) == [DigitChar(n / 10 / 10 % 10), DigitChar(n / 10 % 10), DigitChar(n % 10)];
  }

  /** A clock string parses to the milliseconds its digit fields denote. */
  lemma ParseClockString(hh: string, mm: string, ss: string, mmm: string, h: nat, m: nat, sec: nat, ms: nat)
    requires |hh| == 2 && |mm| == 2 && |ss| == 2 && |mmm| == 3
    requires AllDigits(hh) && AllDigits(mm) && AllDigits(ss) && AllDigits(mmm)
    requires Digit(hh[0]) * 10 + Digit(hh[1]) == h
    requires Digit(mm[0]) * 10 + Digit(mm[1]) == m
    requires Digit(ss[0]) * 10 + Digit(ss[1]) == sec
    requires Digit(mmm[0]) * 100 + Digit(mmm[1]) * 10 + Digit(mmm[2]) == ms
    ensures ParseTimestamp(hh + ":" + mm + ":" + ss + "." + mmm) == Some(((h * 60 + m) * 60 + sec) * 1000 + ms)
  {
    ClockShapeOf(hh, mm, ss, mmm);
  }

  /** A clock string built from fields in range parses back to its milliseconds. */
  lemma ParseClockFields(h: nat, m: nat, sec: nat, ms: nat)
    requires h < 100 && m < 100 && sec < 100 && ms < 1000
    ensures ParseTimestamp(FixedDigits(h, 2) + ":" + FixedDigits(m, 2) + ":" + FixedDigits(sec, 2)
                           + "." + FixedDigits(ms, 3))
         == Some(((h * 60 + m) * 60 + sec) * 1000 + ms)
  {
    TwoDigitsRead(h);
    TwoDigitsRead(m);
    TwoDigitsRead(sec);
    ThreeDigitsRead(ms);
    ParseClockString(FixedDigits(h, 2), FixedDigits(m, 2), FixedDigits(sec, 2), FixedDigits(ms, 3), h, m, sec, ms);
  }

  lemma ClockFieldParsesTo(us: nat, h: nat, m: nat, sec: nat, ms: nat)
    requires h == us / 3600000000 < 100 && m == us / 60000000 % 60
    requires sec == us / 1000000 % 60 && ms == us / 1000 % 1000
    ensures ParseTimestamp(ClockField(us)) == Some(((h * 60 + m) * 60 + sec) * 1000 + ms)
  {
    ParseClockFields(h, m, sec, ms);
  }

  /** The documented clock string of a duration under one day reads back as its whole milliseconds. */
  lemma ClockFieldParses(us: nat)
    requires us < 86400000000
    ensures ParseTimestamp(ClockField(us)) == Some(us / 1000)
  {
    var h, m, sec, ms := us / 3600000000, us / 60000000 % 60, us / 1000000 % 60, us / 1000 % 1000;
    ClockFieldParsesTo(us, h, m, sec, ms);
    MillisecondsSplit(us);
  }

  /** Below one day, reading the formatted string back gives the duration in whole milliseconds. */
  lemma FormatThenParse(us: nat)
    requires us < 86400000000
    ensures ParseTimestamp(FormatTimestamp(us)) == Some(us / 1000)
  {
    FormatUnderOneDay(us);
    ClockFieldParses(us);
  }

  /** Whatever follows a day count, the string is not `HH:MM:SS.mmm`. */
  lemma DayPrefixBreaksShape(days: nat, rest: string)
    ensures (DayPrefix(days) + rest)[..|DayPrefix(days)|] == DayPrefix(days)
    ensures !IsClockShape(DayPrefix(days) + rest)
  {
    var prefix := DayPrefix(days);
    var r := prefix + rest;
    var n := |NatToString(days)|;
    assert r[n] == ' ';
    if |r| == 12 {
      if n == 1 { assert r[1] == ' ' && !IsDigit(r[..2][1]); }
      else if n == 2 { assert r[2] == ' '; }
      else { assert r[2] == prefix[2] == NatToString(days)[2]; }
    }
  }

  /** The day prefix is split off first; kept apart for the same reason as `Reassociate`. */
  lemma DayPrefixFirst(prefix: string, hours: string, mmss: string, mmm: string)
    ensures prefix + hours + mmss + "." + mmm == prefix + (hours + mmss + "." + mmm)
  {
  }

  /**
   * From one day on, `str(timedelta)` starts with a day count that the
   * formatter passes through, so the result is not `HH:MM:SS.mmm`.
   */
  lemma FormatFromOneDay(us: nat)
    requires us >= 86400000000
    ensures FormatTimestamp(us)[..|DayPrefix(us / 86400000000)|] == DayPrefix(us / 86400000000)
    ensures !IsClockShape(FormatTimestamp(us))
  {
    FormatParts(us);
    var td := FromMicros(us);
    var hours := NatToString(td.seconds / 60 / 60);
    var mmm := FixedDigits(us / 1000 % 1000, 3);
    assert PaddedHourField(td) == DayPrefix(td.days) + hours;
    DayPrefixFirst(DayPrefix(td.days), hours, MinutesSeconds(td), mmm);
    DayPrefixBreaksShape(td.days, hours + MinutesSeconds(td) + "." + mmm);
  }

  /** One hour, two minutes and 5.4567 seconds renders as `01:02:05.456`. */
  lemma FormatExample(us: nat)
    requires us == 3725456700
    ensures FormatTimestamp(us) == "01:02:05.456"
  {
    FormatUnderOneDay(us);
    ExampleFields(us);
    ClockFieldOf(us, 1, 2, 5, 456);
    ExampleDigits();
  }

  lemma ExampleFields(us: nat)
    requires us == 3725456700
    ensures us / 3600000000 == 1 && us / 60000000 % 60 == 2 && us / 1000000 % 60 == 5 && us / 1000 % 1000 == 456
  {
  }

  lemma ExampleDigits()
    ensures FixedDigits(1, 2) + ":" + FixedDigits(2, 2) + ":" + FixedDigits(5, 2) + "." + FixedDigits(456, 3)
      == "01:02:05.456"
  {
    TwoExampleDigits();
    ThreeExampleDigits();
    var hh, mm, ss, mmm := FixedDigits(1, 2), FixedDigits(2, 2), FixedDigits(5, 2), FixedDigits(456, 3);
    assert hh + ":" + mm + ":" + ss + "." + mmm == "01" + ":" + "02" + ":" + "05" + "." + "456";
  }

  lemma TwoExampleDigits()
    ensures FixedDigits(1, 2) == "01" && FixedDigits(2, 2) == "02" && FixedDigits(5, 2) == "05"
  {
  }

  lemma ThreeExampleDigits()
    ensures FixedDigits(456, 3) == "456"
  {
  }

  lemma ClockFieldOf(us: nat, h: nat, m: nat, sec: nat, ms: nat)
    requires h == us / 3600000000 && m == us / 60000000 % 60
    requires sec == us / 1000000 % 60 && ms == us / 1000 % 1000
    ensures ClockField(us)
      == FixedDigits(h, 2) + ":" + FixedDigits(m, 2) + ":" + FixedDigits(sec, 2) + "." + FixedDigits(ms, 3)
  {
  }
}
