/**
 * format_date_speech_friendly and format_time_speech_friendly: a calendar
 * record read aloud. The record's fields are already resolved (the weekday is
 * given, not computed), and the weekday and month names are the fixed English
 * ones.
 */
module SpeechTime {

  import opened Options
  import opened Numerals
  import opened OrdinalWords

  type Year = y: int | 1 <= y <= 9999 witness 1
  type Month = m: int | 1 <= m <= 12 witness 1
  type Day = d: int | 1 <= d <= 31 witness 1
  /** Monday is 0 and Sunday is 6. */
  type Weekday = w: int | 0 <= w <= 6
  type Hour = h: int | 0 <= h <= 23
  type Minute = m: int | 0 <= m <= 59

  /** The fields of a date and time that the formatters read. */
  datatype Timestamp = Timestamp(year: Year, month: Month, day: Day, weekday: Weekday, hour: Hour, minute: Minute)

  const WeekdayNames: seq<string> := [
    "Monday", "Tuesday", "Wednesday", "Thursday", "Friday", "Saturday", "Sunday"
  ]

  const MonthNames: seq<string> := [
    "January", "February", "March", "April", "May", "June",
    "July", "August", "September", "October", "November", "December"
  ]

  // ---------------------------------------------------------------------------
  // Dates
  // ---------------------------------------------------------------------------

  /**
   * The spoken date: weekday, comma, month, the day as an ordinal word, comma
   * and the year in decimal.
   */
  function DateSpeech(ts: Timestamp): (r: string)
    ensures r == WeekdayNames[ts.weekday] + ", " + MonthNames[ts.month - 1] + " " + Ordinals[ts.day] + ", " + Decimal(ts.year)
  {
    FixedAgreesElsewhere(ts.day);
    WeekdayNames[ts.weekday] + ", " + MonthNames[ts.month - 1] + " " + FixedOrdinalWord(ts.day) + ", " + Decimal(ts.year)
  }

  /** The date reads the same whether the day's ordinal comes from the corrected or the original helper. */
  lemma DateSpeechAsWritten(ts: Timestamp)
    ensures DateSpeech(ts) == WeekdayNames[ts.weekday] + ", " + MonthNames[ts.month - 1] + " " + OrdinalWord(ts.day) + ", " + Decimal(ts.year)
  {
    OrdinalOfDay(ts.day);
  }

  /** The spoken date of Thursday, the sixth of March 2025. */
  lemma DateSpeechExample()
    ensures DateSpeech(Timestamp(2025, 3, 6, 3, 9, 0)) == "Thursday" + ", " + "March" + " " + "sixth" + ", " + "2025"
  {
    var y := Decimal(2025);
    assert y == Decimal(202) + [DigitChar(5)];
    assert Decimal(202) == Decimal(20) + [DigitChar(2)];
    assert Decimal(20) == Decimal(2) + [DigitChar(0)];
  }

  /** `s` does not contain `c`. */
  predicate Free(s: string, c: char) {
    c !in s
  }

  /** Index of the first `c` in `s`, or `|s|` when there is none. */
  function IndexOf(s: string, c: char): (k: nat)
    ensures k <= |s| && Free(s[..k], c) && (k < |s| ==> s[k] == c)
  {
    if s == [] || s[0] == c then 0
    else
      var k := 1 + IndexOf(s[1..], c);
      assert s[..k] == [s[0]] + s[1..][..k - 1];
      k
  }

  /** After a part free of `c`, the first `c` is the separator that follows it. */
  lemma {:induction false} IndexOfSeparator(a: string, c: char, x: string)
    requires Free(a, c)
    ensures IndexOf(a + [c] + x, c) == |a|
  {
    if a != [] {
      assert (a + [c] + x)[1..] == a[1..] + [c] + x;
      IndexOfSeparator(a[1..], c, x);
    }
  }

  /** A separator that occurs in neither of two leading parts splits two equal strings at the same place. */
  lemma SplitFirst(a: string, b: string, c: char, x: string, y: string)
    requires Free(a, c) && Free(b, c)
    requires a + [c] + x == b + [c] + y
    ensures a == b && x == y
  {
    var s := a + [c] + x;
    IndexOfSeparator(a, c, x);
    IndexOfSeparator(b, c, y);
    assert a == s[..|a|] == b;
    assert x == s[|a| + 1..] == y;
  }

  /** The same holds for a separator string whose first character occurs in neither leading part. */
  lemma SplitSep(a: string, b: string, sep: string, x: string, y: string)
    requires |sep| >= 1 && Free(a, sep[0]) && Free(b, sep[0])
    requires a + sep + x == b + sep + y
    ensures a == b && x == y
  {
    assert a + sep + x == a + [sep[0]] + (sep[1..] + x);
    assert b + sep + y == b + [sep[0]] + (sep[1..] + y);
    SplitFirst(a, b, sep[0], sep[1..] + x, sep[1..] + y);
    assert x == (sep[1..] + x)[|sep| - 1..];
    assert y == (sep[1..] + y)[|sep| - 1..];
  }

  /**
   * A string of the date's shape splits back into its four parts when the
   * weekday and the ordinal hold no comma and the month holds no space.
   */
  lemma DateParts(w1: string, m1: string, o1: string, y1: string, w2: string, m2: string, o2: string, y2: string)
    requires Free(w1, ',') && Free(w2, ',') && Free(m1, ' ') && Free(m2, ' ') && Free(o1, ',') && Free(o2, ',')
    requires w1 + ", " + m1 + " " + o1 + ", " + y1 == w2 + ", " + m2 + " " + o2 + ", " + y2
    ensures w1 == w2 && m1 == m2 && o1 == o2 && y1 == y2
  {
    var q1, q2 := o1 + ", " + y1, o2 + ", " + y2;
    var r1, r2 := m1 + " " + q1, m2 + " " + q2;
    assert w1 + ", " + m1 + " " + o1 + ", " + y1 == w1 + ", " + r1;
    assert w2 + ", " + m2 + " " + o2 + ", " + y2 == w2 + ", " + r2;
    SplitSep(w1, w2, ", ", r1, r2);
    SplitSep(m1, m2, " ", q1, q2);
    SplitSep(o1, o2, ", ", y1, y2);
  }

  lemma WeekdayNamesDistinct(i: Weekday, j: Weekday)
    requires WeekdayNames[i] == WeekdayNames[j]
    ensures i == j
  {
  }

  lemma MonthNamesDistinct(i: Month, j: Month)
    requires MonthNames[i - 1] == MonthNames[j - 1]
    ensures i == j
  {
  }

  lemma WeekdayNameFree(i: Weekday)
    ensures Free(WeekdayNames[i], ',')
  {
  }

  lemma MonthNameFree(m: Month)
    ensures Free(MonthNames[m - 1], ' ')
  {
  }

  lemma OrdinalsFree(d: Day)
    ensures Free(Ordinals[d], ',')
  {
    TableSpelledOut();
    LetteredText(Ordinals[d]);
  }

  /** The table's words differ from one another. */
  lemma OrdinalsDistinct(d: Day, e: Day)
    requires Ordinals[d] == Ordinals[e]
    ensures d == e
  {
    if d <= 10 {
      OrdinalsDistinctLow(d, e);
    } else if d <= 20 {
      OrdinalsDistinctMiddle(d, e);
    } else {
      OrdinalsDistinctHigh(d, e);
    }
  }

  lemma OrdinalsDistinctLow(d: Day, e: Day)
    requires d <= 10 && Ordinals[d] == Ordinals[e]
    ensures d == e
  {
  }

  lemma OrdinalsDistinctMiddle(d: Day, e: Day)
    requires 11 <= d <= 20 && Ordinals[d] == Ordinals[e]
    ensures d == e
  {
  }

  lemma OrdinalsDistinctHigh(d: Day, e: Day)
    requires 21 <= d && Ordinals[d] == Ordinals[e]
    ensures d == e
  {
  }

  /**
   * Two records that are read aloud alike agree on every field the date
   * speaks: the spoken date loses nothing.
   */
  lemma DateSpeechInjective(ts: Timestamp, us: Timestamp)
    requires DateSpeech(ts) == DateSpeech(us)
    ensures ts.year == us.year && ts.month == us.month && ts.day == us.day && ts.weekday == us.weekday
  {
    DateSpeechFields(ts, us);
    DecimalInjective(ts.year, us.year);
    WeekdayNamesDistinct(ts.weekday, us.weekday);
    MonthNamesDistinct(ts.month, us.month);
    OrdinalsDistinct(ts.day, us.day);
  }

  /** Two dates read aloud alike have the same four spoken parts. */
  lemma DateSpeechFields(ts: Timestamp, us: Timestamp)
    requires DateSpeech(ts) == DateSpeech(us)
    ensures WeekdayNames[ts.weekday] == WeekdayNames[us.weekday]
    ensures MonthNames[ts.month - 1] == MonthNames[us.month - 1]
    ensures Ordinals[ts.day] == Ordinals[us.day]
    ensures Decimal(ts.year) == Decimal(us.year)
  {
    WeekdayNameFree(ts.weekday);
    WeekdayNameFree(us.weekday);
    MonthNameFree(ts.month);
    MonthNameFree(us.month);
    OrdinalsFree(ts.day);
    OrdinalsFree(us.day);
    DateParts(WeekdayNames[ts.weekday], MonthNames[ts.month - 1], Ordinals[ts.day], Decimal(ts.year),
              WeekdayNames[us.weekday], MonthNames[us.month - 1], Ordinals[us.day], Decimal(us.year));
  }

  // ---------------------------------------------------------------------------
  // Times
  // ---------------------------------------------------------------------------

  /** The hour on a 12-hour clock: the one value in 1..12 congruent to `hour` modulo 12. */
  function Hour12(hour: Hour): (h: int)
    ensures 1 <= h <= 12 && h % 12 == hour % 12
  {
    if hour % 12 == 0 then 12 else hour % 12
  }

  /** The half of the day: two letters ending in `M`, led by `A` exactly before noon and by `P` from noon on. */
  function Period(hour: Hour): (r: string)
    ensures |r| == 2 && r[1] == 'M'
    ensures r[0] == 'A' <==> hour < 12
    ensures r[0] == 'P' <==> hour >= 12
  {
    if hour < 12 then "AM" else "PM"
  }

  /**
   * The spoken time: "noon" and "midnight" on those exact minutes, otherwise
   * the 12-hour value, then ":" and the two-digit minute unless the minute is
   * zero, then the period.
   */
  function TimeSpeech(ts: Timestamp): (r: string)
    ensures r == "noon" <==> ts.hour == 12 && ts.minute == 0
    ensures r == "midnight" <==> ts.hour == 0 && ts.minute == 0
    ensures r != "noon" && r != "midnight" ==>
      |r| >= 4 && r[|r| - 3..] == (if ts.hour < 12 then " AM" else " PM")
  {
    if ts.hour == 12 && ts.minute == 0 then "noon"
    else if ts.hour == 0 && ts.minute == 0 then "midnight"
    else
      var h := Decimal(Hour12(ts.hour));
      var clock := if ts.minute == 0 then h else h + ":" + Pad2(ts.minute);
      var r := clock + " " + Period(ts.hour);
      assert r[0] == h[0] && IsDigit(h[0]);
      r
  }

  /** The decimal hour and the padded minute hold no colon. */
  lemma DigitsColonFree(s: string)
    requires AllDigits(s)
    ensures Free(s, ':')
  {
  }

  /** A clock reading carries a colon exactly when its minute is not zero. */
  lemma TimeSpeechColon(ts: Timestamp)
    requires !(ts.hour == 12 && ts.minute == 0) && !(ts.hour == 0 && ts.minute == 0)
    ensures ':' in TimeSpeech(ts) <==> ts.minute != 0
  {
    var r := TimeSpeech(ts);
    var h := Decimal(Hour12(ts.hour));
    var p := Period(ts.hour);
    if ts.minute != 0 {
      assert r[|h|] == ':';
    } else {
      assert r == h + " " + p;
      DigitsColonFree(h);
      forall i | 0 <= i < |r| ensures r[i] != ':' {
        if i < |h| { assert r[i] == h[i]; }
      }
    }
  }

  /** A minute written after the colon: two digits, not "00", below 60. */
  function ReadMinute(t: string): Option<int> {
    if |t| == 2 && AllDigits(t) && 0 < Value(t) < 60 then Some(Value(t)) else None
  }

  /** The 24-hour value of a 12-hour reading. */
  function To24(h12: int, pm: bool): int {
    if pm then (if h12 == 12 then 12 else h12 + 12)
    else (if h12 == 12 then 0 else h12)
  }

  /** Reads a 12-hour clock reading "H" or "H:MM" back into its hour and minute on a 24-hour clock. */
  function ReadHourMinute(clock: string, pm: bool): (r: Option<(int, int)>)
    ensures r.Some? ==> 0 <= r.value.0 <= 23 && 0 <= r.value.1 <= 59
  {
    var k := IndexOf(clock, ':');
    var hourText := clock[..k];
    if hourText == [] || !AllDigits(hourText) || !(1 <= Value(hourText) <= 12) then None
    else
      var minute := if k == |clock| then Some(0) else ReadMinute(clock[k + 1..]);
      if minute.None? then None
      else Some((To24(Value(hourText), pm), minute.value))
  }

  /** Reads a spoken time back into its hour and minute; `None` when `s` is not one. */
  function ReadTime(s: string): (r: Option<(int, int)>)
    ensures r.Some? ==> 0 <= r.value.0 <= 23 && 0 <= r.value.1 <= 59
  {
    if s == "noon" then Some((12, 0))
    else if s == "midnight" then Some((0, 0))
    else if |s| < 4 || !(s[|s| - 3..] == " AM" || s[|s| - 3..] == " PM") then None
    else ReadHourMinute(s[..|s| - 3], s[|s| - 2] == 'P')
  }

  /** The 12-hour value and the period give back the 24-hour value. */
  lemma To24OfHour12(hour: Hour)
    ensures To24(Hour12(hour), hour >= 12) == hour
  {
  }

  /** The clock part splits at its first colon into the hour digits and, when present, the minute. */
  lemma ClockSplits(h: string, minute: Minute)
    requires |h| >= 1 && AllDigits(h)
    ensures var clock := if minute == 0 then h else h + ":" + Pad2(minute);
      var k := IndexOf(clock, ':');
      clock[..k] == h && (k == |clock| <==> minute == 0) && (minute != 0 ==> clock[k + 1..] == Pad2(minute))
  {
    DigitsColonFree(h);
    if minute != 0 {
      var clock := h + ":" + Pad2(minute);
      IndexOfSeparator(h, ':', Pad2(minute));
      assert clock == h + [':'] + Pad2(minute);
    }
  }

  /** The clock part of a reading gives back its 24-hour hour and its minute. */
  lemma ReadHourMinuteOf(h12: int, minute: Minute, pm: bool)
    requires 1 <= h12 <= 12
    ensures var clock := if minute == 0 then Decimal(h12) else Decimal(h12) + ":" + Pad2(minute);
      ReadHourMinute(clock, pm) == Some((To24(h12, pm), minute))
  {
    ClockSplits(Decimal(h12), minute);
    ValueOfDecimal(h12);
  }

  /** A clock part followed by its period is read by reading the clock part. */
  lemma ReadTimeOfClock(clock: string, pm: bool)
    requires |clock| >= 1 && IsDigit(clock[0])
    ensures ReadTime(clock + " " + (if pm then "PM" else "AM")) == ReadHourMinute(clock, pm)
  {
    var s := clock + " " + (if pm then "PM" else "AM");
    assert s[0] == clock[0];
    assert s[..|s| - 3] == clock;
    assert s[|s| - 3..] == " " + (if pm then "PM" else "AM");
  }

  /** A 12-hour reading with its period reads back as the matching 24-hour time. */
  lemma ReadClock(h12: int, minute: Minute, pm: bool)
    requires 1 <= h12 <= 12
    ensures var clock := if minute == 0 then Decimal(h12) else Decimal(h12) + ":" + Pad2(minute);
      ReadTime(clock + " " + (if pm then "PM" else "AM")) == Some((To24(h12, pm), minute))
  {
    var h := Decimal(h12);
    var clock := if minute == 0 then h else h + ":" + Pad2(minute);
    assert clock[0] == h[0];
    ReadTimeOfClock(clock, pm);
    ReadHourMinuteOf(h12, minute, pm);
  }

  /** Reading a spoken time gives back its hour and minute. */
  lemma ReadTimeSpeech(ts: Timestamp)
    ensures ReadTime(TimeSpeech(ts)) == Some((ts.hour, ts.minute))
  {
    if !(ts.hour == 12 && ts.minute == 0) && !(ts.hour == 0 && ts.minute == 0) {
      ReadClock(Hour12(ts.hour), ts.minute, ts.hour >= 12);
      To24OfHour12(ts.hour);
    }
  }

  /**
   * Twelve o'clock is always "noon" or "midnight": "12 AM" and "12 PM" are
   * never produced.
   */
  lemma TimeSpeechNoTwelveOClock(ts: Timestamp)
    ensures TimeSpeech(ts) != "12" + " " + "AM" && TimeSpeech(ts) != "12" + " " + "PM"
  {
    var r := TimeSpeech(ts);
    if r == "12" + " " + "AM" || r == "12" + " " + "PM" {
      TimeSpeechColon(ts);
      var h := Decimal(Hour12(ts.hour));
      assert r == h + " " + Period(ts.hour);
      assert Decimal(12) == Decimal(1) + [DigitChar(2)];
      assert h == r[..|r| - 3] == Decimal(12);
      DecimalInjective(Hour12(ts.hour), 12);
    }
  }

  /** Half past three in the afternoon. */
  lemma TimeSpeechHalfPast()
    ensures TimeSpeech(Timestamp(2025, 3, 6, 3, 15, 30)) == "3" + ":" + "30" + " " + "PM"
  {
    assert Decimal(30) == Decimal(3) + [DigitChar(0)];
  }

  /** Three o'clock in the afternoon, without minutes. */
  lemma TimeSpeechOnTheHour()
    ensures TimeSpeech(Timestamp(2025, 3, 6, 3, 15, 0)) == "3" + " " + "PM"
  {
  }

  /** Five past midnight: the hour reads 12 and the minute is padded. */
  lemma TimeSpeechAfterMidnight()
    ensures TimeSpeech(Timestamp(2025, 3, 6, 3, 0, 5)) == "12" + ":" + "05" + " " + "AM"
  {
    assert Decimal(12) == Decimal(1) + [DigitChar(2)];
  }
}
