/** The value layer of the LibCpp copy of cTime (src/LibCpp/Time/cTime.h,
    src/LibCpp/Time/cTimeStd.cpp): a time zone with hours and minutes,
    calendars and struct tm that mark missing entries with sentinel values,
    the field mapping between them, UTCdeviation and the text dispatch. The
    duration codec and duration() are the same code as in src/cTimeStd.cpp
    and are modelled once, in Durations and DurationText. */
module LibCTimeStd {
  import opened CTypes
  import opened CTime
  import opened Durations
  import opened DurationText
  import CTimeStd
  import TextFormat

  /** The sentinels that mark an entry as not set. */
  const Int8Invalid: int8 := -0x80
  const UInt8Invalid: uint8 := 0xFF
  const UInt16Invalid: uint16 := 0xFFFF
  const Int32Invalid: int32 := -0x8000_0000
  const IntInvalid: int32 := -0x8000_0000

  /** stTimeZone: a deviation from UTC in hours and minutes. */
  datatype TimeZone = TimeZone(hours: int8, minutes: int8)

  /** stTimeZone_Invalid, as it sits in stCalendar_Invalid. */
  const TimeZoneInvalid: TimeZone := TimeZone(Int8Invalid, 0)

  /** stCalendar of src/LibCpp/Time/cTime.h:35-54, without the fields no
      code computes (picoSeconds, leapSecond, padding). */
  datatype LibCalendar = LibCalendar(
    year: int32,
    month: uint8,
    day: uint8,
    hour: uint8,
    minute: uint8,
    second: uint8,
    dst: int8,
    timeZone: TimeZone,
    dayInYear: uint16,
    dayInWeek: uint8,
    calendarWeek: uint8)

  /** stCalendar_Invalid (src/LibCpp/Time/cTimeStd.cpp:217): every entry at
      its sentinel. */
  const CalendarInvalid: LibCalendar :=
    LibCalendar(Int32Invalid, UInt8Invalid, UInt8Invalid, UInt8Invalid, UInt8Invalid, UInt8Invalid,
                Int8Invalid, TimeZoneInvalid, UInt16Invalid, UInt8Invalid, UInt8Invalid)

  /** tm_Invalid: every member INT_INVALID. */
  const TmInvalid: Tm := Tm(IntInvalid, IntInvalid, IntInvalid, IntInvalid, IntInvalid,
                            IntInvalid, IntInvalid, IntInvalid, IntInvalid)

  /** The documented ranges of the LibCpp stCalendar. */
  predicate ValidLibCalendar(c: LibCalendar)
  {
    1 <= c.month <= 12 && 1 <= c.day <= 31 && c.hour <= 23 && c.minute <= 59 && c.second <= 59
    && -1 <= c.dst <= 1 && 1 <= c.dayInYear <= 366 && 1 <= c.dayInWeek <= 7
  }

  // ---------------------------------------------------------------------------
  // UTCdeviation

  /** UTCdeviation(zone, dst) (src/LibCpp/Time/cTimeStd.cpp:486-491): one hour
      more in daylight saving time, in int8_t. */
  function LibUtcDeviation(zone: TimeZone, dst: int8): TimeZone
  {
    if dst > 0 then zone.(hours := ToInt8(zone.hours + 1)) else zone
  }

  /** Only the hours move, and only in daylight saving time; they move as the
      single-byte zone of UTCdeviation in src/cTimeStd.cpp does. */
  lemma LibUtcDeviationHours(zone: TimeZone, dst: int8, c: Calendar)
    requires c.timeZone == zone.hours && c.dst == dst
    ensures LibUtcDeviation(zone, dst).minutes == zone.minutes
    ensures LibUtcDeviation(zone, dst).hours == CTimeStd.UtcDeviation(c)
    ensures LibUtcDeviation(zone, dst) == zone <==> dst <= 0
  {
    if dst > 0 {
      assert ToInt8(zone.hours + 1) != zone.hours by {
        if zone.hours == 127 {
          assert ToInt8(128) == -128;
        }
      }
    }
  }

  // ---------------------------------------------------------------------------
  // fromCalendar and toCalendar

  /** The struct tm fromCalendar returns and what it leaves in *pTimeZone
      (None for a null pointer). */
  datatype TmAndZone = TmAndZone(tm: Tm, zone: Option<TimeZone>)

  /** The struct tm fromCalendar fills: tm_Invalid, and each calendar entry
      that is not at its sentinel moved to the struct tm origin (years from
      1900, months from 0, Sunday as 0, days in the year from 0). */
  function CalendarToTm(c: LibCalendar): Tm
  {
    Tm(tm_sec := if c.second != UInt8Invalid then c.second else IntInvalid,
       tm_min := if c.minute != UInt8Invalid then c.minute else IntInvalid,
       tm_hour := if c.hour != UInt8Invalid then c.hour else IntInvalid,
       tm_mday := if c.day != UInt8Invalid then c.day else IntInvalid,
       tm_mon := if c.month != UInt8Invalid then c.month - 1 else IntInvalid,
       tm_year := if c.year != Int32Invalid then ToInt32(c.year - 1900) else IntInvalid,
       tm_wday := if c.dayInWeek == UInt8Invalid then IntInvalid else if c.dayInWeek == 7 then 0 else c.dayInWeek,
       tm_yday := if c.dayInYear != UInt16Invalid then c.dayInYear - 1 else IntInvalid,
       tm_isdst := if c.dst != Int8Invalid then c.dst else IntInvalid)
  }

  /** fromCalendar (src/LibCpp/Time/cTimeStd.cpp:602-632). The zone is written
      to *pTimeZone when the year is not INT8_INVALID: the test compares the
      year with the sentinel of the zone hours. */
  function FromCalendar(c: LibCalendar, zone: Option<TimeZone>): TmAndZone
  {
    var out := if zone.Some? && c.year != Int8Invalid then Some(c.timeZone) else zone;
    TmAndZone(CalendarToTm(c), out)
  }

  /** Where toCalendar takes the zone from: the struct *pTimeZone, or, for a
      null pointer, the platform's local zone and dst flag. */
  datatype ZoneSource = Given(zone: TimeZone) | FromSystem(local: TimeZone, dst: int8)

  /** The calendar entries toCalendar copies from a struct tm: each member
      that is not INT_INVALID, moved to the calendar origin, with Sunday as
      day 7; the day in the year is copied when tm_year is set. */
  function TmToLibCalendar(t: Tm): LibCalendar
  {
    LibCalendar(
      year := if t.tm_year != IntInvalid then ToInt32(t.tm_year + 1900) else Int32Invalid,
      month := if t.tm_mon != IntInvalid then ToUInt8(t.tm_mon + 1) else UInt8Invalid,
      day := if t.tm_mday != IntInvalid then ToUInt8(t.tm_mday) else UInt8Invalid,
      hour := if t.tm_hour != IntInvalid then ToUInt8(t.tm_hour) else UInt8Invalid,
      minute := if t.tm_min != IntInvalid then ToUInt8(t.tm_min) else UInt8Invalid,
      second := if t.tm_sec != IntInvalid then ToUInt8(t.tm_sec) else UInt8Invalid,
      dst := if t.tm_isdst != IntInvalid then ToInt8(t.tm_isdst) else Int8Invalid,
      timeZone := TimeZoneInvalid,
      dayInYear := if t.tm_year != IntInvalid then ToUInt16(t.tm_yday + 1) else UInt16Invalid,
      dayInWeek := if t.tm_wday != IntInvalid then Weekday(t.tm_wday) else UInt8Invalid,
      calendarWeek := UInt8Invalid)
  }

  /** tm_wday as a calendar day in the week: 0 (Sunday) becomes 7. */
  function Weekday(wday: int32): uint8
  {
    var w := ToUInt8(wday);
    if w == 0 then 7 else w
  }

  /** toCalendar (src/LibCpp/Time/cTimeStd.cpp:642-676): the entries, then the
      given zone unless its hours are INT8_INVALID, or for a null pointer the
      local zone and dst flag of the system. */
  function ToCalendar(t: Tm, source: ZoneSource): LibCalendar
  {
    var c := TmToLibCalendar(t);
    match source
    case Given(z) => if z.hours != Int8Invalid then c.(timeZone := z) else c
    case FromSystem(local, dst) => c.(timeZone := local, dst := dst)
  }

  /** The calendars whose entries all hold values: no sentinel, no year that
      fromCalendar turns into INT_INVALID, a week day 1 to 7 and a year other
      than INT8_INVALID, which would keep the zone from being written. */
  predicate Settled(c: LibCalendar)
  {
    c.year != Int32Invalid && c.year != IntInvalid + 1900 && c.year != Int8Invalid
    && c.month != UInt8Invalid && c.day != UInt8Invalid && c.hour != UInt8Invalid
    && c.minute != UInt8Invalid && c.second != UInt8Invalid && c.dst != Int8Invalid
    && 1 <= c.dayInWeek <= 7 && c.dayInYear != UInt16Invalid && c.timeZone.hours != Int8Invalid
  }

  /** The two sentinel records correspond: stCalendar_Invalid becomes
      tm_Invalid, and tm_Invalid becomes stCalendar_Invalid. */
  lemma InvalidCorrespond()
    ensures CalendarToTm(CalendarInvalid) == TmInvalid
    ensures TmToLibCalendar(TmInvalid) == CalendarInvalid
  {
  }

  /** The year goes to tm_year and back unchanged, int wrap-around included. */
  lemma YearRoundTrip(year: int32)
    ensures ToInt32(ToInt32(year - 1900) + 1900) == year
  {
    ToInt32Plus(year - 1900, 1900);
  }

  /** toCalendar(fromCalendar(c, &z), &z) restores every entry of a settled
      calendar; the calendar week, which struct tm does not hold, comes back
      as its sentinel. */
  lemma CalendarTmRoundTrip(c: LibCalendar, z: TimeZone)
    requires Settled(c)
    ensures var r := FromCalendar(c, Some(z));
            r.zone.Some? && ToCalendar(r.tm, Given(r.zone.value)) == c.(calendarWeek := UInt8Invalid)
  {
    YearRoundTrip(c.year);
  }

  /** A struct tm within its documented ranges gives a calendar within the
      documented ranges. */
  lemma ToCalendarValid(t: Tm, source: ZoneSource)
    requires CTimeStd.ValidTm(t) && t.tm_year != IntInvalid
    requires source.FromSystem? ==> -1 <= source.dst <= 1
    ensures ValidLibCalendar(ToCalendar(t, source))
    ensures ToCalendar(t, source).dayInWeek == 7 <==> t.tm_wday == 0
  {
  }

  /** In the year -128 fromCalendar leaves *pTimeZone as it was, so the round
      trip reports whatever zone the caller had there. */
  lemma YearMinus128KeepsZone(c: LibCalendar, z: TimeZone)
    requires c.year == Int8Invalid && z.hours != Int8Invalid
    ensures var r := FromCalendar(c, Some(z));
            r.zone == Some(z) && ToCalendar(r.tm, Given(z)).timeZone == z
  {
  }

  /** A calendar with a year but no day in the year comes back with day 1:
      tm_yday holds INT_INVALID and toCalendar copies it anyway, because it
      tests tm_year. */
  lemma DayInYearSentinelLost(c: LibCalendar, source: ZoneSource)
    requires c.year != Int32Invalid && c.year != IntInvalid + 1900 && c.dayInYear == UInt16Invalid
    ensures ToCalendar(CalendarToTm(c), source).dayInYear == 1
  {
    assert ToInt32(c.year - 1900) != IntInvalid by {
      YearRoundTrip(c.year);
    }
  }

  // ---------------------------------------------------------------------------
  // fromCalendar and toCalendar with the evidently intended tests

  /** fromCalendar with the zone test on the zone's own hours. */
  function FromCalendarIntended(c: LibCalendar, zone: Option<TimeZone>): TmAndZone
  {
    var out := if zone.Some? && c.timeZone.hours != Int8Invalid then Some(c.timeZone) else zone;
    TmAndZone(CalendarToTm(c), out)
  }

  /** toCalendar with the day in the year gated on tm_yday. */
  function ToCalendarIntended(t: Tm, source: ZoneSource): LibCalendar
  {
    var c := ToCalendar(t, source);
    if t.tm_yday != IntInvalid then c.(dayInYear := ToUInt16(t.tm_yday + 1)) else c.(dayInYear := UInt16Invalid)
  }

  /** With both tests corrected, the round trip keeps every entry, sentinels
      included, except a week day 0 and the one year fromCalendar maps onto
      INT_INVALID; the zone survives whenever it is set. */
  lemma CalendarTmRoundTripIntended(c: LibCalendar, z: TimeZone)
    requires c.year != IntInvalid + 1900 && c.dayInWeek != 0 && c.timeZone.hours != Int8Invalid
    ensures var r := FromCalendarIntended(c, Some(z));
            r.zone.Some? && ToCalendarIntended(r.tm, Given(r.zone.value)) == c.(calendarWeek := UInt8Invalid)
  {
    YearRoundTrip(c.year);
  }

  // ---------------------------------------------------------------------------
  // fromString and set(dateString, format)

  /** LibOb_strptime: the struct tm and the zone it reads from a text and a
      format, starting from tm_Invalid and stTimeZone_Invalid. */
  type Strptime = (string, string) -> (Tm, TimeZone)

  /** fromString(dateString, format) (src/LibCpp/Time/cTimeStd.cpp:499-507):
      stCalendar_Invalid for a text starting with 'D', otherwise strptime's
      result through toCalendar with the zone it read. */
  function LibFromString(s: string, format: string, strptime: Strptime): LibCalendar
  {
    if TextFormat.CharAt(s, 0) == 'D' then CalendarInvalid
    else
      var parsed := strptime(s, format);
      ToCalendar(parsed.0, Given(parsed.1))
  }

  /** set(dateString, format) (src/LibCpp/Time/cTimeStd.cpp:330-342): a 'D'
      text through the duration codec, any other through fromString and
      set(stCalendar), which is a parameter. */
  function LibSetText(s: string, format: string, strptime: Strptime, setCalendar: LibCalendar -> Time): Time
  {
    if TextFormat.CharAt(s, 0) == 'D' then SetDuration(FromDurationString(s))
    else setCalendar(LibFromString(s, format, strptime))
  }

  /** A duration text is never read as a calendar, and a time written as a
      duration is set back to itself unless it is negative and under a day. */
  lemma LibSetDurationText(t: int64, format: string, strptime: Strptime, setCalendar: LibCalendar -> Time)
    requires Magnitude(t) < 0x8000_0000 * 86400
    ensures LibFromString(DurationToString(DurationOf(t)), format, strptime) == CalendarInvalid
    ensures LibSetText(DurationToString(DurationOf(t)), format, strptime, setCalendar) == Time(t)
            <==> !(-86400 < t < 0)
  {
    TimeThroughDurationText(t);
  }

  /** Any other text goes through strptime and toCalendar. */
  lemma LibSetCalendarText(s: string, format: string, strptime: Strptime, setCalendar: LibCalendar -> Time)
    requires TextFormat.CharAt(s, 0) != 'D'
    ensures LibSetText(s, format, strptime, setCalendar)
            == setCalendar(ToCalendar(strptime(s, format).0, Given(strptime(s, format).1)))
  {
  }
}
