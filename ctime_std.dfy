/** The text codec, the text dispatch and the zone arithmetic of cTime in
    src/cTimeStd.cpp: the calendar text "YYYY-MM-DD#hh:mm:ss#DST#+01:00"
    written by toString(stCalendar) and read by fromString, set(std::string),
    UTCdeviation and the requested-zone shift of calendar(). */
module CTimeStd {
  import opened CTypes
  import opened CTime
  import opened TextFormat
  import opened Durations
  import opened DurationText
  import Y2038Engine

  /** stCalendar_Ini (src/cTimeStd.cpp:146) on the modelled fields: all zero. */
  const CalendarIni: Calendar := Calendar(0, 0, 0, 0, 0, 0, 0, 0, 0, 0, 0)

  /** dstString (src/cTimeStd.cpp:148). */
  const DstStrings: seq<string> := ["UTC", "STD", "DST"]

  /** The token toString(stCalendar) prints for a dst flag: dstString[dst + 1],
      index 0 when dst + 1 is outside 0..2. */
  function DstToken(dst: int8): string
  {
    var index := dst + 1;
    DstStrings[if index < 0 || index > 2 then 0 else index]
  }

  /** "STD" for standard time, "DST" for daylight saving time and "UTC" for
      every other flag; each token has three characters and no white space. */
  lemma DstTokenCases(dst: int8)
    ensures DstToken(dst) == "STD" <==> dst == 0
    ensures DstToken(dst) == "DST" <==> dst == 1
    ensures DstToken(dst) == "UTC" <==> dst != 0 && dst != 1
    ensures |DstToken(dst)| == 3 && forall i :: 0 <= i < 3 ==> !IsSpace(DstToken(dst)[i])
  {
  }

  // ---------------------------------------------------------------------------
  // toString(stCalendar)

  /** `%04d-%02d-%02d#%02d:%02d:%02d`: the widths and separators of the date
      and the clock. */
  const CalendarWidths: seq<nat> := [4, 2, 2, 2, 2, 2]
  const CalendarSeparators: string := "--#::"

  function CalendarNumbers(c: Calendar): seq<int>
  {
    [c.year, c.month, c.day, c.hour, c.minute, c.second]
  }

  /** `%+03d:00`: the zone with its sign. */
  function ZoneText(zone: int8): string
  {
    FormatInt(zone, 3, true) + ":00"
  }

  /** `#%s#%+03d:00` after the clock. */
  function CalendarTail(c: Calendar): string
  {
    "#" + (DstToken(c.dst) + ("#" + ZoneText(c.timeZone)))
  }

  /** toString(stCalendar) (src/cTimeStd.cpp:525-535). */
  function CalendarToString(c: Calendar): string
  {
    FormatInts(CalendarNumbers(c), CalendarWidths, CalendarSeparators, CalendarTail(c))
  }

  // ---------------------------------------------------------------------------
  // fromString

  /** The three characters fromString copies from positions 20 to 22. */
  function Token(s: string): string
  {
    [CharAt(s, 20), CharAt(s, 21), CharAt(s, 22)]
  }

  /** The dst flag as fromString sets it: the "STD" branch stores 0, but the
      following if-else overwrites it, so everything but "DST" gives -1. */
  function DstAsWritten(token: string): int8
  {
    if token == "DST" then 1 else -1
  }

  /** The calendar fromString fills from the ints sscanf stored, the dst flag
      and the zone: year kept as int32, the other numbers cast to uint8_t, the
      zone to int8_t; the other fields keep stCalendar_Ini. */
  function TextToCalendar(v: seq<int>, dst: int8, zone: int32): Calendar
  {
    CalendarIni.(year := Stored(v, 0), month := ToUInt8(Stored(v, 1)), day := ToUInt8(Stored(v, 2)),
                 hour := ToUInt8(Stored(v, 3)), minute := ToUInt8(Stored(v, 4)),
                 second := ToUInt8(Stored(v, 5)), dst := dst, timeZone := ToInt8(zone))
  }

  /** fromString (src/cTimeStd.cpp:437-468): stCalendar_Ini for a text
      starting with 'D'. Otherwise the six numbers of the date and the clock;
      `%3*s` is not a valid conversion in C, and the scan is taken to end
      there, as glibc's does, so zone keeps its 0. Other C runtimes call an
      invalid-parameter handler or read it as `%*3s`. */
  function FromString(s: string): Calendar
  {
    if CharAt(s, 0) == 'D' then CalendarIni
    else TextToCalendar(ScanInts(s, CalendarSeparators).values, DstAsWritten(Token(s)), 0)
  }

  /** Years of four digits and the other printed fields of two. */
  predicate Printable(c: Calendar)
  {
    0 <= c.year <= 9999 && c.month <= 99 && c.day <= 99 && c.hour <= 99 && c.minute <= 99 && c.second <= 99
  }

  /** What the text carries: every field but the week day, the calendar week
      and the day in the year, which fromString leaves at 0. */
  function Dated(c: Calendar): Calendar
  {
    c.(dayInWeek := 0, calendarWeek := 0, dayInYear := 0)
  }

  /** sscanf reads the six printed numbers back and stops in front of '#'. */
  lemma ScanCalendarText(c: Calendar)
    ensures ScanInts(CalendarToString(c), CalendarSeparators) == IntsScan(CalendarNumbers(c), Some(CalendarTail(c)))
  {
    assert NoDigits(CalendarSeparators) by {
      assert CalendarSeparators == ['-', '-', '#', ':', ':'];
    }
    ScanFormattedInts(CalendarNumbers(c), CalendarWidths, CalendarSeparators, CalendarTail(c));
  }

  /** The date and the clock take 19 characters, so the token sits at 20. */
  lemma TokenOfCalendarText(c: Calendar)
    requires Printable(c)
    ensures Token(CalendarToString(c)) == DstToken(c.dst)
  {
    var xs := CalendarNumbers(c);
    FormatIntsSplit(xs, CalendarWidths, CalendarSeparators, CalendarTail(c));
    CalendarPrefixLength(c);
    DstTokenCases(c.dst);
    TokenAfter(FormatInts(xs, CalendarWidths, CalendarSeparators, ""), DstToken(c.dst), "#" + ZoneText(c.timeZone));
  }

  lemma CalendarPrefixLength(c: Calendar)
    requires Printable(c)
    ensures |FormatInts(CalendarNumbers(c), CalendarWidths, CalendarSeparators, "")| == 19
  {
    CalendarNumbersFill(c);
    FormatIntsLength(CalendarNumbers(c), CalendarWidths, CalendarSeparators);
    CalendarWidthSum();
  }

  lemma CalendarNumbersFill(c: Calendar)
    requires Printable(c)
    ensures FillWidths(CalendarNumbers(c), CalendarWidths)
  {
    assert Pow10(2) == 100;
    assert Pow10(4) == 10000;
  }

  lemma CalendarWidthSum()
    ensures WidthSum(CalendarWidths) == 14
  {
    assert CalendarWidths[1..] == [2, 2, 2, 2, 2];
    assert WidthSum([2, 2, 2, 2, 2]) == 10 by {
      assert [2, 2, 2, 2, 2][1..] == [2, 2, 2, 2];
      assert [2, 2, 2, 2][1..] == [2, 2, 2];
      assert [2, 2, 2][1..] == [2, 2];
      assert [2, 2][1..] == [2];
      assert [2][1..] == [];
    }
  }

  lemma TokenAfter(p: string, token: string, rest: string)
    requires |p| == 19 && |token| == 3
    ensures Token(p + ("#" + (token + rest))) == token
  {
    var s := p + ("#" + (token + rest));
    assert s[20] == token[0] && s[21] == token[1] && s[22] == token[2];
  }

  /** The calendar text never starts with 'D'. */
  lemma CalendarTextStart(c: Calendar)
    ensures CharAt(CalendarToString(c), 0) != 'D'
  {
    FormatIntStart(c.year, 4, false);
  }

  /** Read back by fromString, the date and the clock survive, dst comes back
      as 1 for "DST" and -1 otherwise, and the zone comes back as 0: the
      standard time flag and every zone but 0 are lost. */
  lemma FromStringAsWritten(c: Calendar)
    requires Printable(c)
    ensures FromString(CalendarToString(c)) == Dated(c).(dst := if c.dst == 1 then 1 else -1, timeZone := 0)
    ensures FromString(CalendarToString(c)) == Dated(c) <==> (c.dst == 1 || c.dst == -1) && c.timeZone == 0
  {
    ReadCalendarText(c);
    DstTokenCases(c.dst);
    StoredCalendarNumbers(c, DstAsWritten(DstToken(c.dst)), 0);
  }

  lemma ReadCalendarText(c: Calendar)
    requires Printable(c)
    ensures FromString(CalendarToString(c)) == TextToCalendar(CalendarNumbers(c), DstAsWritten(DstToken(c.dst)), 0)
  {
    CalendarTextStart(c);
    ScanCalendarText(c);
    TokenOfCalendarText(c);
  }

  /** Stored back into the calendar, the six printed numbers give the date
      and the clock unchanged. */
  lemma StoredCalendarNumbers(c: Calendar, dst: int8, zone: int8)
    requires Printable(c)
    ensures TextToCalendar(CalendarNumbers(c), dst, zone) == Dated(c).(dst := dst, timeZone := zone)
  {
  }

  // ---------------------------------------------------------------------------
  // fromString as evidently intended

  /** The dst flag with the branches chained: "STD" is 0, "DST" 1, else -1. */
  function DstOfToken(token: string): int8
  {
    if token == "STD" then 0 else if token == "DST" then 1 else -1
  }

  /** The zone read by `#%*3s#%d` after the clock: the token skipped, then the
      number; 0 when any step fails. */
  function ZoneAfter(rest: Option<string>): int32
  {
    match rest
    case None => 0
    case Some(t) =>
      match ScanChar(t, '#')
      case None => 0
      case Some(u) =>
        match SkipWord(u, 3)
        case None => 0
        case Some(w) =>
          match ScanField(w, '#')
          case None => 0
          case Some(z) => ToInt32(z.value)
  }

  /** fromString with the dst branches chained and the token skipped by a
      valid `%*3s`. */
  function FromStringIntended(s: string): Calendar
  {
    if CharAt(s, 0) == 'D' then CalendarIni
    else
      var r := ScanInts(s, CalendarSeparators);
      TextToCalendar(r.values, DstOfToken(Token(s)), ZoneAfter(r.rest))
  }

  /** The zone printed after the token is read back. */
  lemma ZoneOfCalendarTail(c: Calendar)
    ensures ZoneAfter(Some(CalendarTail(c))) == c.timeZone
  {
    var token := DstToken(c.dst);
    var z := "#" + ZoneText(c.timeZone);
    DstTokenCases(c.dst);
    assert CalendarTail(c)[1..] == token + z;
    NoSpaceFirst(token + z);
    assert (token + z)[0..] == token + z;
    WordRunFull(token, z);
    assert (token + z)[3..] == z;
    assert z[1..] == ZoneText(c.timeZone);
    ScanFormatted(c.timeZone, 3, true, ":00");
  }

  /** The corrected reader gets back every field the text carries, with a
      dst flag outside -1..1 read as -1 ("UTC"). */
  lemma FromStringIntendedRoundTrip(c: Calendar)
    requires Printable(c)
    ensures FromStringIntended(CalendarToString(c)) == Dated(c).(dst := if -1 <= c.dst <= 1 then c.dst else -1)
    ensures FromStringIntended(CalendarToString(c)) == Dated(c) <==> -1 <= c.dst <= 1
  {
    ReadCalendarTextIntended(c);
    DstTokenCases(c.dst);
    StoredCalendarNumbers(c, DstOfToken(DstToken(c.dst)), c.timeZone);
  }

  lemma ReadCalendarTextIntended(c: Calendar)
    requires Printable(c)
    ensures FromStringIntended(CalendarToString(c))
            == TextToCalendar(CalendarNumbers(c), DstOfToken(DstToken(c.dst)), c.timeZone)
  {
    CalendarTextStart(c);
    ScanCalendarText(c);
    TokenOfCalendarText(c);
    ZoneOfCalendarTail(c);
  }

  // ---------------------------------------------------------------------------
  // set(std::string)

  /** set(std::string) (src/cTimeStd.cpp:260-272): a text starting with 'D'
      is a duration, any other a calendar. Turning a calendar into a time
      goes through the platform's mktime and is a parameter here. */
  function SetText(s: string, setCalendar: Calendar -> Time): Time
  {
    if CharAt(s, 0) == 'D' then SetDuration(FromDurationString(s))
    else setCalendar(FromString(s))
  }

  /** The two texts are told apart by their first character: fromString
      turns a duration text into stCalendar_Ini and fromDurationString turns
      a calendar text into stDuration_Ini. */
  lemma TextKindsDisjoint(d: Duration, c: Calendar)
    ensures FromString(DurationToString(d)) == CalendarIni
    ensures FromDurationString(CalendarToString(c)) == DurationIni
  {
    CalendarTextStart(c);
  }

  /** A time printed as a duration is set back to itself by set(std::string),
      unless it is a negative time of less than a day. */
  lemma SetDurationText(t: int64, setCalendar: Calendar -> Time)
    requires Magnitude(t) < 0x8000_0000 * 86400
    ensures SetText(DurationToString(DurationOf(t)), setCalendar) == Time(t) <==> !(-86400 < t < 0)
  {
    TimeThroughDurationText(t);
  }

  /** A printed calendar reaches set(stCalendar) with the date and the clock
      intact, the zone 0 and the dst flag only kept for "DST". */
  lemma SetCalendarText(c: Calendar, setCalendar: Calendar -> Time)
    requires Printable(c)
    ensures SetText(CalendarToString(c), setCalendar)
            == setCalendar(Dated(c).(dst := if c.dst == 1 then 1 else -1, timeZone := 0))
  {
    CalendarTextStart(c);
    FromStringAsWritten(c);
  }

  // ---------------------------------------------------------------------------
  // UTCdeviation and the zone shift of calendar()

  /** UTCdeviation (src/cTimeStd.cpp:425-430): the zone, one hour more in
      daylight saving time, in int8_t. */
  function UtcDeviation(c: Calendar): int8
  {
    if c.dst > 0 then ToInt8(c.timeZone + 1) else c.timeZone
  }

  /** UTCdeviation is the relative zone the calendar engine applies when it
      turns a calendar into a time, and it is the zone plus the daylight
      saving hour wherever that fits int8_t. */
  lemma UtcDeviationIsSetZone(c: Calendar)
    ensures UtcDeviation(c) == Y2038Engine.SetZone(c)
    ensures c.timeZone < 127 ==> UtcDeviation(c) == c.timeZone + (if c.dst > 0 then 1 else 0)
  {
  }

  /** relZone of calendar(): the UTC deviation of the local zone under the
      daylight saving flag of the local time. */
  function LocalOffset(zone: int8, isdst: int32): int8
  {
    UtcDeviation(CalendarIni.(timeZone := zone, dst := if isdst > 0 then 1 else 0))
  }

  /** relDestZone: the requested zone, or relZone for asUTC (0x80). */
  function DestinationZone(zone: int8, isdst: int32, request: int8): int8
  {
    if request == -128 then LocalOffset(zone, isdst) else request
  }

  function ShiftHour(t: Tm, hours: int): Tm
  {
    t.(tm_hour := ToInt32(t.tm_hour + hours))
  }

  /** The stCalendar calendar() fills from a struct tm and a zone: months
      counted from 1, years from 0, Sunday as day 7, days in the year from 1;
      the calendar week keeps stCalendar_Ini's 0. */
  function TmToCalendar(t: Tm, timeZone: int8): Calendar
  {
    var weekday := ToUInt8(t.tm_wday);
    CalendarIni.(second := ToUInt8(t.tm_sec), minute := ToUInt8(t.tm_min), hour := ToUInt8(t.tm_hour),
                 day := ToUInt8(t.tm_mday), month := ToUInt8(t.tm_mon + 1), year := ToInt32(t.tm_year + 1900),
                 dst := ToInt8(t.tm_isdst), dayInWeek := if weekday == 0 then 7 else weekday,
                 dayInYear := ToInt16(t.tm_yday + 1), timeZone := timeZone)
  }

  /** calendar(p) on the local time lt that localtime produced and the local
      zone: without a request the local fields and the local zone; with one,
      the hour shifted from relZone to relDestZone, normalized by mktime, the
      dst flag set to -1 and the zone set to relDestZone. */
  function CalendarFor(lt: Tm, zone: int8, request: Option<int8>, mktime: Tm -> Tm): Calendar
  {
    match request
    case None => TmToCalendar(lt, zone)
    case Some(q) =>
      var relZone := LocalOffset(zone, lt.tm_isdst);
      var relDestZone := DestinationZone(zone, lt.tm_isdst, q);
      TmToCalendar(mktime(ShiftHour(lt, relDestZone - relZone)).(tm_isdst := -1), relDestZone)
  }

  /** calendar(p) (src/cTimeStd.cpp:294-335) with localtime's result, the
      local zone and mktime as parameters. */
  method CalendarInZone(lt: Tm, zone: int8, request: Option<int8>, mktime: Tm -> Tm) returns (c: Calendar)
    ensures c == CalendarFor(lt, zone, request, mktime)
  {
    var t := lt;
    var timeZone: int8;
    if request.Some? {
      var relZone := zone;
      if t.tm_isdst > 0 {
        relZone := ToInt8(relZone as int + 1);
      }
      var relDestZone: int8;
      if request.value == -128 {
        relDestZone := zone;
        if t.tm_isdst > 0 {
          relDestZone := ToInt8(relDestZone as int + 1);
        }
      } else {
        relDestZone := request.value;
      }
      assert relZone == LocalOffset(zone, lt.tm_isdst);
      assert relDestZone == DestinationZone(zone, lt.tm_isdst, request.value);
      t := t.(tm_hour := ToInt32(t.tm_hour + (relDestZone - relZone)));
      t := mktime(t);
      t := t.(tm_isdst := -1);
      timeZone := relDestZone;
    } else {
      timeZone := zone;
    }
    var weekday := ToUInt8(t.tm_wday);
    if weekday == 0 {
      weekday := 7;
    }
    c := Calendar(ToInt32(t.tm_year + 1900), ToUInt8(t.tm_mon + 1), ToUInt8(t.tm_mday), ToUInt8(t.tm_hour),
                  ToUInt8(t.tm_min), ToUInt8(t.tm_sec), ToInt8(t.tm_isdst), timeZone, weekday, 0,
                  ToInt16(t.tm_yday + 1));
  }

  /** The ranges struct tm documents for each member. */
  predicate ValidTm(t: Tm)
  {
    0 <= t.tm_sec <= 59 && 0 <= t.tm_min <= 59 && 0 <= t.tm_hour <= 23 && 1 <= t.tm_mday <= 31
    && 0 <= t.tm_mon <= 11 && t.tm_year + 1900 < 0x8000_0000 && 0 <= t.tm_wday <= 6
    && 0 <= t.tm_yday <= 365 && -1 <= t.tm_isdst <= 1
  }

  /** A struct tm in its ranges gives a calendar in its ranges, with the
      month and year moved to their calendar origins and Sunday as day 7. */
  lemma TmToCalendarValid(t: Tm, zone: int8)
    requires ValidTm(t)
    ensures var c := TmToCalendar(t, zone);
            && ValidCalendar(c) && c.month == t.tm_mon + 1 && c.year == t.tm_year + 1900
            && (c.dayInWeek == 7 <==> t.tm_wday == 0) && (t.tm_wday != 0 ==> c.dayInWeek == t.tm_wday)
            && c.dayInYear == t.tm_yday + 1 && c.timeZone == zone
  {
  }

  /** Without a request calendar() reports the local zone; with one, the
      requested zone, where asUTC means the local zone with the daylight
      saving hour added in int8_t (the UTCdeviation of the local time). */
  lemma CalendarZone(lt: Tm, zone: int8, request: Option<int8>, mktime: Tm -> Tm)
    ensures var c := CalendarFor(lt, zone, request, mktime);
            && (request.None? ==> c.timeZone == zone && c.dst == ToInt8(lt.tm_isdst))
            && (request.Some? && request.value != -128 ==> c.timeZone == request.value && c.dst == -1)
            && (request == Some(-128) ==>
                  c.timeZone == ToInt8(zone + (if lt.tm_isdst > 0 then 1 else 0))
                  && (zone < 127 ==> c.timeZone == zone + (if lt.tm_isdst > 0 then 1 else 0))
                  && c.dst == -1)
  {
  }

  /** asUTC keeps the local date and time: the hour is not shifted, only
      mktime's normalization applies. */
  lemma AsUtcKeepsWallClock(lt: Tm, zone: int8, mktime: Tm -> Tm)
    ensures CalendarFor(lt, zone, Some(-128), mktime)
            == TmToCalendar(mktime(lt).(tm_isdst := -1), LocalOffset(zone, lt.tm_isdst))
  {
    assert ShiftHour(lt, 0) == lt;
  }

  /** A requested zone q moves the hour by q minus the local UTC deviation,
      the local zone plus the daylight saving hour in int8_t; a request for
      UTC (0) moves it back by the full deviation. In zone 127 on daylight
      saving time the deviation wraps to -128. */
  lemma RequestedZoneShift(lt: Tm, zone: int8, q: int8, mktime: Tm -> Tm)
    requires q != -128
    ensures CalendarFor(lt, zone, Some(q), mktime)
            == TmToCalendar(mktime(ShiftHour(lt, q - ToInt8(zone + (if lt.tm_isdst > 0 then 1 else 0)))).(tm_isdst := -1), q)
    ensures zone < 127 ==>
              CalendarFor(lt, zone, Some(q), mktime)
              == TmToCalendar(mktime(ShiftHour(lt, q - zone - (if lt.tm_isdst > 0 then 1 else 0))).(tm_isdst := -1), q)
  {
  }
}
