/** What setTimeZone does to the wall clock y2038Set reads
    (src/LibCpp/Time/y2038Calendar.cpp:390-457), and the corrected shift that
    keeps the instant. */
module ZoneShiftProperties {
  import opened CTypes
  import opened CTime
  import opened FloorDivision
  import opened Y2038Tables
  import opened Y2038Engine
  import opened Y2038YearStart
  import opened ZoneShift

  /** A calendar date with a day inside its month and an hour of the day. */
  predicate ValidDate(c: Calendar)
  {
    1 <= c.month <= 12 && 1 <= c.day <= DaysOfMonth[LeapIndex(c.year)][c.month] && c.hour <= 23
  }

  /** The years a shift by less than a day can reach are not misdivided and
      fit in int32_t. */
  predicate StepYears(year: int)
  {
    -0x8000_0000 < year < 0x7FFF_FFFF
    && !MisdividedYear(year - 1) && !MisdividedYear(year) && !MisdividedYear(year + 1)
  }

  /** The hour shift with the carries the calendar needs: forward as
      setTimeZone does it, backward into the previous month once the day
      drops below 1. */
  function MoveHours(c: Calendar, diff: int8): Calendar
    requires c.month <= 12
  {
    var il := LeapIndex(c.year);
    if diff > 0 then
      var hour := ToInt8(c.hour + diff);
      if hour > 23 then
        var day := ToInt8(c.day + 1);
        if day > DaysOfMonth[il][c.month] then
          if c.month + 1 > 12 then
            c.(hour := ToUInt8(hour - 24), day := 1, month := 1, year := ToInt32(c.year + 1))
          else
            c.(hour := ToUInt8(hour - 24), day := 1, month := c.month + 1)
        else
          c.(hour := ToUInt8(hour - 24), day := ToUInt8(day))
      else
        c.(hour := ToUInt8(hour))
    else if diff < 0 then
      var hour := ToInt8(c.hour + diff);
      if hour < 0 then
        var day := ToInt8(c.day - 1);
        if day < 1 then
          if c.month - 1 < 1 then
            c.(hour := ToUInt8(hour + 24), day := ToUInt8(DaysOfMonth[il][12]), month := 12,
               year := ToInt32(c.year - 1))
          else
            c.(hour := ToUInt8(hour + 24), day := ToUInt8(DaysOfMonth[il][c.month - 1]), month := c.month - 1)
        else
          c.(hour := ToUInt8(hour + 24), day := ToUInt8(day))
      else
        c.(hour := ToUInt8(hour))
    else
      c
  }

  /** diffHours as the UTC offset of a daylight-saving calendar is computed
      elsewhere in the library (zone + 1): one hour LESS on daylight saving time. */
  function IntendedDiffHours(c: Calendar, destZone: uint8): int8
  {
    var d := ToInt8(destZone - c.timeZone);
    if c.dst > 0 then ToInt8(d - 1) else d
  }

  /** setTimeZone corrected: the hours move by the corrected difference with
      the corrected backward carry, and the calendar then names the
      destination zone on standard time. */
  function ShiftCalendarIntended(c: Calendar, destZone: uint8): Calendar
    requires c.month <= 12
  {
    MoveHours(c, IntendedDiffHours(c, destZone)).(timeZone := ToInt8(destZone), dst := 0)
  }

  /** Forward, setTimeZone as written moves the hours as MoveHours does. */
  lemma ForwardAsWritten(c: Calendar, destZone: uint8)
    requires c.month <= 12 && DiffHours(c, destZone) > 0
    ensures ShiftCalendar(c, destZone) == MoveHours(c, DiffHours(c, destZone)).(dst := 0)
  {
  }

  /** Moving a valid date forward by up to a day keeps it valid and moves
      its wall-clock seconds by exactly the hours. */
  lemma MoveForward(c: Calendar, diff: int8)
    requires ValidDate(c) && 0 < diff <= 24 && StepYears(c.year)
    ensures var r := MoveHours(c, diff);
            ValidDate(r) && WallSeconds(r) == WallSeconds(c) + diff * SecondsPerHour
  {
    var il := LeapIndex(c.year);
    if c.hour + diff <= 23 {
      SameDay(c, diff);
    } else if c.day + 1 <= DaysOfMonth[il][c.month] {
      ForwardIntoNextDay(c, diff);
    } else if c.month < 12 {
      ForwardIntoNextMonth(c, diff);
    } else {
      ForwardIntoNextYear(c, diff);
    }
  }

  /** Moving a valid date backward by up to a day keeps it valid and moves
      its wall-clock seconds by exactly the hours. */
  lemma MoveBackward(c: Calendar, diff: int8)
    requires ValidDate(c) && -24 <= diff < 0 && StepYears(c.year)
    ensures var r := MoveHours(c, diff);
            ValidDate(r) && WallSeconds(r) == WallSeconds(c) + diff * SecondsPerHour
  {
    if c.hour + diff >= 0 {
      SameDay(c, diff);
    } else if c.day > 1 {
      BackIntoPreviousDay(c, diff);
    } else if c.month > 1 {
      BackIntoPreviousMonth(c, diff);
    } else {
      BackIntoPreviousYear(c, diff);
    }
  }

  lemma SameDay(c: Calendar, diff: int8)
    requires ValidDate(c) && -24 <= diff <= 24 && 0 <= c.hour + diff <= 23
    ensures var r := MoveHours(c, diff);
            ValidDate(r) && WallSeconds(r) == WallSeconds(c) + diff * SecondsPerHour
  {
    var r := MoveHours(c, diff);
    assert r == c.(hour := c.hour + diff);
    WallLinear(c);
    WallLinear(r);
  }

  lemma ForwardIntoNextDay(c: Calendar, diff: int8)
    requires ValidDate(c) && 0 < diff <= 24 && c.hour + diff > 23
    requires c.day + 1 <= DaysOfMonth[LeapIndex(c.year)][c.month]
    ensures var r := MoveHours(c, diff);
            ValidDate(r) && WallSeconds(r) == WallSeconds(c) + diff * SecondsPerHour
  {
    var r := MoveHours(c, diff);
    assert r == c.(hour := c.hour + diff - 24, day := c.day + 1);
    WallLinear(c);
    WallLinear(r);
  }

  lemma ForwardIntoNextMonth(c: Calendar, diff: int8)
    requires ValidDate(c) && 0 < diff <= 24 && c.hour + diff > 23
    requires c.day + 1 > DaysOfMonth[LeapIndex(c.year)][c.month] && c.month < 12
    ensures var r := MoveHours(c, diff);
            ValidDate(r) && WallSeconds(r) == WallSeconds(c) + diff * SecondsPerHour
  {
    var il := LeapIndex(c.year);
    var r := MoveHours(c, diff);
    MonthGap(il, c.month - 1);
    MonthDays(il, c.month + 1);
    assert r == c.(hour := c.hour + diff - 24, day := 1, month := c.month + 1);
    WallLinear(c);
    WallLinear(r);
  }

  lemma ForwardIntoNextYear(c: Calendar, diff: int8)
    requires ValidDate(c) && 0 < diff <= 24 && c.hour + diff > 23 && StepYears(c.year)
    requires c.day + 1 > DaysOfMonth[LeapIndex(c.year)][c.month] && c.month == 12
    ensures var r := MoveHours(c, diff);
            ValidDate(r) && WallSeconds(r) == WallSeconds(c) + diff * SecondsPerHour
  {
    var il := LeapIndex(c.year);
    var r := MoveHours(c, diff);
    YearEnd(il);
    YearEnd(LeapIndex(c.year + 1));
    YearStartStep(c.year);
    assert r == c.(hour := c.hour + diff - 24, day := 1, month := 1, year := c.year + 1);
    WallLinear(c);
    WallLinear(r);
  }

  lemma BackIntoPreviousDay(c: Calendar, diff: int8)
    requires ValidDate(c) && -24 <= diff < 0 && c.hour + diff < 0 && c.day > 1
    ensures var r := MoveHours(c, diff);
            ValidDate(r) && WallSeconds(r) == WallSeconds(c) + diff * SecondsPerHour
  {
    var r := MoveHours(c, diff);
    assert r == c.(hour := c.hour + diff + 24, day := c.day - 1);
    WallLinear(c);
    WallLinear(r);
  }

  lemma BackIntoPreviousMonth(c: Calendar, diff: int8)
    requires ValidDate(c) && -24 <= diff < 0 && c.hour + diff < 0
    requires c.day == 1 && c.month > 1
    ensures var r := MoveHours(c, diff);
            ValidDate(r) && WallSeconds(r) == WallSeconds(c) + diff * SecondsPerHour
  {
    var il := LeapIndex(c.year);
    var r := MoveHours(c, diff);
    MonthGap(il, c.month - 2);
    assert r == c.(hour := c.hour + diff + 24, day := DaysOfMonth[il][c.month - 1], month := c.month - 1);
    WallLinear(c);
    WallLinear(r);
  }

  lemma BackIntoPreviousYear(c: Calendar, diff: int8)
    requires ValidDate(c) && -24 <= diff < 0 && c.hour + diff < 0 && StepYears(c.year)
    requires c.day == 1 && c.month == 1
    ensures var r := MoveHours(c, diff);
            ValidDate(r) && WallSeconds(r) == WallSeconds(c) + diff * SecondsPerHour
  {
    var r := MoveHours(c, diff);
    YearEnd(LeapIndex(c.year));
    YearEnd(LeapIndex(c.year - 1));
    YearStartStep(c.year - 1);
    assert r == c.(hour := c.hour + diff + 24, day := 31, month := 12, year := c.year - 1);
    WallLinear(c);
    WallLinear(r);
  }

  /** WallSeconds with the unit lengths written out. */
  lemma WallLinear(c: Calendar)
    requires 1 <= c.month <= 12
    ensures WallSeconds(c) == YearStart(c.year) + SecondsTillMonth[LeapIndex(c.year)][c.month - 1]
                              + c.day * 86400 - 86400 + c.hour * 3600 + c.minute * 60 + c.second
  {
  }

  /** Consecutive months of a table row, with the day length written out. */
  lemma MonthGap(il: int, m: int)
    requires il == 0 || il == 1
    requires 0 <= m < 11
    ensures SecondsTillMonth[il][m + 1] - SecondsTillMonth[il][m] == DaysOfMonth[il][m + 1] * 86400
    ensures 28 <= DaysOfMonth[il][m + 1] <= 31
  {
    MonthLength(il, m);
  }

  /** Every month has 28 to 31 days. */
  lemma MonthDays(il: int, month: int)
    requires il == 0 || il == 1
    requires 1 <= month <= 12
    ensures 28 <= DaysOfMonth[il][month] <= 31
  {
    TableShape(il, month - 1);
  }

  /** January starts the year, December has 31 days and ends it, with the
      day length written out. */
  lemma YearEnd(il: int)
    requires il == 0 || il == 1
    ensures SecondsTillMonth[il][0] == 0 && DaysOfMonth[il][1] == 31 && DaysOfMonth[il][12] == 31
    ensures SecondsTillMonth[il][11] + 31 * 86400 == SecondsPerYear(il)
    ensures SecondsPerYear(il) == 365 * 86400 + il * 86400
  {
    December(il);
  }

  /** The UTC offset a calendar stands for, as y2038Set reads it. */
  lemma SetZoneOffset(c: Calendar)
    requires c.dst > 0 ==> c.timeZone < 0x7F
    ensures SetZone(c) == c.timeZone + (if c.dst > 0 then 1 else 0)
  {
  }

  /** The corrected difference is the destination zone less the calendar's
      UTC offset; the difference as written is two hours more on daylight
      saving time. */
  lemma DiffHoursOffsets(c: Calendar, destZone: uint8)
    requires c.dst > 0 ==> c.timeZone < 0x7F
    requires -0x7F <= ToInt8(destZone) - SetZone(c) <= 0x7D
    ensures IntendedDiffHours(c, destZone) == ToInt8(destZone) - SetZone(c)
    ensures DiffHours(c, destZone) == IntendedDiffHours(c, destZone) + (if c.dst > 0 then 2 else 0)
  {
    var z: int := ToInt8(destZone);
    SetZoneOffset(c);
    if destZone >= 0x80 {
      ToInt8Periodic(z - c.timeZone, 1);
    }
    assert ToInt8(destZone - c.timeZone) == z - c.timeZone;
  }

  /** Two calendars with the same wall-clock seconds in UTC give the same
      y2038Set time. */
  lemma SameInstant(r: Calendar, c: Calendar)
    requires 1 <= r.month <= 12 && 1 <= c.month <= 12
    requires WallSeconds(r) == WallSeconds(c) + (SetZone(r) - SetZone(c)) * SecondsPerHour
    ensures Y2038Set(r) == Y2038Set(c)
  {
    assert (SetZone(r) - SetZone(c)) * SecondsPerHour == SetZone(r) * SecondsPerHour - SetZone(c) * SecondsPerHour;
  }

  /** The corrected shift of a valid date towards a zone less than a day
      away keeps the instant: y2038Set reads the same time before and after. */
  lemma ShiftKeepsInstant(c: Calendar, destZone: uint8)
    requires ValidDate(c) && StepYears(c.year)
    requires c.dst > 0 ==> c.timeZone < 0x7F
    requires -24 <= ToInt8(destZone) - SetZone(c) <= 24
    ensures Y2038Set(ShiftCalendarIntended(c, destZone)) == Y2038Set(c)
  {
    var r := ShiftCalendarIntended(c, destZone);
    ShiftMovesWall(c, destZone);
    SameInstant(r, c);
  }

  /** The corrected shift of a valid date towards a zone less than a day
      away keeps the date valid, names the destination zone on standard time,
      and moves the wall clock by the destination zone less the calendar's
      UTC offset. */
  lemma ShiftMovesWall(c: Calendar, destZone: uint8)
    requires ValidDate(c) && StepYears(c.year)
    requires c.dst > 0 ==> c.timeZone < 0x7F
    requires -24 <= ToInt8(destZone) - SetZone(c) <= 24
    ensures var r := ShiftCalendarIntended(c, destZone);
            && ValidDate(r) && r.timeZone == ToInt8(destZone) && r.dst == 0
            && r.minute == c.minute && r.second == c.second && SetZone(r) == ToInt8(destZone)
            && WallSeconds(r) == WallSeconds(c) + (ToInt8(destZone) - SetZone(c)) * SecondsPerHour
  {
    var diff := IntendedDiffHours(c, destZone);
    DiffHoursOffsets(c, destZone);
    MoveWithinDay(c, diff);
    WallIgnoresZone(MoveHours(c, diff), ToInt8(destZone));
  }

  /** Moving a valid date by up to a day either way keeps it valid, moves the
      wall clock by the hours and keeps minutes and seconds. */
  lemma MoveWithinDay(c: Calendar, diff: int8)
    requires ValidDate(c) && -24 <= diff <= 24 && StepYears(c.year)
    ensures var m := MoveHours(c, diff);
            && ValidDate(m) && WallSeconds(m) == WallSeconds(c) + diff * SecondsPerHour
            && m.minute == c.minute && m.second == c.second
  {
    if diff > 0 {
      MoveForward(c, diff);
    } else if diff < 0 {
      MoveBackward(c, diff);
    }
    MoveKeepsMinutes(c, diff);
  }

  lemma MoveKeepsMinutes(c: Calendar, diff: int8)
    requires c.month <= 12
    ensures MoveHours(c, diff).minute == c.minute && MoveHours(c, diff).second == c.second
  {
  }

  /** Neither the zone nor the daylight saving flag enter the wall clock. */
  lemma WallIgnoresZone(m: Calendar, zone: int8)
    requires 1 <= m.month <= 12
    ensures WallSeconds(m.(timeZone := zone, dst := 0)) == WallSeconds(m)
    ensures ValidDate(m.(timeZone := zone, dst := 0)) == ValidDate(m)
    ensures SetZone(m.(timeZone := zone, dst := 0)) == zone
  {
  }

  /** Backward, setTimeZone as written never leaves the month: on the first
      of a month it stores day 0, which is no day of any month, though the
      wall clock moves by the hours. */
  lemma ShiftBackwardAsWritten(c: Calendar, destZone: uint8)
    requires ValidDate(c) && -24 <= DiffHours(c, destZone) < 0
    ensures var r := ShiftCalendar(c, destZone);
            && r.year == c.year && r.month == c.month && r.dst == 0
            && WallSeconds(r) == WallSeconds(c) + DiffHours(c, destZone) * SecondsPerHour
            && (r.day == 0 <==> c.day == 1 && c.hour + DiffHours(c, destZone) < 0)
            && (r.day == 0 ==> !ValidDate(r))
  {
    var diff := DiffHours(c, destZone);
    var r := ShiftCalendar(c, destZone);
    if c.hour + diff < 0 {
      assert r == c.(hour := c.hour + diff + 24, day := c.day - 1, dst := 0);
    } else {
      assert r == c.(hour := c.hour + diff, dst := 0);
    }
    WallLinear(c);
    WallLinear(r);
  }

  /** Forward, setTimeZone as written moves a valid date correctly by its
      difference in hours, and keeps the zone it had. */
  lemma ShiftForwardAsWritten(c: Calendar, destZone: uint8)
    requires ValidDate(c) && 0 < DiffHours(c, destZone) <= 24 && StepYears(c.year)
    ensures var r := ShiftCalendar(c, destZone);
            && ValidDate(r) && r.dst == 0 && r.timeZone == c.timeZone
            && WallSeconds(r) == WallSeconds(c) + DiffHours(c, destZone) * SecondsPerHour
  {
    var diff := DiffHours(c, destZone);
    ForwardAsWritten(c, destZone);
    MoveForward(c, diff);
    WallIgnoresZone(MoveHours(c, diff), c.timeZone);
    assert ShiftCalendar(c, destZone) == MoveHours(c, diff).(timeZone := c.timeZone, dst := 0);
  }

  /** setTimeZone as written moves the wall clock but leaves the zone the
      calendar names as it was, so y2038Set reads the shifted calendar as a
      different instant: the source instant moved by the difference, modulo
      the 32-bit wrap. */
  lemma ShiftForwardMovesInstant(c: Calendar, destZone: uint8)
    requires ValidDate(c) && 0 < DiffHours(c, destZone) <= 24 && StepYears(c.year) && c.dst <= 0
    ensures var r := ShiftCalendar(c, destZone);
            && 1 <= r.month <= 12 && r.timeZone == c.timeZone
            && Y2038Set(r) == ToInt32(Y2038Set(c) + DiffHours(c, destZone) * SecondsPerHour)
            && Y2038Set(r) != Y2038Set(c)
  {
    var r := ShiftCalendar(c, destZone);
    ShiftForwardAsWritten(c, destZone);
    SetOfMovedWall(r, c, DiffHours(c, destZone) * SecondsPerHour);
    MovedInt32(Y2038Set(c), DiffHours(c, destZone) * SecondsPerHour);
  }

  /** A calendar whose wall clock is shift seconds later in the same zone is
      shift seconds later for y2038Set, modulo the 32-bit wrap. */
  lemma SetOfMovedWall(r: Calendar, c: Calendar, shift: int)
    requires 1 <= r.month <= 12 && 1 <= c.month <= 12
    requires SetZone(r) == SetZone(c) && WallSeconds(r) == WallSeconds(c) + shift
    ensures Y2038Set(r) == ToInt32(Y2038Set(c) + shift)
  {
    var x := WallSeconds(c) - SetZone(c) * SecondsPerHour - Time2030Since2001;
    assert WallSeconds(r) - SetZone(r) * SecondsPerHour - Time2030Since2001 == x + shift;
    ToInt32Plus(x + shift, Time2030);
    ToInt32Plus(ToInt32(x) + Time2030, shift);
    ToInt32Plus(x, Time2030 + shift);
  }

  /** Less than 2^32 seconds forward always lands on another int32_t. */
  lemma MovedInt32(v: int32, shift: int)
    requires 0 < shift < 0x1_0000_0000
    ensures ToInt32(v + shift) != v
  {
  }

  /** 2024-07-01 12:00 UTC moved to UTC+2: setTimeZone as written shows
      14:00 but still names zone 0, which y2038Set reads as two hours after
      the original instant. */
  lemma ZoneNotWrittenExample()
    ensures var c := Calendar(2024, 7, 1, 12, 0, 0, 0, 0, 1, 27, 183);
            var r := ShiftCalendar(c, 2);
            && r.hour == 14 && r.timeZone == 0
            && Y2038Set(c) == 1719835200 && Y2038Set(r) == 1719835200 + 2 * SecondsPerHour
  {
    var c := Calendar(2024, 7, 1, 12, 0, 0, 0, 0, 1, 27, 183);
    ZoneNotWrittenShift();
    SummerNoon();
    SetOfMovedWall(c.(hour := 14, dst := 0), c, 2 * SecondsPerHour);
  }

  lemma ZoneNotWrittenShift()
    ensures var c := Calendar(2024, 7, 1, 12, 0, 0, 0, 0, 1, 27, 183);
            ShiftCalendar(c, 2) == c.(hour := 14, dst := 0)
  {
    var c := Calendar(2024, 7, 1, 12, 0, 0, 0, 0, 1, 27, 183);
    assert DiffHours(c, 2) == 2;
  }

  /** 2024-07-01 12:00 UTC is the Unix time 1719835200. */
  lemma SummerNoon()
    ensures Y2038Set(Calendar(2024, 7, 1, 12, 0, 0, 0, 0, 1, 27, 183)) == 1719835200
  {
    assert YearStart(2024) == 5 * SecondsPer4Years + 3 * SecondsPerNormalYear;
    assert LeapIndex(2024) == 1;
    assert SecondsTillMonth[1][6] == TillJul + SecondsPerDay;
  }

  /** 2024-03-01 00:30 at UTC+1 moved to UTC: setTimeZone as written stores
      the 0th of March, 23:30. */
  lemma DayZeroAsWritten()
    ensures var r := ShiftCalendar(Calendar(2024, 3, 1, 0, 30, 0, 0, 1, 5, 9, 61), 0);
            && r.month == 3 && r.day == 0 && r.hour == 23 && !ValidDate(r)
  {
    var c := Calendar(2024, 3, 1, 0, 30, 0, 0, 1, 5, 9, 61);
    assert DiffHours(c, 0) == -1;
    assert ShiftCalendar(c, 0) == c.(hour := 23, day := 0, dst := 0);
  }

  /** The corrected shift of the same calendar gives 2024-02-29 23:30 UTC. */
  lemma DayZeroIntended()
    ensures var r := ShiftCalendarIntended(Calendar(2024, 3, 1, 0, 30, 0, 0, 1, 5, 9, 61), 0);
            && r.month == 2 && r.day == 29 && r.hour == 23 && r.timeZone == 0
  {
    var c := Calendar(2024, 3, 1, 0, 30, 0, 0, 1, 5, 9, 61);
    assert IntendedDiffHours(c, 0) == -1;
    LeapYearEuclidean(2024);
    assert LeapIndex(2024) == 1;
    assert DaysOfMonth[1][2] == 29;
    assert MoveHours(c, -1) == c.(hour := 23, day := 29, month := 2);
  }

  /** 2024-07-01 12:00 CEST (zone 1 on daylight saving time, 10:00 UTC)
      moved to zone 2: setTimeZone as written shows 14:00, two hours late;
      the corrected shift shows 12:00. */
  lemma DaylightSavingExample()
    ensures var c := Calendar(2024, 7, 1, 12, 0, 0, 1, 1, 1, 27, 183);
            && ShiftCalendar(c, 2).hour == 14
            && ShiftCalendarIntended(c, 2).hour == 12
  {
  }
}
