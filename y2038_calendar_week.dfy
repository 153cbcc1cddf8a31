/** Which calendar week y2038Calendar writes
    (src/LibCpp/Time/y2038Calendar.cpp:281-287), against the Gregorian week
    of the year the stCalendar record documents (src/cTime.h:51). As written,
    the weeks before a year are the days before it divided by 7 in C, which
    rounds toward zero: from 2001 on, a year that does not start on a Monday
    begins in week 1 rather than week 0. The corrected engine writes the
    documented week. */
module Y2038CalendarWeek {
  import opened CTypes
  import opened CTime
  import opened FloorDivision
  import opened Y2038Tables
  import opened Y2038Engine
  import opened Y2038Properties
  import opened Y2038Fields
  import opened Y2038RoundTrip
  import opened Y2038Week

  /** The engine as written, off the last days of leap blocks: before 2001
      the week is the documented one; from 2001 on it is one more in years
      that do not start on a Monday; and on a negative whole number of weeks
      it is one less. */
  lemma CalendarWeekAsWritten(unixSeconds: int, zone: Option<int8>, dst: int8, localZone: int8, localDst: int)
    requires !LastDayOfLeapBlock(ShiftedTime(unixSeconds, zone, dst, localZone, localDst))
    ensures var c := CalendarOf(unixSeconds, zone, dst, localZone, localDst);
            var t := ShiftedTime(unixSeconds, zone, dst, localZone, localDst);
            && 1 <= c.dayInYear <= 365
            && c.calendarWeek
               == WeekOfYear(c.dayInYear, NewYearWeekday(c.year))
                  + (if c.year >= 2001 && NewYearWeekday(c.year) != 1 then 1 else 0)
                  - (if NegativeMultiple(t, SecondsPerWeek) then 1 else 0)
  {
    ShiftedInRange(unixSeconds, zone, dst, localZone, localDst);
    ShiftedWeekAsWritten(ShiftedTime(unixSeconds, zone, dst, localZone, localDst), dst, ZoneField(zone, localZone));
  }

  lemma ShiftedWeekAsWritten(t: int, dst: int8, zoneField: int8)
    requires InEngineRange(t) && !LastDayOfLeapBlock(t)
    ensures var c := CalendarFromShifted(t, dst, zoneField);
            && 1 <= c.dayInYear <= 365
            && c.calendarWeek
               == WeekOfYear(c.dayInYear, NewYearWeekday(c.year))
                  + (if c.year >= 2001 && NewYearWeekday(c.year) != 1 then 1 else 0)
                  - (if NegativeMultiple(t, SecondsPerWeek) then 1 else 0)
  {
    var b := SplitBlocks(t);
    var w := UnsignedModuloResult(t, SecondsPerWeek);
    SplitAgrees(t);
    IntendedSplitBlocks(t);
    SplitInsideYear(t);
    UnsignedModuloRemainder(t, SecondsPerWeek);
    BlockFields(b, w, dst, zoneField);
    DaysBelow(b.block1, 365);
    WeekOfSplit(b, t);
    ByteWeek(WeekNumber(b, w));
  }

  /** Both week numbers of a well-formed split, against the documented week
      of its year and day. */
  lemma WeekOfSplit(b: Blocks, t: int)
    requires BlockSum(b) == t && WellSplit(b)
    ensures var d := b.block1 / SecondsPerDay;
            var n := NewYearWeekday(YearOf(b));
            && 2001 <= YearOf(b) + 400 <= 2800
            && (DaysBefore(b) < 0 <==> YearOf(b) < 2001)
            && (d <= 365 ==>
                 && WeekNumber(b, UnsignedModuloResult(t, SecondsPerWeek))
                    == WeekOfYear(d + 1, n) + (if YearOf(b) >= 2001 && n != 1 then 1 else 0)
                       - (if NegativeMultiple(t, SecondsPerWeek) then 1 else 0)
                 && WeekNumberIntended(b, FloorDivMod(t, SecondsPerWeek)) == WeekOfYear(d + 1, n))
  {
    DaysBeforeYear(b);
    WeekNumberOfSplit(b, t);
  }

  /** The corrected engine, on every input: the documented week, 0 to 53, and
      a day of the week that agrees with the weekday of the first of January. */
  lemma CalendarWeekIntended(unixSeconds: int, zone: Option<int8>, dst: int8, localZone: int8, localDst: int)
    ensures var c := CalendarOfIntended(unixSeconds, zone, dst, localZone, localDst);
            && 1 <= c.dayInYear <= 366
            && c.dayInWeek == Weekday(c.dayInYear, NewYearWeekday(c.year))
            && c.calendarWeek == WeekOfYear(c.dayInYear, NewYearWeekday(c.year))
            && 0 <= c.calendarWeek <= 53
  {
    var t := ShiftedTimeIntended(unixSeconds, zone, dst, localZone, localDst);
    RebasedWindow(unixSeconds);
    assert InEngineRange(t);
    ShiftedWeekIntended(t, DstFieldIntended(zone, dst, localDst), ZoneField(zone, localZone));
  }

  lemma ShiftedWeekIntended(t: int, dst: int8, zoneField: int8)
    requires InEngineRange(t)
    ensures var c := CalendarFromShiftedIntended(t, dst, zoneField);
            && 1 <= c.dayInYear <= 366
            && c.dayInWeek == Weekday(c.dayInYear, NewYearWeekday(c.year))
            && c.calendarWeek == WeekOfYear(c.dayInYear, NewYearWeekday(c.year))
  {
    var b := SplitBlocksIntended(t);
    var w := FloorDivMod(t, SecondsPerWeek);
    IntendedSplit(t);
    WeekOfSplit(b, t);
    assert InsideYear(b);
    BlockFields(b, w, dst, zoneField);
    DaysBelow(b.block1, 366);
    WeekdayOfSplit(b, t);
  }

  /** The day of the week of t is the weekday of day d + 1 of its year. */
  lemma WeekdayOfSplit(b: Blocks, t: int)
    requires BlockSum(b) == t && WellSplit(b)
    ensures (t % SecondsPerWeek) / SecondsPerDay + 1
            == Weekday(b.block1 / SecondsPerDay + 1, NewYearWeekday(YearOf(b)))
  {
    var db := DaysBefore(b);
    var d := b.block1 / SecondsPerDay;
    DaysBeforeYear(b);
    WeekdayOfCount(t);
    DaysOfSplit(b, t);
    SameWeekday(db, d);
  }

  /** Whole days of a split's count: the days before its year and those into it. */
  lemma DaysOfSplit(b: Blocks, t: int)
    requires BlockSum(b) == t
    ensures t / SecondsPerDay == DaysBefore(b) + b.block1 / SecondsPerDay
  {
    var db := DaysBefore(b);
    var d := b.block1 / SecondsPerDay;
    assert t == (db + d) * SecondsPerDay + b.block1 % SecondsPerDay;
    DivModUnique(t, SecondsPerDay, db + d, b.block1 % SecondsPerDay);
  }

  lemma SameWeekday(db: int, d: int)
    ensures (db + d) % 7 == (db % 7 + d) % 7
  {
    DivModUnique(db + d, 7, db / 7 + (db % 7 + d) / 7, (db % 7 + d) % 7);
  }

  /** 2000-01-01 and 2005-01-01 are both Saturdays, in week 0 of their
      years; the engine as written puts the first in week 0 and the second
      in week 1, the corrected engine both in week 0. */
  lemma SaturdayNewYears()
    ensures CalendarOf(946684800, Some(0), -1, 0, 0).calendarWeek == 0
    ensures CalendarOf(1104537600, Some(0), -1, 0, 0).calendarWeek == 1
    ensures CalendarOfIntended(946684800, Some(0), -1, 0, 0).calendarWeek == 0
    ensures CalendarOfIntended(1104537600, Some(0), -1, 0, 0).calendarWeek == 0
  {
    Count2000();
    Split2000();
    Weeks2000();
    Count2005();
    Split2005();
    Weeks2005();
  }

  /** The week numbers before the 8-bit casts at 2000-01-01. */
  lemma Weeks2000()
    ensures WeekNumber(Blocks(-1, 3, 24, 3, 0), UnsignedModuloResult(-366 * SecondsPerDay, SecondsPerWeek)) == 0
    ensures WeekNumberIntended(Blocks(-1, 3, 24, 3, 0), FloorDivMod(-366 * SecondsPerDay, SecondsPerWeek)) == 0
  {
    var t := -366 * SecondsPerDay;
    FloorDivModUnique(t, SecondsPerWeek, -53, 5 * SecondsPerDay);
    UnsignedModuloIsFloor(t, SecondsPerWeek);
    assert DaysBefore(Blocks(-1, 3, 24, 3, 0)) == -366;
  }

  /** The week numbers before the 8-bit casts at 2005-01-01. */
  lemma Weeks2005()
    ensures WeekNumber(Blocks(0, 0, 1, 0, 0), UnsignedModuloResult(1461 * SecondsPerDay, SecondsPerWeek)) == 1
    ensures WeekNumberIntended(Blocks(0, 0, 1, 0, 0), FloorDivMod(1461 * SecondsPerDay, SecondsPerWeek)) == 0
  {
    var t := 1461 * SecondsPerDay;
    FloorDivModUnique(t, SecondsPerWeek, 208, 5 * SecondsPerDay);
    UnsignedModuloIsFloor(t, SecondsPerWeek);
    assert DaysBefore(Blocks(0, 0, 1, 0, 0)) == 1461;
  }

  /** 2000-01-01 00:00 UTC is 366 days before the count starts. */
  lemma Count2000()
    ensures ShiftedTime(946684800, Some(0), -1, 0, 0) == -366 * SecondsPerDay
    ensures ShiftedTimeIntended(946684800, Some(0), -1, 0, 0) == -366 * SecondsPerDay
  {
  }

  /** It falls in the last year of the 400-year block before 2001. */
  lemma Split2000()
    ensures SplitBlocks(-366 * SecondsPerDay) == Blocks(-1, 3, 24, 3, 0)
    ensures SplitBlocksIntended(-366 * SecondsPerDay) == Blocks(-1, 3, 24, 3, 0)
  {
    var t := -366 * SecondsPerDay;
    FloorDivModUnique(t, SecondsPer400Years, -1, 145731 * SecondsPerDay);
    UnsignedModuloIsFloor(t, SecondsPer400Years);
  }

  /** 2005-01-01 00:00 UTC is 1461 days after the count starts. */
  lemma Count2005()
    ensures ShiftedTime(1104537600, Some(0), -1, 0, 0) == 1461 * SecondsPerDay
    ensures ShiftedTimeIntended(1104537600, Some(0), -1, 0, 0) == 1461 * SecondsPerDay
  {
  }

  /** It starts the second 4-year block. */
  lemma Split2005()
    ensures SplitBlocks(1461 * SecondsPerDay) == Blocks(0, 0, 1, 0, 0)
    ensures SplitBlocksIntended(1461 * SecondsPerDay) == Blocks(0, 0, 1, 0, 0)
  {
    var t := 1461 * SecondsPerDay;
    FloorDivModUnique(t, SecondsPer400Years, 0, t);
    FloorDivModUnique(t, SecondsPer100Years, 0, t);
    FloorDivModUnique(t, SecondsPer4Years, 1, 0);
    UnsignedModuloIsFloor(t, SecondsPer400Years);
    UnsignedModuloIsFloor(t, SecondsPer100Years);
    UnsignedModuloIsFloor(t, SecondsPer4Years);
  }
}
