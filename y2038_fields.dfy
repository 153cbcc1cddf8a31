/** The ranges of the fields y2038Calendar fills
    (src/LibCpp/Time/y2038Calendar.cpp:252-295) and the Monday anchor of the
    week count: 2001-01-01, where the shifted count starts, is a Monday. */
module Y2038Fields {
  import opened CTypes
  import opened CTime
  import opened FloorDivision
  import opened Y2038Tables
  import opened Y2038Engine
  import opened Y2038Properties
  import opened Y2038Week
  import opened Y2038Examples

  /** The seconds of a split into its year stay inside that year. */
  predicate InsideYear(b: Blocks)
  {
    b.block1 < SecondsPerYear(LeapIndexOf(b))
  }

  /** Fewer than n days of seconds make fewer than n whole days. */
  lemma DaysBelow(x: int, n: int)
    requires 0 <= x < n * SecondsPerDay
    ensures 0 <= x / SecondsPerDay < n
  {
  }

  /** The scan finds a month 0..11 and leaves fewer seconds than that month
      has; the digits of those seconds are a day of that month and a time of
      day. */
  lemma MonthAndDay(b: Blocks)
    requires InsideYear(b)
    ensures var il := LeapIndexOf(b);
            var dt := DayTimeOf(SecondsIntoMonth(b));
            && 0 <= MonthIndex(b) <= 11
            && 0 <= dt.day0 < DaysOfMonth[il][MonthIndex(b) + 1] && dt.day0 < 31
            && 0 <= dt.hour < 24 && 0 <= dt.minute < 60 && 0 <= dt.second < 60
  {
    var il := LeapIndexOf(b);
    var m := MonthIndex(b);
    MonthRemainder(il, b.block1);
    var blockM := SecondsIntoMonth(b);
    DayTimeDigits(blockM);
    DaysBelow(blockM, DaysOfMonth[il][m + 1]);
    MonthLengthBound(il, m);
  }

  lemma MonthLengthBound(il: int, m: int)
    requires il == 0 || il == 1
    requires 0 <= m <= 11
    ensures DaysOfMonth[il][m + 1] <= 31
  {
    TableShape(il, m);
  }

  /** dayInYear - 1 is the number of whole days of block1. */
  lemma DayOfYear(b: Blocks)
    ensures DaysIntoYear(b) == b.block1 / SecondsPerDay
  {
    UnsignedModuloIsFloor(b.block1, SecondsPerDay);
  }

  /** dayInWeek - 1 is the number of whole days of the seconds into the week. */
  lemma DayOfWeek(w: DivMod)
    requires w.remainder < SecondsPerWeek
    ensures DaysIntoWeek(w) == w.remainder / SecondsPerDay
    ensures 0 <= DaysIntoWeek(w) < 7
  {
    UnsignedModuloIsFloor(w.remainder, SecondsPerDay);
    DaysBelow(w.remainder, 7);
  }

  /** A split inside its year fills month 1..12, a day of that month, a time
      of day, and the day of the year and of the week counted from 1. */
  lemma BlockFields(b: Blocks, w: DivMod, dst: int8, zoneField: int8)
    requires InsideYear(b) && w.remainder < SecondsPerWeek
    ensures var c := CalendarFromBlocks(b, w, dst, zoneField);
            && 1 <= c.month <= 12 && 1 <= c.day <= DaysOfMonth[LeapIndex(c.year)][c.month]
            && c.hour < 24 && c.minute < 60 && c.second < 60
            && c.dayInYear == b.block1 / SecondsPerDay + 1
            && c.dayInWeek == w.remainder / SecondsPerDay + 1 && 1 <= c.dayInWeek <= 7
            && c.dst == dst && c.timeZone == zoneField
  {
    BlockDate(b, w, dst, zoneField);
    BlockDays(b, w, dst, zoneField);
  }

  lemma BlockDate(b: Blocks, w: DivMod, dst: int8, zoneField: int8)
    requires InsideYear(b)
    ensures var c := CalendarFromBlocks(b, w, dst, zoneField);
            && 1 <= c.month <= 12 && 1 <= c.day <= DaysOfMonth[LeapIndex(c.year)][c.month]
            && c.hour < 24 && c.minute < 60 && c.second < 60
  {
    var c := CalendarFromBlocks(b, w, dst, zoneField);
    var dt := DayTimeOf(SecondsIntoMonth(b));
    MonthAndDay(b);
    assert c.month == MonthIndex(b) + 1 && c.day == dt.day0 + 1;
    assert LeapIndex(c.year) == LeapIndexOf(b);
  }

  lemma BlockDays(b: Blocks, w: DivMod, dst: int8, zoneField: int8)
    requires InsideYear(b) && w.remainder < SecondsPerWeek
    ensures var c := CalendarFromBlocks(b, w, dst, zoneField);
            && c.dayInYear == b.block1 / SecondsPerDay + 1
            && c.dayInWeek == w.remainder / SecondsPerDay + 1 && 1 <= c.dayInWeek <= 7
            && c.dst == dst && c.timeZone == zoneField
  {
    DayOfYear(b);
    DayOfWeek(w);
    DaysBelow(b.block1, 366);
  }

  /** The split as written always leaves less than a normal year in block1. */
  lemma SplitInsideYear(t: int)
    ensures SplitBlocks(t).block1 < SecondsPerNormalYear
    ensures InsideYear(SplitBlocks(t))
  {
    var a := UnsignedModuloResult(t, SecondsPer400Years);
    var b := UnsignedModuloResult(a.remainder, SecondsPer100Years);
    var c := UnsignedModuloResult(b.remainder, SecondsPer4Years);
    UnsignedModuloRemainder(c.remainder, SecondsPerNormalYear);
  }

  /** Whole days of the seconds into the week are the whole days since
      2001-01-01 modulo 7. */
  lemma WeekdayOfCount(t: int)
    ensures (t % SecondsPerWeek) / SecondsPerDay == (t / SecondsPerDay) % 7
  {
    var q := t / SecondsPerWeek;
    var r := t % SecondsPerWeek;
    var a := r / SecondsPerDay;
    var s := r % SecondsPerDay;
    DaysBelow(r, 7);
    assert t == (7 * q + a) * SecondsPerDay + s;
    DivModUnique(t, SecondsPerDay, 7 * q + a, s);
    DivModUnique(7 * q + a, 7, q, a);
  }

  /** Every calendar y2038Calendar returns, for every input, has its month,
      day, hour, minute, second, day of the year and day of the week in range,
      the day within the length of its month, and the day of the week counted
      from Monday 2001-01-01 in the requested zone: the shifted count t is 0
      at 2001-01-01 00:00 there. Its calendar week lies in -1..53, one below
      the documented 0..53 (Y2038CalendarWeek says which week it is). */
  lemma CalendarFields(unixSeconds: int, zone: Option<int8>, dst: int8, localZone: int8, localDst: int)
    ensures var c := CalendarOf(unixSeconds, zone, dst, localZone, localDst);
            var t := ShiftedTime(unixSeconds, zone, dst, localZone, localDst);
            && 1 <= c.month <= 12 && 1 <= c.day <= DaysOfMonth[LeapIndex(c.year)][c.month]
            && c.hour < 24 && c.minute < 60 && c.second < 60
            && 1 <= c.dayInYear <= 365
            && c.dayInWeek == (t / SecondsPerDay) % 7 + 1
            && c.dst == dst && c.timeZone == ZoneField(zone, localZone)
            && -1 <= c.calendarWeek <= 53
  {
    var t := ShiftedTime(unixSeconds, zone, dst, localZone, localDst);
    ShiftedInRange(unixSeconds, zone, dst, localZone, localDst);
    ShiftedFields(t, dst, ZoneField(zone, localZone));
    WeekRange(t, dst, ZoneField(zone, localZone));
  }

  /** Every count the engine shifts lies in its range. */
  lemma ShiftedInRange(unixSeconds: int, zone: Option<int8>, dst: int8, localZone: int8, localDst: int)
    ensures InEngineRange(ShiftedTime(unixSeconds, zone, dst, localZone, localDst))
  {
    RebasedWindow(unixSeconds);
  }

  /** The fields the engine as written fills from any shifted count. */
  lemma ShiftedFields(t: int, dst: int8, zoneField: int8)
    ensures var c := CalendarFromShifted(t, dst, zoneField);
            && 1 <= c.month <= 12 && 1 <= c.day <= DaysOfMonth[LeapIndex(c.year)][c.month]
            && c.hour < 24 && c.minute < 60 && c.second < 60
            && 1 <= c.dayInYear <= 365
            && c.dayInWeek == (t / SecondsPerDay) % 7 + 1
            && c.dst == dst && c.timeZone == zoneField
  {
    var w := UnsignedModuloResult(t, SecondsPerWeek);
    var b := SplitBlocks(t);
    SplitInsideYear(t);
    UnsignedModuloRemainder(t, SecondsPerWeek);
    WeekdayOfCount(t);
    BlockFields(b, w, dst, zoneField);
    DaysBelow(b.block1, 365);
  }

  /** The week the engine as written fills for a count it can see. */
  lemma WeekRange(t: int, dst: int8, zoneField: int8)
    requires InEngineRange(t)
    ensures -1 <= CalendarFromShifted(t, dst, zoneField).calendarWeek <= 53
  {
    var b := SplitBlocks(t);
    var w := UnsignedModuloResult(t, SecondsPerWeek);
    SplitInsideYear(t);
    DaysBelow(b.block1, 365);
    SplitSum(t);
    WeekNumberOfSplit(b, t);
    ByteWeek(WeekNumber(b, w));
  }

  /** 2001-01-01 00:00:00 UTC is the count 0 of the engine: the first day
      of the year 2001, a Monday, in week 1. */
  lemma MondayAnchor()
    ensures ShiftedTime(Time2001, Some(0), -1, 0, 0) == 0
    ensures var c := CalendarOf(Time2001, Some(0), -1, 0, 0);
            && c.year == 2001 && c.month == 1 && c.day == 1
            && c.hour == 0 && c.minute == 0 && c.second == 0
            && c.dayInWeek == 1 && c.dayInYear == 1 && c.calendarWeek == 1
  {
    AnchorCount();
    CalendarFields(Time2001, Some(0), -1, 0, 0);
    Vector2001();
    Vector2001Split();
  }

  lemma AnchorCount()
    ensures ShiftedTime(Time2001, Some(0), -1, 0, 0) == 0
  {
  }
}
