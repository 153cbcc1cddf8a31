/** The last day of a leap year that closes a 4-year or a 400-year block, on
    which the 1-year (or 100-year) quotient of y2038Calendar reaches 4
    (src/LibCpp/Time/y2038Calendar.cpp:233-245). */
module Y2038LastDay {
  import opened CTypes
  import opened CTime
  import opened FloorDivision
  import opened Y2038Tables
  import opened Y2038Engine
  import opened Y2038Properties
  import opened Y2038RoundTrip

  /** The split as written starts the next year at the beginning of the
      given split's 366th day, while that split keeps the day in its leap year. */
  predicate OneDayEarly(b: Blocks, bi: Blocks)
  {
    && b.block1 < SecondsPerDay && bi.block1 == b.block1 + SecondsPerNormalYear
    && YearOf(b) == YearOf(bi) + 1 && IsLeapYear(YearOf(bi)) && 1600 <= YearOf(bi) <= 2400
  }

  /** On those days the split as written starts a new year one day early,
      while the corrected split keeps the 366th day in its leap year. */
  lemma LastDaySplits(t: int)
    requires InEngineRange(t) && LastDayOfLeapBlock(t)
    ensures OneDayEarly(SplitBlocks(t), SplitBlocksIntended(t))
  {
    UpperLevels(t);
    var a := FloorDivMod(t, SecondsPer400Years);
    if FloorDivMod(a.remainder, SecondsPer100Years).divisor == 4 {
      LastCenturySplits(t);
    } else {
      LastYearSplits(t);
    }
  }

  /** The 400- and 100-year levels of the split as written are floor
      divisions for every count the engine can see. */
  lemma UpperLevels(t: int)
    requires InEngineRange(t)
    ensures var a := FloorDivMod(t, SecondsPer400Years);
            var b := FloorDivMod(a.remainder, SecondsPer100Years);
            && -1 <= a.divisor <= 0 && UnsignedModuloResult(t, SecondsPer400Years) == a
            && 0 <= b.divisor <= 4 && (b.divisor == 4 ==> b.remainder < SecondsPerDay)
            && UnsignedModuloResult(a.remainder, SecondsPer100Years) == b
  {
    FourHundredYears(t);
    var a := FloorDivMod(t, SecondsPer400Years);
    if t < 0 {
      FloorDivModUnique(t, SecondsPer400Years, -1, a.remainder);
    }
    UnsignedModuloIsFloor(t, SecondsPer400Years);
    CenturyBound(a.remainder);
    UnsignedModuloIsFloor(a.remainder, SecondsPer100Years);
  }

  lemma LastCenturySplits(t: int)
    requires InEngineRange(t)
    requires FloorDivMod(FloorDivMod(t, SecondsPer400Years).remainder, SecondsPer100Years).divisor == 4
    ensures OneDayEarly(SplitBlocks(t), SplitBlocksIntended(t))
  {
    UpperLevels(t);
    var a := FloorDivMod(t, SecondsPer400Years);
    var b := FloorDivMod(a.remainder, SecondsPer100Years);
    LastCentury(a.divisor, a.remainder, b.remainder);
    assert SplitBlocks(t) == Blocks(a.divisor, 4, 0, 0, b.remainder);
    assert SplitBlocksIntended(t) == Blocks(a.divisor, 3, 24, 3, b.remainder + SecondsPerNormalYear);
  }

  lemma LastYearSplits(t: int)
    requires InEngineRange(t) && LastDayOfLeapBlock(t)
    requires FloorDivMod(FloorDivMod(t, SecondsPer400Years).remainder, SecondsPer100Years).divisor != 4
    ensures OneDayEarly(SplitBlocks(t), SplitBlocksIntended(t))
  {
    UpperLevels(t);
    var a := FloorDivMod(t, SecondsPer400Years);
    var b := FloorDivMod(a.remainder, SecondsPer100Years);
    var c := FloorDivMod(b.remainder, SecondsPer4Years);
    UnsignedModuloIsFloor(b.remainder, SecondsPer4Years);
    LastYear(a.divisor, b.divisor, b.remainder, c.divisor, c.remainder);
    UnsignedModuloIsFloor(c.remainder, SecondsPerNormalYear);
    assert SplitBlocks(t) == Blocks(a.divisor, b.divisor, c.divisor, 4, c.remainder - 4 * SecondsPerNormalYear);
    assert SplitBlocksIntended(t) == Blocks(a.divisor, b.divisor, c.divisor, 3, c.remainder - 3 * SecondsPerNormalYear);
  }

  /** The last day of a 400-year block: the split as written gives century 4,
      year 1 of the next block; the corrected one the 366th day of its 400th
      year. */
  lemma LastCentury(k: int, r400: int, r100: nat)
    requires -1 <= k <= 0 && 0 <= r400 < SecondsPer400Years
    requires FloorDivMod(r400, SecondsPer100Years) == DivMod(4, r100)
    ensures 0 <= r100 < SecondsPerDay
    ensures UnsignedModuloResult(r100, SecondsPer4Years) == DivMod(0, r100)
    ensures UnsignedModuloResult(r100, SecondsPerNormalYear) == DivMod(0, r100)
    ensures FloorDivMod(r100 + SecondsPer100Years, SecondsPer4Years) == DivMod(24, 4 * SecondsPerNormalYear + r100)
    ensures FloorDivMod(4 * SecondsPerNormalYear + r100, SecondsPerNormalYear) == DivMod(4, r100)
    ensures IsLeapYear(YearOf(Blocks(k, 3, 24, 3, r100 + SecondsPerNormalYear)))
  {
    FloorDivModUnique(r100, SecondsPer4Years, 0, r100);
    UnsignedModuloIsFloor(r100, SecondsPer4Years);
    FloorDivModUnique(r100, SecondsPerNormalYear, 0, r100);
    UnsignedModuloIsFloor(r100, SecondsPerNormalYear);
    FloorDivModUnique(r100 + SecondsPer100Years, SecondsPer4Years, 24, 4 * SecondsPerNormalYear + r100);
    FloorDivModUnique(4 * SecondsPerNormalYear + r100, SecondsPerNormalYear, 4, r100);
    LastYearOfBlockIsLeap(k, 3, 24);
    assert YearOf(Blocks(k, 3, 24, 3, r100 + SecondsPerNormalYear)) == (k + 5) * 400 + 3 * 100 + 24 * 4 + 4;
  }

  /** The last day of a leap 4-year block inside a century. */
  lemma LastYear(k: int, j: int, r100: int, i: int, r4: nat)
    requires -1 <= k <= 0 && 0 <= j <= 3 && 0 <= r100 < SecondsPer100Years
    requires FloorDivMod(r100, SecondsPer4Years) == DivMod(i, r4)
    requires FloorDivMod(r4, SecondsPerNormalYear).divisor == 4
    ensures 4 * SecondsPerNormalYear <= r4 < 4 * SecondsPerNormalYear + SecondsPerDay
    ensures FloorDivMod(r4, SecondsPerNormalYear) == DivMod(4, r4 - 4 * SecondsPerNormalYear)
    ensures 0 <= i < 24
    ensures IsLeapYear(YearOf(Blocks(k, j, i, 3, r4 - 3 * SecondsPerNormalYear)))
  {
    FourYearBlocks(r100);
    var q := FloorDivMod(r4, SecondsPerNormalYear);
    assert r4 == 4 * SecondsPerNormalYear + q.remainder;
    LastYearOfBlockIsLeap(k, j, i);
    assert YearOf(Blocks(k, j, i, 3, r4 - 3 * SecondsPerNormalYear)) == (k + 5) * 400 + j * 100 + i * 4 + 4;
  }

  /** Without the clamp, the century index of a 400-year block reaches 4 on
      its last day only. */
  lemma CenturyBound(r400: int)
    requires 0 <= r400 < SecondsPer400Years
    ensures var c := FloorDivMod(r400, SecondsPer100Years);
            0 <= c.divisor <= 4 && (c.divisor == 4 ==> c.remainder < SecondsPerDay)
  {
  }

  /** A split whose seconds into the year fall in its first day is read as
      the first of January. */
  lemma JanuaryFirst(b: Blocks, w: DivMod, dst: int8, zoneField: int8)
    requires b.block1 < SecondsPerDay
    ensures var c := CalendarFromBlocks(b, w, dst, zoneField);
            c.month == 1 && c.day == 1 && c.dayInYear == 1
  {
    FirstDay(b);
  }

  /** The first day of the year: month 0, day 0, day of the year 0. */
  lemma FirstDay(b: Blocks)
    requires b.block1 < SecondsPerDay
    ensures MonthIndex(b) == 0 && DayTimeOf(SecondsIntoMonth(b)).day0 == 0 && DaysIntoYear(b) == 0
  {
    FirstMonth(b);
    FirstDayOfMonth(b);
    FirstDayOfYear(b);
  }

  lemma FirstMonth(b: Blocks)
    requires b.block1 < SecondsPerDay
    ensures MonthIndex(b) == 0 && SecondsIntoMonth(b) == b.block1
  {
    ScanInJanuary(LeapIndexOf(b), b.block1);
  }

  lemma FirstDayOfMonth(b: Blocks)
    requires b.block1 < SecondsPerDay && SecondsIntoMonth(b) == b.block1
    ensures DayTimeOf(SecondsIntoMonth(b)).day0 == 0
  {
    DayTimeDigits(b.block1);
    DivModUnique(b.block1, SecondsPerDay, 0, b.block1);
  }

  lemma FirstDayOfYear(b: Blocks)
    requires b.block1 < SecondsPerDay
    ensures DaysIntoYear(b) == 0
  {
    FloorDivModUnique(b.block1, SecondsPerDay, 0, b.block1);
    UnsignedModuloIsFloor(b.block1, SecondsPerDay);
  }

  /** The month scan stops at January on the first day of the year. */
  lemma ScanInJanuary(il: int, block1: nat)
    requires il == 0 || il == 1
    requires block1 < SecondsPerDay
    ensures MonthScan(il, block1, 11) == 0 && SecondsTillMonth[il][0] == 0
  {
    January(il);
    TableShape(il, 0);
    MonthScanUnique(il, block1, 11, 0);
  }

  /** A leap-year split whose seconds into the year fall in its 366th day is
      read as the 31st of December. */
  lemma DecemberThirtyFirst(b: Blocks, w: DivMod, dst: int8, zoneField: int8)
    requires SecondsPerNormalYear <= b.block1 < SecondsPerNormalYear + SecondsPerDay
    requires IsLeapYear(ToInt32(YearOf(b)))
    ensures var c := CalendarFromBlocks(b, w, dst, zoneField);
            c.month == 12 && c.day == 31 && c.dayInYear == 366
  {
    LastDayOfYear(b);
  }

  /** The 366th day of a leap year: month 11, day 30, day of the year 365. */
  lemma LastDayOfYear(b: Blocks)
    requires SecondsPerNormalYear <= b.block1 < SecondsPerNormalYear + SecondsPerDay
    requires IsLeapYear(ToInt32(YearOf(b)))
    ensures MonthIndex(b) == 11 && DayTimeOf(SecondsIntoMonth(b)).day0 == 30 && DaysIntoYear(b) == 365
  {
    LastMonth(b);
    LastDayOfMonth(b);
    LastDayOfYearIndex(b);
  }

  lemma LastMonth(b: Blocks)
    requires SecondsPerNormalYear <= b.block1 < SecondsPerNormalYear + SecondsPerDay
    requires IsLeapYear(ToInt32(YearOf(b)))
    ensures MonthIndex(b) == 11 && SecondsIntoMonth(b) == b.block1 - 335 * SecondsPerDay
  {
    LeapDecember();
  }

  lemma LastDayOfMonth(b: Blocks)
    requires SecondsPerNormalYear <= b.block1 < SecondsPerNormalYear + SecondsPerDay
    requires SecondsIntoMonth(b) == b.block1 - 335 * SecondsPerDay
    ensures DayTimeOf(SecondsIntoMonth(b)).day0 == 30
  {
    var blockM := b.block1 - 335 * SecondsPerDay;
    DayTimeDigits(blockM);
    DivModUnique(blockM, SecondsPerDay, 30, blockM - 30 * SecondsPerDay);
  }

  lemma LastDayOfYearIndex(b: Blocks)
    requires SecondsPerNormalYear <= b.block1 < SecondsPerNormalYear + SecondsPerDay
    ensures DaysIntoYear(b) == 365
  {
    FloorDivModUnique(b.block1, SecondsPerDay, 365, b.block1 - SecondsPerNormalYear);
    UnsignedModuloIsFloor(b.block1, SecondsPerDay);
  }

  /** On the last day of a leap 4-year or 400-year block the engine as written
      reports the first of January of the next year, where the corrected
      engine reports the 31st of December, the 366th day of the year. */
  lemma LastDayCalendars(t: int, dst: int8, zoneField: int8)
    requires InEngineRange(t) && LastDayOfLeapBlock(t)
    ensures var c := CalendarFromShifted(t, dst, zoneField);
            var ci := CalendarFromShiftedIntended(t, dst, zoneField);
            && c.year == ci.year + 1 && c.month == 1 && c.day == 1 && c.dayInYear == 1
            && ci.month == 12 && ci.day == 31 && ci.dayInYear == 366
  {
    var b := SplitBlocks(t);
    var bi := SplitBlocksIntended(t);
    LastDaySplits(t);
    JanuaryFirst(b, UnsignedModuloResult(t, SecondsPerWeek), dst, zoneField);
    DecemberThirtyFirst(bi, FloorDivMod(t, SecondsPerWeek), dst, zoneField);
  }

  /** 2004-12-31 12:00 UTC closes the 4-year block 2001-2004. */
  lemma LastDayOf2004()
    ensures ShiftedTime(1104494400, Some(0), 0, 0, 0) == 126187200 && LastDayOfLeapBlock(126187200)
  {
    BlockLengths();
  }

  /** 2000-12-31 12:00 UTC closes the 400-year block 1601-2000. */
  lemma LastDayOf2000()
    ensures ShiftedTime(978264000, Some(0), 0, 0, 0) == -43200 && LastDayOfLeapBlock(-43200)
  {
    BlockLengths();
  }
}
