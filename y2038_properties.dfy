/** What y2038Calendar and y2038Set promise (src/LibCpp/Time/y2038Calendar.cpp:192-340):
    the ranges of the calendar fields, the Monday anchor of 2001-01-01, the
    round trip through y2038Set modulo the 32-bit wrap, and where the code as
    written departs from them. */
module Y2038Properties {
  import opened CTypes
  import opened CTime
  import opened FloorDivision
  import opened Y2038Tables
  import opened Y2038Engine
  import Y2038YearStart

  /** The seconds a split stands for. */
  function BlockSum(b: Blocks): int
  {
    b.k * SecondsPer400Years + b.j * SecondsPer100Years + b.i * SecondsPer4Years
      + b.h * SecondsPerNormalYear + b.block1
  }

  /** A split whose year y2038Set decomposes back into the same blocks: the
      counts below the 400-year block are in range, and the year is not 1601,
      whose offset -400 unsignedModulo mis-divides. k is -1 or 0 for every
      count the engine can see. */
  predicate WellSplit(b: Blocks)
  {
    0 <= b.j < 4 && 0 <= b.i < 25 && 0 <= b.h < 4 && -1 <= b.k <= 0
    && (b.k == 0 || b.j > 0) && b.block1 < SecondsPerNormalYear + SecondsPerDay
  }

  /** Day, hour, minute and second of a non-negative count of seconds into a
      month are its mixed-radix digits. */
  lemma DayTimeDigits(blockM: int)
    requires blockM >= 0
    ensures var dt := DayTimeOf(blockM);
            && dt.day0 == blockM / SecondsPerDay
            && (blockM < 32 * SecondsPerDay ==> dt.day0 < 32)
            && 0 <= dt.hour < 24 && 0 <= dt.minute < 60 && 0 <= dt.second < 60
            && blockM == dt.day0 * SecondsPerDay + dt.hour * SecondsPerHour + dt.minute * SecondsPerMinute + dt.second
  {
    var d := UnsignedModuloResult(blockM, SecondsPerDay);
    UnsignedModuloIsFloor(blockM, SecondsPerDay);
    var hr := UnsignedModuloResult(d.remainder, SecondsPerHour);
    UnsignedModuloIsFloor(d.remainder, SecondsPerHour);
    UnsignedModuloIsFloor(hr.remainder, SecondsPerMinute);
    assert hr.divisor * SecondsPerHour <= d.remainder < SecondsPerDay;
  }

  /** y2038Set's split of year - 2001 recovers the blocks the year was built from. */
  lemma YearStartOfBlocks(b: Blocks)
    requires WellSplit(b)
    ensures YearStart(YearOf(b)) == BlockSum(b) - b.block1
  {
    var y := YearOf(b) - 2001;
    var r := 100 * b.j + 4 * b.i + b.h;
    assert y == 400 * b.k + r;
    FloorDivModUnique(y, 400, b.k, r);
    assert !NegativeMultiple(y, 400);
    Y2038YearStart.YearStartOfSplit(YearOf(b), b.k, b.j, b.i, b.h);
  }

  /** The month the scan finds leaves less than 32 days, and less than the
      length of that month when block1 lies inside the year. */
  lemma MonthRemainder(il: int, block1: nat)
    requires il == 0 || il == 1
    requires block1 < SecondsPerNormalYear + SecondsPerDay
    ensures var m := MonthScan(il, block1, 11);
            var blockM := block1 - SecondsTillMonth[il][m];
            && 0 <= blockM < 32 * SecondsPerDay
            && (block1 < SecondsPerYear(il) ==> blockM < DaysOfMonth[il][m + 1] * SecondsPerDay)
  {
    ScanRemainder(il, block1, MonthScan(il, block1, 11));
  }

  lemma ScanRemainder(il: int, block1: nat, m: int)
    requires il == 0 || il == 1
    requires block1 < SecondsPerNormalYear + SecondsPerDay
    requires 0 <= m <= 11 && SecondsTillMonth[il][m] <= block1
    requires m < 11 ==> block1 < SecondsTillMonth[il][m + 1]
    ensures var blockM := block1 - SecondsTillMonth[il][m];
            && 0 <= blockM < 32 * SecondsPerDay
            && (block1 < SecondsPerYear(il) ==> blockM < DaysOfMonth[il][m + 1] * SecondsPerDay)
  {
    if m < 11 {
      MonthLength(il, m);
    } else {
      December(il);
    }
  }

  /** The calendar filled from a well-formed split carries the wall-clock
      seconds of the split, as y2038Set reads them. */
  lemma WallOfBlocks(b: Blocks, w: DivMod, dst: int8, zoneField: int8)
    requires WellSplit(b)
    ensures var c := CalendarFromBlocks(b, w, dst, zoneField);
            1 <= c.month <= 12 && WallSeconds(c) == BlockSum(b)
  {
    var il := LeapIndexOf(b);
    var m := MonthIndex(b);
    var dt := DayTimeOf(SecondsIntoMonth(b));
    MonthRemainder(il, b.block1);
    DayTimeDigits(SecondsIntoMonth(b));
    YearStartOfBlocks(b);
    var c := CalendarFromBlocks(b, w, dst, zoneField);
    assert c.year == YearOf(b) && c.month == m + 1 && c.day == dt.day0 + 1;
    assert c.hour == dt.hour && c.minute == dt.minute && c.second == dt.second;
    WallOfFields(c, il, m, dt);
  }

  lemma WallOfFields(c: Calendar, il: int, m: int, dt: DayTime)
    requires 0 <= m < 12 && c.month == m + 1 && il == LeapIndex(c.year)
    requires c.day == dt.day0 + 1 && c.hour == dt.hour && c.minute == dt.minute && c.second == dt.second
    ensures WallSeconds(c) == YearStart(c.year) + SecondsTillMonth[il][m] + dt.day0 * SecondsPerDay
                              + dt.hour * SecondsPerHour + dt.minute * SecondsPerMinute + dt.second
  {
  }

  /** The year a 4-year block ends with is a leap year, unless the block
      closes a century that is not also the last of a 400-year block. */
  lemma LastYearOfBlockIsLeap(k: int, j: int, i: int)
    requires 0 <= j <= 3 && 0 <= i <= 24 && (i == 24 ==> j == 3)
    ensures IsLeapYear((k + 5) * 400 + j * 100 + i * 4 + 4)
  {
    var y := (k + 5) * 400 + j * 100 + i * 4 + 4;
    LeapYearEuclidean(y);
    if i == 24 {
      FloorDivModUnique(y, 400, k + 6, 0);
    } else {
      FloorDivModUnique(y, 100, (k + 5) * 4 + j, i * 4 + 4);
      FloorDivModUnique(y, 4, (k + 5) * 100 + j * 25 + i + 1, 0);
    }
  }

  /** In the engine's range the 400-year index is -1 or 0, and -1 only in
      the last century of its block. */
  lemma FourHundredYears(t: int)
    requires InEngineRange(t)
    ensures var a := FloorDivMod(t, SecondsPer400Years);
            -1 <= a.divisor <= 0 && (a.divisor == -1 ==> a.remainder >= 3 * SecondsPer100Years)
  {
  }

  /** A 400-year block holds four centuries and one day more; the clamped
      split puts that day into the 4th century. */
  lemma Centuries(r400: int)
    requires 0 <= r400 < SecondsPer400Years
    ensures var c := LastBlockClamped(FloorDivMod(r400, SecondsPer100Years), SecondsPer100Years);
            && 0 <= c.divisor <= 3 && 0 <= c.remainder < SecondsPer100Years + SecondsPerDay
            && c.divisor * SecondsPer100Years + c.remainder == r400
            && (r400 >= 3 * SecondsPer100Years ==> c.divisor == 3)
  {
  }

  /** A century, with the extra day of a 400-year block, holds at most 25
      4-year blocks, and its 25th only in that extra day's century. */
  lemma FourYearBlocks(r100: int)
    requires 0 <= r100 < SecondsPer100Years + SecondsPerDay
    ensures var c := FloorDivMod(r100, SecondsPer4Years);
            && 0 <= c.divisor <= 24 && 0 <= c.remainder < SecondsPer4Years
            && c.divisor * SecondsPer4Years + c.remainder == r100
            && (c.divisor == 24 && c.remainder >= 4 * SecondsPerNormalYear ==> r100 >= SecondsPer100Years)
  {
  }

  /** A 4-year block holds four normal years and one day more; the clamped
      split puts that day into the 4th year. */
  lemma Years(r4: int)
    requires 0 <= r4 < SecondsPer4Years
    ensures var c := LastBlockClamped(FloorDivMod(r4, SecondsPerNormalYear), SecondsPerNormalYear);
            && 0 <= c.divisor <= 3 && 0 <= c.remainder < SecondsPerNormalYear + SecondsPerDay
            && c.divisor * SecondsPerNormalYear + c.remainder == r4
            && (c.remainder >= SecondsPerNormalYear ==> c.divisor == 3 && r4 >= 4 * SecondsPerNormalYear)
  {
  }

  /** The corrected split of every count the engine can see: it adds up to
      the count, its blocks are in range, and the seconds into the year stay
      inside that year, a 366th day only in a leap year. */
  lemma IntendedSplit(t: int)
    requires InEngineRange(t)
    ensures var b := SplitBlocksIntended(t);
            && BlockSum(b) == t && WellSplit(b)
            && b.block1 < SecondsPerYear(LeapIndex(YearOf(b)))
  {
    IntendedSplitBlocks(t);
    IntendedSplitInYear(t);
  }

  lemma IntendedSplitBlocks(t: int)
    requires InEngineRange(t)
    ensures var b := SplitBlocksIntended(t);
            BlockSum(b) == t && WellSplit(b)
  {
    var a := FloorDivMod(t, SecondsPer400Years);
    FourHundredYears(t);
    var bb := LastBlockClamped(FloorDivMod(a.remainder, SecondsPer100Years), SecondsPer100Years);
    Centuries(a.remainder);
    var c := FloorDivMod(bb.remainder, SecondsPer4Years);
    FourYearBlocks(bb.remainder);
    var d := LastBlockClamped(FloorDivMod(c.remainder, SecondsPerNormalYear), SecondsPerNormalYear);
    Years(c.remainder);
    assert SplitBlocksIntended(t) == Blocks(a.divisor, bb.divisor, c.divisor, d.divisor, d.remainder);
  }

  lemma IntendedSplitInYear(t: int)
    requires InEngineRange(t)
    ensures var b := SplitBlocksIntended(t);
            b.block1 < SecondsPerYear(LeapIndex(YearOf(b)))
  {
    var a := FloorDivMod(t, SecondsPer400Years);
    FourHundredYears(t);
    var bb := LastBlockClamped(FloorDivMod(a.remainder, SecondsPer100Years), SecondsPer100Years);
    Centuries(a.remainder);
    var c := FloorDivMod(bb.remainder, SecondsPer4Years);
    FourYearBlocks(bb.remainder);
    var d := LastBlockClamped(FloorDivMod(c.remainder, SecondsPerNormalYear), SecondsPerNormalYear);
    Years(c.remainder);
    var b := Blocks(a.divisor, bb.divisor, c.divisor, d.divisor, d.remainder);
    assert SplitBlocksIntended(t) == b;
    if d.remainder >= SecondsPerNormalYear {
      LastYearOfBlockIsLeap(a.divisor, bb.divisor, c.divisor);
      assert YearOf(b) == (a.divisor + 5) * 400 + bb.divisor * 100 + c.divisor * 4 + 4;
    }
  }
}
