/** The UTC dates listed with the library's usage example
    (src/main.cpp:87-96), as y2038Calendar computes them with a requested
    zone of 0 and no daylight saving time, and the split of a count into
    blocks that they rely on. */
module Y2038Examples {
  import opened CTypes
  import opened CTime
  import opened FloorDivision
  import opened Y2038Tables
  import opened Y2038Engine
  import opened Y2038Properties

  /** The split as written takes apart every sum of blocks in range: 100-,
      4- and 1-year blocks below 4, 25 and 4, less than a normal year of
      seconds, and a total that is not a negative whole 400-year block. */
  lemma SplitOfSum(b: Blocks)
    requires 0 <= b.j < 4 && 0 <= b.i < 25 && 0 <= b.h < 4 && b.block1 < SecondsPerNormalYear
    requires !NegativeMultiple(BlockSum(b), SecondsPer400Years)
    ensures SplitBlocks(BlockSum(b)) == b
  {
    var t := BlockSum(b);
    var r4 := b.h * SecondsPerNormalYear + b.block1;
    var r100 := b.i * SecondsPer4Years + r4;
    var r400 := b.j * SecondsPer100Years + r100;
    BlockRemainders(b.j, b.i, b.h, b.block1);
    SplitLevel(t, SecondsPer400Years, b.k, r400);
    SplitLevel(r400, SecondsPer100Years, b.j, r100);
    SplitLevel(r100, SecondsPer4Years, b.i, r4);
    SplitLevel(r4, SecondsPerNormalYear, b.h, b.block1);
  }

  /** What is left after each block of a split in range fits the next
      larger block. */
  lemma BlockRemainders(j: int, i: int, h: int, block1: int)
    requires 0 <= j < 4 && 0 <= i < 25 && 0 <= h < 4 && 0 <= block1 < SecondsPerNormalYear
    ensures var r4 := h * SecondsPerNormalYear + block1;
            var r100 := i * SecondsPer4Years + r4;
            var r400 := j * SecondsPer100Years + r100;
            && 0 <= r4 < SecondsPer4Years && 0 <= r100 < SecondsPer100Years && 0 <= r400 < SecondsPer400Years
  {
    BlockSeconds();
  }

  lemma SplitLevel(value: int, modulo: uint64, d: int, r: int)
    requires modulo > 0 && value == d * modulo + r && 0 <= r < modulo
    requires !NegativeMultiple(value, modulo)
    ensures UnsignedModuloResult(value, modulo) == DivMod(d, r)
  {
    FloorDivModUnique(value, modulo, d, r);
    UnsignedModuloIsFloor(value, modulo);
  }

  /** The date and time of a UTC calendar, read off the split of its count,
      its month and the digits of the seconds into that month. */
  lemma UtcCalendar(unixSeconds: int, b: Blocks, m: int, dt: DayTime)
    requires SplitBlocks(ShiftedTime(unixSeconds, Some(0), -1, 0, 0)) == b
    requires MonthIndex(b) == m
    requires DayTimeOf(SecondsIntoMonth(b)) == dt
    ensures var c := CalendarOf(unixSeconds, Some(0), -1, 0, 0);
            && c.year == ToInt32(YearOf(b)) && c.month == ToUInt8(m + 1) && c.day == ToUInt8(dt.day0 + 1)
            && c.hour == ToUInt8(dt.hour) && c.minute == ToUInt8(dt.minute) && c.second == ToUInt8(dt.second)
            && c.dst == -1 && c.timeZone == 0
  {
  }

  /** The descending month scan stops at the month whose start is at or
      before block1 and whose end is after it. */
  lemma {:induction false} ScanStops(il: int, block1: nat, m: int, k: int)
    requires il == 0 || il == 1
    requires 0 <= m <= k < 12
    requires SecondsTillMonth[il][m] <= block1
    requires m < 11 ==> block1 < SecondsTillMonth[il][m + 1]
    ensures MonthScan(il, block1, k) == m
    decreases k
  {
    if k > m {
      TillMonotone(il, m + 1, k);
      ScanStops(il, block1, m, k - 1);
    }
  }

  /** The month starts never decrease. */
  lemma {:induction false} TillMonotone(il: int, a: int, b: int)
    requires il == 0 || il == 1
    requires 0 <= a <= b < 12
    ensures SecondsTillMonth[il][a] <= SecondsTillMonth[il][b]
    decreases b - a
  {
    if a < b {
      TableShape(il, a);
      TillMonotone(il, a + 1, b);
    }
  }

  /** 2001-01-01 00:00:00, the first second of the count. */
  lemma Vector2001()
    ensures var c := CalendarOf(978307200, Some(0), -1, 0, 0);
            && c.year == 2001 && c.month == 1 && c.day == 1
            && c.hour == 0 && c.minute == 0 && c.second == 0
            && c.dst == -1 && c.timeZone == 0
  {
    Vector2001Count();
    Vector2001Split();
    Vector2001Month();
    UtcCalendar(978307200, Blocks(0, 0, 0, 0, 0), 0, DayTime(0, 0, 0, 0));
  }

  lemma Vector2001Count()
    ensures ShiftedTime(978307200, Some(0), -1, 0, 0) == 0
  {
  }

  lemma Vector2001Split()
    ensures SplitBlocks(0) == Blocks(0, 0, 0, 0, 0)
  {
    assert BlockSum(Blocks(0, 0, 0, 0, 0)) == 0;
    SplitOfSum(Blocks(0, 0, 0, 0, 0));
  }

  lemma Vector2001Month()
    ensures LeapIndexOf(Blocks(0, 0, 0, 0, 0)) == 0
    ensures MonthIndex(Blocks(0, 0, 0, 0, 0)) == 0 && SecondsIntoMonth(Blocks(0, 0, 0, 0, 0)) == 0
    ensures DayTimeOf(0) == DayTime(0, 0, 0, 0)
  {
    assert LeapIndexOf(Blocks(0, 0, 0, 0, 0)) == 0;
    assert SecondsTillMonth[0][0] == 0;
    assert SecondsTillMonth[0][1] == TillFeb;
    ScanStops(0, 0, 0, 11);
  }

  /** 2004-03-10 01:02:03, after the leap day of 2004. */
  lemma Vector2004()
    ensures var c := CalendarOf(1078880523, Some(0), -1, 0, 0);
            && c.year == 2004 && c.month == 3 && c.day == 10
            && c.hour == 1 && c.minute == 2 && c.second == 3
            && c.dst == -1 && c.timeZone == 0
  {
    Vector2004Count();
    Vector2004Split();
    Vector2004Month();
    UtcCalendar(1078880523, Blocks(0, 0, 0, 3, 5965323), 2, DayTime(9, 1, 2, 3));
  }

  lemma Vector2004Count()
    ensures ShiftedTime(1078880523, Some(0), -1, 0, 0) == 100573323
  {
  }

  lemma Vector2004Split()
    ensures SplitBlocks(100573323) == Blocks(0, 0, 0, 3, 5965323)
  {
    assert BlockSum(Blocks(0, 0, 0, 3, 5965323)) == 100573323;
    SplitOfSum(Blocks(0, 0, 0, 3, 5965323));
  }

  lemma Vector2004Month()
    ensures LeapIndexOf(Blocks(0, 0, 0, 3, 5965323)) == 1
    ensures MonthIndex(Blocks(0, 0, 0, 3, 5965323)) == 2 && SecondsIntoMonth(Blocks(0, 0, 0, 3, 5965323)) == 781323
    ensures DayTimeOf(781323) == DayTime(9, 1, 2, 3)
  {
    assert IsLeapYear(2004);
    assert LeapIndexOf(Blocks(0, 0, 0, 3, 5965323)) == 1;
    assert SecondsTillMonth[1][2] == TillMar + SecondsPerDay;
    assert SecondsTillMonth[1][3] == TillApr + SecondsPerDay;
    ScanStops(1, 5965323, 2, 11);
  }

  /** 2000-02-10 01:02:03, before the count starts, in a year divisible by 400. */
  lemma Vector2000()
    ensures var c := CalendarOf(950144523, Some(0), -1, 0, 0);
            && c.year == 2000 && c.month == 2 && c.day == 10
            && c.hour == 1 && c.minute == 2 && c.second == 3
            && c.dst == -1 && c.timeZone == 0
  {
    Vector2000Count();
    Vector2000Split();
    Vector2000Month();
    UtcCalendar(950144523, Blocks(-1, 3, 24, 3, 3459723), 1, DayTime(9, 1, 2, 3));
  }

  lemma Vector2000Count()
    ensures ShiftedTime(950144523, Some(0), -1, 0, 0) == -28162677
  {
  }

  lemma Vector2000Split()
    ensures SplitBlocks(-28162677) == Blocks(-1, 3, 24, 3, 3459723)
  {
    assert BlockSum(Blocks(-1, 3, 24, 3, 3459723)) == -28162677;
    FloorDivModUnique(-28162677, SecondsPer400Years, -1, SecondsPer400Years - 28162677);
    SplitOfSum(Blocks(-1, 3, 24, 3, 3459723));
  }

  lemma Vector2000Month()
    ensures LeapIndexOf(Blocks(-1, 3, 24, 3, 3459723)) == 1
    ensures MonthIndex(Blocks(-1, 3, 24, 3, 3459723)) == 1 && SecondsIntoMonth(Blocks(-1, 3, 24, 3, 3459723)) == 781323
    ensures DayTimeOf(781323) == DayTime(9, 1, 2, 3)
  {
    assert IsLeapYear(2000);
    assert LeapIndexOf(Blocks(-1, 3, 24, 3, 3459723)) == 1;
    assert SecondsTillMonth[1][1] == TillFeb;
    assert SecondsTillMonth[1][2] == TillMar + SecondsPerDay;
    ScanStops(1, 3459723, 1, 11);
  }

  /** 2003-12-31 23:59:59, the last second of a normal year. */
  lemma Vector2003()
    ensures var c := CalendarOf(1072915199, Some(0), -1, 0, 0);
            && c.year == 2003 && c.month == 12 && c.day == 31
            && c.hour == 23 && c.minute == 59 && c.second == 59
            && c.dst == -1 && c.timeZone == 0
  {
    Vector2003Count();
    Vector2003Split();
    Vector2003Month();
    UtcCalendar(1072915199, Blocks(0, 0, 0, 2, 31535999), 11, DayTime(30, 23, 59, 59));
  }

  lemma Vector2003Count()
    ensures ShiftedTime(1072915199, Some(0), -1, 0, 0) == 94607999
  {
  }

  lemma Vector2003Split()
    ensures SplitBlocks(94607999) == Blocks(0, 0, 0, 2, 31535999)
  {
    assert BlockSum(Blocks(0, 0, 0, 2, 31535999)) == 94607999;
    SplitOfSum(Blocks(0, 0, 0, 2, 31535999));
  }

  lemma Vector2003Month()
    ensures LeapIndexOf(Blocks(0, 0, 0, 2, 31535999)) == 0
    ensures MonthIndex(Blocks(0, 0, 0, 2, 31535999)) == 11 && SecondsIntoMonth(Blocks(0, 0, 0, 2, 31535999)) == 2678399
    ensures DayTimeOf(2678399) == DayTime(30, 23, 59, 59)
  {
    assert LeapIndexOf(Blocks(0, 0, 0, 2, 31535999)) == 0;
    assert SecondsTillMonth[0][11] == TillDec;
    ScanStops(0, 31535999, 11, 11);
  }

  /** 2033-04-08 20:15:33, past the end of the signed 32-bit Unix count. */
  lemma Vector2033()
    ensures var c := CalendarOf(1996604133, Some(0), -1, 0, 0);
            && c.year == 2033 && c.month == 4 && c.day == 8
            && c.hour == 20 && c.minute == 15 && c.second == 33
            && c.dst == -1 && c.timeZone == 0
  {
    Vector2033Count();
    Vector2033Split();
    Vector2033Month();
    UtcCalendar(1996604133, Blocks(0, 0, 8, 0, 8453733), 3, DayTime(7, 20, 15, 33));
  }

  lemma Vector2033Count()
    ensures ShiftedTime(1996604133, Some(0), -1, 0, 0) == 1018296933
  {
  }

  lemma Vector2033Split()
    ensures SplitBlocks(1018296933) == Blocks(0, 0, 8, 0, 8453733)
  {
    assert BlockSum(Blocks(0, 0, 8, 0, 8453733)) == 1018296933;
    SplitOfSum(Blocks(0, 0, 8, 0, 8453733));
  }

  lemma Vector2033Month()
    ensures LeapIndexOf(Blocks(0, 0, 8, 0, 8453733)) == 0
    ensures MonthIndex(Blocks(0, 0, 8, 0, 8453733)) == 3 && SecondsIntoMonth(Blocks(0, 0, 8, 0, 8453733)) == 677733
    ensures DayTimeOf(677733) == DayTime(7, 20, 15, 33)
  {
    assert LeapIndexOf(Blocks(0, 0, 8, 0, 8453733)) == 0;
    assert SecondsTillMonth[0][3] == TillApr;
    assert SecondsTillMonth[0][4] == TillMay;
    ScanStops(0, 8453733, 3, 11);
  }

  /** 2039-02-10 00:00:00, after 2038-01-19. */
  lemma Vector2039()
    ensures var c := CalendarOf(2180908800, Some(0), -1, 0, 0);
            && c.year == 2039 && c.month == 2 && c.day == 10
            && c.hour == 0 && c.minute == 0 && c.second == 0
            && c.dst == -1 && c.timeZone == 0
  {
    Vector2039Count();
    Vector2039Split();
    Vector2039Month();
    UtcCalendar(2180908800, Blocks(0, 0, 9, 2, 3456000), 1, DayTime(9, 0, 0, 0));
  }

  lemma Vector2039Count()
    ensures ShiftedTime(2180908800, Some(0), -1, 0, 0) == 1202601600
  {
  }

  lemma Vector2039Split()
    ensures SplitBlocks(1202601600) == Blocks(0, 0, 9, 2, 3456000)
  {
    assert BlockSum(Blocks(0, 0, 9, 2, 3456000)) == 1202601600;
    SplitOfSum(Blocks(0, 0, 9, 2, 3456000));
  }

  lemma Vector2039Month()
    ensures LeapIndexOf(Blocks(0, 0, 9, 2, 3456000)) == 0
    ensures MonthIndex(Blocks(0, 0, 9, 2, 3456000)) == 1 && SecondsIntoMonth(Blocks(0, 0, 9, 2, 3456000)) == 777600
    ensures DayTimeOf(777600) == DayTime(9, 0, 0, 0)
  {
    assert LeapIndexOf(Blocks(0, 0, 9, 2, 3456000)) == 0;
    assert SecondsTillMonth[0][1] == TillFeb;
    assert SecondsTillMonth[0][2] == TillMar;
    ScanStops(0, 3456000, 1, 11);
  }

  /** y2038Set of the UTC calendar 2023-09-15 15:00:00 is 1694790000. */
  lemma SetVector2023()
    ensures Y2038Set(Calendar(2023, 9, 15, 15, 0, 0, -1, 0, 0, 0, 0)) == 1694790000
  {
    assert YearStart(2023) == 5 * SecondsPer4Years + 2 * SecondsPerNormalYear;
    assert LeapIndex(2023) == 0;
    assert SecondsTillMonth[0][8] == TillSep;
  }

  /** y2038Set of the UTC calendar 2039-02-10 00:00:00 is 2180908800 taken
      modulo 2^32 into int32_t. */
  lemma SetVector2039()
    ensures Y2038Set(Calendar(2039, 2, 10, 0, 0, 0, -1, 0, 0, 0, 0)) == 2180908800 - 0x1_0000_0000
  {
    assert YearStart(2039) == 9 * SecondsPer4Years + 2 * SecondsPerNormalYear;
    assert LeapIndex(2039) == 0;
    assert SecondsTillMonth[0][1] == TillFeb;
  }
}
