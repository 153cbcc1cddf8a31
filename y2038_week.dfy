/** The Gregorian week of the year that the stCalendar record documents for
    calendarWeek (src/cTime.h:51): weeks run from Monday to Sunday, week 1
    starts on the first Monday of the year, and the days before it are in
    week 0. Also, the week number the engine computes from a split
    (src/LibCpp/Time/y2038Calendar.cpp:281-287), in terms of that reference. */
module Y2038Week {
  import opened CTypes
  import opened CTime
  import opened FloorDivision
  import opened Y2038Tables
  import opened Y2038Engine
  import opened Y2038Properties

  /** Days from 2001-01-01 to the first of January of a year, counting the
      leap days of the years in between by the Gregorian rule. */
  function DaysToYear(year: int): int
  {
    var y := year - 1;
    365 * (year - 2001) + (y / 4 - y / 100 + y / 400) - 485
  }

  /** The count starts at 2001, and each year adds its own length. */
  lemma {:induction false} DaysToYearStep(year: int)
    ensures DaysToYear(2001) == 0
    ensures DaysToYear(year + 1) == DaysToYear(year) + 365 + (if IsLeapYear(year) then 1 else 0)
  {
    LeapYearEuclidean(year);
    FloorStep(year, 4);
    FloorStep(year, 100);
    FloorStep(year, 400);
  }

  /** y / n exceeds (y - 1) / n by one exactly when n divides y. */
  lemma FloorStep(y: int, n: int)
    requires n > 0
    ensures y / n - (y - 1) / n == if y % n == 0 then 1 else 0
  {
    var q := (y - 1) / n;
    var r := (y - 1) % n;
    if r == n - 1 {
      DivModUnique(y, n, q + 1, 0);
    } else {
      DivModUnique(y, n, q, r + 1);
    }
  }

  /** The day of the week of the first of January, from 1 for Monday:
      2001-01-01 was a Monday. */
  function NewYearWeekday(year: int): (d: int)
    ensures 1 <= d <= 7
  {
    DaysToYear(year) % 7 + 1
  }

  /** The day of the week, from 1 for Monday, of day dayInYear of a year
      whose first of January falls on newYear. */
  function Weekday(dayInYear: int, newYear: int): (d: int)
    ensures 1 <= d <= 7
  {
    (newYear - 1 + dayInYear - 1) % 7 + 1
  }

  /** The calendar week of day dayInYear of a year whose first of January
      falls on newYear: it is 0 exactly on the days before the first Monday. */
  function WeekOfYear(dayInYear: int, newYear: int): (week: int)
    requires 1 <= newYear <= 7 && 1 <= dayInYear <= 366
    ensures 0 <= week <= 53
    ensures week == 0 <==> newYear != 1 && dayInYear + newYear <= 8
  {
    (newYear - 1 + dayInYear - 1) / 7 + (if newYear == 1 then 1 else 0)
  }

  /** The week goes up by one on each Monday and on no other day, and the
      first Monday of the year starts week 1. */
  lemma WeeksStartOnMonday(dayInYear: int, newYear: int)
    requires 1 <= newYear <= 7 && 1 <= dayInYear < 366
    ensures WeekOfYear(dayInYear + 1, newYear)
            == WeekOfYear(dayInYear, newYear) + (if Weekday(dayInYear + 1, newYear) == 1 then 1 else 0)
    ensures Weekday(dayInYear, newYear) == 1 && dayInYear <= 7 ==> WeekOfYear(dayInYear, newYear) == 1
  {
    FloorStep(newYear - 1 + dayInYear, 7);
  }

  /** For a split whose 100-, 4- and 1-year blocks are in range, the days
      before its year (daysBeginSince2001) are the Gregorian days from
      2001-01-01 to the first of January of that year. */
  lemma DaysBeforeYear(b: Blocks)
    requires 0 <= b.j < 4 && 0 <= b.i < 25 && 0 <= b.h < 4
    ensures DaysBefore(b) == DaysToYear(YearOf(b))
  {
    var y := YearOf(b) - 1;
    DivModUnique(y, 4, 100 * (b.k + 5) + 25 * b.j + b.i, b.h);
    DivModUnique(y, 100, 4 * (b.k + 5) + b.j, 4 * b.i + b.h);
    DivModUnique(y, 400, b.k + 5, 100 * b.j + 4 * b.i + b.h);
  }

  /** The week numbers of a split of t, in terms of the days db before its
      year and the whole days d into the year. As written, the weeks before
      the year are db / 7 truncated toward zero, one more than the floor
      before 2001, and a negative whole number of weeks is one week short.
      The corrected number counts those weeks up to the first Monday. */
  lemma WeekNumberOfSplit(b: Blocks, t: int)
    requires BlockSum(b) == t
    ensures var db := DaysBefore(b);
            var d := b.block1 / SecondsPerDay;
            WeekNumber(b, UnsignedModuloResult(t, SecondsPerWeek))
            == (db % 7 + d) / 7 + 1 - (if db < 0 && db % 7 != 0 then 1 else 0)
               - (if NegativeMultiple(t, SecondsPerWeek) then 1 else 0)
    ensures var db := DaysBefore(b);
            var d := b.block1 / SecondsPerDay;
            WeekNumberIntended(b, FloorDivMod(t, SecondsPerWeek))
            == (db % 7 + d) / 7 + (if db % 7 == 0 then 1 else 0)
  {
    var db := DaysBefore(b);
    var d := b.block1 / SecondsPerDay;
    var s := b.block1 % SecondsPerDay;
    var n := db + d;
    assert t == n * SecondsPerDay + s;
    DivModUnique(t, SecondsPerWeek, n / 7, (n % 7) * SecondsPerDay + s);
    DivModUnique(n, 7, db / 7 + (db % 7 + d) / 7, (db % 7 + d) % 7);
    TruncWeeks(db);
    RoundedWeeks(db);
    UnsignedModuloSpec(t, SecondsPerWeek);
  }

  /** yWeeks2001: C's division by 7 rounds a negative day count up. */
  lemma TruncWeeks(db: int)
    ensures TruncDiv(db, 7) == db / 7 + (if db < 0 && db % 7 != 0 then 1 else 0)
  {
    if db < 0 {
      if db % 7 == 0 {
        DivModUnique(-db, 7, -(db / 7), 0);
      } else {
        DivModUnique(-db, 7, -(db / 7) - 1, 7 - db % 7);
      }
    }
  }

  lemma RoundedWeeks(db: int)
    ensures FloorDivMod(db + 6, 7).divisor == db / 7 + (if db % 7 == 0 then 0 else 1)
  {
    if db % 7 == 0 {
      DivModUnique(db + 6, 7, db / 7, 6);
    } else {
      DivModUnique(db + 6, 7, db / 7 + 1, db % 7 - 1);
    }
  }

  /** The split as written adds up to every count the engine can see. */
  lemma SplitSum(t: int)
    requires InEngineRange(t)
    ensures BlockSum(SplitBlocks(t)) == t
  {
    FourHundredYears(t);
    var a := FloorDivMod(t, SecondsPer400Years);
    if t < 0 {
      FloorDivModUnique(t, SecondsPer400Years, -1, a.remainder);
    }
    UnsignedModuloIsFloor(t, SecondsPer400Years);
    var b := FloorDivMod(a.remainder, SecondsPer100Years);
    UnsignedModuloIsFloor(a.remainder, SecondsPer100Years);
    var c := FloorDivMod(b.remainder, SecondsPer4Years);
    UnsignedModuloIsFloor(b.remainder, SecondsPer4Years);
    UnsignedModuloIsFloor(c.remainder, SecondsPerNormalYear);
  }

  /** The int8_t and uint8_t casts keep every week from -1 to 127. */
  lemma ByteWeek(x: int)
    requires -1 <= x < 0x80
    ensures ToInt8(ToUInt8(x)) == x
  {
  }
}
