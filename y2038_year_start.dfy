/** The year offset of y2038Set (src/LibCpp/Time/y2038Calendar.cpp:309-325):
    the seconds from 2001-01-01 to the first day of a year, built from the
    split of year - 2001 into 400-, 100-, 4- and 1-year blocks. */
module Y2038YearStart {
  import opened CTypes
  import opened CTime
  import opened FloorDivision
  import opened Y2038Tables
  import opened Y2038Engine

  /** The years whose offset year - 2001 is a negative multiple of 400
      (1601, 1201, ...), which unsignedModulo divides one block too far. */
  predicate MisdividedYear(year: int)
  {
    NegativeMultiple(year - 2001, 400)
  }

  /** Outside those years, YearStart adds up the blocks of the split of
      year - 2001. */
  lemma YearStartOfSplit(year: int, k: int, j: int, i: int, h: int)
    requires year - 2001 == 400 * k + 100 * j + 4 * i + h
    requires 0 <= j < 4 && 0 <= i < 25 && 0 <= h < 4
    requires !MisdividedYear(year)
    ensures YearStart(year) == k * SecondsPer400Years + j * SecondsPer100Years + i * SecondsPer4Years
                               + h * SecondsPerNormalYear
  {
    var r := 100 * j + 4 * i + h;
    FloorDivModUnique(year - 2001, 400, k, r);
    UnsignedModuloIsFloor(year - 2001, 400);
    FloorDivModUnique(r, 100, j, 4 * i + h);
    UnsignedModuloIsFloor(r, 100);
    FloorDivModUnique(4 * i + h, 4, i, h);
    UnsignedModuloIsFloor(4 * i + h, 4);
  }

  /** Each year starts one year length, 365 or 366 days, after the one before,
      as long as neither of the two years is misdivided. */
  lemma YearStartStep(year: int)
    requires !MisdividedYear(year) && !MisdividedYear(year + 1)
    ensures YearStart(year + 1) == YearStart(year) + SecondsPerYear(LeapIndex(year))
  {
    var a := FloorDivMod(year - 2001, 400);
    var b := FloorDivMod(a.remainder, 100);
    var c := FloorDivMod(b.remainder, 4);
    StepOfSplit(year, a.divisor, b.divisor, c.divisor, c.remainder);
  }

  lemma StepOfSplit(year: int, k: int, j: int, i: int, h: int)
    requires year - 2001 == 400 * k + 100 * j + 4 * i + h
    requires 0 <= j < 4 && 0 <= i < 25 && 0 <= h < 4
    requires !MisdividedYear(year) && !MisdividedYear(year + 1)
    ensures YearStart(year + 1) == YearStart(year) + SecondsPerYear(LeapIndex(year))
  {
    if h < 3 {
      StepInsideBlock(year, k, j, i, h);
    } else if i < 24 {
      StepAfterLeapYear(year, k, j, i);
    } else if j < 3 {
      StepAfterCentury(year, k, j);
    } else {
      StepAfter400Years(year, k);
    }
  }

  lemma StepInsideBlock(year: int, k: int, j: int, i: int, h: int)
    requires year - 2001 == 400 * k + 100 * j + 4 * i + h
    requires 0 <= j < 4 && 0 <= i < 25 && 0 <= h < 3
    requires !MisdividedYear(year) && !MisdividedYear(year + 1)
    ensures YearStart(year + 1) == YearStart(year) + SecondsPerNormalYear
    ensures LeapIndex(year) == 0
  {
    YearStartOfSplit(year, k, j, i, h);
    YearStartOfSplit(year + 1, k, j, i, h + 1);
    assert (h + 1) * SecondsPerNormalYear == h * SecondsPerNormalYear + SecondsPerNormalYear;
    NotLeap(year, 500 + 100 * k + 25 * j + i, 1 + h);
  }

  lemma StepAfterLeapYear(year: int, k: int, j: int, i: int)
    requires year - 2001 == 400 * k + 100 * j + 4 * i + 3
    requires 0 <= j < 4 && 0 <= i < 24
    requires !MisdividedYear(year) && !MisdividedYear(year + 1)
    ensures YearStart(year + 1) == YearStart(year) + SecondsPerNormalYear + SecondsPerDay
    ensures LeapIndex(year) == 1
  {
    var before := YearStart(year);
    var after := YearStart(year + 1);
    YearStartOfSplit(year, k, j, i, 3);
    YearStartOfSplit(year + 1, k, j, i + 1, 0);
    assert (i + 1) * SecondsPer4Years == i * SecondsPer4Years + SecondsPer4Years;
    BlockSeconds();
    assert after - before == SecondsPer4Years - 3 * SecondsPerNormalYear;
    LastYearIsLeap(year, k, j, i);
  }

  lemma StepAfterCentury(year: int, k: int, j: int)
    requires year - 2001 == 400 * k + 100 * j + 99
    requires 0 <= j < 3
    requires !MisdividedYear(year) && !MisdividedYear(year + 1)
    ensures YearStart(year + 1) == YearStart(year) + SecondsPerNormalYear
    ensures LeapIndex(year) == 0
  {
    CenturyNotLeap(year, k, j);
    YearStartAfterCentury(year, k, j);
  }

  lemma YearStartAfterCentury(year: int, k: int, j: int)
    requires year - 2001 == 400 * k + 100 * j + 99
    requires 0 <= j < 3
    requires !MisdividedYear(year) && !MisdividedYear(year + 1)
    ensures YearStart(year + 1) == YearStart(year) + SecondsPerNormalYear
  {
    var before := YearStart(year);
    var after := YearStart(year + 1);
    YearStartOfSplit(year, k, j, 24, 3);
    YearStartOfSplit(year + 1, k, j + 1, 0, 0);
    assert (j + 1) * SecondsPer100Years == j * SecondsPer100Years + SecondsPer100Years;
    BlockSeconds();
    assert after - before == SecondsPer100Years - 24 * SecondsPer4Years - 3 * SecondsPerNormalYear;
  }

  lemma StepAfter400Years(year: int, k: int)
    requires year - 2001 == 400 * k + 399
    requires !MisdividedYear(year) && !MisdividedYear(year + 1)
    ensures YearStart(year + 1) == YearStart(year) + SecondsPerNormalYear + SecondsPerDay
    ensures LeapIndex(year) == 1
  {
    YearStartAfter400Years(year, k);
    LastYearIsLeap(year, k, 3, 24);
  }

  lemma YearStartAfter400Years(year: int, k: int)
    requires year - 2001 == 400 * k + 399
    requires !MisdividedYear(year) && !MisdividedYear(year + 1)
    ensures YearStart(year + 1) == YearStart(year) + SecondsPerNormalYear + SecondsPerDay
  {
    var before := YearStart(year);
    var after := YearStart(year + 1);
    YearStartOfSplit(year, k, 3, 24, 3);
    YearStartOfSplit(year + 1, k + 1, 0, 0, 0);
    assert (k + 1) * SecondsPer400Years == k * SecondsPer400Years + SecondsPer400Years;
    BlockSeconds();
    assert after - before == SecondsPer400Years - 3 * SecondsPer100Years - 24 * SecondsPer4Years - 3 * SecondsPerNormalYear;
  }

  /** A year that is no multiple of 4 is no leap year. */
  lemma NotLeap(year: int, q: int, r: int)
    requires year == 4 * q + r && 1 <= r < 4
    ensures LeapIndex(year) == 0
  {
    LeapYearEuclidean(year);
    DivModUnique(year, 4, q, r);
  }

  /** The last year of a 4-year block is a leap year unless the block closes
      a century that does not close a 400-year block. */
  lemma LastYearIsLeap(year: int, k: int, j: int, i: int)
    requires year - 2001 == 400 * k + 100 * j + 4 * i + 3
    requires 0 <= j < 4 && 0 <= i < 25 && (i == 24 ==> j == 3)
    ensures LeapIndex(year) == 1
  {
    LeapYearEuclidean(year);
    if i == 24 {
      DivModUnique(year, 400, k + 6, 0);
    } else {
      DivModUnique(year, 100, (k + 5) * 4 + j, i * 4 + 4);
      DivModUnique(year, 4, (k + 5) * 100 + j * 25 + i + 1, 0);
    }
  }

  /** The last year of the first three centuries of a 400-year block is no
      leap year. */
  lemma CenturyNotLeap(year: int, k: int, j: int)
    requires year - 2001 == 400 * k + 100 * j + 99 && 0 <= j < 3
    ensures LeapIndex(year) == 0
  {
    LeapYearEuclidean(year);
    DivModUnique(year, 400, k + 5, 100 * j + 100);
  }

  /** unsignedModulo misdivides year 1601: y2038Set puts its first day two
      400-year blocks before 2001 instead of one. */
  lemma YearStart1601()
    ensures MisdividedYear(1601)
    ensures YearStart(1601) == -2 * SecondsPer400Years
    ensures FloorDivMod(1601 - 2001, 400) == DivMod(-1, 0)
  {
  }
}
