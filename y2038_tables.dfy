/** The calendar constants and the two month tables of the y2038 engine
    (src/LibCpp/Time/y2038Calendar.cpp:92-153, 387-388). Index 0 of each
    table is the normal year, index 1 the leap year. */
module Y2038Tables {
  import opened CTime

  const SecondsPerMinute: int := 60
  const SecondsPerHour: int := 60 * SecondsPerMinute
  const SecondsPerDay: int := 24 * SecondsPerHour
  const SecondsPerWeek: int := 7 * SecondsPerDay

  const DaysPerNormalYear: int := 365
  /** Four years ending with a leap year. */
  const DaysPer4Years: int := 4 * DaysPerNormalYear + 1
  /** A hundred years whose last year is not a leap year. */
  const DaysPer100Years: int := 25 * DaysPer4Years - 1
  /** Four hundred years whose last year is a leap year after all. */
  const DaysPer400Years: int := 4 * DaysPer100Years + 1

  const SecondsPerNormalYear: int := DaysPerNormalYear * SecondsPerDay
  const SecondsPer4Years: int := DaysPer4Years * SecondsPerDay
  const SecondsPer100Years: int := DaysPer100Years * SecondsPerDay
  const SecondsPer400Years: int := DaysPer400Years * SecondsPerDay

  /** Unix times of 2001-01-01 and 2030-01-01, 00:00:00 UTC. */
  const Time2001: int := 978307200
  const Time2030: int := 1893456000
  const Time2030Since2001: int := Time2030 - Time2001

  /** DAYSOFMONTH: entry 0 is unused, entries 1-12 are January to December. */
  const DaysOfMonth: seq<seq<int>> :=
    [[0, 31, 28, 31, 30, 31, 30, 31, 31, 30, 31, 30, 31],
     [0, 31, 29, 31, 30, 31, 30, 31, 31, 30, 31, 30, 31]]

  const TillFeb: int := 31 * SecondsPerDay
  const TillMar: int := 28 * SecondsPerDay + TillFeb
  const TillApr: int := 31 * SecondsPerDay + TillMar
  const TillMay: int := 30 * SecondsPerDay + TillApr
  const TillJun: int := 31 * SecondsPerDay + TillMay
  const TillJul: int := 30 * SecondsPerDay + TillJun
  const TillAug: int := 31 * SecondsPerDay + TillJul
  const TillSep: int := 31 * SecondsPerDay + TillAug
  const TillOct: int := 30 * SecondsPerDay + TillSep
  const TillNov: int := 31 * SecondsPerDay + TillOct
  const TillDec: int := 30 * SecondsPerDay + TillNov

  /** SECONDSTILLMONTH: seconds of the year before the first of month m + 1. */
  const SecondsTillMonth: seq<seq<int>> :=
    [[0, TillFeb, TillMar, TillApr, TillMay, TillJun, TillJul, TillAug, TillSep, TillOct, TillNov, TillDec],
     [0, TillFeb, TillMar + SecondsPerDay, TillApr + SecondsPerDay, TillMay + SecondsPerDay,
      TillJun + SecondsPerDay, TillJul + SecondsPerDay, TillAug + SecondsPerDay, TillSep + SecondsPerDay,
      TillOct + SecondsPerDay, TillNov + SecondsPerDay, TillDec + SecondsPerDay]]

  /** The table row a year uses: `int il = isLeapYear(year)`. */
  function LeapIndex(year: int): (il: int)
    ensures il == 0 || il == 1
    ensures il == 1 <==> IsLeapYear(year)
  {
    if IsLeapYear(year) then 1 else 0
  }

  /** Length of a year in seconds. */
  function SecondsPerYear(il: int): int
    requires il == 0 || il == 1
  {
    (DaysPerNormalYear + il) * SecondsPerDay
  }

  /** Both rows start at 0 and strictly increase; the leap row is the normal
      row plus one day from March on; DAYSOFMONTH rows differ only in
      February; and each entry of SECONDSTILLMONTH is the previous one plus the
      length of the previous month, up to the length of the whole year. */
  lemma TableShape(il: int, m: int)
    requires il == 0 || il == 1
    requires 0 <= m < 12
    ensures |SecondsTillMonth[il]| == 12 && |DaysOfMonth[il]| == 13
    ensures SecondsTillMonth[il][0] == 0
    ensures m < 11 ==> SecondsTillMonth[il][m] < SecondsTillMonth[il][m + 1]
    ensures m < 11 ==> SecondsTillMonth[il][m + 1] == SecondsTillMonth[il][m] + DaysOfMonth[il][m + 1] * SecondsPerDay
    ensures SecondsTillMonth[1][m] == SecondsTillMonth[0][m] + (if m >= 2 then SecondsPerDay else 0)
    ensures DaysOfMonth[1][m + 1] == DaysOfMonth[0][m + 1] + (if m + 1 == 2 then 1 else 0)
    ensures 28 <= DaysOfMonth[il][m + 1] <= 31
    ensures SecondsTillMonth[il][11] + DaysOfMonth[il][12] * SecondsPerDay == SecondsPerYear(il)
  {
  }

  /** The block lengths are the ones the Gregorian rule produces. */
  lemma BlockLengths()
    ensures SecondsPerDay == 86400 && SecondsPerWeek == 604800
    ensures DaysPer4Years == 1461 && DaysPer100Years == 36524 && DaysPer400Years == 146097
    ensures SecondsPer400Years == 12622780800
    ensures Time2001 + 29 * SecondsPerNormalYear + 7 * SecondsPerDay == Time2030
  {
  }

  /** Each block in seconds: four years are four normal years and a day, a
      century is 25 four-year blocks less a day, 400 years are four centuries
      and a day. */
  lemma BlockSeconds()
    ensures SecondsPer4Years == 4 * SecondsPerNormalYear + SecondsPerDay
    ensures SecondsPer100Years == 25 * SecondsPer4Years - SecondsPerDay
    ensures SecondsPer400Years == 4 * SecondsPer100Years + SecondsPerDay
  {
  }

  /** Consecutive entries of SECONDSTILLMONTH are a month of DAYSOFMONTH apart. */
  lemma MonthLength(il: int, m: int)
    requires il == 0 || il == 1
    requires 0 <= m < 11
    ensures SecondsTillMonth[il][m + 1] - SecondsTillMonth[il][m] == DaysOfMonth[il][m + 1] * SecondsPerDay
    ensures 28 <= DaysOfMonth[il][m + 1] <= 31
  {
  }

  /** December starts at least 334 days into the year and ends with it. */
  lemma December(il: int)
    requires il == 0 || il == 1
    ensures SecondsTillMonth[il][11] >= 334 * SecondsPerDay
    ensures SecondsTillMonth[il][11] + DaysOfMonth[il][12] * SecondsPerDay == SecondsPerYear(il)
  {
  }

  /** Every month after January starts at least 31 days into the year. */
  lemma January(il: int)
    requires il == 0 || il == 1
    ensures forall n :: 1 <= n < 12 ==> SecondsTillMonth[il][n] >= 31 * SecondsPerDay
  {
  }

  /** December of a leap year starts on its 336th day and has 31 days. */
  lemma LeapDecember()
    ensures SecondsTillMonth[1][11] == 335 * SecondsPerDay && DaysOfMonth[1][12] == 31
  {
  }
}
