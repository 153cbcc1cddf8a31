/** BibCpp::y2038Calendar and BibCpp::y2038Set
    (src/LibCpp/Time/y2038Calendar.cpp:192-340): the conversion between a
    32-bit Unix time and calendar fields that survives the year 2038 overflow
    by re-basing the count at 2030 and splitting it into 400-, 100-, 4- and
    1-year blocks that start on 2001-01-01, a Monday. */
module Y2038Engine {
  import opened CTypes
  import opened CTime
  import opened FloorDivision
  import opened Y2038Tables

  /** time64 before the zone shift: the input truncated to 32 bits, re-based
      at 2030 inside a 32-bit register, and then counted from 2001-01-01
      00:00:00 UTC. */
  function Rebased(unixSeconds: int): int
  {
    ToInt32(ToInt32(unixSeconds) - Time2030) + Time2030Since2001
  }

  /** The re-based count lies in a window of 2^32 seconds around 2030, and
      moved back to the 1970 epoch in 32 bits it names the input's 32-bit time. */
  lemma RebasedWindow(unixSeconds: int)
    ensures -0x8000_0000 + Time2030Since2001 <= Rebased(unixSeconds) < 0x8000_0000 + Time2030Since2001
    ensures ToInt32(Rebased(unixSeconds) - Time2030Since2001 + Time2030) == ToInt32(unixSeconds)
  {
    ToInt32Plus(ToInt32(unixSeconds) - Time2030, Time2030);
    ToInt32Plus(unixSeconds, -Time2030 + Time2030);
  }

  /** The range of the shifted count: the window above moved by at most 128
      hours either way. */
  predicate InEngineRange(t: int)
  {
    -0x8000_0000 + Time2030Since2001 - 128 * SecondsPerHour <= t < 0x8000_0000 + Time2030Since2001 + 128 * SecondsPerHour
  }

  /** relZone of y2038Calendar as written. A null zone pointer takes the local
      zone, one hour more while the local clock is on daylight saving time;
      a requested zone is taken as it is, one hour LESS when dst > 0. */
  function RelativeZone(zone: Option<int8>, dst: int8, localZone: int8, localDst: int): int8
  {
    match zone
    case None => if ToInt8(localDst) > 0 then ToInt8(localZone + 1) else localZone
    case Some(z) => if dst > 0 then ToInt8(z - 1) else z
  }

  /** relZone as the rest of the library computes the UTC offset of a
      geographic zone: one hour MORE when dst > 0 (UTCdeviation, y2038Set). */
  function RelativeZoneIntended(zone: Option<int8>, dst: int8, localZone: int8, localDst: int): int8
  {
    match zone
    case None => if ToInt8(localDst) > 0 then ToInt8(localZone + 1) else localZone
    case Some(z) => if dst > 0 then ToInt8(z + 1) else z
  }

  /** The zone the calendar reports. */
  function ZoneField(zone: Option<int8>, localZone: int8): int8
  {
    match zone
    case None => localZone
    case Some(z) => z
  }

  /** The daylight saving flag the corrected engine stores: the one it shifted
      by, which is the platform's tm_isdst for the local zone and the
      caller's flag for a requested zone. */
  function DstFieldIntended(zone: Option<int8>, dst: int8, localDst: int): int8
  {
    match zone
    case None => ToInt8(localDst)
    case Some(_) => dst
  }

  /** Block indices k, j, i, h and the seconds into the year. */
  datatype Blocks = Blocks(k: int, j: int, i: int, h: int, block1: nat)

  /** The split of lines 233-245: 400-, 100-, 4- and 1-year blocks. */
  function SplitBlocks(t: int): Blocks
  {
    var a := UnsignedModuloResult(t, SecondsPer400Years);
    var b := UnsignedModuloResult(a.remainder, SecondsPer100Years);
    var c := UnsignedModuloResult(b.remainder, SecondsPer4Years);
    var d := UnsignedModuloResult(c.remainder, SecondsPerNormalYear);
    Blocks(a.divisor, b.divisor, c.divisor, d.divisor, d.remainder)
  }

  /** The split as the Gregorian calendar needs it: the last day of a 4-year
      block belongs to its 4th year, and the last day of a 400-year block to
      its 4th century, so h and j stop at 3. */
  function SplitBlocksIntended(t: int): Blocks
  {
    var a := FloorDivMod(t, SecondsPer400Years);
    var b := LastBlockClamped(FloorDivMod(a.remainder, SecondsPer100Years), SecondsPer100Years);
    var c := FloorDivMod(b.remainder, SecondsPer4Years);
    var d := LastBlockClamped(FloorDivMod(c.remainder, SecondsPerNormalYear), SecondsPerNormalYear);
    Blocks(a.divisor, b.divisor, c.divisor, d.divisor, d.remainder)
  }

  /** A quotient of 4 is folded back into the 4th block, which then holds one
      day more. */
  function LastBlockClamped(d: DivMod, length: nat): DivMod
  {
    if d.divisor == 4 then DivMod(3, d.remainder + length) else d
  }

  /** daysBeginSince2001: days from 2001-01-01 to the first day of the year. */
  function DaysBefore(b: Blocks): int
  {
    b.k * DaysPer400Years + b.j * DaysPer100Years + b.i * DaysPer4Years + b.h * DaysPerNormalYear
  }

  /** The year: block 0 starts with 2001 = 400 * 5 + 1. */
  function YearOf(b: Blocks): int
  {
    (b.k + 5) * 400 + b.j * 100 + b.i * 4 + b.h + 1
  }

  /** The descending month scan of lines 257-259: the index of the last month
      that starts no later than block1. Entry 0 is 0, so it always stops. */
  function MonthScan(il: int, block1: nat, m: int): (r: int)
    requires il == 0 || il == 1
    requires 0 <= m < 12
    ensures 0 <= r <= m
    ensures SecondsTillMonth[il][r] <= block1
    ensures r < m ==> block1 < SecondsTillMonth[il][r + 1]
    decreases m
  {
    if block1 >= SecondsTillMonth[il][m] then m else MonthScan(il, block1, m - 1)
  }

  /** Days into the month (from 0), hour, minute and second. */
  datatype DayTime = DayTime(day0: int, hour: int, minute: int, second: int)

  /** The split of the seconds into the month of lines 263-276. */
  function DayTimeOf(blockM: int): DayTime
  {
    var d := UnsignedModuloResult(blockM, SecondsPerDay);
    var hr := UnsignedModuloResult(d.remainder, SecondsPerHour);
    var mi := UnsignedModuloResult(hr.remainder, SecondsPerMinute);
    DayTime(d.divisor, hr.divisor, mi.divisor, mi.remainder)
  }

  /** The row of SECONDSTILLMONTH for the year of a split. */
  function LeapIndexOf(b: Blocks): int
  {
    LeapIndex(ToInt32(YearOf(b)))
  }

  /** The month of a split, 0 for January. */
  function MonthIndex(b: Blocks): int
  {
    MonthScan(LeapIndexOf(b), b.block1, 11)
  }

  /** The seconds of a split into its month (blockM). */
  function SecondsIntoMonth(b: Blocks): int
  {
    b.block1 - SecondsTillMonth[LeapIndexOf(b)][MonthIndex(b)]
  }

  /** Whole days of a split into its year. */
  function DaysIntoYear(b: Blocks): int
  {
    UnsignedModuloResult(b.block1, SecondsPerDay).divisor
  }

  /** The calendar week before the 8-bit conversions: whole weeks since
      2001-01-01 less the weeks before the first day of the year, plus one. */
  function WeekNumber(b: Blocks, w: DivMod): int
  {
    w.divisor - TruncDiv(DaysBefore(b), 7) + 1
  }

  /** The week as src/cTime.h:51 documents it: the days before the first
      Monday of the year belong to week 0, so the weeks before the year are
      counted up to the first Monday on or after its first of January. */
  function WeekNumberIntended(b: Blocks, w: DivMod): int
  {
    w.divisor - FloorDivMod(DaysBefore(b) + 6, 7).divisor + 1
  }

  /** Whole days into the week, from Monday. */
  function DaysIntoWeek(w: DivMod): int
  {
    UnsignedModuloResult(w.remainder, SecondsPerDay).divisor
  }

  /** The calendar the engine fills from a split b of the shifted count and
      its division w into weeks (lines 247-295). */
  function CalendarFromBlocks(b: Blocks, w: DivMod, dst: int8, zoneField: int8): Calendar
  {
    var dt := DayTimeOf(SecondsIntoMonth(b));
    Calendar(ToInt32(YearOf(b)), ToUInt8(MonthIndex(b) + 1), ToUInt8(dt.day0 + 1), ToUInt8(dt.hour),
             ToUInt8(dt.minute), ToUInt8(dt.second), dst, zoneField, ToUInt8(DaysIntoWeek(w) + 1),
             ToInt8(ToUInt8(WeekNumber(b, w))), ToInt16(DaysIntoYear(b) + 1))
  }

  /** y2038Calendar(unixSeconds, zone, dst) as written, with the local zone and
      the local daylight-saving flag of the platform as parameters. */
  function CalendarOf(unixSeconds: int, zone: Option<int8>, dst: int8, localZone: int8, localDst: int): Calendar
  {
    CalendarFromShifted(ShiftedTime(unixSeconds, zone, dst, localZone, localDst), dst, ZoneField(zone, localZone))
  }

  /** time64 after the zone shift. */
  function ShiftedTime(unixSeconds: int, zone: Option<int8>, dst: int8, localZone: int8, localDst: int): int
  {
    Rebased(unixSeconds) + RelativeZone(zone, dst, localZone, localDst) * SecondsPerHour
  }

  /** The calendar of a shifted count t: its split into blocks and into weeks. */
  function CalendarFromShifted(t: int, dst: int8, zoneField: int8): Calendar
  {
    CalendarFromBlocks(SplitBlocks(t), UnsignedModuloResult(t, SecondsPerWeek), dst, zoneField)
  }

  /** y2038Calendar with the five defects corrected: the dst sign of the
      requested zone, the dst flag stored for the local zone, the last day of
      4- and 400-year blocks, the floor division of negative exact multiples
      of a week, and the calendar week counted from the first Monday of the
      year. */
  function CalendarOfIntended(unixSeconds: int, zone: Option<int8>, dst: int8, localZone: int8, localDst: int): Calendar
  {
    CalendarFromShiftedIntended(ShiftedTimeIntended(unixSeconds, zone, dst, localZone, localDst),
                                DstFieldIntended(zone, dst, localDst), ZoneField(zone, localZone))
  }

  /** time64 after the zone shift with the corrected dst sign. */
  function ShiftedTimeIntended(unixSeconds: int, zone: Option<int8>, dst: int8, localZone: int8, localDst: int): int
  {
    Rebased(unixSeconds) + RelativeZoneIntended(zone, dst, localZone, localDst) * SecondsPerHour
  }

  /** The calendar of a shifted count t, split as the Gregorian calendar needs. */
  function CalendarFromShiftedIntended(t: int, dst: int8, zoneField: int8): Calendar
  {
    var b := SplitBlocksIntended(t);
    var w := FloorDivMod(t, SecondsPerWeek);
    CalendarFromBlocks(b, w, dst, zoneField).(calendarWeek := ToInt8(WeekNumberIntended(b, w)))
  }

  /** y2038Calendar step by step, filling the calendar field by field. */
  method Y2038Calendar(unixSeconds: int, zone: Option<int8>, dst: int8, localZone: int8, localDst: int)
    returns (calendar: Calendar)
    ensures calendar == CalendarOf(unixSeconds, zone, dst, localZone, localDst)
  {
    var time64 := ShiftedSeconds(unixSeconds, zone, dst, localZone, localDst);
    var b := SplitIntoBlocks(time64);
    var dWeeks2001, blockW := UnsignedModulo(time64, SecondsPerWeek);
    calendar := FillCalendar(b, DivMod(dWeeks2001, blockW), dst, ZoneField(zone, localZone));
  }

  /** Lines 247-295: the calendar fields from the blocks and the weeks. */
  method FillCalendar(b: Blocks, w: DivMod, dst: int8, zoneField: int8) returns (calendar: Calendar)
    ensures calendar == CalendarFromBlocks(b, w, dst, zoneField)
  {
    var daysBegin := b.k * DaysPer400Years + b.j * DaysPer100Years + b.i * DaysPer4Years + b.h * DaysPerNormalYear;
    var year, m, dt := LocateInYear(b);
    var dayInYear, block := UnsignedModulo(b.block1, SecondsPerDay);
    var yWeeks2001 := TruncDiv(daysBegin, 7);
    var dw, blockX := UnsignedModulo(w.remainder, SecondsPerDay);
    calendar := Calendar(year, ToUInt8(m + 1), ToUInt8(dt.day0 + 1), ToUInt8(dt.hour), ToUInt8(dt.minute),
                         ToUInt8(dt.second), dst, zoneField, ToUInt8(dw + 1),
                         ToInt8(ToUInt8(w.divisor - yWeeks2001 + 1)), ToInt16(dayInYear + 1));
    assert yWeeks2001 == TruncDiv(DaysBefore(b), 7);
    FilledCalendar(b, w, dst, zoneField, m, dt, dayInYear, dw);
  }

  /** Lines 252-276: the year, the month scan and the split of the month. */
  method LocateInYear(b: Blocks) returns (year: int32, m: int, dt: DayTime)
    ensures year == ToInt32(YearOf(b)) && m == MonthIndex(b) && dt == DayTimeOf(SecondsIntoMonth(b))
  {
    year := ToInt32((b.k + 5) * 400 + b.j * 100 + b.i * 4 + (b.h + 1));
    var il := LeapIndex(year);
    m := ScanMonth(il, b.block1);
    dt := SplitDay(b.block1 - SecondsTillMonth[il][m]);
  }

  /** The fields FillCalendar computes one by one make up CalendarFromBlocks. */
  lemma FilledCalendar(b: Blocks, w: DivMod, dst: int8, zoneField: int8, m: int, dt: DayTime, dayInYear: int, dw: int)
    requires m == MonthIndex(b) && dt == DayTimeOf(SecondsIntoMonth(b))
    requires dayInYear == DaysIntoYear(b) && dw == DaysIntoWeek(w)
    ensures CalendarFromBlocks(b, w, dst, zoneField)
         == Calendar(ToInt32(YearOf(b)), ToUInt8(m + 1), ToUInt8(dt.day0 + 1), ToUInt8(dt.hour), ToUInt8(dt.minute),
                     ToUInt8(dt.second), dst, zoneField, ToUInt8(dw + 1),
                     ToInt8(ToUInt8(w.divisor - TruncDiv(DaysBefore(b), 7) + 1)), ToInt16(dayInYear + 1))
  {
  }

  /** Lines 196-231: the 32-bit re-basing and the shift into the requested zone. */
  method ShiftedSeconds(unixSeconds: int, zone: Option<int8>, dst: int8, localZone: int8, localDst: int)
    returns (time64: int)
    ensures time64 == ShiftedTime(unixSeconds, zone, dst, localZone, localDst)
  {
    var time32 := ToInt32(unixSeconds);
    time32 := ToInt32(time32 - Time2030);
    time64 := time32 + Time2030Since2001;
    var relZone: int8 := 0;
    if zone.None? {
      var isDst := ToInt8(localDst);
      if isDst > 0 {
        relZone := ToInt8(localZone + 1);
      } else {
        relZone := localZone;
      }
    } else {
      relZone := zone.value;
      if dst > 0 {
        relZone := ToInt8(relZone - 1);
      }
    }
    time64 := time64 + relZone * SecondsPerHour;
  }

  /** Lines 233-245: the four unsignedModulo calls. */
  method SplitIntoBlocks(time64: int) returns (b: Blocks)
    ensures b == SplitBlocks(time64)
  {
    var k, block400 := UnsignedModulo(time64, SecondsPer400Years);
    var j, block100 := UnsignedModulo(block400, SecondsPer100Years);
    var i, block4 := UnsignedModulo(block100, SecondsPer4Years);
    var h, block1 := UnsignedModulo(block4, SecondsPerNormalYear);
    b := Blocks(k, j, i, h, block1);
  }

  /** Lines 257-261: the descending scan for the month. */
  method ScanMonth(il: int, block1: nat) returns (m: int)
    requires il == 0 || il == 1
    ensures m == MonthScan(il, block1, 11)
  {
    TableShape(il, 0);
    m := 11;
    while m >= 0
      invariant -1 <= m <= 11
      invariant forall n :: m < n <= 11 ==> block1 < SecondsTillMonth[il][n]
      decreases m
    {
      if block1 >= SecondsTillMonth[il][m] {
        break;
      }
      m := m - 1;
    }
    MonthScanUnique(il, block1, 11, m);
  }

  /** Lines 263-276: day, hour, minute and second of the seconds into the month. */
  method SplitDay(blockM: int) returns (dt: DayTime)
    ensures dt == DayTimeOf(blockM)
  {
    var d, blockD := UnsignedModulo(blockM, SecondsPerDay);
    var hour, blockHr := UnsignedModulo(blockD, SecondsPerHour);
    var minute, second := UnsignedModulo(blockHr, SecondsPerMinute);
    dt := DayTime(d, hour, minute, second);
  }

  /** The index where the scan stops is determined by the stop condition. */
  lemma MonthScanUnique(il: int, block1: nat, m: int, r: int)
    requires il == 0 || il == 1
    requires 0 <= r <= m < 12
    requires SecondsTillMonth[il][r] <= block1
    requires forall n :: r < n <= m ==> block1 < SecondsTillMonth[il][n]
    ensures MonthScan(il, block1, m) == r
    decreases m
  {
    if m > r {
      MonthScanUnique(il, block1, m - 1, r);
    }
  }

  /** relZone of y2038Set (lines 332-334): the geographic zone, one hour more
      on daylight saving time. */
  function SetZone(c: Calendar): int8
  {
    if c.dst > 0 then ToInt8(c.timeZone + 1) else c.timeZone
  }

  /** Seconds from 2001-01-01 to the first day of a year, through the split of
      year - 2001 into 400-, 100-, 4- and 1-year blocks (lines 309-325). */
  function YearStart(year: int): int
  {
    var a := UnsignedModuloResult(year - 2001, 400);
    var b := UnsignedModuloResult(a.remainder, 100);
    var c := UnsignedModuloResult(b.remainder, 4);
    a.divisor * SecondsPer400Years + b.divisor * SecondsPer100Years + c.divisor * SecondsPer4Years
      + c.remainder * SecondsPerNormalYear
  }

  /** time64 of y2038Set before the zone and the epoch are taken off: the
      calendar's wall-clock seconds since 2001-01-01 (lines 326-331). A month
      outside 1..12 would index SECONDSTILLMONTH out of bounds. */
  function WallSeconds(c: Calendar): int
    requires 1 <= c.month <= 12
  {
    YearStart(c.year) + SecondsTillMonth[LeapIndex(c.year)][c.month - 1] + (c.day - 1) * SecondsPerDay
      + c.hour * SecondsPerHour + c.minute * SecondsPerMinute + c.second
  }

  /** y2038Set: the wall-clock seconds moved to UTC, re-based at 2030 in a
      32-bit register and moved back to the 1970 epoch (lines 335-339). */
  function Y2038Set(c: Calendar): (r: int32)
    requires 1 <= c.month <= 12
  {
    ToInt32(ToInt32(WallSeconds(c) - SetZone(c) * SecondsPerHour - Time2030Since2001) + Time2030)
  }
}
