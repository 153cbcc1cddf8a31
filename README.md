# cTime time arithmetic and calendar engine in Dafny

This project models the core of the cTime library. cTime is a C++ value that
holds a Unix time in an `int64_t`. It converts that time to and from calendar
records (`stCalendar`), durations (`stDuration`) and the library's text
formats. The model covers these parts:

- **The y2038 engine** (`src/LibCpp/Time/y2038Calendar.cpp`):
  - `y2038Calendar` turns a 32-bit Unix time into calendar fields. It re-bases
    the count at 2030 inside a 32-bit register. It then splits the seconds since
    2001-01-01 into 400-, 100-, 4- and 1-year blocks with `unsignedModulo`.
  - `y2038Set` is the inverse.
  - `setTimeZone` moves a calendar in place by whole hours.
  - `unsignedModulo` is the signed-by-unsigned division all of these rely on.
  - The constant tables (`DAYSOFMONTH`, `SECONDSTILLMONTH` and the block
    lengths) are modelled as well.
- **The cTime header** (`src/cTime.h`, `src/LibCpp/Time/cTime.h`):
  - the leap-year macro;
  - the calendar, duration and `struct tm` records with their field ranges;
  - the comparison and arithmetic operators, including the compound
    assignments.
- **`src/cTimeStd.cpp`**:
  - `duration()` and `set(stDuration)`;
  - the duration text `D%d#%02d:%02d:%02d` and its reader;
  - the calendar text `%04d-%02d-%02d#%02d:%02d:%02d#%s#%+03d:00` and its
    reader `fromString`;
  - the dispatch of `set(std::string)` on a leading `D`;
  - `UTCdeviation`;
  - the zone arithmetic of `calendar()`.
- **`src/LibCpp/Time/cTimeStd.cpp`**:
  - the same duration functions;
  - the `set(string, format)` dispatch;
  - `UTCdeviation(stTimeZone, dst)`;
  - `fromCalendar` and `toCalendar`, which convert between `stCalendar` and
    `struct tm` using sentinel ("invalid") values.

The model states C's semantics outright:

- Integer casts wrap (`CTypes.ToInt8` … `CTypes.ToUInt64`).
- `/` and `%` truncate toward zero (`CTypes.TruncDiv`, `CTypes.TruncMod`).
- `sprintf` is a digit formatter with a width and zero padding.
- `sscanf` is a prefix scanner. It stops at the first conversion that fails,
  and the variables after that point keep their initial values.
- Platform calls (`localtime`, `mktime`, `strptime`, the local time zone) are
  parameters.

The modules follow the source files:

| module | file | source |
|---|---|---|
| CTypes | ctypes.dfy | C integer widths, casts and truncating division |
| FloorDivision | floor_division.dfy | `unsignedModulo` |
| CTime | ctime.dfy | the cTime headers |
| Y2038Tables | y2038_tables.dfy | the constants and tables of y2038Calendar.cpp |
| Y2038Engine | y2038_engine.dfy | `y2038Calendar`, `y2038Set` |
| Y2038YearStart, Y2038Properties, Y2038Fields, Y2038RoundTrip, Y2038LastDay | y2038_*.dfy | what is proved about the engine |
| Y2038Week | y2038_week.dfy | the calendar week that `stCalendar` documents, and the week numbers of a split |
| Y2038CalendarWeek | y2038_calendar_week.dfy | the calendar week `y2038Calendar` writes, against the documented one |
| Y2038Examples | y2038_examples.dfy | the UTC dates listed in `src/main.cpp` |
| ZoneShift, ZoneShiftProperties | zone_shift*.dfy | `setTimeZone` |
| TextFormat | text_format.dfy | the `sprintf`/`sscanf` conversions used by the text formats |
| Durations | durations.dfy | `duration()`, `set(stDuration)` |
| DurationText | duration_text.dfy | `toString(stDuration)`, `fromDurationString` |
| CTimeStd | ctime_std.dfy | the rest of `src/cTimeStd.cpp` |
| LibCTimeStd | lib_ctime_std.dfy | the rest of `src/LibCpp/Time/cTimeStd.cpp` |

Stateful code is imperative Dafny:

- `unsignedModulo`, the block split, the month scan and the field filling of
  `y2038Calendar` are methods proved against specification functions.
- `setTimeZone` updates a calendar behind a pointer (`ZoneShift.CalendarCell`).
- `calendar()` is a method over its local variables.
- The compound assignments are methods of a `cTime` object
  (`CTime.TimeObject`).

## Model

| member | source | states |
|---|---|---|
| CTypes.ToInt32 | src/LibCpp/Time/y2038Calendar.cpp:196 | the `(int32_t)` cast keeps every value already in range, and wraps the others into range |
| CTypes.ToInt32Plus | src/LibCpp/Time/y2038Calendar.cpp:336-338 | wrapping to 32 bits commutes with addition: `y2038Set` may wrap before or after adding the 2030 epoch |
| CTypes.TruncDivision | src/LibCpp/Time/y2038Calendar.cpp:364-365 | C's truncating `/` and `%` still satisfy `a == q*b + r` |
| FloorDivision.UnsignedModulo | src/LibCpp/Time/y2038Calendar.cpp:354-380 | the method, step by step on the source's locals, computes the pair `UnsignedModuloResult` |
| FloorDivision.UnsignedModuloSpec | src/LibCpp/Time/y2038Calendar.cpp:342-380 | a zero modulus gives (1, 0). Otherwise the result is the floor division, except for negative exact multiples, where the quotient is one too small |
| FloorDivision.UnsignedModuloIsFloor | src/LibCpp/Time/y2038Calendar.cpp:342-380 | off negative exact multiples, the documented equation `value == divisor*modulo + remainder` holds with `0 <= remainder < modulo` |
| FloorDivision.UnsignedModuloRemainder | src/LibCpp/Time/y2038Calendar.cpp:354-380 | the remainder is the floor remainder on every input |
| FloorDivision.UnsignedModuloNegativeMultiple | src/LibCpp/Time/y2038Calendar.cpp:342-380 | -2 days divided by a day gives (-3, 0), which breaks the documented equation |
| FloorDivision.FloorDivMod | src/LibCpp/Time/y2038Calendar.cpp:342-353 | the documented division: `value == divisor*modulo + remainder` and `0 <= remainder < modulo` |
| FloorDivision.FloorDivModUnique | src/LibCpp/Time/y2038Calendar.cpp:342-353 | the documented pair is the only one with a remainder in [0, modulo) |
| CTime.LeapYearEuclidean | src/cTime.h:15 | the macro with C's `%` agrees with the Gregorian rule on every year, negative years included |
| CTime.LeapYearExamples | src/cTime.h:15 | 2000, 2004 and 2024 are leap years; 1900, 2100 and 2023 are not |
| CTime.LeapYearPeriodic | src/cTime.h:15 | the rule repeats every 400 years |
| CTime.Plus | src/cTime.h:107 | `operator+` adds the times exactly when the sum fits `int64_t` |
| CTime.Minus | src/cTime.h:108 | `operator-` subtracts exactly when the difference fits `int64_t` |
| CTime.ComparisonIsTotalOrder | src/cTime.h:101-106 | the six comparisons look only at the time, agree with each other and order cTime totally |
| CTime.PlusMinusCancel | src/cTime.h:107-108 | `(a + b) - b == a` for all a and b, wrap-around included |
| CTime.TimeObject.PlusAssign | src/cTime.h:109 | `operator+=` as written returns the sum and leaves the receiver unchanged |
| CTime.TimeObject.MinusAssign | src/cTime.h:110 | `operator-=` as written returns the difference and leaves the receiver unchanged |
| CTime.TimeObject.PlusAssignIntended | src/LibCpp/Time/cTime.h:113 | a compound assignment that stores the sum in the receiver and returns it |
| CTime.TimeObject.MinusAssignIntended | src/LibCpp/Time/cTime.h:114 | the same for the difference |
| CTime.PlusAssignLeavesReceiver | src/LibCpp/Time/cTime.h:113 | after `t += d`, for every d, t still holds its old time |
| Y2038Tables.LeapIndex | src/LibCpp/Time/y2038Calendar.cpp:254 | the table row is 1 exactly for a leap year |
| Y2038Tables.TableShape | src/LibCpp/Time/y2038Calendar.cpp:127-153 | both rows of SECONDSTILLMONTH start at 0 and strictly increase. Consecutive entries differ by the month lengths of DAYSOFMONTH. The leap row is the normal row plus a day from March on. The rows add up to the year length |
| Y2038Tables.MonthLength | src/LibCpp/Time/y2038Calendar.cpp:387-388 | consecutive SECONDSTILLMONTH entries are one DAYSOFMONTH month apart, and every month has 28 to 31 days |
| Y2038Tables.BlockLengths | src/LibCpp/Time/y2038Calendar.cpp:117-150 | the block lengths are the Gregorian 1461, 36524 and 146097 days. 2030-01-01 is 29 years and 7 leap days after 2001-01-01 |
| Y2038Tables.BlockSeconds | src/LibCpp/Time/y2038Calendar.cpp:122-124 | four years are four normal years plus a day; a century is 25 four-year blocks less a day; 400 years are four centuries plus a day |
| Y2038Engine.RebasedWindow | src/LibCpp/Time/y2038Calendar.cpp:196-202 | the re-based count lies in a 2^32-second window around 2030, and moved back to 1970 in 32 bits it is the input's 32-bit time |
| Y2038Engine.Y2038Calendar | src/LibCpp/Time/y2038Calendar.cpp:192-297 | the method computes `CalendarOf`, the engine as written |
| Y2038Engine.ShiftedSeconds | src/LibCpp/Time/y2038Calendar.cpp:196-227 | 32-bit re-basing, then the zone shift with relZone: the local zone plus one on daylight saving time, or the requested zone minus one when dst > 0 |
| Y2038Engine.SplitIntoBlocks | src/LibCpp/Time/y2038Calendar.cpp:229-245 | the four `unsignedModulo` calls give `SplitBlocks` |
| Y2038Engine.ScanMonth | src/LibCpp/Time/y2038Calendar.cpp:256-261 | the descending loop stops at the last month that starts no later than the seconds into the year |
| Y2038Engine.MonthScan | src/LibCpp/Time/y2038Calendar.cpp:256-261 | the month found starts at or before block1, and the next month starts after it |
| Y2038Engine.SplitDay | src/LibCpp/Time/y2038Calendar.cpp:263-276 | the day, hour, minute and second of the seconds into the month |
| Y2038Engine.FillCalendar | src/LibCpp/Time/y2038Calendar.cpp:247-297 | the fields of `stCalendar` filled from the blocks and from the week division |
| Y2038Properties.DayTimeDigits | src/LibCpp/Time/y2038Calendar.cpp:263-276 | day, hour, minute and second are the mixed-radix digits of the seconds into the month |
| Y2038Properties.IntendedSplit | src/LibCpp/Time/y2038Calendar.cpp:233-245 | the corrected split of every count the engine can see adds back up to the count. Its blocks are in range, and the seconds stay inside the year, with a 366th day only in a leap year |
| Y2038Properties.WallOfBlocks | src/LibCpp/Time/y2038Calendar.cpp:247-331 | the calendar filled from a well-formed split carries exactly the split's seconds as `y2038Set` reads them back |
| Y2038Properties.YearStartOfBlocks | src/LibCpp/Time/y2038Calendar.cpp:309-325 | `y2038Set` re-splits the year into the blocks it came from |
| Y2038Properties.FourHundredYears | src/LibCpp/Time/y2038Calendar.cpp:233-236 | in the engine's range the 400-year index is -1 or 0 |
| Y2038Properties.LastYearOfBlockIsLeap | src/LibCpp/Time/y2038Calendar.cpp:122-124 | the year that ends a 4-year block is a leap year unless it ends a century that does not end a 400-year block |
| Y2038YearStart.YearStartOfSplit | src/LibCpp/Time/y2038Calendar.cpp:309-325 | off the misdivided years, the start of a year is the sum of its 400/100/4/1-year blocks |
| Y2038YearStart.YearStartStep | src/LibCpp/Time/y2038Calendar.cpp:309-326 | each year starts 365 or 366 days, as the leap rule says, after the previous one |
| Y2038YearStart.YearStart1601 | src/LibCpp/Time/y2038Calendar.cpp:310-313 | year 1601 is placed two 400-year blocks before 2001 instead of one |
| Y2038Fields.CalendarFields | src/LibCpp/Time/y2038Calendar.cpp:247-297 | for every input, the month, the day within the month's length, the hour, minute, second and day in the year are in range. The day of the week counts from Monday 2001-01-01. The calendar week is from -1 to 53. dst and zone are as requested |
| Y2038Fields.WeekRange | src/LibCpp/Time/y2038Calendar.cpp:284-288 | on every count the engine can see, the week as written is from -1 to 53, so the byte casts keep it |
| Y2038Fields.MondayAnchor | src/LibCpp/Time/y2038Calendar.cpp:200-202 | 2001-01-01 00:00:00 UTC is count 0. The engine reports year 2001, January 1, 00:00:00, a Monday, day 1 of the year, week 1 |
| Y2038Week.DaysToYearStep | src/cTime.h:15 | the Gregorian day count from 2001-01-01 starts at 0 and grows by each year's length under the leap rule |
| Y2038Week.WeekOfYear | src/cTime.h:51 | the documented week is from 0 to 53, and it is 0 exactly on the days before the first Monday of the year |
| Y2038Week.WeeksStartOnMonday | src/cTime.h:51 | the week goes up by one on each Monday and on no other day, and the first Monday starts week 1 |
| Y2038Week.DaysBeforeYear | src/LibCpp/Time/y2038Calendar.cpp:247-251 | `daysBeginSince2001` of a split in range is the Gregorian day count to the first of January of its year |
| Y2038Week.WeekNumberOfSplit | src/LibCpp/Time/y2038Calendar.cpp:284-288 | as written, the weeks before the year are rounded toward zero, one more than the floor before 2001, and a negative whole number of weeks loses one week. The corrected week rounds those weeks up to the first Monday |
| Y2038Week.SplitSum | src/LibCpp/Time/y2038Calendar.cpp:233-245 | the split as written adds back up to every count the engine can see |
| Y2038CalendarWeek.CalendarWeekAsWritten | src/LibCpp/Time/y2038Calendar.cpp:284-288 | off the last days of leap blocks, the engine's week is the documented week before 2001. From 2001 on it is one more in years that do not start on a Monday. On a negative whole number of weeks it is one less |
| Y2038CalendarWeek.CalendarWeekIntended | src/cTime.h:51 | the corrected engine writes the documented week, 0 to 53, on every input, and its day of the week agrees with the weekday of the year's first of January |
| Y2038CalendarWeek.SaturdayNewYears | src/LibCpp/Time/y2038Calendar.cpp:284-288 | 2000-01-01 and 2005-01-01 are both Saturdays. As written they get weeks 0 and 1; corrected, both get week 0 |
| Y2038Examples.SplitOfSum | src/LibCpp/Time/y2038Calendar.cpp:233-245 | the split as written takes apart every sum of in-range blocks that is not a negative whole 400-year block |
| Y2038Examples.ScanStops | src/LibCpp/Time/y2038Calendar.cpp:254-260 | the month scan stops at the month whose start is at or before the seconds into the year and whose end is after them |
| Y2038Examples.Vector2033 | src/main.cpp:87 | 1996604133 is 2033-04-08 20:15:33 UTC |
| Y2038Examples.Vector2039 | src/main.cpp:88 | 2180908800 is 2039-02-10 00:00:00 UTC |
| Y2038Examples.Vector2000 | src/main.cpp:89 | 950144523 is 2000-02-10 01:02:03 UTC |
| Y2038Examples.Vector2004 | src/main.cpp:90 | 1078880523 is 2004-03-10 01:02:03 UTC |
| Y2038Examples.Vector2003 | src/main.cpp:91 | 1072915199 is 2003-12-31 23:59:59 UTC |
| Y2038Examples.Vector2001 | src/main.cpp:92 | 978307200 is 2001-01-01 00:00:00 UTC |
| Y2038Examples.SetVector2023 | src/main.cpp:95 | `y2038Set` of 2023-09-15 15:00:00 UTC is 1694790000 |
| Y2038Examples.SetVector2039 | src/main.cpp:88 | `y2038Set` of 2039-02-10 00:00:00 UTC is 2180908800 wrapped into int32_t |
| Y2038RoundTrip.RoundTripIntended | src/LibCpp/Time/y2038Calendar.cpp:192-340 | `y2038Set` inverts the corrected `y2038Calendar` on every 32-bit time, for a requested zone and for the local zone, whatever the dst flags of the caller and the platform |
| Y2038RoundTrip.DefaultCallOnSummerTime | src/LibCpp/Time/y2038Calendar.cpp:211-219 | the default call, a null zone and dst -1, while the platform is on daylight saving time stores dst -1 and the local zone, and `y2038Set` reads it back one hour late |
| Y2038RoundTrip.LocalCallFlagOnWinterTime | src/LibCpp/Time/y2038Calendar.cpp:211-219 | a null zone with dst 1 while the platform is on standard time reads back one hour early |
| Y2038RoundTrip.RoundTripStandardTime | src/LibCpp/Time/y2038Calendar.cpp:192-340 | the engine as written round-trips on standard time, off the last days of leap blocks |
| Y2038RoundTrip.RoundTripDaylightSaving | src/LibCpp/Time/y2038Calendar.cpp:221-226 | on daylight saving time the round trip as written comes back two hours early |
| Y2038RoundTrip.SplitAgrees | src/LibCpp/Time/y2038Calendar.cpp:233-245 | off the last days of leap blocks, the split as written is the corrected split |
| Y2038RoundTrip.CalendarAgrees | src/LibCpp/Time/y2038Calendar.cpp:247-297 | off those days the calendars agree except for the calendar week. Off negative whole weeks, the engine as written divides the count into weeks as the corrected one does |
| Y2038LastDay.LastDayCalendars | src/LibCpp/Time/y2038Calendar.cpp:233-245 | on the last day of a leap 4- or 400-year block the engine as written reports January 1 of the next year. The corrected one reports December 31, day 366 |
| Y2038LastDay.LastDayOf2004 | src/LibCpp/Time/y2038Calendar.cpp:233-245 | 2004-12-31 12:00 UTC is such a day |
| Y2038LastDay.LastDayOf2000 | src/LibCpp/Time/y2038Calendar.cpp:233-245 | 2000-12-31 12:00 UTC is such a day |
| ZoneShift.SetTimeZone | src/LibCpp/Time/y2038Calendar.cpp:390-457 | the in-place method leaves the calendar at `ShiftCalendar` of the old one |
| ZoneShift.ShiftWithoutDifference | src/LibCpp/Time/y2038Calendar.cpp:393-395 | without a difference in hours the calendar is unchanged |
| ZoneShift.ShiftKeepsFields | src/LibCpp/Time/y2038Calendar.cpp:390-457 | only year, month, day, hour and dst change; any shift sets dst to 0 |
| ZoneShiftProperties.ShiftForwardAsWritten | src/LibCpp/Time/y2038Calendar.cpp:396-422 | forward, the calendar as written stays valid and its wall clock moves by the difference in hours |
| ZoneShiftProperties.ShiftBackwardAsWritten | src/LibCpp/Time/y2038Calendar.cpp:423-455 | backward, the calendar never leaves its month. On the first of a month it stores day 0, which is invalid |
| ZoneShiftProperties.ShiftMovesWall | src/LibCpp/Time/y2038Calendar.cpp:390-457 | the corrected shift keeps the date valid, names the destination zone and moves the wall clock by the destination zone less the UTC offset |
| ZoneShiftProperties.ShiftKeepsInstant | src/LibCpp/Time/y2038Calendar.cpp:390-457 | the corrected shift keeps the instant `y2038Set` reads |
| ZoneShiftProperties.DayZeroAsWritten | src/LibCpp/Time/y2038Calendar.cpp:423-455 | 2024-03-01 00:30 at UTC+1 moved to UTC becomes March 0, 23:30 |
| ZoneShiftProperties.DayZeroIntended | src/LibCpp/Time/y2038Calendar.cpp:423-455 | the corrected shift gives 2024-02-29 23:30 |
| ZoneShiftProperties.DaylightSavingExample | src/LibCpp/Time/y2038Calendar.cpp:393-394 | 12:00 CEST moved to zone 2 shows 14:00 as written and 12:00 corrected |
| ZoneShiftProperties.ShiftForwardMovesInstant | src/LibCpp/Time/y2038Calendar.cpp:390-457 | as written, a forward shift keeps the old zone, so `y2038Set` reads a different instant: the old one plus the difference in hours, wrapped to 32 bits |
| ZoneShiftProperties.SetOfMovedWall | src/LibCpp/Time/y2038Calendar.cpp:309-339 | a wall clock shift seconds later in the same zone is shift seconds later for `y2038Set`, wrapped to 32 bits |
| ZoneShiftProperties.ZoneNotWrittenExample | src/LibCpp/Time/y2038Calendar.cpp:390-457 | 2024-07-01 12:00 UTC moved to zone 2 shows 14:00, still names zone 0, and reads back two hours later |
| Durations.ToDuration | src/cTimeStd.cpp:342-359 | the method computes `DurationOf`. Off INT64_MIN the entries are normalized, the sign is negative exactly for negative times, and the total is the magnitude |
| Durations.DurationDigits | src/LibCpp/Time/cTimeStd.cpp:412-429 | `duration()` splits the magnitude into days and the hours, minutes and seconds within them |
| Durations.SetAfterDuration | src/cTimeStd.cpp:212-217 | `set(t.duration()) == t` for every time, INT64_MIN included |
| Durations.DurationOfMinimum | src/LibCpp/Time/cTimeStd.cpp:281-286 | INT64_MIN survives the round trip through wrapping `uint64_t` arithmetic |
| Durations.DurationAfterSet | src/LibCpp/Time/cTimeStd.cpp:281-286 | `set(d).duration() == d` for a normalized duration below 2^63 seconds, exactly unless d is a negative zero |
| Durations.SetDurationValue | src/cTimeStd.cpp:212-217 | below 2^63 seconds `set(d)` is the signed total |
| DurationText.DurationTextRoundTrip | src/cTimeStd.cpp:476-497 | `fromDurationString(toString(d))` keeps every entry that fits an int. The sign survives only with at least one day |
| DurationText.TimeThroughDurationText | src/LibCpp/Time/cTimeStd.cpp:515-536 | for times under 2^31 days either way, a time passed through the duration text comes back exactly when it is not negative and under a day |
| DurationText.NegativeSecondLost | src/cTimeStd.cpp:542-550 | -1 s and +1 s print the same text, which reads back as +1 s |
| DurationText.SignedTextRoundTrip | src/LibCpp/Time/cTimeStd.cpp:579-587 | with the sign written before the days, every duration whose entries fit an int reads back unchanged |
| DurationText.TimeThroughSignedText | src/cTimeStd.cpp:542-550 | through the signed text every time under 2^31 days either way comes back |
| TextFormat.DigitsRoundTrip | src/cTimeStd.cpp:449 | `%d` reads back the digits `%d` prints |
| TextFormat.ScanFormatted | src/cTimeStd.cpp:449 | `%d` reads back a number printed with a width and zero padding, of either sign |
| TextFormat.ScanFormattedInts | src/cTimeStd.cpp:449 | a `sscanf` of a separated list of numbers reads back the list `sprintf` printed |
| TextFormat.FormatIntsLength | src/cTimeStd.cpp:532 | numbers that fill their widths print to exactly the widths plus the separators |
| CTimeStd.DstTokenCases | src/cTimeStd.cpp:148 | the token is "STD" exactly for dst 0, "DST" exactly for 1, and "UTC" otherwise |
| CTimeStd.ScanCalendarText | src/cTimeStd.cpp:525-535 | the six numbers of the calendar text read back, and the scan stops at the token |
| CTimeStd.TokenOfCalendarText | src/cTimeStd.cpp:450-453 | characters 20-22 of a printed calendar are its dst token |
| CTimeStd.CalendarTextStart | src/cTimeStd.cpp:440 | a calendar text never starts with 'D' |
| CTimeStd.FromStringAsWritten | src/cTimeStd.cpp:437-468 | `fromString(toString(c))` keeps the date and the clock. dst comes back as 1 for "DST" and -1 otherwise. The zone comes back as 0. The result equals c exactly when dst is ±1 and the zone is 0 |
| CTimeStd.FromStringIntendedRoundTrip | src/cTimeStd.cpp:437-468 | the corrected reader returns every field the text carries, with an out-of-range dst read as -1 |
| CTimeStd.ZoneOfCalendarTail | src/cTimeStd.cpp:525-535 | the printed zone `%+03d:00` reads back |
| CTimeStd.TextKindsDisjoint | src/cTimeStd.cpp:260-272 | a duration text is `stCalendar_Ini` as a calendar, and a calendar text is `stDuration_Ini` as a duration |
| CTimeStd.SetDurationText | src/cTimeStd.cpp:260-272 | for times under 2^31 days either way, `set(toDurationString())` restores the time exactly when it is not negative and under a day |
| CTimeStd.SetCalendarText | src/cTimeStd.cpp:260-272 | `set(text)` of a printed calendar hands `set(stCalendar)` the calendar that `fromString` reads |
| CTimeStd.UtcDeviationIsSetZone | src/cTimeStd.cpp:425-430 | UTCdeviation is the relative zone `y2038Set` subtracts, and it is the zone plus the daylight saving hour wherever that fits |
| CTimeStd.CalendarInZone | src/cTimeStd.cpp:294-335 | the method computes `CalendarFor` |
| CTimeStd.CalendarZone | src/cTimeStd.cpp:294-335 | without a request the calendar reports the local zone and dst. With a request it reports the requested zone and dst -1. asUTC reports the local zone plus the daylight saving hour, wrapped to int8_t |
| CTimeStd.AsUtcKeepsWallClock | src/cTimeStd.cpp:302-318 | asUTC does not shift the hour |
| CTimeStd.RequestedZoneShift | src/cTimeStd.cpp:302-318 | a requested zone q moves the hour by q minus the local UTC deviation, the local zone plus the daylight saving hour wrapped to int8_t |
| CTimeStd.TmToCalendarValid | src/cTimeStd.cpp:323-333 | a struct tm within its ranges gives a calendar within its ranges, with months counted from 1 and Sunday as day 7 |
| LibCTimeStd.LibUtcDeviationHours | src/LibCpp/Time/cTimeStd.cpp:486-491 | only the hours change, only on daylight saving time, and they change as in the single-byte UTCdeviation |
| LibCTimeStd.InvalidCorrespond | src/LibCpp/Time/cTimeStd.cpp:217 | stCalendar_Invalid and tm_Invalid convert into each other |
| LibCTimeStd.YearRoundTrip | src/LibCpp/Time/cTimeStd.cpp:605-606 | the year survives the 1900 offset in int, wrap-around included |
| LibCTimeStd.CalendarTmRoundTrip | src/LibCpp/Time/cTimeStd.cpp:602-676 | `toCalendar(fromCalendar(c, &z), &z)` restores every entry of a settled calendar except the calendar week, which comes back as its sentinel |
| LibCTimeStd.ToCalendarValid | src/LibCpp/Time/cTimeStd.cpp:642-676 | a struct tm within its ranges gives a calendar within its ranges, with Sunday as day 7 |
| LibCTimeStd.YearMinus128KeepsZone | src/LibCpp/Time/cTimeStd.cpp:628 | in year -128 `fromCalendar` does not write the zone |
| LibCTimeStd.DayInYearSentinelLost | src/LibCpp/Time/cTimeStd.cpp:663-664 | a calendar with a year but no day in the year comes back with day 1 |
| LibCTimeStd.CalendarTmRoundTripIntended | src/LibCpp/Time/cTimeStd.cpp:602-676 | with both tests corrected, the round trip keeps every entry, sentinels included, except the calendar week, on every calendar whose zone is set, whose week day is not 0 and whose year is not INT_INVALID + 1900 |
| LibCTimeStd.LibSetDurationText | src/LibCpp/Time/cTimeStd.cpp:330-342 | a duration text is never read as a calendar, and, for times under 2^31 days either way, it restores the time unless the time is negative and under a day |
| LibCTimeStd.LibSetCalendarText | src/LibCpp/Time/cTimeStd.cpp:499-507 | any other text goes through strptime and `toCalendar` |

## Left out

- Platform calls are parameters, not models:
  - `time`, `localtime_s`, `mktime` and `localTimeZone` in `y2038Calendar` and `calendar()`;
  - `strptime` in LibCpp `fromString`;
  - `set(stCalendar)`.
  Their results are whatever the caller passes.
- LibCpp `calendar()`, `now()`, the `set(year, …)` and `set(days, …)` convenience constructors, `getCalendar`/`setCalendar` and `toString(format, language)` are not modelled. They are formatting and platform calls around the modelled core.
- LibCpp `fromString(dateString, format)` is modelled only up to its `'D'` test. `strptime` and its zone are a parameter.
- The stream operators `<<` and `>>` are not modelled.
- `sprintf_s` buffer limits are not modelled. Every printed text is taken to fit its 32- or 64-byte buffer.
- `sscanf` of a number that does not fit an int is modelled as a wrap to 32 bits. C leaves it undefined.
- Reading past the end of a `std::string` yields NUL in the model. The source reads the terminator or beyond.
- The values of `INT8_INVALID`, `UINT8_INVALID`, `UINT16_INVALID`, `INT32_INVALID` and `INT_INVALID` are defined in a header that is not part of this model. The model takes them as the minimum of signed types and the maximum of unsigned ones. The layout of `stTimeZone` (hours, minutes) is taken from its use.
- `picoSeconds`, `leapSecond` and the padding of LibCpp `stCalendar` are not modelled. No modelled function reads them.
- The `unsignedModulo_i8` … `unsignedModulo_i` function pointers for the other widths are not modelled. The engine calls only the 64-bit one, which the model uses with unbounded integers.
- Signed overflow in `operator+` and `operator-` is undefined in C++. The model wraps it as the hardware does.
- CTimeStd.FromStringAsWritten: proved only for `Printable` calendars (a 4-digit year and 2-digit fields). Wider fields shift the token away from positions 20-22.
- CTimeStd.TokenOfCalendarText: proved only for `Printable` calendars, for the same reason.
- CTimeStd.FromStringIntendedRoundTrip: proved only for `Printable` calendars, for the same reason.
- CTimeStd.SetCalendarText: proved only for `Printable` calendars, for the same reason.
- DurationText.DurationTextRoundTrip: proved only for entries that fit an int (`FitsInt`). `toString` narrows each entry to int before printing.
- LibCTimeStd.CalendarTmRoundTrip: proved only for `Settled` calendars: no sentinel in any entry, a week day from 1 to 7, and a year other than -128 and INT_INVALID + 1900.
- LibCTimeStd.CalendarTmRoundTripIntended: not proved for a calendar whose zone hours are INT8_INVALID, which comes back with the caller's zone, nor for a week day 0, which `toCalendar` turns into 7, nor for year INT_INVALID + 1900, which `fromCalendar` turns into the INT_INVALID sentinel.
- Y2038RoundTrip.RoundTripDaylightSaving: proved for zones -127 to 126, where the zone ± 1 does not wrap in int8_t.
- CTimeStd.FromString: takes `sscanf_s` to stop at the invalid `%3*s`, as glibc's scanner does. C leaves that conversion undefined: a newer MSVC runtime calls its invalid-parameter handler instead, and a scanner that accepts `*` among the width digits would skip the token as `%*3s` does and read the zone.
- DurationText.TimeThroughDurationText: proved only for times under 2^31 days either way. `toString` narrows the days to int, so 2^31 days and 5 s prints as `D-2147483648#00:00:05` and reads back negative.
- DurationText.TimeThroughSignedText: proved only for times under 2^31 days either way, for the same reason.
- CTimeStd.SetDurationText: proved only for times under 2^31 days either way, for the same reason.
- LibCTimeStd.LibSetDurationText: proved only for times under 2^31 days either way, for the same reason.
- Y2038Engine.YearStart: computes `year - 2001` in unbounded integers. The source computes it in C int, which differs only for years within 2001 of INT32_MIN.
- ZoneShift.SetTimeZone: requires a month of at most 12. The source indexes DAYSOFMONTH by the month, and a larger month reads outside the table.
- ZoneShiftProperties.ShiftKeepsInstant: proved for shifts of at most 24 hours and for years that are not misdivided, the only shifts that stay within one day's carry.

## Findings

| source | as written | input that shows it | evidently intended | confidence | as-written member | corrected member |
|---|---|---|---|---|---|---|
| src/LibCpp/Time/y2038Calendar.cpp:221-226 | a requested zone on daylight saving time is shifted by zone - 1 | any time with `dst = 1`: `y2038Set(y2038Calendar(t, &z, 1))` is t - 2 h | zone + 1, as `y2038Set` and `UTCdeviation` use | high, not executed | Y2038RoundTrip.RoundTripDaylightSaving | Y2038RoundTrip.RoundTripIntended |
| src/LibCpp/Time/y2038Calendar.cpp:233-245 | the 100-year and 1-year quotients may reach 4 | 2004-12-31 12:00 UTC (Unix 1104494400) is reported as 2005-01-01 | the last day of a leap block stays in its year (quotient clamped to 3) | high, not executed | Y2038LastDay.LastDayCalendars | Y2038RoundTrip.RoundTripIntended |
| src/LibCpp/Time/y2038Calendar.cpp:354-380 | `div -= 1` for every negative quotient, also when the remainder is 0 | value -172800, modulo 86400 gives (-3, 0); the year 1601 is placed 800 years before 2001 | the floor division with `value == divisor*modulo + remainder` | high, not executed | FloorDivision.UnsignedModuloNegativeMultiple | FloorDivision.FloorDivMod |
| src/LibCpp/Time/y2038Calendar.cpp:393-394 | diffHours adds one hour on daylight saving time | 2024-07-01 12:00, zone 1, dst 1, moved to zone 2, shows 14:00 | subtract the daylight saving hour (UTC offset zone + 1) | medium, not executed | ZoneShiftProperties.DaylightSavingExample | ZoneShiftProperties.ShiftKeepsInstant |
| src/LibCpp/Time/y2038Calendar.cpp:423-455 | a backward shift over midnight decrements the day without leaving the month | 2024-03-01 00:30 at zone 1 moved to zone 0 gives day 0 of March | 2024-02-29 23:30 | high, not executed | ZoneShiftProperties.ShiftBackwardAsWritten | ZoneShiftProperties.ShiftMovesWall |
| src/cTimeStd.cpp:542-550 | the sign is carried only by the days | -1 s prints as `D0#00:00:01`, read back as +1 s | the sign written on its own | high, not executed | DurationText.DurationTextRoundTrip | DurationText.SignedTextRoundTrip |
| src/cTimeStd.cpp:454-459 | the "STD" branch is overwritten by the following if-else | `...#STD#+01:00` reads back with dst -1 | dst 0 for "STD" | high, not executed | CTimeStd.FromStringAsWritten | CTimeStd.FromStringIntendedRoundTrip |
| src/cTimeStd.cpp:449 | `%3*s` is not a valid conversion. The model takes the scan to end there, before the zone | `2024-07-01#12:00:00#DST#+02:00` reads back with zone 0 where the scanner stops at `%3*s`; other C runtimes call an invalid-parameter handler or skip the token | `%*3s` skips the token and the zone is read | medium, not executed | CTimeStd.FromStringAsWritten | CTimeStd.FromStringIntendedRoundTrip |
| src/LibCpp/Time/y2038Calendar.cpp:284-288 | the weeks before the year, `daysBeginSince2001 / 7`, round toward zero | 2005-01-01 (Unix 1104537600, a Saturday) gets week 1, while 2000-01-01, also a Saturday, gets week 0 | the documented week: 0 before the first Monday of the year, then 1 to 53 | high, not executed | Y2038CalendarWeek.CalendarWeekAsWritten | Y2038CalendarWeek.CalendarWeekIntended |
| src/LibCpp/Time/y2038Calendar.cpp:390-457 | setTimeZone moves the wall clock but never writes `timeZone` | 2024-07-01 12:00 UTC moved to zone 2 shows 14:00 but still names zone 0, two hours after the original instant | the calendar names the destination zone and keeps its instant | high, not executed | ZoneShiftProperties.ShiftForwardMovesInstant | ZoneShiftProperties.ShiftKeepsInstant |
| src/LibCpp/Time/y2038Calendar.cpp:211-219 | with a null zone the calendar keeps the caller's dst flag, while the shift uses the platform's `tm_isdst` | the default call `y2038Calendar(t)` while the platform is on daylight saving time: `y2038Set` of the result is t + 1 h | store the flag the engine shifted by, so that the zone field with dst is the UTC offset applied | high, not executed | Y2038RoundTrip.DefaultCallOnSummerTime | Y2038RoundTrip.RoundTripIntended |
| src/LibCpp/Time/cTimeStd.cpp:628 | the zone is written unless the year equals INT8_INVALID | year -128 leaves `*pTimeZone` untouched | the test on `calendar.timeZone.hours` | medium, not executed | LibCTimeStd.YearMinus128KeepsZone | LibCTimeStd.CalendarTmRoundTripIntended |
| src/LibCpp/Time/cTimeStd.cpp:663-664 | dayInYear is copied when tm_year is set | a calendar with a year and dayInYear UINT16_INVALID comes back with day 1 | the test on `tm_yday` | high, not executed | LibCTimeStd.DayInYearSentinelLost | LibCTimeStd.CalendarTmRoundTripIntended |
| src/cTime.h:109-110 | `operator+=` returns the sum without storing it | `t += d` leaves t unchanged, for every d | the receiver takes the sum | high, not executed | CTime.PlusAssignLeavesReceiver | CTime.TimeObject.PlusAssignIntended |
