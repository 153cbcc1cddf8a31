/** The round trip y2038Set(y2038Calendar(t)) of src/LibCpp/Time/y2038Calendar.cpp,
    for the corrected engine and for the engine as written. */
module Y2038RoundTrip {
  import opened CTypes
  import opened CTime
  import opened FloorDivision
  import opened Y2038Tables
  import opened Y2038Engine
  import opened Y2038Properties

  /** The corrected engine and y2038Set are inverse on every 32-bit time,
      for a requested zone and for the local zone alike, whatever the dst
      flags of the caller and of the platform. */
  lemma RoundTripIntended(unixSeconds: int, zone: Option<int8>, dst: int8, localZone: int8, localDst: int)
    ensures var c := CalendarOfIntended(unixSeconds, zone, dst, localZone, localDst);
            1 <= c.month <= 12 && Y2038Set(c) == ToInt32(unixSeconds)
  {
    var c := CalendarOfIntended(unixSeconds, zone, dst, localZone, localDst);
    var zone1 := RelativeZoneIntended(zone, dst, localZone, localDst);
    WallIntended(unixSeconds, zone, dst, localZone, localDst);
    IntendedZones(zone, dst, localZone, localDst, c);
    SetOfWall(unixSeconds, zone1, zone1, unixSeconds, c);
  }

  /** The corrected engine reads the shifted count it made as the calendar's
      wall-clock seconds, and stores the flag and the zone it shifted by. */
  lemma WallIntended(unixSeconds: int, zone: Option<int8>, dst: int8, localZone: int8, localDst: int)
    ensures var c := CalendarOfIntended(unixSeconds, zone, dst, localZone, localDst);
            && 1 <= c.month <= 12
            && c.dst == DstFieldIntended(zone, dst, localDst) && c.timeZone == ZoneField(zone, localZone)
            && WallSeconds(c) == Rebased(unixSeconds) + RelativeZoneIntended(zone, dst, localZone, localDst) * SecondsPerHour
  {
    var t := ShiftedTimeIntended(unixSeconds, zone, dst, localZone, localDst);
    RebasedWindow(unixSeconds);
    assert InEngineRange(t);
    IntendedSplit(t);
    WallOfBlocks(SplitBlocksIntended(t), FloorDivMod(t, SecondsPerWeek), DstFieldIntended(zone, dst, localDst), ZoneField(zone, localZone));
  }

  /** The zone y2038Set takes off a calendar holding the corrected engine's
      flag and zone is the zone the engine shifted by. */
  lemma IntendedZones(zone: Option<int8>, dst: int8, localZone: int8, localDst: int, c: Calendar)
    requires c.dst == DstFieldIntended(zone, dst, localDst) && c.timeZone == ZoneField(zone, localZone)
    ensures SetZone(c) == RelativeZoneIntended(zone, dst, localZone, localDst)
  {
  }

  /** y2038Set of a calendar whose wall-clock seconds are the re-based count
      moved into a zone: the input comes back, moved by the difference between
      that zone and the zone y2038Set takes off. */
  lemma SetOfWall(unixSeconds: int, zone1: int, back: int, moved: int, c: Calendar)
    requires 1 <= c.month <= 12 && SetZone(c) == back
    requires WallSeconds(c) == Rebased(unixSeconds) + zone1 * SecondsPerHour
    requires moved == unixSeconds + (zone1 - back) * SecondsPerHour
    ensures Y2038Set(c) == ToInt32(moved)
  {
    var shift := (zone1 - back) * SecondsPerHour;
    var x := Rebased(unixSeconds) - Time2030Since2001;
    assert WallSeconds(c) - SetZone(c) * SecondsPerHour - Time2030Since2001 == x + shift;
    ToInt32Plus(x + shift, Time2030);
    RebasedWindow(unixSeconds);
    ToInt32Plus(x + Time2030, shift);
    ToInt32Plus(unixSeconds, shift);
  }

  /** The counts on which the split as written departs from the corrected one:
      the 366th day of a leap year closing a 4-year block, and the last day
      of a 400-year block, where the quotient reaches 4. */
  predicate LastDayOfLeapBlock(t: int)
  {
    var a := FloorDivMod(t, SecondsPer400Years);
    var b := FloorDivMod(a.remainder, SecondsPer100Years);
    var c := FloorDivMod(b.remainder, SecondsPer4Years);
    var d := FloorDivMod(c.remainder, SecondsPerNormalYear);
    b.divisor == 4 || d.divisor == 4
  }

  /** Off those days the split as written is the corrected split. */
  lemma SplitAgrees(t: int)
    requires InEngineRange(t) && !LastDayOfLeapBlock(t)
    ensures SplitBlocks(t) == SplitBlocksIntended(t)
  {
    FourHundredYears(t);
    var a := FloorDivMod(t, SecondsPer400Years);
    if t < 0 {
      FloorDivModUnique(t, SecondsPer400Years, -1, a.remainder);
    }
    assert !NegativeMultiple(t, SecondsPer400Years);
    UnsignedModuloIsFloor(t, SecondsPer400Years);
    var b := FloorDivMod(a.remainder, SecondsPer100Years);
    UnsignedModuloIsFloor(a.remainder, SecondsPer100Years);
    var c := FloorDivMod(b.remainder, SecondsPer4Years);
    UnsignedModuloIsFloor(b.remainder, SecondsPer4Years);
    UnsignedModuloIsFloor(c.remainder, SecondsPerNormalYear);
  }

  /** Off those days the engine as written fills the corrected calendar from
      the same shifted count except for the calendar week; off the negative
      whole weeks it also divides into weeks as the corrected engine does. */
  lemma CalendarAgrees(t: int, dst: int8, zoneField: int8)
    requires InEngineRange(t) && !LastDayOfLeapBlock(t)
    ensures CalendarFromShifted(t, dst, zoneField).(calendarWeek := 0)
         == CalendarFromShiftedIntended(t, dst, zoneField).(calendarWeek := 0)
    ensures !NegativeMultiple(t, SecondsPerWeek) ==>
              CalendarFromShifted(t, dst, zoneField)
              == CalendarFromBlocks(SplitBlocksIntended(t), FloorDivMod(t, SecondsPerWeek), dst, zoneField)
  {
    SplitAgrees(t);
    UnsignedModuloRemainder(t, SecondsPerWeek);
    if !NegativeMultiple(t, SecondsPerWeek) {
      UnsignedModuloIsFloor(t, SecondsPerWeek);
    }
  }

  /** y2038Set of the engine as written, off the last days of leap blocks,
      gives the input back for a requested zone on standard time. */
  lemma RoundTripStandardTime(unixSeconds: int, zone: int8, dst: int8, localZone: int8, localDst: int)
    requires dst <= 0
    requires !LastDayOfLeapBlock(ShiftedTime(unixSeconds, Some(zone), dst, localZone, localDst))
    ensures var c := CalendarOf(unixSeconds, Some(zone), dst, localZone, localDst);
            1 <= c.month <= 12 && Y2038Set(c) == ToInt32(unixSeconds)
  {
    WallAsWritten(unixSeconds, Some(zone), dst, localZone, localDst);
    SetOfWall(unixSeconds, zone, zone, unixSeconds, CalendarOf(unixSeconds, Some(zone), dst, localZone, localDst));
  }

  /** Off the last days of leap blocks, the engine as written reads the
      shifted count it made as the calendar's wall-clock seconds. */
  lemma WallAsWritten(unixSeconds: int, zone: Option<int8>, dst: int8, localZone: int8, localDst: int)
    requires !LastDayOfLeapBlock(ShiftedTime(unixSeconds, zone, dst, localZone, localDst))
    ensures var c := CalendarOf(unixSeconds, zone, dst, localZone, localDst);
            && 1 <= c.month <= 12 && c.dst == dst && c.timeZone == ZoneField(zone, localZone)
            && WallSeconds(c) == Rebased(unixSeconds) + RelativeZone(zone, dst, localZone, localDst) * SecondsPerHour
  {
    var t := ShiftedTime(unixSeconds, zone, dst, localZone, localDst);
    RebasedWindow(unixSeconds);
    assert InEngineRange(t);
    SplitAgrees(t);
    IntendedSplit(t);
    WallOfBlocks(SplitBlocks(t), UnsignedModuloResult(t, SecondsPerWeek), dst, ZoneField(zone, localZone));
  }

  /** The default call y2038Calendar(t), a null zone and dst -1, while the
      platform clock is on daylight saving time: the engine shifts by the
      local zone plus one hour but stores the caller's dst flag, so y2038Set
      takes off the local zone alone and comes back one hour late. */
  lemma DefaultCallOnSummerTime(unixSeconds: int, localZone: int8, localDst: int)
    requires ToInt8(localDst) > 0 && localZone < 0x7F
    requires !LastDayOfLeapBlock(ShiftedTime(unixSeconds, None, -1, localZone, localDst))
    ensures var c := CalendarOf(unixSeconds, None, -1, localZone, localDst);
            && 1 <= c.month <= 12 && c.dst == -1 && c.timeZone == localZone
            && Y2038Set(c) == ToInt32(unixSeconds + SecondsPerHour)
  {
    var c := CalendarOf(unixSeconds, None, -1, localZone, localDst);
    WallAsWritten(unixSeconds, None, -1, localZone, localDst);
    LocalReadBack(unixSeconds, -1, localZone, localDst, c);
  }

  /** The other mismatch: a null zone with dst 1 while the platform is on
      standard time comes back one hour early. */
  lemma LocalCallFlagOnWinterTime(unixSeconds: int, localZone: int8, localDst: int)
    requires ToInt8(localDst) <= 0 && localZone < 0x7F
    requires !LastDayOfLeapBlock(ShiftedTime(unixSeconds, None, 1, localZone, localDst))
    ensures var c := CalendarOf(unixSeconds, None, 1, localZone, localDst);
            && 1 <= c.month <= 12 && c.dst == 1 && c.timeZone == localZone
            && Y2038Set(c) == ToInt32(unixSeconds - SecondsPerHour)
  {
    var c := CalendarOf(unixSeconds, None, 1, localZone, localDst);
    WallAsWritten(unixSeconds, None, 1, localZone, localDst);
    LocalReadBack(unixSeconds, 1, localZone, localDst, c);
  }

  /** y2038Set of a calendar the engine as written filled for the local
      zone: the input moved by the platform's daylight saving hour less the
      stored flag's. */
  lemma LocalReadBack(unixSeconds: int, dst: int8, localZone: int8, localDst: int, c: Calendar)
    requires localZone < 0x7F
    requires 1 <= c.month <= 12 && c.dst == dst && c.timeZone == localZone
    requires WallSeconds(c) == Rebased(unixSeconds) + RelativeZone(None, dst, localZone, localDst) * SecondsPerHour
    ensures Y2038Set(c)
            == ToInt32(unixSeconds + ((if ToInt8(localDst) > 0 then 1 else 0) - (if dst > 0 then 1 else 0)) * SecondsPerHour)
  {
    var platform := if ToInt8(localDst) > 0 then 1 else 0;
    var stored := if dst > 0 then 1 else 0;
    LocalZones(unixSeconds, dst, localZone, localDst, c);
    SetOfWall(unixSeconds, localZone + platform, localZone + stored, unixSeconds + (platform - stored) * SecondsPerHour, c);
  }

  /** For the local zone the engine takes off the zone plus the platform's
      daylight saving hour, and y2038Set the zone plus the stored flag's. */
  lemma LocalZones(unixSeconds: int, dst: int8, localZone: int8, localDst: int, c: Calendar)
    requires localZone < 0x7F
    requires 1 <= c.month <= 12 && c.dst == dst && c.timeZone == localZone
    requires WallSeconds(c) == Rebased(unixSeconds) + RelativeZone(None, dst, localZone, localDst) * SecondsPerHour
    ensures WallSeconds(c) == Rebased(unixSeconds) + (localZone + (if ToInt8(localDst) > 0 then 1 else 0)) * SecondsPerHour
    ensures SetZone(c) == localZone + (if dst > 0 then 1 else 0)
  {
  }

  /** On daylight saving time the engine as written takes off one hour less
      than the zone, y2038Set adds back one hour more, and the round trip
      comes back two hours early, for every zone whose neighbours fit in
      int8_t. */
  lemma RoundTripDaylightSaving(unixSeconds: int, zone: int8, dst: int8, localZone: int8, localDst: int)
    requires dst > 0 && -0x7F <= zone <= 0x7E
    requires !LastDayOfLeapBlock(ShiftedTime(unixSeconds, Some(zone), dst, localZone, localDst))
    ensures var c := CalendarOf(unixSeconds, Some(zone), dst, localZone, localDst);
            1 <= c.month <= 12 && Y2038Set(c) == ToInt32(unixSeconds - 2 * SecondsPerHour)
  {
    var c := CalendarOf(unixSeconds, Some(zone), dst, localZone, localDst);
    WallAsWritten(unixSeconds, Some(zone), dst, localZone, localDst);
    DaylightSavingZones(unixSeconds, zone, dst, localZone, localDst, c);
    TwoHoursApart(unixSeconds, zone);
    SetOfWall(unixSeconds, zone - 1, zone + 1, unixSeconds - 2 * SecondsPerHour, c);
  }

  /** On daylight saving time the engine takes off the zone minus one and
      y2038Set the zone plus one. */
  lemma DaylightSavingZones(unixSeconds: int, zone: int8, dst: int8, localZone: int8, localDst: int, c: Calendar)
    requires dst > 0 && -0x7F <= zone <= 0x7E
    requires 1 <= c.month <= 12 && c.dst == dst && c.timeZone == zone
    requires WallSeconds(c) == Rebased(unixSeconds) + RelativeZone(Some(zone), dst, localZone, localDst) * SecondsPerHour
    ensures WallSeconds(c) == Rebased(unixSeconds) + (zone - 1) * SecondsPerHour
    ensures SetZone(c) == zone + 1
  {
  }

  lemma TwoHoursApart(unixSeconds: int, zone: int)
    ensures unixSeconds + ((zone - 1) - (zone + 1)) * SecondsPerHour == unixSeconds - 2 * SecondsPerHour
  {
  }
}
