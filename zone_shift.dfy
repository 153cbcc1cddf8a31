/** setTimeZone (src/LibCpp/Time/y2038Calendar.cpp:390-457): moves a calendar
    in place by whole hours towards a destination zone, carrying into the
    day, the month and the year. */
module ZoneShift {
  import opened CTypes
  import opened CTime
  import opened FloorDivision
  import opened Y2038Tables
  import opened Y2038Engine

  /** diffHours as written: the destination less the calendar's zone, one
      hour MORE while the calendar is on daylight saving time. */
  function DiffHours(c: Calendar, destZone: uint8): int8
  {
    var d := ToInt8(destZone - c.timeZone);
    if c.dst > 0 then ToInt8(d + 1) else d
  }

  /** setTimeZone as written. The carries index DAYSOFMONTH by the month, so
      the month must be a table index. */
  function ShiftCalendar(c: Calendar, destZone: uint8): Calendar
    requires c.month <= 12
  {
    var il := LeapIndex(c.year);
    var diff := DiffHours(c, destZone);
    if diff > 0 then
      var hour := ToInt8(c.hour + diff);
      if hour > 23 then
        var day := ToInt8(c.day + 1);
        if day > DaysOfMonth[il][c.month] then
          if c.month + 1 > 12 then
            c.(hour := ToUInt8(hour - 24), day := 1, month := 1, year := ToInt32(c.year + 1), dst := 0)
          else
            c.(hour := ToUInt8(hour - 24), day := 1, month := c.month + 1, dst := 0)
        else
          c.(hour := ToUInt8(hour - 24), day := ToUInt8(day), dst := 0)
      else
        c.(hour := ToUInt8(hour), dst := 0)
    else if diff < 0 then
      var hour := ToInt8(c.hour + diff);
      if hour < 0 then
        var day := ToInt8(c.day - 1);
        if day < 0 then
          if c.month - 1 < 1 then
            c.(hour := ToUInt8(hour + 24), day := ToUInt8(DaysOfMonth[il][12]), month := 12,
               year := ToInt32(c.year - 1), dst := 0)
          else
            c.(hour := ToUInt8(hour + 24), day := ToUInt8(DaysOfMonth[il][c.month - 1]), month := c.month - 1, dst := 0)
        else
          c.(hour := ToUInt8(hour + 24), day := ToUInt8(day), dst := 0)
      else
        c.(hour := ToUInt8(hour), dst := 0)
    else
      c
  }

  /** A calendar held by reference, as setTimeZone receives it. */
  class CalendarCell {
    var calendar: Calendar

    constructor (c: Calendar)
      ensures calendar == c
    {
      calendar := c;
    }
  }

  /** setTimeZone step by step on the calendar behind the pointer. */
  method SetTimeZone(p: CalendarCell, destZone: uint8)
    requires p.calendar.month <= 12
    modifies p
    ensures p.calendar == ShiftCalendar(old(p.calendar), destZone)
  {
    var il := LeapIndex(p.calendar.year);
    var diffHours: int := ToInt8(destZone - p.calendar.timeZone);
    if p.calendar.dst > 0 {
      diffHours := ToInt8(diffHours + 1);
    }
    if diffHours > 0 {
      var hour: int := ToInt8(p.calendar.hour + diffHours);
      if hour > 23 {
        p.calendar := p.calendar.(hour := ToUInt8(hour - 24));
        var day: int := ToInt8(p.calendar.day + 1);
        var month: int := p.calendar.month;
        if day > DaysOfMonth[il][month] {
          day := 1;
          month := month + 1;
          if month > 12 {
            p.calendar := p.calendar.(day := day, month := 1, year := ToInt32(p.calendar.year + 1));
          } else {
            p.calendar := p.calendar.(day := day, month := month);
          }
        } else {
          p.calendar := p.calendar.(day := ToUInt8(day));
        }
      } else {
        p.calendar := p.calendar.(hour := ToUInt8(hour));
      }
      p.calendar := p.calendar.(dst := 0);
    } else if diffHours < 0 {
      var hour: int := ToInt8(p.calendar.hour + diffHours);
      if hour < 0 {
        p.calendar := p.calendar.(hour := ToUInt8(hour + 24));
        var day: int := ToInt8(p.calendar.day - 1);
        var month: int := p.calendar.month - 1;
        if day < 0 {
          if month < 1 {
            month := 12;
            p.calendar := p.calendar.(day := ToUInt8(DaysOfMonth[il][month]), month := month,
                                      year := ToInt32(p.calendar.year - 1));
          } else {
            p.calendar := p.calendar.(day := ToUInt8(DaysOfMonth[il][month]), month := month);
          }
        } else {
          p.calendar := p.calendar.(day := ToUInt8(day));
        }
      } else {
        p.calendar := p.calendar.(hour := ToUInt8(hour));
      }
      p.calendar := p.calendar.(dst := 0);
    }
  }

  /** Without a difference in hours nothing changes, daylight saving flag
      included. */
  lemma ShiftWithoutDifference(c: Calendar, destZone: uint8)
    requires c.month <= 12 && DiffHours(c, destZone) == 0
    ensures ShiftCalendar(c, destZone) == c
  {
  }

  /** Only year, month, day, hour and dst are ever written; minute, second
      and the zone are kept, and any shift leaves standard time (dst 0). */
  lemma ShiftKeepsFields(c: Calendar, destZone: uint8)
    requires c.month <= 12
    ensures var r := ShiftCalendar(c, destZone);
            && r.minute == c.minute && r.second == c.second && r.timeZone == c.timeZone
            && r.dayInWeek == c.dayInWeek && r.calendarWeek == c.calendarWeek && r.dayInYear == c.dayInYear
            && (DiffHours(c, destZone) != 0 ==> r.dst == 0)
  {
  }
}
