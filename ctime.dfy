/** The value types of the cTime header that goes with src/cTimeStd.cpp and the
    y2038 engine (src/cTime.h): the Gregorian leap-year rule, the calendar and
    duration records, struct tm, and the cTime value with its inline
    comparison and arithmetic operators. */
module CTime {
  import opened CTypes
  import FloorDivision

  /** LibCpp_isLeapYear, with C's truncating `%`. */
  predicate IsLeapYear(y: int)
  {
    (TruncMod(y, 4) == 0 && TruncMod(y, 100) != 0) || TruncMod(y, 400) == 0
  }

  /** A C remainder is zero exactly when the Euclidean one is, so the leap
      rule reads the same for negative years under either convention. */
  lemma {:induction false} LeapYearEuclidean(y: int)
    ensures IsLeapYear(y) <==> ((y % 4 == 0 && y % 100 != 0) || y % 400 == 0)
  {
    TruncModZero(y, 4);
    TruncModZero(y, 100);
    TruncModZero(y, 400);
  }

  lemma TruncModZero(a: int, b: nat)
    requires b > 0
    ensures TruncMod(a, b) == 0 <==> a % b == 0
  {
    if a < 0 {
      assert TruncMod(a, b) == -((-a) % b);
      NegatedModZero(a, b);
    }
  }

  lemma NegatedModZero(a: int, b: nat)
    requires b > 0 && a < 0
    ensures (-a) % b == 0 <==> a % b == 0
  {
    var q := (-a) / b;
    var r := (-a) % b;
    if r == 0 {
      assert a == (-q) * b + 0;
      FloorDivision.FloorDivModUnique(a, b, -q, 0);
    } else {
      assert a == (-q - 1) * b + (b - r);
      FloorDivision.FloorDivModUnique(a, b, -q - 1, b - r);
    }
  }

  lemma LeapYearExamples()
    ensures IsLeapYear(2000) && IsLeapYear(2024) && IsLeapYear(2004)
    ensures !IsLeapYear(1900) && !IsLeapYear(2100) && !IsLeapYear(2023)
  {
  }

  /** The rule repeats every 400 years, across year 0 as well. */
  lemma {:induction false} LeapYearPeriodic(y: int)
    ensures IsLeapYear(y) == IsLeapYear(y + 400)
  {
    LeapYearEuclidean(y);
    LeapYearEuclidean(y + 400);
  }

  /** stCalendar of src/cTime.h:37-53, without the fields no code computes
      (leapSecond, subZone, picoSeconds). */
  datatype Calendar = Calendar(
    year: int32,
    month: uint8,
    day: uint8,
    hour: uint8,
    minute: uint8,
    second: uint8,
    dst: int8,
    timeZone: int8,
    dayInWeek: uint8,
    calendarWeek: int8,
    dayInYear: int16)

  /** The documented field ranges of stCalendar. */
  predicate ValidCalendar(c: Calendar)
  {
    1 <= c.month <= 12 && 1 <= c.day <= 31 && c.hour <= 23 && c.minute <= 59
    && c.second <= 59 && -1 <= c.dst <= 1 && 1 <= c.dayInWeek <= 7
    && 1 <= c.dayInYear <= 366
  }

  /** stDuration: every entry may exceed its natural range, the value is the
      sum of all of them, with the sign applied. */
  datatype Duration = Duration(days: uint64, hours: uint64, minutes: uint64, seconds: uint64, sign: int8)

  /** struct tm (tm_t), each member a C int. */
  datatype Tm = Tm(tm_sec: int32, tm_min: int32, tm_hour: int32, tm_mday: int32, tm_mon: int32,
                   tm_year: int32, tm_wday: int32, tm_yday: int32, tm_isdst: int32)

  /** A cTime instance: a single time_t, seconds since 1970-01-01 00:00:00 UTC. */
  datatype Time = Time(time: int64)

  predicate Equal(a: Time, b: Time) { a.time == b.time }
  predicate NotEqual(a: Time, b: Time) { a.time != b.time }
  predicate Less(a: Time, b: Time) { a.time < b.time }
  predicate Greater(a: Time, b: Time) { a.time > b.time }
  predicate LessEq(a: Time, b: Time) { a.time <= b.time }
  predicate GreaterEq(a: Time, b: Time) { a.time >= b.time }

  /** operator+: cTime::set(_time + a._time). Signed overflow is undefined in
      C++; the model wraps it as the hardware does. */
  function Plus(a: Time, b: Time): (r: Time)
    ensures MinInt64 <= a.time + b.time < -MinInt64 ==> r.time == a.time + b.time
  {
    Time(ToInt64(a.time + b.time))
  }

  /** operator-: cTime::set(_time - a._time). */
  function Minus(a: Time, b: Time): (r: Time)
    ensures MinInt64 <= a.time - b.time < -MinInt64 ==> r.time == a.time - b.time
  {
    Time(ToInt64(a.time - b.time))
  }

  /** The comparison operators look only at the time value and order cTime
      instances totally. */
  lemma ComparisonIsTotalOrder(a: Time, b: Time, c: Time)
    ensures Equal(a, b) <==> a == b
    ensures NotEqual(a, b) <==> !Equal(a, b)
    ensures Less(a, b) || Equal(a, b) || Greater(a, b)
    ensures !(Less(a, b) && Greater(a, b))
    ensures Greater(a, b) <==> Less(b, a)
    ensures LessEq(a, b) <==> Less(a, b) || Equal(a, b)
    ensures GreaterEq(a, b) <==> LessEq(b, a)
    ensures LessEq(a, b) && LessEq(b, a) ==> a == b
    ensures LessEq(a, b) && LessEq(b, c) ==> LessEq(a, c)
  {
  }

  /** Subtracting what was added gives back the original value, even when the
      sum wraps around. */
  lemma {:induction false} PlusMinusCancel(a: Time, b: Time)
    ensures Minus(Plus(a, b), b) == a
  {
    var x: int := b.time;
    ToInt64Plus(a.time + b.time, -x);
  }

  /** A cTime object, for the compound assignments, whose receiver matters. */
  class TimeObject {
    var time: int64

    constructor (t: int64)
      ensures time == t
    {
      time := t;
    }

    /** operator+= as written: returns the sum but leaves the receiver as it was. */
    method PlusAssign(a: Time) returns (r: Time)
      ensures r == Plus(Time(old(time)), a)
      ensures time == old(time)
    {
      r := Plus(Time(time), a);
    }

    /** operator-= as written: returns the difference but leaves the receiver as it was. */
    method MinusAssign(a: Time) returns (r: Time)
      ensures r == Minus(Time(old(time)), a)
      ensures time == old(time)
    {
      r := Minus(Time(time), a);
    }

    /** operator+= as a compound assignment is meant to work: the receiver
        takes the sum, which is also returned. */
    method PlusAssignIntended(a: Time) returns (r: Time)
      modifies this
      ensures r == Plus(Time(old(time)), a)
      ensures time == r.time
    {
      time := Plus(Time(time), a).time;
      r := Time(time);
    }

    /** operator-= as a compound assignment is meant to work. */
    method MinusAssignIntended(a: Time) returns (r: Time)
      modifies this
      ensures r == Minus(Time(old(time)), a)
      ensures time == r.time
    {
      time := Minus(Time(time), a).time;
      r := Time(time);
    }
  }

  /** `t += d` leaves t as it was, whatever d is. */
  method PlusAssignLeavesReceiver(t: int64, d: Time) returns (before: int64, after: int64)
    ensures before == t && after == t
  {
    var obj := new TimeObject(t);
    before := obj.time;
    var _ := obj.PlusAssign(d);
    after := obj.time;
  }
}
