/** The duration view of a cTime value: duration() splits the time into days,
    hours, minutes and seconds with a separate sign (src/cTimeStd.cpp:342-359),
    and set(stDuration) adds them up again (src/cTimeStd.cpp:212-217). The
    LibCpp copy has the same code (src/LibCpp/Time/cTimeStd.cpp:281-286,
    412-429). */
module Durations {
  import opened CTypes
  import opened CTime

  /** stDuration_Ini: zero, positive. */
  const DurationIni: Duration := Duration(0, 0, 0, 0, 1)

  /** The seconds a duration stands for without its sign: the sum of all
      entries, each weighted by its unit. */
  function TotalSeconds(d: Duration): nat
  {
    d.days * 86400 + d.hours * 3600 + d.minutes * 60 + d.seconds
  }

  /** The entries are the digits of a mixed-radix number: hours below 24,
      minutes and seconds below 60, and the sign is -1 or 1. */
  predicate Normalized(d: Duration)
  {
    d.hours < 24 && d.minutes < 60 && d.seconds < 60 && (d.sign == 1 || d.sign == -1)
  }

  /** duration() as a value. The negation of INT64_MIN overflows in C++; the
      model wraps it, so value stays negative there and the truncating
      quotients and remainders of C are taken into uint64_t. */
  function DurationOf(t: int64): Duration
  {
    var value: int := if t < 0 then ToInt64(-(t as int)) else t;
    var r1 := TruncMod(value, 86400);
    var r2 := TruncMod(r1, 3600);
    Duration(ToUInt64(TruncDiv(value, 86400)), ToUInt64(TruncDiv(r1, 3600)),
             ToUInt64(TruncDiv(r2, 60)), ToUInt64(TruncMod(r2, 60)),
             if t < 0 then -1 else 1)
  }

  /** duration(), step by step on the local value. */
  method ToDuration(t: int64) returns (d: Duration)
    ensures d == DurationOf(t)
    ensures t != MinInt64 ==> Normalized(d) && (d.sign == -1 <==> t < 0) && TotalSeconds(d) == Magnitude(t)
  {
    var value: int := t;
    var sign: int8 := 1;
    if value < 0 {
      sign := -1;
      value := ToInt64(-value);
    }
    var days := ToUInt64(TruncDiv(value, 86400));
    value := TruncMod(value, 86400);
    var hours := ToUInt64(TruncDiv(value, 3600));
    value := TruncMod(value, 3600);
    var minutes := ToUInt64(TruncDiv(value, 60));
    var seconds := ToUInt64(TruncMod(value, 60));
    d := Duration(days, hours, minutes, seconds, sign);
    if t != MinInt64 {
      DurationDigits(t);
    }
  }

  /** Outside INT64_MIN, duration() writes |t| in days, hours, minutes and
      seconds, with sign -1 exactly for negative times. */
  lemma DurationDigits(t: int64)
    requires t != MinInt64
    ensures var d := DurationOf(t);
            && Normalized(d) && (d.sign == -1 <==> t < 0) && TotalSeconds(d) == Magnitude(t)
  {
    var m := Magnitude(t);
    assert (if t < 0 then ToInt64(-t) else t as int) == m;
    MixedRadix(m);
  }

  lemma MixedRadix(m: nat)
    ensures var r1 := m % 86400; var r2 := r1 % 3600;
            && (m / 86400) * 86400 + (r1 / 3600) * 3600 + (r2 / 60) * 60 + r2 % 60 == m
            && r1 / 3600 < 24 && r2 / 60 < 60 && m / 86400 <= m
  {
  }

  /** set(stDuration): the weighted sum in uint64_t arithmetic, read as a
      time_t and negated for a negative sign. */
  function SetDuration(d: Duration): Time
  {
    var value := ToInt64(ToUInt64(TotalSeconds(d)));
    Time(if d.sign < 0 then ToInt64(-(value as int)) else value)
  }

  /** set(t.duration()) gives t back, for every time value. */
  lemma SetAfterDuration(t: int64)
    ensures SetDuration(DurationOf(t)) == Time(t)
  {
    if t == MinInt64 {
      DurationOfMinimum();
    } else {
      DurationDigits(t);
    }
  }

  /** At INT64_MIN both negations wrap, and the uint64_t sum of the wrapped
      entries is 2^63, which time_t reads as INT64_MIN again. */
  lemma DurationOfMinimum()
    ensures SetDuration(DurationOf(MinInt64)) == Time(MinInt64)
  {
    MinimumEntries();
    MinimumSum(DurationOf(MinInt64));
  }

  /** The entries duration() computes for INT64_MIN, each wrapped below 2^64. */
  lemma MinimumEntries()
    ensures DurationOf(MinInt64) == Duration(0x1_0000_0000_0000_0000 - 106751991167300, 0x1_0000_0000_0000_0000 - 15,
                                             0x1_0000_0000_0000_0000 - 30, 0x1_0000_0000_0000_0000 - 8, -1)
  {
    assert ToInt64(-MinInt64) == MinInt64;
    assert TruncDiv(MinInt64, 86400) == -106751991167300;
    assert TruncMod(MinInt64, 86400) == -55808;
  }

  lemma MinimumSum(d: Duration)
    requires d == Duration(0x1_0000_0000_0000_0000 - 106751991167300, 0x1_0000_0000_0000_0000 - 15,
                           0x1_0000_0000_0000_0000 - 30, 0x1_0000_0000_0000_0000 - 8, -1)
    ensures SetDuration(d) == Time(MinInt64)
  {
    assert ToUInt64(TotalSeconds(d)) == 0x8000_0000_0000_0000;
  }

  /** duration() of set(d) gives d back for every normalized duration that
      fits a time_t, except a negative zero, which comes back positive. */
  lemma DurationAfterSet(d: Duration)
    requires Normalized(d) && TotalSeconds(d) < 0x8000_0000_0000_0000
    ensures DurationOf(SetDuration(d).time) == d <==> !(d.sign == -1 && TotalSeconds(d) == 0)
  {
    var t := SetDuration(d).time;
    SetDurationValue(d);
    DurationDigits(t);
    if !(d.sign == -1 && TotalSeconds(d) == 0) {
      DigitsUnique(DurationOf(t), d);
    }
  }

  /** Below 2^63 seconds set(d) computes the signed total exactly. */
  lemma SetDurationValue(d: Duration)
    requires (d.sign == 1 || d.sign == -1) && TotalSeconds(d) < 0x8000_0000_0000_0000
    ensures SetDuration(d).time == if d.sign < 0 then -(TotalSeconds(d) as int) else TotalSeconds(d)
  {
    var m := TotalSeconds(d);
    assert ToUInt64(m) == m;
    assert ToInt64(m) == m;
  }

  /** Two normalized durations with the same total and the same sign are equal. */
  lemma DigitsUnique(a: Duration, b: Duration)
    requires Normalized(a) && Normalized(b)
    requires TotalSeconds(a) == TotalSeconds(b) && a.sign == b.sign
    ensures a == b
  {
    var m := TotalSeconds(a);
    DivModUnique(m, 86400, a.days, a.hours * 3600 + a.minutes * 60 + a.seconds);
    DivModUnique(m, 86400, b.days, b.hours * 3600 + b.minutes * 60 + b.seconds);
    DivModUnique(m % 86400, 3600, a.hours, a.minutes * 60 + a.seconds);
    DivModUnique(m % 86400, 3600, b.hours, b.minutes * 60 + b.seconds);
    DivModUnique(m % 86400 % 3600, 60, a.minutes, a.seconds);
    DivModUnique(m % 86400 % 3600, 60, b.minutes, b.seconds);
  }
}
