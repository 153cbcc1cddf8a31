/** The duration text of cTime, "D<days>#<hh>:<mm>:<ss>" with the sign on the
    days: toString(stDuration) prints it with sprintf and fromDurationString
    reads it back with sscanf (src/cTimeStd.cpp:476-497, 542-550; the same
    code at src/LibCpp/Time/cTimeStd.cpp:515-536, 579-587). */
module DurationText {
  import opened CTypes
  import opened CTime
  import opened TextFormat
  import opened Durations

  /** The widths and separators of `D%d#%02d:%02d:%02d` after the 'D'. */
  const DurationWidths: seq<nat> := [0, 2, 2, 2]
  const DurationSeparators: string := "#::"

  /** The days as toString(stDuration) prints them: narrowed to int, then
      negated (in int) for a negative sign. */
  function SignedDays(d: Duration): int32
  {
    var days := ToInt32(d.days);
    if d.sign < 0 then ToInt32(-(days as int)) else days
  }

  /** The four ints toString(stDuration) passes to sprintf. */
  function PrintedFields(d: Duration): seq<int>
  {
    [SignedDays(d), ToInt32(d.hours), ToInt32(d.minutes), ToInt32(d.seconds)]
  }

  /** toString(stDuration): `D%d#%02d:%02d:%02d`. */
  function DurationToString(d: Duration): string
  {
    "D" + FormatInts(PrintedFields(d), DurationWidths, DurationSeparators, "")
  }

  /** fromDurationString: stDuration_Ini unless the text starts with 'D';
      otherwise the numbers sscanf stored, the sign taken from the days and
      negative days negated in int, each entry converted to uint64_t. */
  function FromDurationString(s: string): Duration
  {
    if CharAt(s, 0) != 'D' then DurationIni
    else FieldsToDuration(ScanInts(s[1..], DurationSeparators).values)
  }

  /** The stDuration fromDurationString builds from the ints sscanf stored. */
  function FieldsToDuration(v: seq<int>): Duration
  {
    var days := Stored(v, 0);
    var magnitude: int := if days < 0 then ToInt32(-(days as int)) else days;
    Duration(ToUInt64(magnitude), ToUInt64(Stored(v, 1)), ToUInt64(Stored(v, 2)), ToUInt64(Stored(v, 3)),
             if days < 0 then -1 else 1)
  }

  // ---------------------------------------------------------------------------
  // Reading back what toString wrote

  predicate FitsInt(d: Duration)
  {
    d.days < 0x8000_0000 && d.hours < 0x8000_0000 && d.minutes < 0x8000_0000 && d.seconds < 0x8000_0000
  }

  /** The reader gets back the four printed numbers. */
  lemma ScanPrinted(xs: seq<int>)
    requires |xs| == 4
    ensures ScanInts(FormatInts(xs, DurationWidths, DurationSeparators, ""), DurationSeparators) == IntsScan(xs, Some(""))
  {
    assert NoDigits(DurationSeparators) by {
      assert DurationSeparators == ['#', ':', ':'];
    }
    ScanFormattedInts(xs, DurationWidths, DurationSeparators, "");
  }

  /** fromDurationString(toString(d)) keeps every entry that fits an int, but
      the sign survives only with at least one day: a negative duration under
      a day is printed as "D0#..." and read back as positive. */
  lemma DurationTextRoundTrip(d: Duration)
    requires FitsInt(d)
    ensures FromDurationString(DurationToString(d)) == d.(sign := if d.sign < 0 && d.days > 0 then -1 else 1)
    ensures FromDurationString(DurationToString(d)) == d <==> d.sign == 1 || (d.sign == -1 && d.days > 0)
  {
    ReadPrinted(d);
    FieldsOfPrinted(d);
  }

  lemma ReadPrinted(d: Duration)
    ensures FromDurationString(DurationToString(d)) == FieldsToDuration(PrintedFields(d))
  {
    var s := DurationToString(d);
    ScanPrinted(PrintedFields(d));
    assert s[1..] == FormatInts(PrintedFields(d), DurationWidths, DurationSeparators, "");
  }

  lemma FieldsOfPrinted(d: Duration)
    requires FitsInt(d)
    ensures FieldsToDuration(PrintedFields(d)) == d.(sign := if d.sign < 0 && d.days > 0 then -1 else 1)
  {
  }

  /** One second before the epoch is printed as the same text as one second
      after it, so it reads back as one second after. */
  lemma NegativeSecondLost()
    ensures DurationToString(DurationOf(-1)) == DurationToString(DurationOf(1))
    ensures SetDuration(FromDurationString(DurationToString(DurationOf(-1)))) == Time(1)
  {
    NegativeSecond();
    PositiveSecond();
    SecondTexts(DurationOf(-1), DurationOf(1));
  }

  lemma NegativeSecond()
    ensures DurationOf(-1) == Duration(0, 0, 0, 1, -1)
  {
    DurationDigits(-1);
    DigitsUnique(DurationOf(-1), Duration(0, 0, 0, 1, -1));
  }

  lemma PositiveSecond()
    ensures DurationOf(1) == Duration(0, 0, 0, 1, 1)
  {
    DurationDigits(1);
    DigitsUnique(DurationOf(1), Duration(0, 0, 0, 1, 1));
  }

  lemma SecondTexts(a: Duration, b: Duration)
    requires a == Duration(0, 0, 0, 1, -1) && b == Duration(0, 0, 0, 1, 1)
    ensures DurationToString(a) == DurationToString(b)
    ensures SetDuration(FromDurationString(DurationToString(a))) == Time(1)
  {
    assert PrintedFields(a) == PrintedFields(b);
    NegativeSecondReadBack(a);
  }

  lemma NegativeSecondReadBack(d: Duration)
    requires d == Duration(0, 0, 0, 1, -1)
    ensures SetDuration(FromDurationString(DurationToString(d))) == Time(1)
  {
    DurationTextRoundTrip(d);
    SetDurationValue(Duration(0, 0, 0, 1, 1));
  }

  /** Through the duration text, a time comes back unchanged exactly when it is
      not a negative time of less than a day. */
  lemma TimeThroughDurationText(t: int64)
    requires Magnitude(t) < 0x8000_0000 * 86400
    ensures SetDuration(FromDurationString(DurationToString(DurationOf(t)))) == Time(t) <==> !(-86400 < t < 0)
  {
    var d := DurationOf(t);
    DurationDigits(t);
    DurationTextRoundTrip(d);
    if -86400 < t < 0 {
      SetDurationValue(d.(sign := 1));
    } else {
      SetAfterDuration(t);
    }
  }

  // ---------------------------------------------------------------------------
  // The codec with the sign written out

  /** The entries as unsigned numbers, each narrowed to int. */
  function UnsignedFields(d: Duration): seq<int>
  {
    [ToInt32(d.days), ToInt32(d.hours), ToInt32(d.minutes), ToInt32(d.seconds)]
  }

  /** The duration text with the sign in front of the unsigned days, so that
      "D-0#00:00:01" keeps a negative duration under a day. */
  function DurationToStringSigned(d: Duration): string
  {
    "D" + (SignText(d) + FormatInts(UnsignedFields(d), DurationWidths, DurationSeparators, ""))
  }

  function SignText(d: Duration): string
  {
    if d.sign < 0 then "-" else ""
  }

  /** fromDurationString reading the sign character after the 'D' on its own,
      then the unsigned entries. */
  function FromDurationStringSigned(s: string): Duration
  {
    if CharAt(s, 0) == 'D' && CharAt(s, 1) == '-' then FromDurationString("D" + s[2..]).(sign := -1)
    else FromDurationString(s)
  }

  /** The unsigned text reads back the entries with a positive sign. */
  lemma ReadUnsigned(d: Duration)
    requires FitsInt(d)
    ensures FromDurationString("D" + FormatInts(UnsignedFields(d), DurationWidths, DurationSeparators, "")) == d.(sign := 1)
  {
    var u := FormatInts(UnsignedFields(d), DurationWidths, DurationSeparators, "");
    ScanPrinted(UnsignedFields(d));
    assert ("D" + u)[1..] == u;
  }

  /** With the sign written out, every duration whose entries fit an int and
      whose sign is 1 or -1 reads back unchanged. */
  lemma SignedTextRoundTrip(d: Duration)
    requires FitsInt(d) && (d.sign == 1 || d.sign == -1)
    ensures FromDurationStringSigned(DurationToStringSigned(d)) == d
  {
    ReadUnsigned(d);
    if d.sign < 0 {
      NegativeSignedText(d);
    } else {
      PositiveSignedText(d);
    }
  }

  lemma NegativeSignedText(d: Duration)
    requires d.sign < 0
    ensures var u := FormatInts(UnsignedFields(d), DurationWidths, DurationSeparators, "");
            FromDurationStringSigned(DurationToStringSigned(d)) == FromDurationString("D" + u).(sign := -1)
  {
    var u := FormatInts(UnsignedFields(d), DurationWidths, DurationSeparators, "");
    var s := DurationToStringSigned(d);
    assert SignText(d) == "-";
    assert s == "D-" + u;
    assert "D" + s[2..] == "D" + u;
  }

  lemma PositiveSignedText(d: Duration)
    requires FitsInt(d) && d.sign >= 0
    ensures var u := FormatInts(UnsignedFields(d), DurationWidths, DurationSeparators, "");
            FromDurationStringSigned(DurationToStringSigned(d)) == FromDurationString("D" + u)
  {
    var u := FormatInts(UnsignedFields(d), DurationWidths, DurationSeparators, "");
    var s := DurationToStringSigned(d);
    assert SignText(d) + u == u;
    assert s == "D" + u;
    assert ToInt32(d.days) == d.days;
    FormatIntStart(d.days, 0, false);
    assert u[0] == FormatInt(d.days, 0, false)[0];
  }

  /** Through the signed text every time within the int range of days comes
      back unchanged. */
  lemma TimeThroughSignedText(t: int64)
    requires Magnitude(t) < 0x8000_0000 * 86400
    ensures SetDuration(FromDurationStringSigned(DurationToStringSigned(DurationOf(t)))) == Time(t)
  {
    DurationDigits(t);
    SignedTextRoundTrip(DurationOf(t));
    SetAfterDuration(t);
  }
}
