/** The part of printf and scanf the codecs of src/cTimeStd.cpp and
    src/LibCpp/Time/cTimeStd.cpp use: `%d` with the `0` and `+` flags and a
    minimum field width on output, `%d`, literal characters and a
    width-limited `%s` on input, and the character at a position of a
    std::string. */
module TextFormat {
  import opened CTypes

  predicate IsDigit(ch: char)
  {
    '0' <= ch <= '9'
  }

  /** isspace in the C locale. */
  predicate IsSpace(ch: char)
  {
    ch == ' ' || ch == '\t' || ch == '\n' || ch == '\r' || ch == '\U{B}' || ch == '\U{C}'
  }

  predicate AllDigits(s: string)
  {
    forall i :: 0 <= i < |s| ==> IsDigit(s[i])
  }

  function DigitChar(d: nat): (ch: char)
    requires d < 10
    ensures IsDigit(ch)
  {
    ('0' as int + d) as char
  }

  function DigitValue(ch: char): (d: nat)
    requires IsDigit(ch)
    ensures d < 10
  {
    ch as int - '0' as int
  }

  /** `s[i]` of a std::string: past the last character stands the
      terminating NUL. */
  function CharAt(s: string, i: nat): char
  {
    if i < |s| then s[i] else '\0'
  }

  /** The decimal digits of n, most significant first, without leading
      zeros ("0" for zero). */
  function NatDigits(n: nat): (s: string)
    ensures 1 <= |s| && AllDigits(s)
  {
    if n < 10 then [DigitChar(n)] else NatDigits(n / 10) + [DigitChar(n % 10)]
  }

  /** The number a run of decimal digits denotes. */
  function DigitsValue(s: string): nat
    requires AllDigits(s)
  {
    if |s| == 0 then 0 else DigitsValue(s[..|s| - 1]) * 10 + DigitValue(s[|s| - 1])
  }

  function Zeros(k: nat): (s: string)
    ensures |s| == k && AllDigits(s)
  {
    seq(k, _ => '0')
  }

  /** printf's `%d`: an optional sign, then the digits of |x| zero-padded on the
      left to a total of at least `width` characters (the `0` flag); with
      `forceSign` (the `+` flag) a non-negative value gets a `+`. */
  function FormatInt(x: int, width: nat, forceSign: bool): string
  {
    SignOf(x, forceSign) + PaddedDigits(x, width, forceSign)
  }

  function SignOf(x: int, forceSign: bool): string
  {
    if x < 0 then "-" else if forceSign then "+" else ""
  }

  function PaddedDigits(x: int, width: nat, forceSign: bool): (s: string)
    ensures 1 <= |s| && AllDigits(s)
  {
    var digits := NatDigits(Magnitude(x));
    var used := |SignOf(x, forceSign)| + |digits|;
    Zeros(if used < width then width - used else 0) + digits
  }

  /** The number of leading characters of s that satisfy a digit or space test. */
  function DigitRun(s: string): (n: nat)
    ensures n <= |s| && AllDigits(s[..n])
    ensures n < |s| ==> !IsDigit(s[n])
  {
    if |s| == 0 || !IsDigit(s[0]) then 0
    else
      var n := 1 + DigitRun(s[1..]);
      assert s[..n] == [s[0]] + s[1..][..n - 1];
      n
  }

  function SpaceRun(s: string): (n: nat)
    ensures n <= |s|
  {
    if |s| == 0 || !IsSpace(s[0]) then 0 else 1 + SpaceRun(s[1..])
  }

  /** The number a `%d` conversion read and what is left of the input. */
  datatype Scanned = Scanned(value: int, rest: string)

  /** scanf's `%d`: leading white space, an optional sign and at least one
      digit; None is a matching failure, which ends the scan. The number is
      read without bound; the caller narrows it to its `int`. */
  function ScanInt(s: string): Option<Scanned>
  {
    ScanSigned(s[SpaceRun(s)..])
  }

  function ScanSigned(t: string): Option<Scanned>
  {
    if |t| > 0 && t[0] == '-' then
      match ScanDigits(t[1..])
      case None => None
      case Some(r) => Some(Scanned(-r.value, r.rest))
    else if |t| > 0 && t[0] == '+' then ScanDigits(t[1..])
    else ScanDigits(t)
  }

  function ScanDigits(u: string): Option<Scanned>
  {
    var n := DigitRun(u);
    if n == 0 then None else Some(Scanned(DigitsValue(u[..n]) as int, u[n..]))
  }

  /** A literal character of a scanf format (no white space): it must be the
      next input character. */
  function ScanChar(s: string, ch: char): Option<string>
  {
    if |s| > 0 && s[0] == ch then Some(s[1..]) else None
  }

  /** scanf's `%*<width>s`: leading white space, then one to `width`
      characters that are not white space, discarded. */
  function SkipWord(s: string, width: nat): Option<string>
  {
    var t := s[SpaceRun(s)..];
    var n := WordRun(t, width);
    if n == 0 then None else Some(t[n..])
  }

  function WordRun(s: string, width: nat): (n: nat)
    ensures n <= |s| && n <= width
  {
    if width == 0 || |s| == 0 || IsSpace(s[0]) then 0 else 1 + WordRun(s[1..], width - 1)
  }

  /** printf of a run of `%0<width>d` conversions, each followed by its
      separator character, the last one by `tail`. */
  function FormatInts(xs: seq<int>, widths: seq<nat>, seps: string, tail: string): string
    requires |xs| == |widths| == |seps| + 1
    decreases |seps|
  {
    if |seps| == 0 then FormatInt(xs[0], widths[0], false) + tail
    else FormatInt(xs[0], widths[0], false) + ([seps[0]] + FormatInts(xs[1..], widths[1..], seps[1..], tail))
  }

  /** The numbers a run of `%d` conversions stored, and what follows the last
      one when every conversion matched. */
  datatype IntsScan = IntsScan(values: seq<int>, rest: Option<string>)

  /** scanf of `%d`, then for each separator that literal character and
      `%d`: the numbers read up to the first matching failure. */
  function ScanInts(s: string, seps: string): (r: IntsScan)
    ensures |r.values| <= |seps| + 1
    ensures r.rest.Some? ==> |r.values| == |seps| + 1
    decreases |seps|
  {
    match ScanInt(s)
    case None => IntsScan([], None)
    case Some(a) =>
      if |seps| == 0 then IntsScan([a.value], Some(a.rest))
      else
        match ScanChar(a.rest, seps[0])
        case None => IntsScan([a.value], None)
        case Some(t) =>
          var r := ScanInts(t, seps[1..]);
          IntsScan([a.value] + r.values, r.rest)
  }

  /** The int variable the i-th conversion of a run stored into; it keeps
      its initial 0 when the scan ended before that conversion. */
  function Stored(values: seq<int>, i: nat): int32
  {
    if i < |values| then ToInt32(values[i]) else 0
  }

  /** A literal character followed by `%d`. */
  function ScanField(s: string, lead: char): Option<Scanned>
  {
    match ScanChar(s, lead)
    case None => None
    case Some(t) => ScanInt(t)
  }

  // ---------------------------------------------------------------------------
  // Reading back what printf wrote

  lemma {:induction false} DigitsRoundTrip(n: nat)
    ensures DigitsValue(NatDigits(n)) == n
  {
    if n >= 10 {
      var s := NatDigits(n);
      assert s[..|s| - 1] == NatDigits(n / 10);
      DigitsRoundTrip(n / 10);
    }
  }

  lemma {:induction false} LeadingZeros(k: nat, s: string)
    requires AllDigits(s)
    ensures DigitsValue(Zeros(k) + s) == DigitsValue(s)
    decreases |s|, k
  {
    if |s| == 0 {
      if k > 0 {
        assert (Zeros(k) + s)[..k - 1] == Zeros(k - 1) + s;
        LeadingZeros(k - 1, s);
      }
    } else {
      assert (Zeros(k) + s)[..k + |s| - 1] == Zeros(k) + s[..|s| - 1];
      LeadingZeros(k, s[..|s| - 1]);
    }
  }

  lemma {:induction false} DigitRunOf(d: string, rest: string)
    requires AllDigits(d)
    requires |rest| == 0 || !IsDigit(rest[0])
    ensures DigitRun(d + rest) == |d|
  {
    if |d| > 0 {
      assert (d + rest)[1..] == d[1..] + rest;
      DigitRunOf(d[1..], rest);
    }
  }

  /** No white space starts a formatted number: its first character is a sign
      or a digit. */
  lemma FormatIntStart(x: int, width: nat, forceSign: bool)
    ensures var s := FormatInt(x, width, forceSign);
            && |s| >= 1 && !IsSpace(s[0]) && s[0] != 'D'
            && (s[0] == '-' <==> x < 0)
  {
  }

  /** scanf's `%d` reads back exactly the number printf's `%d` wrote, whatever
      the flags and width, when no digit follows it. */
  lemma ScanFormatted(x: int, width: nat, forceSign: bool, rest: string)
    requires |rest| == 0 || !IsDigit(rest[0])
    ensures ScanInt(FormatInt(x, width, forceSign) + rest) == Some(Scanned(x, rest))
  {
    var d := PaddedDigits(x, width, forceSign);
    PaddedValue(x, width, forceSign);
    ScanDigitsOf(d, rest, Magnitude(x));
    assert FormatInt(x, width, forceSign) + rest == SignOf(x, forceSign) + (d + rest);
    ScanAfterSignOf(x, forceSign, d + rest, rest);
  }

  lemma ScanAfterSignOf(x: int, forceSign: bool, u: string, rest: string)
    requires |u| > 0 && IsDigit(u[0])
    requires ScanDigits(u) == Some(Scanned(Magnitude(x), rest))
    ensures ScanInt(SignOf(x, forceSign) + u) == Some(Scanned(x, rest))
  {
    if x < 0 {
      ScanAfterMinus(u, Scanned(Magnitude(x), rest));
    } else if forceSign {
      ScanAfterPlus(u);
    } else {
      ScanUnsigned(u);
    }
  }

  lemma PaddedValue(x: int, width: nat, forceSign: bool)
    ensures DigitsValue(PaddedDigits(x, width, forceSign)) == Magnitude(x)
  {
    var digits := NatDigits(Magnitude(x));
    var used := |SignOf(x, forceSign)| + |digits|;
    LeadingZeros(if used < width then width - used else 0, digits);
    DigitsRoundTrip(Magnitude(x));
  }

  lemma ScanUnsigned(u: string)
    requires |u| > 0 && IsDigit(u[0])
    ensures ScanInt(u) == ScanDigits(u)
  {
    NoSpaceFirst(u);
    assert u[0..] == u;
  }

  lemma ScanAfterPlus(u: string)
    ensures ScanInt("+" + u) == ScanDigits(u)
  {
    var s := "+" + u;
    NoSpaceFirst(s);
    assert s[0..] == s;
    assert s[1..] == u;
  }

  lemma ScanAfterMinus(u: string, r: Scanned)
    requires ScanDigits(u) == Some(r)
    ensures ScanInt("-" + u) == Some(Scanned(-r.value, r.rest))
  {
    var s := "-" + u;
    NoSpaceFirst(s);
    assert s[0..] == s;
    assert s[1..] == u;
  }

  lemma ScanDigitsOf(d: string, rest: string, m: int)
    requires 1 <= |d| && AllDigits(d) && m == DigitsValue(d)
    requires |rest| == 0 || !IsDigit(rest[0])
    ensures ScanDigits(d + rest) == Some(Scanned(m, rest))
  {
    var u := d + rest;
    DigitRunOf(d, rest);
    assert u[..|d|] == d;
    assert u[|d|..] == rest;
  }

  lemma NoSpaceFirst(s: string)
    requires |s| > 0 && !IsSpace(s[0])
    ensures SpaceRun(s) == 0
  {
  }

  predicate NoDigits(seps: string)
  {
    forall i :: 0 <= i < |seps| ==> !IsDigit(seps[i])
  }

  /** A run of `%d` conversions reads back every number printed with the same
      separators, whatever their widths, when no digit follows. */
  lemma {:induction false} ScanFormattedInts(xs: seq<int>, widths: seq<nat>, seps: string, tail: string)
    requires |xs| == |widths| == |seps| + 1
    requires NoDigits(seps)
    requires |tail| == 0 || !IsDigit(tail[0])
    ensures ScanInts(FormatInts(xs, widths, seps, tail), seps) == IntsScan(xs, Some(tail))
    decreases |seps|
  {
    if |seps| == 0 {
      ScanFormatted(xs[0], widths[0], false, tail);
      assert [xs[0]] == xs;
    } else {
      var rest := FormatInts(xs[1..], widths[1..], seps[1..], tail);
      ScanFormatted(xs[0], widths[0], false, [seps[0]] + rest);
      NoDigitsTail(seps);
      ScanFormattedInts(xs[1..], widths[1..], seps[1..], tail);
      ScanIntsCons(FormatInt(xs[0], widths[0], false) + ([seps[0]] + rest), seps, xs[0], rest,
                   IntsScan(xs[1..], Some(tail)));
      assert [xs[0]] + xs[1..] == xs;
    }
  }

  /** One conversion and its separator, then the rest of the run. */
  lemma ScanIntsCons(s: string, seps: string, a: int, rest: string, r: IntsScan)
    requires |seps| > 0
    requires ScanInt(s) == Some(Scanned(a, [seps[0]] + rest))
    requires ScanInts(rest, seps[1..]) == r
    ensures ScanInts(s, seps) == IntsScan([a] + r.values, r.rest)
  {
    assert ([seps[0]] + rest)[1..] == rest;
  }

  lemma NoDigitsTail(seps: string)
    requires |seps| > 0 && NoDigits(seps)
    ensures NoDigits(seps[1..])
  {
    forall i | 0 <= i < |seps[1..]|
      ensures !IsDigit(seps[1..][i])
    {
      assert seps[1..][i] == seps[i + 1];
    }
  }

  /** The sum of the widths of a run. */
  function WidthSum(widths: seq<nat>): nat
  {
    if |widths| == 0 then 0 else widths[0] + WidthSum(widths[1..])
  }

  /** Numbers that fill their field exactly. */
  predicate FillWidths(xs: seq<int>, widths: seq<nat>)
    requires |xs| == |widths|
  {
    forall i :: 0 <= i < |xs| ==> 1 <= widths[i] && 0 <= xs[i] < Pow10(widths[i])
  }

  /** The tail of a run comes after the printed numbers and separators. */
  lemma {:induction false} FormatIntsSplit(xs: seq<int>, widths: seq<nat>, seps: string, tail: string)
    requires |xs| == |widths| == |seps| + 1
    ensures FormatInts(xs, widths, seps, tail) == FormatInts(xs, widths, seps, "") + tail
    decreases |seps|
  {
    if |seps| == 0 {
      assert FormatInt(xs[0], widths[0], false) + "" == FormatInt(xs[0], widths[0], false);
    } else {
      FormatIntsSplit(xs[1..], widths[1..], seps[1..], tail);
    }
  }

  /** Numbers that fill their fields give a run of fixed length. */
  lemma {:induction false} FormatIntsLength(xs: seq<int>, widths: seq<nat>, seps: string)
    requires |xs| == |widths| == |seps| + 1
    requires FillWidths(xs, widths)
    ensures |FormatInts(xs, widths, seps, "")| == WidthSum(widths) + |seps|
    decreases |seps|
  {
    FormatIntWidth(xs[0], widths[0]);
    if |seps| > 0 {
      assert FillWidths(xs[1..], widths[1..]) by {
        forall i | 0 <= i < |xs[1..]|
          ensures 1 <= widths[1..][i] && 0 <= xs[1..][i] < Pow10(widths[1..][i])
        {
          assert xs[1..][i] == xs[i + 1] && widths[1..][i] == widths[i + 1];
        }
      }
      FormatIntsLength(xs[1..], widths[1..], seps[1..]);
    }
  }

  function Pow10(k: nat): (p: nat)
    ensures p >= 1
  {
    if k == 0 then 1 else 10 * Pow10(k - 1)
  }

  lemma {:induction false} NatDigitsLength(n: nat, k: nat)
    requires n < Pow10(k)
    ensures |NatDigits(n)| <= k || (n == 0 && k == 0)
  {
    if n >= 10 {
      NatDigitsLength(n / 10, k - 1);
    }
  }

  /** A non-negative number below 10^width, printed with the `0` flag and no
      `+`, takes exactly `width` characters. */
  lemma FormatIntWidth(x: int, width: nat)
    requires 1 <= width && 0 <= x < Pow10(width)
    ensures |FormatInt(x, width, false)| == width
  {
    NatDigitsLength(x, width);
  }

  /** `%*<width>s` takes exactly a word of `width` characters without white
      space, whatever follows it. */
  lemma {:induction false} WordRunFull(w: string, rest: string)
    requires forall i :: 0 <= i < |w| ==> !IsSpace(w[i])
    ensures WordRun(w + rest, |w|) == |w|
    decreases |w|
  {
    if |w| > 0 {
      assert (w + rest)[1..] == w[1..] + rest;
      assert forall i :: 0 <= i < |w[1..]| ==> w[1..][i] == w[i + 1];
      WordRunFull(w[1..], rest);
    }
  }
}
