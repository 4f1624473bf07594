/** Small helpers of the page (ui/src/utilities.ts): the duration and size
    labels, the unique counter and `clamp`. Numbers that the source keeps as
    `bigint` or integer-valued `number` are integers here. */
module Utilities {

  /** `BigInt` division: the quotient truncated toward zero. */
  function TDiv(a: int, b: nat): (q: int)
    requires b > 0
    ensures a >= 0 ==> q == a / b
    ensures a < 0 ==> q == -((-a) / b)
  {
    if a >= 0 then a / b else -((-a) / b)
  }

  /** The parts of `durationToString`: hours, minutes, seconds and
      deciseconds of a duration in microseconds. */
  datatype Duration = Duration(hours: int, minutes: int, seconds: int, deciseconds: int)

  function DurationParts(microseconds: int): (d: Duration)
    ensures d.hours * 36000 + d.minutes * 600 + d.seconds * 10 + d.deciseconds == TDiv(microseconds, 100000)
    ensures microseconds >= 0 ==> d.hours >= 0 && 0 <= d.minutes < 60 && 0 <= d.seconds < 60 && 0 <= d.deciseconds < 10
    ensures microseconds < 0 ==> d.hours <= 0 && -60 < d.minutes <= 0 && -60 < d.seconds <= 0 && -10 < d.deciseconds <= 0
  {
    var total := TDiv(microseconds, 100000);
    var hours := TDiv(total, 36000);
    var afterHours := total - hours * 36000;
    var minutes := TDiv(afterHours, 600);
    var afterMinutes := afterHours - minutes * 600;
    var seconds := TDiv(afterMinutes, 10);
    Duration(hours, minutes, seconds, afterMinutes - seconds * 10)
  }

  function DigitChar(d: nat): (c: char)
    requires d < 10
    ensures '0' <= c <= '9'
  {
    "0123456789"[d]
  }

  function DigitValue(c: char): nat
  {
    if '0' <= c <= '9' then (c as int - '0' as int) else 0
  }

  /** `toFixed(0)` of a non-negative integer: its decimal digits. */
  function Digits(n: nat): (r: string)
    ensures 1 <= |r|
    ensures n < 10 ==> |r| == 1
    ensures 10 <= n < 100 ==> |r| == 2
    ensures forall k :: 0 <= k < |r| ==> '0' <= r[k] <= '9'
  {
    if n < 10 then [DigitChar(n)] else Digits(n / 10) + [DigitChar(n % 10)]
  }

  /** The value of a string of decimal digits. */
  function Value(s: string): nat
  {
    if |s| == 0 then 0 else 10 * Value(s[..|s| - 1]) + DigitValue(s[|s| - 1])
  }

  lemma DigitRoundTrip(d: nat)
    requires d < 10
    ensures DigitValue(DigitChar(d)) == d
  {
    var c := DigitChar(d);
    assert c == "0123456789"[d];
    assert "0123456789"[d] as int == '0' as int + d;
  }

  /** Reading the digits back gives the number. */
  lemma {:induction false} DigitsRoundTrip(n: nat)
    ensures Value(Digits(n)) == n
  {
    DigitRoundTrip(n % 10);
    if n < 10 {
      assert Value(Digits(n)) == 10 * Value([]) + DigitValue(DigitChar(n));
    } else {
      DigitsRoundTrip(n / 10);
      var s := Digits(n);
      assert s[..|s| - 1] == Digits(n / 10);
    }
  }

  /** `padStart(2, "0")`. */
  function PadStart2(s: string): (r: string)
    ensures |r| == if |s| < 2 then 2 else |s|
    ensures |s| >= 2 ==> r == s
    ensures r[|r| - |s|..] == s
    ensures forall k :: 0 <= k < |r| - |s| ==> r[k] == '0'
  {
    if |s| == 0 then "00" else if |s| == 1 then "0" + s else s
  }

  /** A leading zero does not change the value. */
  lemma LeadingZero(s: string)
    ensures Value("0" + s) == Value(s)
    decreases |s|
  {
    if |s| > 0 {
      var t := "0" + s;
      assert t[..|t| - 1] == "0" + s[..|s| - 1];
      LeadingZero(s[..|s| - 1]);
    } else {
      assert Value("0") == 10 * Value("") + DigitValue('0');
    }
  }

  /** `hh:mm:ss.d` of the parts of a non-negative duration, hours padded to
      at least two digits. */
  function Label(d: Duration): string
    requires d.hours >= 0 && 0 <= d.minutes < 60 && 0 <= d.seconds < 60 && 0 <= d.deciseconds < 10
  {
    PadStart2(Digits(d.hours)) + ":" + PadStart2(Digits(d.minutes)) + ":" + PadStart2(Digits(d.seconds))
      + "." + Digits(d.deciseconds)
  }

  /** `durationToString` for a non-negative duration: `h:mm:ss.d`, with the
      separators at fixed places from the end. */
  function DurationToString(microseconds: nat): (r: string)
    ensures |r| >= 10 && r[|r| - 2] == '.' && r[|r| - 5] == ':' && r[|r| - 8] == ':'
  {
    var d := DurationParts(microseconds);
    LabelLayout(d);
    Label(d)
  }

  /** The separators of a label sit at fixed places from its end. */
  lemma LabelLayout(d: Duration)
    requires d.hours >= 0 && 0 <= d.minutes < 60 && 0 <= d.seconds < 60 && 0 <= d.deciseconds < 10
    ensures var r := Label(d);
      |r| >= 10 && r[|r| - 2] == '.' && r[|r| - 5] == ':' && r[|r| - 8] == ':'
  {
    Layout(PadStart2(Digits(d.hours)), PadStart2(Digits(d.minutes)), PadStart2(Digits(d.seconds)), Digits(d.deciseconds));
  }

  lemma PaddedValue(n: nat)
    requires n < 100
    ensures Value(PadStart2(Digits(n))) == n
  {
    DigitsRoundTrip(n);
    if n < 10 {
      LeadingZero(Digits(n));
    }
  }

  /** The label reads back: the digits before the first ':' are the hours,
      then minutes, seconds and deciseconds. */
  lemma LabelRoundTrip(d: Duration)
    requires d.hours >= 0 && 0 <= d.minutes < 60 && 0 <= d.seconds < 60 && 0 <= d.deciseconds < 10
    ensures var r := Label(d);
      && |r| >= 10 && r[|r| - 2] == '.' && r[|r| - 5] == ':' && r[|r| - 8] == ':'
      && Value(r[..|r| - 8]) == d.hours && Value(r[|r| - 7..|r| - 5]) == d.minutes
      && Value(r[|r| - 4..|r| - 2]) == d.seconds && DigitValue(r[|r| - 1]) == d.deciseconds
  {
    var h := PadStart2(Digits(d.hours));
    var m := PadStart2(Digits(d.minutes));
    var s := PadStart2(Digits(d.seconds));
    var ds := Digits(d.deciseconds);
    HoursValue(d.hours);
    PaddedValue(d.minutes);
    PaddedValue(d.seconds);
    DigitRoundTrip(d.deciseconds);
    ReadFields(Label(d), h, m, s, ds);
  }

  /** The fields of `h:m:s.d` read back from their positions. */
  lemma ReadFields(r: string, h: string, m: string, s: string, ds: string)
    requires |h| >= 2 && |m| == 2 && |s| == 2 && |ds| == 1
    requires r == h + ":" + m + ":" + s + "." + ds
    ensures |r| >= 10 && r[|r| - 2] == '.' && r[|r| - 5] == ':' && r[|r| - 8] == ':'
    ensures Value(r[..|r| - 8]) == Value(h) && Value(r[|r| - 7..|r| - 5]) == Value(m)
    ensures Value(r[|r| - 4..|r| - 2]) == Value(s) && r[|r| - 1] == ds[0]
  {
    Layout(h, m, s, ds);
    var hours, minutes, seconds := r[..|r| - 8], r[|r| - 7..|r| - 5], r[|r| - 4..|r| - 2];
    ValueOfEqual(hours, h);
    ValueOfEqual(minutes, m);
    ValueOfEqual(seconds, s);
  }

  lemma ValueOfEqual(a: string, b: string)
    requires a == b
    ensures Value(a) == Value(b)
  {
  }

  lemma HoursValue(n: nat)
    ensures Value(PadStart2(Digits(n))) == n && |PadStart2(Digits(n))| >= 2
  {
    DigitsRoundTrip(n);
    if n < 10 {
      LeadingZero(Digits(n));
    }
  }

  /** The label of a duration reads back to the duration in deciseconds. */
  lemma DurationToStringRoundTrip(microseconds: nat)
    ensures var r := DurationToString(microseconds);
      && |r| >= 10
      && Value(r[..|r| - 8]) * 36000 + Value(r[|r| - 7..|r| - 5]) * 600 + Value(r[|r| - 4..|r| - 2]) * 10
        + DigitValue(r[|r| - 1]) == microseconds / 100000
  {
    LabelRoundTrip(DurationParts(microseconds));
  }

  /** Where the parts sit in `h:m:s.d` when the last three have two, two
      and one characters. */
  lemma Layout(h: string, m: string, s: string, ds: string)
    requires |h| >= 2 && |m| == 2 && |s| == 2 && |ds| == 1
    ensures var r := h + ":" + m + ":" + s + "." + ds;
      && |r| >= 10 && r[|r| - 2] == '.' && r[|r| - 5] == ':' && r[|r| - 8] == ':'
      && r[..|r| - 8] == h && r[|r| - 7..|r| - 5] == m && r[|r| - 4..|r| - 2] == s && r[|r| - 1] == ds[0]
  {
  }

  datatype SizeUnit = B | KB | MB | GB | TB

  function Divisor(u: SizeUnit): nat
  {
    match u
    case B => 1
    case KB => 1_000
    case MB => 1_000_000
    case GB => 1_000_000_000
    case TB => 1_000_000_000_000
  }

  /** The unit `sizeToString` prints a size in: the largest of B, kB, MB,
      GB and TB that the size reaches, so that the printed number is below
      1000 except in terabytes. */
  function SizeUnitOf(bytes: int): (u: SizeUnit)
    ensures u == B || bytes >= Divisor(u)
    ensures u == TB || bytes < 1000 * Divisor(u)
  {
    if bytes < 1_000 then B
    else if bytes < 1_000_000 then KB
    else if bytes < 1_000_000_000 then MB
    else if bytes < 1_000_000_000_000 then GB
    else TB
  }

  /** The unit is the only one satisfying both bounds. */
  lemma SizeUnitUnique(bytes: int, u: SizeUnit)
    requires u == B || bytes >= Divisor(u)
    requires u == TB || bytes < 1000 * Divisor(u)
    ensures u == SizeUnitOf(bytes)
  {
  }

  /** `nextUnique`: the counter is incremented, then returned. */
  function NextUnique(counter: nat): (r: (nat, nat))
    ensures r.0 == r.1 && r.1 > counter
  {
    (counter + 1, counter + 1)
  }

  /** The values of `n` calls from the initial counter. */
  function Uniques(counter: nat, n: nat): (r: seq<nat>)
    ensures |r| == n
    ensures forall k :: 0 <= k < n ==> r[k] > counter
    decreases n
  {
    if n == 0 then []
    else
      var (next, value) := NextUnique(counter);
      [value] + Uniques(next, n - 1)
  }

  /** The values handed out are strictly increasing and start at 1, so no
      value is handed out twice. */
  lemma {:induction false} UniquesIncrease(counter: nat, n: nat)
    ensures var r := Uniques(counter, n);
      forall j, k :: 0 <= j < k < n ==> r[j] < r[k]
    ensures n > 0 ==> Uniques(counter, n)[0] == counter + 1
    decreases n
  {
    if n > 0 {
      UniquesIncrease(counter + 1, n - 1);
      var r := Uniques(counter, n);
      assert r[1..] == Uniques(counter + 1, n - 1);
    }
  }

  /** `Math.min(Math.max(value, minimum), maximum)`. */
  function Clamp(value: int, minimum: int, maximum: int): (r: int)
    ensures minimum <= maximum ==> minimum <= r <= maximum
    ensures minimum <= value <= maximum ==> r == value
    ensures minimum <= maximum && value < minimum ==> r == minimum
    ensures value > maximum ==> r == maximum
    ensures minimum > maximum ==> r == maximum
  {
    var low := if value > minimum then value else minimum;
    if low < maximum then low else maximum
  }

  /** The decimals `gbSizeToString` prints, as the code is written: 0 from
      100 GB on; the branch for 10 GB to 100 GB builds the one-decimal
      string but does not return it, so control falls through to the
      two-decimal return. A number of bytes is an integer, and the
      comparisons of `bytes / 1e9` with 100 and 10 are exact at these
      boundaries. */
  function GbDecimalsAsWritten(bytes: nat): (r: nat)
    ensures r == 0 || r == 2
  {
    if bytes >= 100_000_000_000 then 0
    else if bytes >= 10_000_000_000 then 2
    else 2
  }

  /** The decimals the branches evidently intend: 0, 1 or 2, so that a size
      of at least 1 GB and below 1000 GB is printed with three significant
      digits. */
  function GbDecimals(bytes: nat): (r: nat)
    ensures r <= 2
  {
    if bytes >= 100_000_000_000 then 0
    else if bytes >= 10_000_000_000 then 1
    else 2
  }

  /** Corrected, the whole gigabytes and the decimals always make three
      digits from 1 GB to 1000 GB. */
  lemma GbThreeSignificantDigits(bytes: nat)
    requires 1_000_000_000 <= bytes < 1_000_000_000_000
    ensures |Digits(bytes / 1_000_000_000)| + GbDecimals(bytes) == 3
  {
    var g := bytes / 1_000_000_000;
    if g >= 100 {
      assert Digits(g) == Digits(g / 10) + [DigitChar(g % 10)];
    }
  }

  /** As written, one decimal is never chosen, and 10 GB comes out with four
      significant digits ("10.00 GB"). */
  lemma GbDecimalsAsWrittenSkipsOne()
    ensures forall bytes: nat :: GbDecimalsAsWritten(bytes) != 1
    ensures |Digits(10_000_000_000 / 1_000_000_000)| + GbDecimalsAsWritten(10_000_000_000) == 4
    ensures GbDecimals(10_000_000_000) == 1
  {
    assert 10_000_000_000 / 1_000_000_000 == 10;
  }
}
