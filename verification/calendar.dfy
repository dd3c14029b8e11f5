/**
 * The proleptic Gregorian calendar as JavaScript's `Date` counts it in UTC,
 * and `shiftDateString`, which moves a `YYYY-MM-DD` string by whole days
 * through `Date.UTC`.
 */
module Calendar {
  import opened Maybe
  import opened Text

  /** A calendar date; `month` runs 1..12. */
  datatype Date = Date(year: int, month: int, day: int)

  /** The Gregorian leap rule. Dafny's `%` agrees with floored remainder for these positive divisors. */
  predicate IsLeapYear(y: int) {
    (y % 4 == 0 && y % 100 != 0) || y % 400 == 0
  }

  function DaysInMonth(y: int, m: int): (n: int)
    requires 1 <= m <= 12
    ensures 28 <= n <= 31
  {
    if m == 2 then (if IsLeapYear(y) then 29 else 28)
    else if m == 4 || m == 6 || m == 9 || m == 11 then 30
    else 31
  }

  predicate ValidDate(d: Date) {
    1 <= d.month <= 12 && 1 <= d.day <= DaysInMonth(d.year, d.month)
  }

  /** Strictly earlier in the calendar. */
  predicate Before(a: Date, b: Date) {
    a.year < b.year
    || (a.year == b.year && a.month < b.month)
    || (a.year == b.year && a.month == b.month && a.day < b.day)
  }

  function NextDay(d: Date): (r: Date)
    requires ValidDate(d)
    ensures ValidDate(r) && Before(d, r)
  {
    if d.day < DaysInMonth(d.year, d.month) then Date(d.year, d.month, d.day + 1)
    else if d.month < 12 then Date(d.year, d.month + 1, 1)
    else Date(d.year + 1, 1, 1)
  }

  function PrevDay(d: Date): (r: Date)
    requires ValidDate(d)
    ensures ValidDate(r) && Before(r, d)
  {
    if d.day > 1 then Date(d.year, d.month, d.day - 1)
    else if d.month > 1 then Date(d.year, d.month - 1, DaysInMonth(d.year, d.month - 1))
    else Date(d.year - 1, 12, 31)
  }

  /** The day after and the day before undo each other. */
  lemma PrevNext(d: Date)
    requires ValidDate(d)
    ensures PrevDay(NextDay(d)) == d
    ensures NextDay(PrevDay(d)) == d
  {
  }

  /** The date `n` days after `d` (before it when `n` is negative). */
  function Step(d: Date, n: int): (r: Date)
    requires ValidDate(d)
    ensures ValidDate(r)
    decreases if n >= 0 then n else -n
  {
    if n == 0 then d
    else if n > 0 then Step(NextDay(d), n - 1)
    else Step(PrevDay(d), n + 1)
  }

  lemma StepFromNext(d: Date, n: int)
    requires ValidDate(d)
    ensures Step(NextDay(d), n - 1) == Step(d, n)
  {
    if n <= 0 {
      PrevNext(d);
    }
  }

  lemma StepFromPrev(d: Date, n: int)
    requires ValidDate(d)
    ensures Step(PrevDay(d), n + 1) == Step(d, n)
  {
    if n >= 0 {
      PrevNext(d);
    }
  }

  /** Stepping `a` days and then `b` days is stepping `a + b` days. */
  lemma {:induction false} StepAdd(d: Date, a: int, b: int)
    requires ValidDate(d)
    ensures Step(Step(d, a), b) == Step(d, a + b)
    decreases if a >= 0 then a else -a
  {
    if a > 0 {
      StepAdd(NextDay(d), a - 1, b);
      StepFromNext(d, a + b);
    } else if a < 0 {
      StepAdd(PrevDay(d), a + 1, b);
      StepFromPrev(d, a + b);
    }
  }

  /** Stepping forward moves later in the calendar, stepping back moves earlier. */
  lemma {:induction false} StepMoves(d: Date, n: int)
    requires ValidDate(d)
    ensures n > 0 ==> Before(d, Step(d, n))
    ensures n < 0 ==> Before(Step(d, n), d)
    decreases if n >= 0 then n else -n
  {
    if n > 1 {
      StepMoves(NextDay(d), n - 1);
    } else if n < -1 {
      StepMoves(PrevDay(d), n + 1);
    }
  }

  /** Inside one month, stepping from the first lands on the expected day. */
  lemma {:induction false} StepWithinMonth(y: int, m: int, j: nat)
    requires 1 <= m <= 12 && j < DaysInMonth(y, m)
    ensures ValidDate(Date(y, m, 1))
    ensures Step(Date(y, m, 1), j) == Date(y, m, 1 + j)
  {
    if j > 0 {
      StepWithinMonth(y, m, j - 1);
      StepAdd(Date(y, m, 1), j - 1, 1);
    }
  }

  /**
   * `new Date(Date.UTC(year, monthIndex, day))` read back in UTC: a year from
   * 0 to 99 means 1900 plus that year, the month index carries into the year,
   * and the day counts from the first of the resulting month (day 0 is the
   * last day of the month before).
   */
  function JsDateUtc(year: int, monthIndex: int, day: int): (r: Date)
    ensures ValidDate(r)
  {
    var y := if 0 <= year <= 99 then 1900 + year else year;
    var first := Date(y + monthIndex / 12, monthIndex % 12 + 1, 1);
    Step(first, day - 1)
  }

  /** `daysInMonth(y, m)`: the day of `Date.UTC(y, m, 0)`, the last day of month `m`. */
  function JsDaysInMonth(y: int, m: int): (n: int)
    requires 1 <= m <= 12
    ensures 0 <= y <= 99 ==> n == DaysInMonth(1900 + y, m)
    ensures !(0 <= y <= 99) ==> n == DaysInMonth(y, m)
  {
    var y' := if 0 <= y <= 99 then 1900 + y else y;
    var next := if m < 12 then Date(y', m + 1, 1) else Date(y' + 1, 1, 1);
    assert JsDateUtc(y, m, 0) == Step(next, -1) == PrevDay(next);
    JsDateUtc(y, m, 0).day
  }

  /** Passing a valid date's own fields (and a day offset) to `Date.UTC` steps from that date. */
  lemma JsDateUtcOfValid(d: Date, k: int)
    requires ValidDate(d) && !(0 <= d.year <= 99)
    ensures JsDateUtc(d.year, d.month - 1, d.day + k) == Step(d, k)
  {
    var first := Date(d.year, d.month, 1);
    var j := d.day - 1;
    JsDateUtcInMonth(d.year, d.month, d.day + k);
    assert d.day + k - 1 == j + k;
    StepWithinMonth(d.year, d.month, j);
    assert Date(d.year, d.month, 1 + j) == d;
    StepAdd(first, j, k);
  }

  /** With a month index inside the year, `Date.UTC` counts days from the first of that month. */
  lemma JsDateUtcInMonth(y: int, m: int, day: int)
    requires 1 <= m <= 12 && !(0 <= y <= 99)
    ensures ValidDate(Date(y, m, 1))
    ensures JsDateUtc(y, m - 1, day) == Step(Date(y, m, 1), day - 1)
  {
    assert (m - 1) / 12 == 0 && (m - 1) % 12 + 1 == m;
  }

  /** The regular expression `/^(\d{4})-(\d{2})-(\d{2})$/`. */
  predicate IsIsoDateShape(s: string) {
    |s| == 10 && s[4] == '-' && s[7] == '-'
    && AllDigits(s[..4]) && AllDigits(s[5..7]) && AllDigits(s[8..])
  }

  /** The three numbers of a `YYYY-MM-DD` string, not yet checked against the calendar. */
  function ParseIsoDate(s: string): (r: Option<Date>)
    ensures r.Some? <==> IsIsoDateShape(s)
    ensures r.Some? ==> 0 <= r.value.year <= 9999 && 0 <= r.value.month <= 99 && 0 <= r.value.day <= 99
  {
    if IsIsoDateShape(s) then
      Some(Date(DecimalValue(s[..4]), DecimalValue(s[5..7]), DecimalValue(s[8..])))
    else None
  }

  /** `yyyy + '-' + mm + '-' + dd`, the year unpadded and the month and day padded to two digits. */
  function FormatIsoDate(d: Date): string
    requires ValidDate(d)
  {
    IntToString(d.year) + "-" + Pad2(d.month) + "-" + Pad2(d.day)
  }

  /** A four-digit year is spelled with four digits and reads back as itself. */
  lemma YearSpelling(y: int)
    requires 1000 <= y <= 9999
    ensures |IntToString(y)| == 4 && AllDigits(IntToString(y))
    ensures DecimalValue(IntToString(y)) == y
  {
    NatToStringValue(y);
    FourDigitLength(y);
  }

  lemma TwoDigitLength(n: nat)
    requires 10 <= n <= 99
    ensures |NatToString(n)| == 2
  {
    assert n / 10 < 10;
  }

  lemma ThreeDigitLength(n: nat)
    requires 100 <= n <= 999
    ensures |NatToString(n)| == 3
  {
    TwoDigitLength(n / 10);
  }

  lemma FourDigitLength(n: nat)
    requires 1000 <= n <= 9999
    ensures |NatToString(n)| == 4
  {
    ThreeDigitLength(n / 10);
  }

  /**
   * `shiftDateString(dateString, days)`: a `YYYY-MM-DD` string moved by `days`
   * through `Date.UTC`; any other string comes back unchanged.
   */
  function ShiftDateString(s: string, days: int): (r: string)
    ensures !IsIsoDateShape(s) ==> r == s
  {
    match ParseIsoDate(s)
    case None => s
    case Some(p) => FormatIsoDate(JsDateUtc(p.year, p.month - 1, p.day + days))
  }

  // ---------------------------------------------------------------------------
  // Properties
  // ---------------------------------------------------------------------------

  /** Formatting a date with a four-digit year and parsing it back gives the date. */
  lemma ParseFormat(d: Date)
    requires ValidDate(d) && 1000 <= d.year <= 9999
    ensures ParseIsoDate(FormatIsoDate(d)) == Some(d)
  {
    YearSpelling(d.year);
    var s := FormatIsoDate(d);
    var ys := IntToString(d.year);
    assert s == ys + "-" + Pad2(d.month) + "-" + Pad2(d.day);
    assert s[..4] == ys;
    assert s[5..7] == Pad2(d.month);
    assert s[8..] == Pad2(d.day);
  }

  /** A well-formed date string whose year has no leading zero is the spelling of its own fields. */
  lemma FormatParse(s: string)
    requires IsIsoDateShape(s) && s[0] != '0'
    requires ValidDate(ParseIsoDate(s).value)
    ensures FormatIsoDate(ParseIsoDate(s).value) == s
  {
    var d := ParseIsoDate(s).value;
    NatToStringOfDigits(s[..4]);
    DecimalValuePositive(s[..4]);
    Pad2OfDigits(s[5..7]);
    Pad2OfDigits(s[8..]);
    assert s == s[..4] + "-" + s[5..7] + "-" + s[8..];
  }

  /** Shifting a valid date string steps its date. */
  lemma ShiftIsStep(d: Date, k: int)
    requires ValidDate(d) && 1000 <= d.year <= 9999
    ensures ShiftDateString(FormatIsoDate(d), k) == FormatIsoDate(Step(d, k))
  {
    ParseFormat(d);
    JsDateUtcOfValid(d, k);
  }

  /**
   * Shifting forward and back by the same number of days restores the date,
   * as long as both dates have four-digit years (a shorter year is printed
   * unpadded and no longer matches the date pattern).
   */
  lemma ShiftRoundTrip(d: Date, k: int)
    requires ValidDate(d) && 1000 <= d.year <= 9999 && 1000 <= Step(d, k).year <= 9999
    ensures ShiftDateString(ShiftDateString(FormatIsoDate(d), k), -k) == FormatIsoDate(d)
  {
    ThereAndBack(d, k);
  }

  /** The two legs of the round trip. */
  lemma ThereAndBack(d: Date, k: int)
    requires ValidDate(d) && 1000 <= d.year <= 9999 && 1000 <= Step(d, k).year <= 9999
    ensures ShiftDateString(FormatIsoDate(d), k) == FormatIsoDate(Step(d, k))
    ensures ShiftDateString(FormatIsoDate(Step(d, k)), -k) == FormatIsoDate(d)
  {
    var e := Step(d, k);
    ShiftIsStep(d, k);
    StepBack(d, k);
    assert Step(e, -k) == d;
    ShiftIsStep(e, -k);
    assert FormatIsoDate(Step(e, -k)) == FormatIsoDate(d);
  }

  lemma StepBack(d: Date, k: int)
    requires ValidDate(d)
    ensures Step(Step(d, k), -k) == d
  {
    StepAdd(d, k, -k);
  }

  /** The same round trip stated on the string itself. */
  lemma ShiftStringRoundTrip(s: string, k: int)
    requires IsIsoDateShape(s) && s[0] != '0' && ValidDate(ParseIsoDate(s).value)
    requires 1000 <= Step(ParseIsoDate(s).value, k).year <= 9999
    ensures ShiftDateString(ShiftDateString(s, k), -k) == s
  {
    var d := ParseIsoDate(s).value;
    FormatParse(s);
    DecimalValuePositive(s[..4]);
    assert Pow10(3) == 1000;
    ShiftRoundTrip(d, k);
  }

  /**
   * A year written `0000` to `0099` is read by `Date.UTC` as 1900 to 1999, so
   * shifting such a string lands in the twentieth century.
   */
  lemma TwoDigitYearShift(s: string, k: int)
    requires IsIsoDateShape(s) && 0 <= ParseIsoDate(s).value.year <= 99
    requires ValidDate(Date(1900 + ParseIsoDate(s).value.year, ParseIsoDate(s).value.month, ParseIsoDate(s).value.day))
    ensures ShiftDateString(s, k)
            == FormatIsoDate(Step(Date(1900 + ParseIsoDate(s).value.year, ParseIsoDate(s).value.month, ParseIsoDate(s).value.day), k))
  {
    var p := ParseIsoDate(s).value;
    ShiftOfParsed(s, k);
    TwoDigitYearStep(p, k);
  }

  /** `Date.UTC` on a two-digit year steps the same date in the twentieth century. */
  lemma TwoDigitYearStep(p: Date, k: int)
    requires 0 <= p.year <= 99 && ValidDate(Date(1900 + p.year, p.month, p.day))
    ensures JsDateUtc(p.year, p.month - 1, p.day + k) == Step(Date(1900 + p.year, p.month, p.day), k)
  {
    JsDateUtcTwoDigitYear(p.year, p.month - 1, p.day + k);
    JsDateUtcOfValid(Date(1900 + p.year, p.month, p.day), k);
  }

  /** A well-shaped string is shifted through `Date.UTC` on its own fields. */
  lemma ShiftOfParsed(s: string, k: int)
    requires IsIsoDateShape(s)
    ensures var p := ParseIsoDate(s).value;
      ShiftDateString(s, k) == FormatIsoDate(JsDateUtc(p.year, p.month - 1, p.day + k))
  {
  }

  /** `Date.UTC` reads a year from 0 to 99 as 1900 plus that year. */
  lemma JsDateUtcTwoDigitYear(year: int, monthIndex: int, day: int)
    requires 0 <= year <= 99
    ensures JsDateUtc(year, monthIndex, day) == JsDateUtc(1900 + year, monthIndex, day)
  {
  }
}
