/**
 * Local date-times of the schedule form: `YYYY-MM-DDTHH:MM` strings, the clock
 * reading "now" (passed in as a date and a minute of the day), the earliest
 * start the form allows (now plus three minutes) and the ordering used to
 * compare two local date-times.
 */
module LocalTime {
  import opened Maybe
  import opened Text
  import opened Calendar
  import opened Masks

  /** Minutes the earliest start lies after "now" (`MIN_FUTURE_MINUTES`). */
  const MinFutureMinutes := 3

  /** Minutes in a day. */
  const DayMinutes := 1440

  /** The reading of the scheduler's clock: a `YYYY-MM-DD` date and the minutes since its midnight. */
  datatype NowState = NowState(date: string, minutes: int)

  /** The minute of the day an `HH:MM`-shaped string spells. */
  function ClockMinutes(s: string): (v: nat)
    requires IsHmShape(s)
    ensures v == DecimalValue(s[..2]) * 60 + DecimalValue(s[3..])
    ensures IsValidTimeHHMM(s) ==> v < DayMinutes
  {
    DecimalValue(s[..2]) * 60 + DecimalValue(s[3..])
  }

  /** `minutesFromHM`: the minute of the day of an `HH:MM` string, with no range check; `None` for any other shape. */
  function MinutesFromHM(value: string): (r: Option<nat>)
    ensures r.Some? <==> IsHmShape(value)
    ensures r.Some? ==> r.value == ClockMinutes(value)
  {
    if IsHmShape(value) then Some(ClockMinutes(value)) else None
  }

  /** `${pad(h)}:${pad(m)}`. */
  function HourMinute(h: nat, m: nat): string {
    Pad2(h) + ":" + Pad2(m)
  }

  /** A padded hour and minute read back as the minute of the day they name. */
  lemma HourMinuteReadsBack(h: nat, m: nat)
    requires h < 100 && m < 100
    ensures IsHmShape(HourMinute(h, m))
    ensures MinutesFromHM(HourMinute(h, m)) == Some(h * 60 + m)
    ensures IsValidTimeHHMM(HourMinute(h, m)) <==> h < 24 && m < 60
  {
    var s := HourMinute(h, m);
    assert s[..2] == Pad2(h) && s[3..] == Pad2(m);
  }

  /** Every `HH:MM`-shaped string is the padded spelling of its own hour and minute. */
  lemma HourMinuteOfShape(s: string)
    requires IsHmShape(s)
    ensures DecimalValue(s[..2]) < 100 && DecimalValue(s[3..]) < 100
    ensures s == HourMinute(DecimalValue(s[..2]), DecimalValue(s[3..]))
  {
    Pad2OfDigits(s[..2]);
    Pad2OfDigits(s[3..]);
    assert s == s[..2] + ":" + s[3..];
  }

  /** The shape `/^(\d{4})-(\d{2})-(\d{2})T(\d{2}):(\d{2})$/`. */
  predicate IsValidLocalDateTime(value: string) {
    |value| == 16 && IsIsoDateShape(value[..10]) && value[10] == 'T' && IsHmShape(value[11..])
  }

  /** A date of the `YYYY-MM-DD` shape and a time of the `HH:MM` shape make a local date-time. */
  lemma LocalDateTimeOfParts(date: string, time: string)
    requires IsIsoDateShape(date) && IsHmShape(time)
    ensures IsValidLocalDateTime(date + "T" + time)
  {
    var s := date + "T" + time;
    assert s[..10] == date && s[11..] == time;
  }

  /**
   * `compareLocalDateTime`: 0 when either side is empty, otherwise the
   * strings' order (`localeCompare`, modelled as code-unit order).
   */
  function CompareLocalDateTime(a: string, b: string): (r: int)
    ensures -1 <= r <= 1
    ensures a != "" && b != "" ==> (r == 0 <==> a == b)
    ensures a == "" || b == "" ==> r == 0
  {
    if a == "" || b == "" then 0 else CompareStrings(a, b)
  }

  /** Swapping the arguments negates the comparison. */
  lemma CompareLocalDateTimeAntisymmetric(a: string, b: string)
    ensures CompareLocalDateTime(a, b) == -CompareLocalDateTime(b, a)
  {
    CompareStringsAntisymmetric(a, b);
  }

  /** Comparing two strings whose first parts have equal length decides on the first parts unless they agree. */
  lemma {:induction false} CompareAppend(x1: string, x2: string, y1: string, y2: string)
    requires |x1| == |y1|
    ensures CompareStrings(x1 + x2, y1 + y2) == if x1 == y1 then CompareStrings(x2, y2) else CompareStrings(x1, y1)
  {
    if x1 != [] {
      assert (x1 + x2)[1..] == x1[1..] + x2;
      assert (y1 + y2)[1..] == y1[1..] + y2;
      CompareAppend(x1[1..], x2, y1[1..], y2);
      if x1[0] == y1[0] && x1[1..] == y1[1..] {
        assert x1 == [x1[0]] + x1[1..] && y1 == [y1[0]] + y1[1..];
      }
    } else {
      assert x1 + x2 == x2 && y1 + y2 == y2;
    }
  }

  /** A character two strings share at the same position does not affect their order. */
  lemma {:induction false} CompareSkipAt(a: string, b: string, p: nat)
    requires |a| == |b| && p < |a| && a[p] == b[p]
    ensures CompareStrings(a, b) == CompareStrings(a[..p] + a[p + 1..], b[..p] + b[p + 1..])
  {
    var a', b' := a[..p] + a[p + 1..], b[..p] + b[p + 1..];
    if p == 0 {
      assert a' == a[1..] && b' == b[1..];
    } else if a[0] == b[0] {
      CompareSkipAt(a[1..], b[1..], p - 1);
      assert a'[1..] == a[1..][..p - 1] + a[1..][p..];
      assert b'[1..] == b[1..][..p - 1] + b[1..][p..];
    } else {
      assert a'[0] == a[0] && b'[0] == b[0];
    }
  }

  /** On digit strings of one length, code-unit order is numeric order. */
  lemma {:induction false} CompareDigits(a: string, b: string)
    requires |a| == |b| && AllDigits(a) && AllDigits(b)
    ensures CompareStrings(a, b) < 0 <==> DecimalValue(a) < DecimalValue(b)
    ensures CompareStrings(a, b) > 0 <==> DecimalValue(a) > DecimalValue(b)
  {
    if a != [] {
      var a', b' := a[..|a| - 1], b[..|b| - 1];
      AllDigitsSlice(a, 0, |a| - 1);
      AllDigitsSlice(b, 0, |b| - 1);
      CompareDigits(a', b');
      assert a == a' + [a[|a| - 1]] && b == b' + [b[|b| - 1]];
      CompareAppend(a', [a[|a| - 1]], b', [b[|b| - 1]]);
    }
  }

  /** The twelve digits `YYYYMMDDHHMM` of a local date-time. */
  function StampDigits(s: string): (r: string)
    requires IsValidLocalDateTime(s)
    ensures |r| == 12 && AllDigits(r)
  {
    AllDigitsConcat(s[..4], s[5..7]);
    AllDigitsConcat(s[..4] + s[5..7], s[8..10]);
    AllDigitsConcat(s[..4] + s[5..7] + s[8..10], s[11..13]);
    AllDigitsConcat(s[..4] + s[5..7] + s[8..10] + s[11..13], s[14..]);
    assert s[..10][..4] == s[..4] && s[..10][5..7] == s[5..7] && s[..10][8..] == s[8..10];
    assert s[11..][..2] == s[11..13] && s[11..][3..] == s[14..];
    s[..4] + s[5..7] + s[8..10] + s[11..13] + s[14..]
  }

  /** `s` without its character at position `p`. */
  function Skip(s: string, p: nat): (r: string)
    requires p < |s|
    ensures |r| == |s| - 1
  {
    s[..p] + s[p + 1..]
  }

  /** The stamp digits are what is left after dropping the four separators, last first. */
  lemma StampDigitsBySkips(s: string)
    requires IsValidLocalDateTime(s)
    ensures StampDigits(s) == Skip(Skip(Skip(Skip(s, 13), 10), 7), 4)
  {
    var s1 := Skip(s, 13);
    assert s1[..10] == s[..10] && s1[11..] == s[11..13] + s[14..];
    var s2 := Skip(s1, 10);
    assert s2 == s[..10] + s[11..13] + s[14..];
    assert s2[..7] == s[..7] && s2[8..] == s[8..10] + s[11..13] + s[14..];
    var s3 := Skip(s2, 7);
    assert s3 == s[..7] + s[8..10] + s[11..13] + s[14..];
    assert s3[..4] == s[..4] && s3[5..] == s[5..7] + s[8..10] + s[11..13] + s[14..];
  }

  /** Dropping the separators of two local date-times leaves their order unchanged. */
  lemma CompareWithoutSeparators(a: string, b: string)
    requires IsValidLocalDateTime(a) && IsValidLocalDateTime(b)
    ensures CompareStrings(a, b) == CompareStrings(StampDigits(a), StampDigits(b))
  {
    assert a[..10][4] == '-' && a[..10][7] == '-' && b[..10][4] == '-' && b[..10][7] == '-';
    assert a[11..][2] == ':' && b[11..][2] == ':';
    CompareSkipAt(a, b, 13);
    var a1, b1 := Skip(a, 13), Skip(b, 13);
    CompareSkipAt(a1, b1, 10);
    var a2, b2 := Skip(a1, 10), Skip(b1, 10);
    CompareSkipAt(a2, b2, 7);
    var a3, b3 := Skip(a2, 7), Skip(b2, 7);
    CompareSkipAt(a3, b3, 4);
    StampDigitsBySkips(a);
    StampDigitsBySkips(b);
  }

  /**
   * On two well-formed local date-times the comparison is chronological: it
   * follows the number `YYYYMMDDHHMM`, that is year, then month, day, hour and minute.
   */
  lemma CompareLocalDateTimeChronological(a: string, b: string)
    requires IsValidLocalDateTime(a) && IsValidLocalDateTime(b)
    ensures CompareLocalDateTime(a, b) < 0 <==> DecimalValue(StampDigits(a)) < DecimalValue(StampDigits(b))
    ensures CompareLocalDateTime(a, b) == 0 <==> a == b
  {
    CompareWithoutSeparators(a, b);
    CompareDigits(StampDigits(a), StampDigits(b));
  }

  /** `f` applied `n` times to `s`, the last application outermost. */
  function Iterate(f: string -> string, s: string, n: nat): string
    decreases n
  {
    if n == 0 then s else f(Iterate(f, s, n - 1))
  }

  /** A string `f` leaves alone is left alone however often `f` is applied. */
  lemma {:induction false} IterateFixed(f: string -> string, s: string, n: nat)
    requires f(s) == s
    ensures Iterate(f, s, n) == s
    decreases n
  {
    if n > 0 {
      IterateFixed(f, s, n - 1);
    }
  }

  /** One more application of `f` after reaching `x` reaches `f(x)`. */
  lemma IterateOnce(f: string -> string, s: string, n: nat, x: string, y: string)
    requires n > 0 && Iterate(f, s, n - 1) == x && f(x) == y
    ensures Iterate(f, s, n) == y
  {
  }

  /** One turn of the form's first loop: the date a day on. */
  function DayOn(date: string): string {
    ShiftDateString(date, 1)
  }

  /** One turn of the form's second loop: the date a day back. */
  function DayBack(date: string): string {
    ShiftDateString(date, -1)
  }

  /** The date `k` days away, one `shiftDateString` at a time, as the form's loops walk it. */
  function ShiftTimes(date: string, k: int): string {
    if k >= 0 then Iterate(DayOn, date, k) else Iterate(DayBack, date, -k)
  }

  /** A string that is not a `YYYY-MM-DD` date is left as it is however far it is walked. */
  lemma ShiftTimesOfMalformed(date: string, k: int)
    requires !IsIsoDateShape(date)
    ensures ShiftTimes(date, k) == date
  {
    if k >= 0 {
      IterateFixed(DayOn, date, k);
    } else {
      IterateFixed(DayBack, date, -k);
    }
  }

  /** One more turn of the first loop shifts the walked date one day on. */
  lemma ShiftTimesDayOn(date: string, k: int)
    requires k >= 0
    ensures ShiftTimes(date, k + 1) == ShiftDateString(ShiftTimes(date, k), 1)
  {
  }

  /** One more turn of the second loop shifts the walked date one day back, also from the start. */
  lemma ShiftTimesDayBack(date: string, k: int)
    requires k <= 0
    ensures ShiftTimes(date, k - 1) == ShiftDateString(ShiftTimes(date, k), -1)
  {
  }

  /** Dates after `d` are not in an earlier year. */
  lemma YearsAfter(d: Date, k: int)
    requires ValidDate(d)
    ensures k >= 0 ==> d.year <= Step(d, k).year
    ensures k <= 0 ==> Step(d, k).year <= d.year
  {
    StepMoves(d, k);
  }

  /** Walking `k` single days from a four-digit-year date lands on the date `k` days away. */
  lemma ShiftTimesIsStep(d: Date, k: int)
    requires ValidDate(d) && 1000 <= d.year <= 9999 && 1000 <= Step(d, k).year <= 9999
    ensures ShiftTimes(FormatIsoDate(d), k) == FormatIsoDate(Step(d, k))
  {
    if k >= 0 {
      ForwardIsStep(d, k, Step(d, k));
    } else {
      BackwardIsStep(d, -k, Step(d, k));
    }
  }

  lemma {:induction false} ForwardIsStep(d: Date, n: nat, t: Date)
    requires ValidDate(d) && 1000 <= d.year <= 9999 && t == Step(d, n) && 1000 <= t.year <= 9999
    ensures Iterate(DayOn, FormatIsoDate(d), n) == FormatIsoDate(t)
    decreases n
  {
    if n > 0 {
      LastDayForward(d, n, t);
      ForwardIsStep(d, n - 1, Step(d, n - 1));
      ForwardLastTurn(d, n, Step(d, n - 1), t);
    }
  }

  /** The last turn of a forward walk that has reached the day before `t` reaches `t`. */
  lemma ForwardLastTurn(d: Date, n: nat, p: Date, t: Date)
    requires ValidDate(d) && n > 0 && ValidDate(p) && 1000 <= p.year <= 9999 && t == Step(p, 1)
    requires Iterate(DayOn, FormatIsoDate(d), n - 1) == FormatIsoDate(p)
    ensures Iterate(DayOn, FormatIsoDate(d), n) == FormatIsoDate(t)
  {
    DayOnIsStep(p, t);
    IterateOnce(DayOn, FormatIsoDate(d), n, FormatIsoDate(p), FormatIsoDate(t));
  }

  lemma {:induction false} BackwardIsStep(d: Date, n: nat, t: Date)
    requires ValidDate(d) && 1000 <= d.year <= 9999 && t == Step(d, -(n as int)) && 1000 <= t.year <= 9999
    ensures Iterate(DayBack, FormatIsoDate(d), n) == FormatIsoDate(t)
    decreases n
  {
    if n > 0 {
      LastDayBackward(d, n, t);
      BackwardIsStep(d, n - 1, Step(d, -(n - 1)));
      BackwardLastTurn(d, n, Step(d, -(n - 1)), t);
    }
  }

  /** The last turn of a backward walk that has reached the day after `t` reaches `t`. */
  lemma BackwardLastTurn(d: Date, n: nat, p: Date, t: Date)
    requires ValidDate(d) && n > 0 && ValidDate(p) && 1000 <= p.year <= 9999 && t == Step(p, -1)
    requires Iterate(DayBack, FormatIsoDate(d), n - 1) == FormatIsoDate(p)
    ensures Iterate(DayBack, FormatIsoDate(d), n) == FormatIsoDate(t)
  {
    DayBackIsStep(p, t);
    IterateOnce(DayBack, FormatIsoDate(d), n, FormatIsoDate(p), FormatIsoDate(t));
  }

  /** One turn of the first loop on a four-digit-year date is the next calendar day. */
  lemma DayOnIsStep(p: Date, t: Date)
    requires ValidDate(p) && 1000 <= p.year <= 9999 && t == Step(p, 1)
    ensures DayOn(FormatIsoDate(p)) == FormatIsoDate(t)
  {
    ShiftIsStep(p, 1);
  }

  /** One turn of the second loop on a four-digit-year date is the previous calendar day. */
  lemma DayBackIsStep(p: Date, t: Date)
    requires ValidDate(p) && 1000 <= p.year <= 9999 && t == Step(p, -1)
    ensures DayBack(FormatIsoDate(p)) == FormatIsoDate(t)
  {
    ShiftIsStep(p, -1);
  }

  /** The day before the end of a forward walk between four-digit-year dates has a four-digit year too. */
  lemma LastDayForward(d: Date, n: nat, t: Date)
    requires ValidDate(d) && 1000 <= d.year <= 9999 && t == Step(d, n) && 1000 <= t.year <= 9999 && n > 0
    ensures 1000 <= Step(d, n - 1).year <= 9999 && Step(Step(d, n - 1), 1) == t
  {
    StepAdd(d, n - 1, 1);
    YearsAfter(d, n - 1);
    YearsAfter(Step(d, n - 1), 1);
  }

  /** The day after the end of a backward walk between four-digit-year dates has a four-digit year too. */
  lemma LastDayBackward(d: Date, n: nat, t: Date)
    requires ValidDate(d) && 1000 <= d.year <= 9999 && t == Step(d, -(n as int)) && 1000 <= t.year <= 9999 && n > 0
    ensures 1000 <= Step(d, -(n - 1)).year <= 9999 && Step(Step(d, -(n - 1)), -1) == t
  {
    StepAdd(d, -(n - 1), -1);
    YearsAfter(d, -(n - 1));
    YearsAfter(Step(d, -(n - 1)), -1);
  }

  /** The `HH:MM` spelling of a minute of the day. */
  function ClockTime(minutes: nat): (r: string)
    requires minutes < DayMinutes
    ensures IsValidTimeHHMM(r) && ClockMinutes(r) == minutes
  {
    HourMinuteReadsBack(minutes / 60, minutes % 60);
    HourMinute(minutes / 60, minutes % 60)
  }

  /**
   * `formatLocalDateTimeFromState`: the earliest start the form allows, now plus
   * three minutes, carried across midnight by shifting the date one day per
   * whole day of overflow (or underflow). The clock part shows the remaining
   * minute of the day, and the date moves by the number of whole days.
   */
  method FormatLocalDateTimeFromState(now: NowState) returns (r: string)
    ensures var total := now.minutes + MinFutureMinutes;
      r == ShiftTimes(now.date, total / DayMinutes) + "T" + ClockTime(total % DayMinutes)
  {
    var total := now.minutes + MinFutureMinutes;
    var totalMinutes, datePart, days := CarryOverflow(total, now.date);
    totalMinutes, datePart, days := CarryUnderflow(totalMinutes, datePart, days, total, now.date);
    DayDivision(total, days, totalMinutes);
    r := datePart + "T" + ClockTime(totalMinutes);
  }

  /**
   * The form's first loop: while a whole day or more is left, move the date a
   * day on. `target` is the number of days the loop will move, so the walk
   * still ahead of `datePart` always ends where the whole walk from `date` does.
   */
  method CarryOverflow(total: int, date: string) returns (minutes: int, datePart: string, ghost days: int)
    ensures days * 1440 + minutes == total && minutes < DayMinutes
    ensures days >= 0 && datePart == ShiftTimes(date, days)
    ensures days > 0 ==> minutes >= 0
  {
    minutes, datePart, days := total, date, 0;
    while minutes >= DayMinutes
      invariant days * 1440 + minutes == total
      invariant days >= 0 && (days > 0 ==> minutes >= 0)
      invariant datePart == ShiftTimes(date, days)
      decreases minutes
    {
      ShiftTimesDayOn(date, days);
      minutes := minutes - DayMinutes;
      datePart := ShiftDateString(datePart, 1);
      days := days + 1;
    }
  }

  /**
   * The form's second loop: while the minute is negative, move the date a day
   * back. A negative minute is only left when the first loop moved nothing.
   */
  method CarryUnderflow(minutes0: int, datePart0: string, ghost days0: int, ghost total: int, ghost date: string)
    returns (minutes: int, datePart: string, ghost days: int)
    requires days0 * 1440 + minutes0 == total && minutes0 < DayMinutes
    requires days0 >= 0 && datePart0 == ShiftTimes(date, days0)
    requires days0 > 0 ==> minutes0 >= 0
    ensures days * 1440 + minutes == total && 0 <= minutes < DayMinutes
    ensures datePart == ShiftTimes(date, days)
  {
    minutes, datePart, days := minutes0, datePart0, days0;
    while minutes < 0
      invariant days * 1440 + minutes == total
      invariant minutes < DayMinutes && (minutes < 0 ==> days <= 0)
      invariant datePart == ShiftTimes(date, days)
      decreases -minutes
    {
      ShiftTimesDayBack(date, days);
      minutes := minutes + DayMinutes;
      datePart := ShiftDateString(datePart, -1);
      days := days - 1;
    }
  }

  /** Whole days and the minute of the day are the quotient and remainder by the length of a day. */
  lemma DayDivision(total: int, days: int, minutes: int)
    requires days * 1440 + minutes == total && 0 <= minutes < DayMinutes
    ensures days == total / DayMinutes && minutes == total % DayMinutes
  {
  }

}
