/**
 * The schedule form's start-time picker: the fixed list of quarter-hour
 * slots, the slots still open for the chosen start date given "now", and the
 * repair of the selected time when the list changes.
 */
module Slots {
  import opened Maybe
  import opened Text
  import opened Masks
  import opened LocalTime

  /** Every element is a valid `HH:MM` time, and their minutes of the day strictly increase. */
  predicate Ascending(opts: seq<string>) {
    && (forall i :: 0 <= i < |opts| ==> IsValidTimeHHMM(opts[i]))
    && (forall i, j :: 0 <= i < j < |opts| ==> ClockMinutes(opts[i]) < ClockMinutes(opts[j]))
  }

  /** Joining two ascending lists whose every minute in the first is below every minute in the second. */
  lemma AscendingConcat(a: seq<string>, b: seq<string>, bound: int)
    requires Ascending(a) && Ascending(b)
    requires forall i :: 0 <= i < |a| ==> ClockMinutes(a[i]) < bound
    requires forall i :: 0 <= i < |b| ==> bound <= ClockMinutes(b[i])
    ensures Ascending(a + b)
  {
    var c := a + b;
    forall i | 0 <= i < |c| ensures IsValidTimeHHMM(c[i]) {
      if i >= |a| { assert c[i] == b[i - |a|]; }
    }
    forall i, j | 0 <= i < j < |c| ensures ClockMinutes(c[i]) < ClockMinutes(c[j]) {
      if j < |a| {
      } else if i >= |a| {
        assert c[i] == b[i - |a|] && c[j] == b[j - |a|];
      } else {
        assert c[j] == b[j - |a|];
      }
    }
  }

  /** Every element is an `HH:MM` time whose minute of the day lies in `[lo, hi)`. */
  predicate Within(opts: seq<string>, lo: int, hi: int) {
    forall i :: 0 <= i < |opts| ==> IsHmShape(opts[i]) && lo <= ClockMinutes(opts[i]) < hi
  }

  /** A valid time at minute `lo` put in front of an ascending list that starts no earlier than `next > lo`. */
  lemma AscendingCons(x: string, rest: seq<string>, lo: int, next: int, hi: int)
    requires IsValidTimeHHMM(x) && ClockMinutes(x) == lo && lo < next && lo < hi
    requires Ascending(rest) && Within(rest, next, hi)
    ensures Ascending([x] + rest) && Within([x] + rest, lo, hi)
  {
    var r := [x] + rest;
    assert forall i :: 1 <= i < |r| ==> r[i] == rest[i - 1];
  }

  /** The inner loop of `generateTimeOptions`: hour `h`, minutes `m`, `m + step`, ... below 60. */
  function HourSlots(h: nat, m: nat, step: nat): seq<string>
    requires h < 24 && step > 0
    decreases 60 - m
  {
    if m >= 60 then [] else [HourMinute(h, m)] + HourSlots(h, m + step, step)
  }

  /** The slots of an hour ascend and stay inside the hour. */
  lemma {:induction false} HourSlotsAscending(h: nat, m: nat, step: nat)
    requires h < 24 && step > 0
    ensures Ascending(HourSlots(h, m, step)) && Within(HourSlots(h, m, step), h * 60 + m, h * 60 + 60)
    decreases 60 - m
  {
    if m < 60 {
      HourSlotsAscending(h, m + step, step);
      HourMinuteReadsBack(h, m);
      AscendingCons(HourMinute(h, m), HourSlots(h, m + step, step), h * 60 + m, h * 60 + m + step, h * 60 + 60);
    }
  }

  /** The outer loop of `generateTimeOptions`: the slots of hours `h` to 23. */
  function DaySlots(h: nat, step: nat): seq<string>
    requires h <= 24 && step > 0
    decreases 24 - h
  {
    if h == 24 then [] else HourSlots(h, 0, step) + DaySlots(h + 1, step)
  }

  /** The slots of hours `h` to 23 ascend and start no earlier than hour `h`. */
  lemma {:induction false} DaySlotsAscending(h: nat, step: nat)
    requires h <= 24 && step > 0
    ensures Ascending(DaySlots(h, step)) && Within(DaySlots(h, step), h * 60, DayMinutes)
    decreases 24 - h
  {
    if h < 24 {
      var first := HourSlots(h, 0, step);
      var rest := DaySlots(h + 1, step);
      HourSlotsAscending(h, 0, step);
      DaySlotsAscending(h + 1, step);
      AscendingConcat(first, rest, h * 60 + 60);
      WithinConcat(first, rest, h * 60, h * 60 + 60, DayMinutes);
    }
  }

  lemma WithinConcat(a: seq<string>, b: seq<string>, lo: int, mid: int, hi: int)
    requires lo <= mid <= hi && Within(a, lo, mid) && Within(b, mid, hi)
    ensures Within(a + b, lo, hi)
  {
    var c := a + b;
    assert forall i :: |a| <= i < |c| ==> c[i] == b[i - |a|];
  }

  /** `generateTimeOptions(step)`: every `step` minutes of every hour, in order through the day. */
  function GenerateTimeOptions(step: nat): (r: seq<string>)
    requires step > 0
    ensures Ascending(r)
  {
    DaySlotsAscending(0, step);
    DaySlots(0, step)
  }

  /** `TIME_OPTIONS`: the quarter hours of the day. */
  const TimeOptions := GenerateTimeOptions(15)

  /** Four quarter hours in an hour. */
  lemma HourSlotsCount(h: nat)
    requires h < 24
    ensures |HourSlots(h, 0, 15)| == 4
  {
    assert |HourSlots(h, 45, 15)| == 1;
    assert |HourSlots(h, 30, 15)| == 2;
    assert |HourSlots(h, 15, 15)| == 3;
  }

  lemma {:induction false} DaySlotsCount(h: nat)
    requires h <= 24
    ensures |DaySlots(h, 15)| == (24 - h) * 4
    decreases 24 - h
  {
    if h < 24 {
      HourSlotsCount(h);
      DaySlotsCount(h + 1);
    }
  }

  /** The quarter-hour list has 96 slots. */
  lemma TimeOptionsCount()
    ensures |TimeOptions| == 96
  {
    DaySlotsCount(0);
  }

  /** A whole number of hours plus a multiple of 15 minutes is a multiple of 15 minutes. */
  lemma QuarterOfHour(h: nat, m: nat)
    requires m % 15 == 0
    ensures (h * 60 + m) % 15 == 0
  {
    assert h * 60 + m == 15 * (4 * h + m / 15);
  }

  /** A multiple of 15 minutes past a whole hour leaves a minute that is a multiple of 15. */
  lemma MinuteOfQuarter(c: nat, h: nat, m: nat)
    requires c == h * 60 + m && c % 15 == 0
    ensures m % 15 == 0
  {
    var k := c / 15;
    assert m == 15 * (k - 4 * h);
  }

  /** Every quarter-hour slot of an hour falls on a multiple of 15 minutes. */
  lemma {:induction false} HourSlotsOnQuarters(h: nat, m: nat, t: string)
    requires h < 24 && m % 15 == 0 && t in HourSlots(h, m, 15)
    ensures IsHmShape(t) && ClockMinutes(t) % 15 == 0
    decreases 60 - m
  {
    if m < 60 {
      HourMinuteReadsBack(h, m);
      if t != HourMinute(h, m) {
        HourSlotsOnQuarters(h, m + 15, t);
      } else {
        QuarterOfHour(h, m);
      }
    }
  }

  lemma {:induction false} DaySlotsOnQuarters(h: nat, t: string)
    requires h <= 24 && t in DaySlots(h, 15)
    ensures IsHmShape(t) && ClockMinutes(t) % 15 == 0
    decreases 24 - h
  {
    if h < 24 {
      if t in HourSlots(h, 0, 15) {
        HourSlotsOnQuarters(h, 0, t);
      } else {
        DaySlotsOnQuarters(h + 1, t);
      }
    }
  }

  /** The slot for minute `m2` of hour `h` is in the hour's list from `m` on, when `m2` is a later quarter. */
  lemma {:induction false} HourSlotsContains(h: nat, m: nat, m2: nat)
    requires h < 24 && m <= m2 < 60 && (m2 - m) % 15 == 0
    ensures HourMinute(h, m2) in HourSlots(h, m, 15)
    decreases 60 - m
  {
    var rest := HourSlots(h, m + 15, 15);
    assert HourSlots(h, m, 15) == [HourMinute(h, m)] + rest;
    if m < m2 {
      HourSlotsContains(h, m + 15, m2);
      assert HourMinute(h, m2) in rest;
    }
  }

  lemma {:induction false} DaySlotsContains(h: nat, h2: nat, m2: nat)
    requires h <= h2 < 24 && m2 < 60 && m2 % 15 == 0
    ensures HourMinute(h2, m2) in DaySlots(h, 15)
    decreases 24 - h
  {
    if h < h2 {
      DaySlotsContains(h + 1, h2, m2);
    } else {
      HourSlotsContains(h2, 0, m2);
    }
  }

  /** The quarter-hour list holds exactly the valid `HH:MM` times on a multiple of 15 minutes. */
  lemma TimeOptionsExact(t: string)
    ensures t in TimeOptions <==> IsValidTimeHHMM(t) && ClockMinutes(t) % 15 == 0
  {
    if t in TimeOptions {
      DaySlotsOnQuarters(0, t);
    }
    if IsValidTimeHHMM(t) && ClockMinutes(t) % 15 == 0 {
      HourMinuteOfShape(t);
      var h, m := DecimalValue(t[..2]), DecimalValue(t[3..]);
      MinuteOfQuarter(ClockMinutes(t), h, m);
      DaySlotsContains(0, h, m);
    }
  }

  /** The earliest minute of the day open for booking: now plus three minutes on today's date, any minute on other dates. */
  function MinMinutes(startDate: string, now: NowState): int {
    if startDate == now.date then now.minutes + MinFutureMinutes else 0
  }

  /** The tail of an ascending list ascends. */
  lemma AscendingTail(opts: seq<string>)
    requires Ascending(opts) && |opts| > 0
    ensures Ascending(opts[1..])
  {
    forall i, j | 0 <= i < j < |opts| - 1 ensures ClockMinutes(opts[1..][i]) < ClockMinutes(opts[1..][j]) {
      assert opts[1..][i] == opts[i + 1] && opts[1..][j] == opts[j + 1];
    }
  }

  /** The head of an ascending list is earlier than anything drawn from its tail. */
  lemma HeadBelowRest(opts: seq<string>, rest: seq<string>)
    requires Ascending(opts) && |opts| > 0
    requires forall t :: t in rest ==> t in opts[1..]
    ensures forall i :: 0 <= i < |rest| ==> IsHmShape(rest[i]) && ClockMinutes(opts[0]) < ClockMinutes(rest[i])
  {
    forall i | 0 <= i < |rest| ensures IsHmShape(rest[i]) && ClockMinutes(opts[0]) < ClockMinutes(rest[i]) {
      assert rest[i] in opts[1..];
      var j :| 0 <= j < |opts[1..]| && opts[1..][j] == rest[i];
      assert opts[1..][j] == opts[j + 1];
    }
  }

  /** The slots of `opts` whose minute of the day is at least `min`, in their order. */
  function AtOrAfter(opts: seq<string>, min: int): (r: seq<string>)
    requires Ascending(opts)
    ensures Ascending(r)
    ensures forall t :: t in r <==> t in opts && ClockMinutes(t) >= min
  {
    if opts == [] then []
    else
      AscendingTail(opts);
      var rest := AtOrAfter(opts[1..], min);
      assert forall t :: t in opts <==> t == opts[0] || t in opts[1..];
      if ClockMinutes(opts[0]) >= min then
        HeadBelowRest(opts, rest);
        AscendingConcat([opts[0]], rest, ClockMinutes(opts[0]) + 1);
        [opts[0]] + rest
      else
        rest
  }

  /**
   * `availableTimeOptions`: no slots before a start date is chosen; otherwise
   * the quarter hours, from now plus three minutes on when the start date is
   * today and all of them on any other date.
   */
  function AvailableTimeOptions(startDate: string, now: NowState): (r: seq<string>)
    ensures Ascending(r)
    ensures startDate == "" ==> r == []
    ensures startDate != "" ==> forall t :: t in r <==>
      t in TimeOptions && (startDate == now.date ==> ClockMinutes(t) >= now.minutes + MinFutureMinutes)
  {
    if startDate == "" then []
    else AtOrAfter(TimeOptions, MinMinutes(startDate, now))
  }

  /**
   * `isTimeValid`: a start date and an `HH:MM` time are chosen, and the date
   * is later than today or the time is at least now plus three minutes.
   * Dates compare as strings.
   */
  function IsTimeValid(startDate: string, time: string, now: NowState): (r: bool)
    ensures r ==> startDate != "" && time != "" && IsHmShape(time)
    ensures startDate != "" && IsHmShape(time) && CompareStrings(startDate, now.date) > 0 ==> r
    ensures startDate != "" && IsHmShape(time) && CompareStrings(startDate, now.date) <= 0 ==>
      (r <==> ClockMinutes(time) >= now.minutes + MinFutureMinutes)
  {
    if startDate == "" then false
    else if time == "" then false
    else match MinutesFromHM(time)
      case None => false
      case Some(minutes) =>
        if CompareStrings(startDate, now.date) > 0 then true
        else minutes >= now.minutes + MinFutureMinutes
  }

  /** On today's or a later start date, every slot on offer passes the time check. */
  lemma AvailableSlotsAreValid(startDate: string, now: NowState, t: string)
    requires t in AvailableTimeOptions(startDate, now)
    requires CompareStrings(startDate, now.date) >= 0
    ensures IsTimeValid(startDate, t, now)
  {
  }

  /**
   * `ensureValidTimeSelection`: the form's time after the slot list changes.
   * Empty without a start date or without open slots; the earliest open slot
   * when the current time is empty or not on offer; otherwise the current time.
   * (The source's final check, a current time earlier than the minimum, can
   * never fire once the time is known to be on offer.)
   */
  function EnsureValidTimeSelection(startDate: string, time: string, now: NowState): (r: string)
    ensures var opts := AvailableTimeOptions(startDate, now);
      && (r == "" <==> opts == [])
      && (r != "" ==> r in opts)
      && (time in opts ==> r == time)
      && (r != time && r != "" ==> forall t :: t in opts ==> ClockMinutes(r) <= ClockMinutes(t))
  {
    if startDate == "" then ""
    else
      var options := AvailableTimeOptions(startDate, now);
      if |options| == 0 then ""
      else
        var earliest := options[0];
        if time == "" || time !in options then earliest
        else
          var currentMinutes := MinutesFromHM(time);
          if currentMinutes.Some? && currentMinutes.value < MinMinutes(startDate, now) then earliest
          else time
  }

  /** The earliest slot on offer is the list's first, as the list ascends. */
  lemma FirstIsEarliest(opts: seq<string>, t: string)
    requires Ascending(opts) && |opts| > 0 && t in opts
    ensures ClockMinutes(opts[0]) <= ClockMinutes(t)
  {
  }

  /** Repairing the selection twice changes nothing more. */
  lemma EnsureValidTimeSelectionIdempotent(startDate: string, time: string, now: NowState)
    ensures var r := EnsureValidTimeSelection(startDate, time, now);
      EnsureValidTimeSelection(startDate, r, now) == r
  {
  }
}
