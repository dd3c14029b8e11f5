/**
 * Keystroke masks and validators of the schedule form: the `DD/MM/YYYY` date
 * mask and validator, the `HH:MM` masks (plain and strict) and validator, and
 * the schedule-name sanitiser.
 */
module Masks {
  import opened Text
  import opened Calendar
  import opened Maybe

  /** `s.slice(0, n)`. */
  function Prefix(s: string, n: nat): (r: string)
    ensures |r| <= n && StartsWith(s, r)
    ensures |s| <= n ==> r == s
    ensures |s| > n ==> |r| == n
  {
    if |s| <= n then s else s[..n]
  }

  lemma PrefixOfDigits(s: string, n: nat)
    requires AllDigits(s)
    ensures AllDigits(Prefix(s, n))
  {
    if |s| > n { AllDigitsSlice(s, 0, n); }
  }

  // ---------------------------------------------------------------------------
  // DD/MM/YYYY
  // ---------------------------------------------------------------------------

  /** `maskDateDDMMYYYY`: the first eight digits, with `/` after the day and the month as they fill in. */
  function MaskDateDDMMYYYY(raw: string): (r: string)
    ensures |r| <= 10
  {
    var d := Prefix(OnlyDigits(raw), 8);
    if |d| <= 2 then d
    else if |d| <= 4 then d[..2] + "/" + d[2..]
    else d[..2] + "/" + d[2..4] + "/" + d[4..]
  }

  /** The shape `/^(\d{2})\/(\d{2})\/(\d{4})$/`. */
  predicate IsDmyShape(s: string) {
    |s| == 10 && s[2] == '/' && s[5] == '/'
    && AllDigits(s[..2]) && AllDigits(s[3..5]) && AllDigits(s[6..])
  }

  /** The day, month and year a `DD/MM/YYYY` string spells. */
  function DmyFields(s: string): (d: Date)
    requires IsDmyShape(s)
    ensures 0 <= d.day <= 99 && 0 <= d.month <= 99 && 0 <= d.year <= 9999
  {
    Date(DecimalValue(s[6..]), DecimalValue(s[3..5]), DecimalValue(s[..2]))
  }

  /**
   * `isValidDateDMY`, which bounds the day by `daysInMonth` (the last day of
   * the month as `Date.UTC` computes it): exactly the `DD/MM/YYYY` strings
   * naming a Gregorian date in the years 1900 to 9999.
   */
  function IsValidDateDMY(s: string): (r: bool)
    ensures r <==> IsDmyShape(s) && 1900 <= DmyFields(s).year && ValidDate(DmyFields(s))
  {
    if !IsDmyShape(s) then false
    else
      var f := DmyFields(s);
      if f.year < 1900 || f.year > 9999 then false
      else if f.month < 1 || f.month > 12 then false
      else if f.day < 1 || f.day > JsDaysInMonth(f.year, f.month) then false
      else true
  }

  /** `DD/MM/YYYY` spelling of a date. */
  function FormatDmy(d: Date): string
    requires ValidDate(d) && 1000 <= d.year <= 9999
  {
    Pad2(d.day) + "/" + Pad2(d.month) + "/" + IntToString(d.year)
  }

  /** Every Gregorian date from 1900 to 9999 has an accepted spelling, which reads back as the date. */
  lemma FormatDmyValid(d: Date)
    requires ValidDate(d) && 1900 <= d.year <= 9999
    ensures IsValidDateDMY(FormatDmy(d)) && DmyFields(FormatDmy(d)) == d
  {
    YearSpelling(d.year);
    var s := FormatDmy(d);
    assert s[..2] == Pad2(d.day);
    assert s[3..5] == Pad2(d.month);
    assert s[6..] == IntToString(d.year);
  }

  /** The digits of a `DD/MM/YYYY`-shaped string are the string without its slashes. */
  lemma DmyDigits(s: string)
    requires IsDmyShape(s)
    ensures OnlyDigits(s) == s[..2] + s[3..5] + s[6..]
  {
    assert s == s[..2] + "/" + s[3..5] + "/" + s[6..];
    OnlyDigitsAppend(s[..2] + "/" + s[3..5] + "/", s[6..]);
    OnlyDigitsAppend(s[..2] + "/" + s[3..5], "/");
    OnlyDigitsAppend(s[..2] + "/", s[3..5]);
    OnlyDigitsAppend(s[..2], "/");
  }

  /** A well-formed date is left alone by the mask. */
  lemma MaskDateFixesShape(s: string)
    requires IsDmyShape(s)
    ensures MaskDateDDMMYYYY(s) == s
  {
    DmyDigits(s);
    var d := s[..2] + s[3..5] + s[6..];
    assert d[..2] == s[..2] && d[2..4] == s[3..5] && d[4..] == s[6..];
    assert s == s[..2] + "/" + s[3..5] + "/" + s[6..];
  }

  /** The mask keeps the first eight digits of its input, in order, and drops everything else. */
  lemma MaskDateDigits(raw: string)
    ensures OnlyDigits(MaskDateDDMMYYYY(raw)) == Prefix(OnlyDigits(raw), 8)
  {
    var d := Prefix(OnlyDigits(raw), 8);
    PrefixOfDigits(OnlyDigits(raw), 8);
    if 2 < |d| <= 4 {
      OneSlashDigits(d);
    } else if |d| > 4 {
      TwoSlashesDigits(d);
    }
  }

  /** Digits with one slash put in after the second keep their digits. */
  lemma OneSlashDigits(d: string)
    requires AllDigits(d) && |d| > 2
    ensures OnlyDigits(d[..2] + "/" + d[2..]) == d
  {
    AllDigitsSlice(d, 0, 2);
    AllDigitsSlice(d, 2, |d|);
    OnlyDigitsAppend(d[..2] + "/", d[2..]);
    OnlyDigitsAppend(d[..2], "/");
    assert d[..2] + d[2..] == d;
  }

  /** Digits with slashes put in after the second and the fourth keep their digits. */
  lemma TwoSlashesDigits(d: string)
    requires AllDigits(d) && |d| > 4
    ensures OnlyDigits(d[..2] + "/" + d[2..4] + "/" + d[4..]) == d
  {
    AllDigitsSlice(d, 0, 2);
    AllDigitsSlice(d, 2, 4);
    AllDigitsSlice(d, 4, |d|);
    OnlyDigitsAppend(d[..2] + "/" + d[2..4] + "/", d[4..]);
    OnlyDigitsAppend(d[..2] + "/" + d[2..4], "/");
    OnlyDigitsAppend(d[..2] + "/", d[2..4]);
    OnlyDigitsAppend(d[..2], "/");
    assert d[..2] + d[2..4] + d[4..] == d;
  }

  /** Masking an already masked value changes nothing. */
  lemma {:induction false} MaskDateIdempotent(raw: string)
    ensures MaskDateDDMMYYYY(MaskDateDDMMYYYY(raw)) == MaskDateDDMMYYYY(raw)
  {
    MaskDateDigits(raw);
    PrefixOfDigits(OnlyDigits(raw), 8);
  }

  // ---------------------------------------------------------------------------
  // HH:MM
  // ---------------------------------------------------------------------------

  /** The shape `/^(\d{2}):(\d{2})$/`. */
  predicate IsHmShape(s: string) {
    |s| == 5 && s[2] == ':' && AllDigits(s[..2]) && AllDigits(s[3..])
  }

  /** `isValidTimeHHMM`: the shape, an hour up to 23 and a minute up to 59. */
  predicate IsValidTimeHHMM(s: string) {
    IsHmShape(s) && DecimalValue(s[..2]) <= 23 && DecimalValue(s[3..]) <= 59
  }

  /** `maskTimeHHMM`: the first four digits, with `:` after the hour once minutes start. */
  function MaskTimeHHMM(raw: string): (r: string)
    ensures |r| <= 5
  {
    var n := Prefix(OnlyDigits(raw), 4);
    if |n| <= 2 then n else n[..2] + ":" + n[2..]
  }

  /** The plain mask keeps the first four digits, in order. */
  lemma MaskTimeDigits(raw: string)
    ensures OnlyDigits(MaskTimeHHMM(raw)) == Prefix(OnlyDigits(raw), 4)
  {
    var n := Prefix(OnlyDigits(raw), 4);
    PrefixOfDigits(OnlyDigits(raw), 4);
    if |n| > 2 {
      AllDigitsSlice(n, 0, 2);
      AllDigitsSlice(n, 2, |n|);
      OnlyDigitsAppend(n[..2] + ":", n[2..]);
      OnlyDigitsAppend(n[..2], ":");
      assert n[..2] + n[2..] == n;
    }
  }

  /** Masking an already masked time changes nothing. */
  lemma {:induction false} MaskTimeIdempotent(raw: string)
    ensures MaskTimeHHMM(MaskTimeHHMM(raw)) == MaskTimeHHMM(raw)
  {
    MaskTimeDigits(raw);
    PrefixOfDigits(OnlyDigits(raw), 4);
  }

  /** The digits of an `HH:MM`-shaped string. */
  lemma HmDigits(s: string)
    requires IsHmShape(s)
    ensures OnlyDigits(s) == s[..2] + s[3..] && |OnlyDigits(s)| == 4
  {
    assert s == s[..2] + ":" + s[3..];
    OnlyDigitsAppend(s[..2] + ":", s[3..]);
    OnlyDigitsAppend(s[..2], ":");
  }

  /** The value of a two-digit string from its characters. */
  lemma TwoDigitValue(s: string)
    requires |s| == 2 && AllDigits(s)
    ensures DecimalValue(s) == DigitValue(s[0]) * 10 + DigitValue(s[1])
  {
    assert s[..1] == [s[0]];
  }

  /** The four slots `maskTimeHHMMStrict` fills: each empty or holding one digit. */
  datatype TimeSlots = TimeSlots(h1: string, h2: string, m1: string, m2: string)

  /** What the strict mask's checks guarantee of the slots filled so far. */
  predicate Plausible(t: TimeSlots) {
    && |t.h1| <= 1 && |t.h2| <= 1 && |t.m1| <= 1 && |t.m2| <= 1
    && (t.h1 != "" ==> '0' <= t.h1[0] <= '2')
    && (t.h2 != "" ==> t.h1 != "" && IsDigit(t.h2[0]) && (t.h1[0] == '2' ==> t.h2[0] <= '3'))
    && (t.m1 != "" ==> '0' <= t.m1[0] <= '5')
    && (t.m2 != "" ==> IsDigit(t.m2[0]))
  }

  /**
   * One iteration of the strict mask's loop over digit `ch` at position `i`:
   * `None` is the `break` taken when the first hour digit was rejected.
   */
  function StrictStep(t: TimeSlots, i: nat, ch: char): (r: Option<TimeSlots>)
    requires Plausible(t) && IsDigit(ch) && i < 4
    requires i == 0 ==> t == TimeSlots("", "", "", "")
    ensures r.Some? ==> Plausible(r.value)
    ensures r.None? <==> i == 1 && t.h1 == ""
  {
    if i == 0 then
      if '0' <= ch <= '2' then Some(t.(h1 := [ch])) else Some(t)
    else if i == 1 then
      if t.h1 == "" then None
      else if t.h1 == "2" then
        if '0' <= ch <= '3' then Some(t.(h2 := [ch])) else Some(t)
      else
        assert t.h1[0] != '2' by { assert t.h1 == [t.h1[0]]; }
        Some(t.(h2 := [ch]))
    else if i == 2 then
      if '0' <= ch <= '5' then Some(t.(m1 := [ch])) else Some(t)
    else
      Some(t.(m2 := [ch]))
  }

  /** The string the strict mask builds from its slots: the colon only between hours and minutes. */
  function Assemble(t: TimeSlots): (r: string)
    requires Plausible(t)
    ensures |r| <= 5
  {
    var hours := t.h1 + t.h2;
    if |hours| > 0 && (t.m1 != "" || t.m2 != "") then hours + ":" + t.m1 + t.m2
    else hours + t.m1 + t.m2
  }

  /** A full five-character result of the strict mask is a valid time. */
  lemma AssembleComplete(t: TimeSlots)
    requires Plausible(t) && |Assemble(t)| == 5
    ensures IsValidTimeHHMM(Assemble(t))
  {
    var r := Assemble(t);
    assert r == t.h1 + t.h2 + ":" + t.m1 + t.m2;
    assert r[..2] == t.h1 + t.h2 && r[3..] == t.m1 + t.m2;
    TwoDigitValue(r[..2]);
    TwoDigitValue(r[3..]);
  }

  /** The strict mask accepts every digit of a valid time. */
  lemma StrictStepOfValid(t: TimeSlots, i: nat, d: string)
    requires |d| == 4 && i < 4 && IsValidTimeHHMM([d[0], d[1], ':', d[2], d[3]])
    requires Plausible(t) && IsDigit(d[i])
    requires i == 0 ==> t == TimeSlots("", "", "", "")
    requires i >= 1 ==> t.h1 == [d[0]]
    requires i >= 2 ==> t.h2 == [d[1]]
    requires i >= 3 ==> t.m1 == [d[2]]
    ensures StrictStep(t, i, d[i]).Some?
    ensures var u := StrictStep(t, i, d[i]).value;
      u.h1 == [d[0]] && (i >= 1 ==> u.h2 == [d[1]]) && (i >= 2 ==> u.m1 == [d[2]]) && (i >= 3 ==> u.m2 == [d[3]])
  {
    var v := [d[0], d[1], ':', d[2], d[3]];
    assert v[..2] == [d[0], d[1]] && v[3..] == [d[2], d[3]];
    TwoDigitValue(v[..2]);
    TwoDigitValue(v[3..]);
  }

  /**
   * `maskTimeHHMMStrict`: scans the first four digits and drops every
   * keystroke that would make an impossible time (a first hour digit above 2,
   * a second above 3 after a 2, a first minute digit above 5). A rejected first
   * digit ends the scan. The result never exceeds `HH:MM`, every complete
   * result is a valid time, and a valid time is kept as it is.
   */
  method MaskTimeHHMMStrict(raw: string) returns (res: string)
    ensures |res| <= 5
    ensures |res| == 5 ==> IsValidTimeHHMM(res)
    ensures IsValidTimeHHMM(raw) ==> res == raw
  {
    var d := Prefix(OnlyDigits(raw), 4);
    PrefixOfDigits(OnlyDigits(raw), 4);
    ghost var valid := IsValidTimeHHMM(raw);
    if valid {
      ValidTimeDigits(raw);
    }
    var t := TimeSlots("", "", "", "");
    var i := 0;
    while i < |d|
      invariant 0 <= i <= |d| <= 4
      invariant Plausible(t)
      invariant i == 0 ==> t == TimeSlots("", "", "", "")
      invariant valid ==> |d| == 4 && raw == [d[0], d[1], ':', d[2], d[3]]
      invariant valid && i >= 1 ==> t.h1 == [d[0]]
      invariant valid && i >= 2 ==> t.h2 == [d[1]]
      invariant valid && i >= 3 ==> t.m1 == [d[2]]
      invariant valid && i >= 4 ==> t.m2 == [d[3]]
    {
      if valid { StrictStepOfValid(t, i, d); }
      var next := StrictStep(t, i, d[i]);
      if next.None? { break; }
      t := next.value;
      i := i + 1;
    }
    res := Assemble(t);
    if |res| == 5 { AssembleComplete(t); }
    if valid {
      assert res == raw;
    }
  }

  /** A valid time is its own four digits with the colon between them. */
  lemma ValidTimeDigits(s: string)
    requires IsValidTimeHHMM(s)
    ensures Prefix(OnlyDigits(s), 4) == s[..2] + s[3..]
    ensures s == [s[0], s[1], ':', s[3], s[4]]
  {
    HmDigits(s);
  }

  // ---------------------------------------------------------------------------
  // Schedule names
  // ---------------------------------------------------------------------------

  /** A character of `NAME_ALLOWED_REGEX`: an ASCII letter or digit, `_` or `-`. */
  predicate IsNameChar(c: char) {
    IsAsciiLetter(c) || IsDigit(c) || c == '_' || c == '-'
  }

  predicate AllNameChars(s: string) {
    forall i :: 0 <= i < |s| ==> IsNameChar(s[i])
  }

  /** `NAME_ALLOWED_REGEX.test(name)`: `/^[A-Za-z0-9_-]+$/`. */
  predicate IsValidScheduleName(s: string) {
    |s| > 0 && AllNameChars(s)
  }

  /** `sanitizeScheduleName`: `raw.replace(/[^A-Za-z0-9_-]/g, '')`. */
  function SanitizeScheduleName(raw: string): (r: string)
    ensures |r| <= |raw|
    ensures AllNameChars(r)
    ensures AllNameChars(raw) ==> r == raw
    ensures forall i :: 0 <= i < |r| ==> r[i] in raw
  {
    if raw == [] then []
    else if IsNameChar(raw[0]) then [raw[0]] + SanitizeScheduleName(raw[1..])
    else SanitizeScheduleName(raw[1..])
  }

  /** The sanitiser works character by character, so it distributes over concatenation. */
  lemma {:induction false} SanitizeAppend(a: string, b: string)
    ensures SanitizeScheduleName(a + b) == SanitizeScheduleName(a) + SanitizeScheduleName(b)
  {
    if a == [] {
      assert a + b == b;
    } else {
      assert (a + b)[1..] == a[1..] + b;
      SanitizeAppend(a[1..], b);
    }
  }

  /** A name changes under the sanitiser exactly when it holds a character outside the allowed set. */
  lemma {:induction false} SanitizeChangesIff(raw: string)
    ensures SanitizeScheduleName(raw) == raw <==> AllNameChars(raw)
  {
    if raw != [] && !AllNameChars(raw) {
      var r := SanitizeScheduleName(raw);
      assert |r| < |raw| by { SanitizeShrinks(raw); }
    }
  }

  /** A name with a disallowed character loses at least that character. */
  lemma {:induction false} SanitizeShrinks(raw: string)
    requires !AllNameChars(raw)
    ensures |SanitizeScheduleName(raw)| < |raw|
  {
    if IsNameChar(raw[0]) {
      assert !AllNameChars(raw[1..]) by {
        var i :| 0 <= i < |raw| && !IsNameChar(raw[i]);
        assert raw[1..][i - 1] == raw[i];
      }
      SanitizeShrinks(raw[1..]);
    }
  }

  /** Sanitising twice is sanitising once, and the result passes the name check unless it is empty. */
  lemma SanitizeIdempotent(raw: string)
    ensures SanitizeScheduleName(SanitizeScheduleName(raw)) == SanitizeScheduleName(raw)
    ensures IsValidScheduleName(SanitizeScheduleName(raw)) <==> SanitizeScheduleName(raw) != []
  {
  }
}
