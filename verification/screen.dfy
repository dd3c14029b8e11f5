/**
 * The schedule list screen: the wire shape of a schedule and its in-memory
 * form (`mapApiResponse`/`prepareEditPayload`), the recurrence summary
 * (`humanRecurring`), the preview renderer (`renderTemplate`), the expanded
 * set, the stats, the filters and the pagination.
 */
module ScheduleList {
  import opened Maybe
  import opened Text
  import opened Placeholders
  import opened JsonValue

  // ---------------------------------------------------------------------------
  // Wire and in-memory shapes
  // ---------------------------------------------------------------------------

  /**
   * A schedule as the API sends and receives it, with the API's PascalCase
   * property names. `None` is a property that is `null` or missing.
   */
  datatype Row = Row(
    Name: Option<string>, Channel: Option<string>, Recipients: Option<seq<Json>>,
    Payload: Option<map<string, Json>>, Enabled: Option<bool>, ScheduleExpression: Option<string>,
    Timezone: Option<string>, DaysOfWeek: Option<seq<string>>, Time: Option<string>, RunAt: Option<string>,
    StartAt: Option<string>, EndAt: Option<string>, Agent: Option<string>)

  /** A schedule as the screen holds it. */
  datatype Schedule = Schedule(
    eventId: Option<string>, channel: Option<string>, recipients: seq<Json>, payload: map<string, Json>,
    enabled: bool, scheduleExpression: string, timezone: Option<string>, daysOfWeek: seq<string>,
    time: Option<string>, runAt: Option<string>, startAt: Option<string>, endAt: Option<string>,
    agent: Option<string>)

  /** `value || null` on an optional string: the empty string counts as missing. */
  function OrNull(v: Option<string>): (r: Option<string>)
    ensures r.Some? <==> v.Some? && v.value != ""
    ensures r.Some? ==> r == v
  {
    if v.Some? && v.value != "" then v else None
  }

  /** One row of `mapApiResponse`. */
  function MapRow(row: Row): (s: Schedule)
    ensures s.eventId == row.Name && s.channel == row.Channel
    ensures s.recipients == row.Recipients.GetOr([]) && s.payload == row.Payload.GetOr(map[])
    ensures s.enabled <==> row.Enabled == Some(true)
    ensures s.scheduleExpression == row.ScheduleExpression.GetOr("")
    ensures s.daysOfWeek == row.DaysOfWeek.GetOr([])
    ensures s.timezone == OrNull(row.Timezone) && s.time == OrNull(row.Time) && s.runAt == OrNull(row.RunAt)
    ensures s.startAt == OrNull(row.StartAt) && s.endAt == OrNull(row.EndAt) && s.agent == OrNull(row.Agent)
  {
    Schedule(
      row.Name, row.Channel, row.Recipients.GetOr([]), row.Payload.GetOr(map[]),
      row.Enabled == Some(true), row.ScheduleExpression.GetOr(""),
      OrNull(row.Timezone), row.DaysOfWeek.GetOr([]), OrNull(row.Time), OrNull(row.RunAt),
      OrNull(row.StartAt), OrNull(row.EndAt), OrNull(row.Agent))
  }

  /** `mapApiResponse`: every row mapped, in order. */
  function MapApiResponse(rows: seq<Row>): (r: seq<Schedule>)
    ensures |r| == |rows| && forall i :: 0 <= i < |rows| ==> r[i] == MapRow(rows[i])
  {
    if rows == [] then [] else [MapRow(rows[0])] + MapApiResponse(rows[1..])
  }

  /**
   * `prepareEditPayload`: the schedule back in the wire shape. The deep copies
   * of recipients and payload are the values themselves.
   */
  function PrepareEditPayload(s: Schedule): (row: Row)
    ensures row.Name == s.eventId && row.Channel == s.channel
    ensures row.Recipients == Some(s.recipients) && row.Payload == Some(s.payload)
    ensures row.Enabled == Some(s.enabled) && row.ScheduleExpression == Some(s.scheduleExpression)
    ensures row.DaysOfWeek == Some(s.daysOfWeek)
    ensures row.Timezone == s.timezone && row.Time == s.time && row.RunAt == s.runAt
    ensures row.StartAt == s.startAt && row.EndAt == s.endAt && row.Agent == OrNull(s.agent)
  {
    Row(
      s.eventId, s.channel, Some(s.recipients), Some(s.payload), Some(s.enabled), Some(s.scheduleExpression),
      s.timezone, Some(s.daysOfWeek), s.time, s.runAt, s.startAt, s.endAt, OrNull(s.agent))
  }

  /** The schedules `mapApiResponse` can produce: no optional text property holds the empty string. */
  predicate Mapped(s: Schedule) {
    && s.timezone != Some("") && s.time != Some("") && s.runAt != Some("")
    && s.startAt != Some("") && s.endAt != Some("") && s.agent != Some("")
  }

  lemma MapRowIsMapped(row: Row)
    ensures Mapped(MapRow(row))
  {
  }

  /** Editing a listed schedule and listing the edit again gives the same schedule back. */
  lemma EditRoundTrip(s: Schedule)
    requires Mapped(s)
    ensures MapApiResponse([PrepareEditPayload(s)]) == [s]
  {
    assert MapRow(PrepareEditPayload(s)) == s;
  }

  /** Every schedule of a listing survives the edit round trip. */
  lemma ListingRoundTrip(rows: seq<Row>, i: nat)
    requires i < |rows|
    ensures var s := MapApiResponse(rows)[i]; MapApiResponse([PrepareEditPayload(s)]) == [s]
  {
    MapRowIsMapped(rows[i]);
    EditRoundTrip(MapApiResponse(rows)[i]);
  }

  // ---------------------------------------------------------------------------
  // humanRecurring
  // ---------------------------------------------------------------------------

  /** `text.fallbackDash`. */
  const Dash := "\U{2014}"

  /** `WEEKDAY_LABEL[day] || day`: the Portuguese short name of a weekday code, or the code itself. */
  function WeekdayLabel(day: string): string {
    if day == "SUN" then "Dom"
    else if day == "MON" then "Seg"
    else if day == "TUE" then "Ter"
    else if day == "WED" then "Qua"
    else if day == "THU" then "Qui"
    else if day == "FRI" then "Sex"
    else if day == "SAT" then "S\U{00E1}b"
    else day
  }

  const Weekdays: set<string> := {"MON", "TUE", "WED", "THU", "FRI"}
  const Weekend: set<string> := {"SAT", "SUN"}

  /** The distinct elements of a list. */
  function Elements(s: seq<string>): (r: set<string>)
    ensures forall x :: x in r <==> x in s
    ensures |r| <= |s|
    ensures |r| == |s| <==> NoDuplicates(s)
  {
    if s == [] then {}
    else
      var rest := Elements(s[1..]);
      assert forall x :: x in s <==> x == s[0] || x in s[1..];
      NoDuplicatesCons(s);
      if s[0] in rest then rest else {s[0]} + rest
  }

  lemma NoDuplicatesCons(s: seq<string>)
    requires s != []
    ensures NoDuplicates(s) <==> s[0] !in s[1..] && NoDuplicates(s[1..])
  {
    if NoDuplicates(s) {
      forall i, j | 0 <= i < j < |s| - 1 ensures s[1..][i] != s[1..][j] {
        assert s[1..][i] == s[i + 1] && s[1..][j] == s[j + 1];
      }
    }
    if s[0] !in s[1..] && NoDuplicates(s[1..]) {
      forall i, j | 0 <= i < j < |s| ensures s[i] != s[j] {
        assert s[j] == s[1..][j - 1];
        if i > 0 { assert s[i] == s[1..][i - 1]; }
      }
    }
  }

  /** `days.map(label).join(', ')`. */
  function JoinLabels(days: seq<string>): string {
    if days == [] then ""
    else if |days| == 1 then WeekdayLabel(days[0])
    else WeekdayLabel(days[0]) + ", " + JoinLabels(days[1..])
  }

  /** What the list shows for "when": the one-off instant for the date formatter, or the recurrence summary. */
  datatype When = FormattedRunAt(runAt: string) | Summary(text: string)

  /** ` às `, the connective before the time. */
  const At := " \U{00E0}s "

  /**
   * `humanRecurring`: a one-off schedule goes to the date formatter. Otherwise
   * the dash without days; every day, the working week or the weekend by name
   * when the days are exactly those; one day by its label; and otherwise the
   * labels joined. The time, or a dash, follows.
   */
  function HumanRecurring(s: Schedule): (r: When)
    ensures r.FormattedRunAt? <==> s.runAt.Some? && s.runAt.value != ""
    ensures r.Summary? && s.daysOfWeek == [] ==> r.text == Dash
    ensures r.Summary? && s.daysOfWeek != [] ==> |r.text| >= |At| + |TimeLabel(s.time)| && r.text[|r.text| - |TimeLabel(s.time)|..] == TimeLabel(s.time)
    ensures r.Summary? && |s.daysOfWeek| == 7 ==> r.text == "Todos os dias" + At + TimeLabel(s.time)
    ensures r.Summary? && |s.daysOfWeek| == 1 ==> r.text == "Toda " + WeekdayLabel(s.daysOfWeek[0]) + At + TimeLabel(s.time)
    ensures r.Summary? && |s.daysOfWeek| == 5 && Weekdays <= Elements(s.daysOfWeek) ==> r.text == "Dias \U{00FA}teis" + At + TimeLabel(s.time)
    ensures r.Summary? && |s.daysOfWeek| == 2 && Weekend <= Elements(s.daysOfWeek) ==> r.text == "Finais de semana" + At + TimeLabel(s.time)
    ensures r.Summary? && 1 < |s.daysOfWeek| && |s.daysOfWeek| != 7
            && !(|s.daysOfWeek| == 5 && Weekdays <= Elements(s.daysOfWeek))
            && !(|s.daysOfWeek| == 2 && Weekend <= Elements(s.daysOfWeek))
            ==> r.text == JoinLabels(s.daysOfWeek) + At + TimeLabel(s.time)
  {
    if s.runAt.Some? && s.runAt.value != "" then FormattedRunAt(s.runAt.value)
    else
      var days := s.daysOfWeek;
      var time := TimeLabel(s.time);
      if |days| == 0 then Summary(Dash)
      else
        var isWeekdays := |days| == 5 && Weekdays <= Elements(days);
        var isWeekend := |days| == 2 && Weekend <= Elements(days);
        var lead :=
          if |days| == 7 then "Todos os dias"
          else if isWeekdays then "Dias \U{00FA}teis"
          else if isWeekend then "Finais de semana"
          else if |days| == 1 then "Toda " + WeekdayLabel(days[0])
          else JoinLabels(days);
        Summary(Ends(lead, time))
  }

  /** `item.time || '—'`. */
  function TimeLabel(time: Option<string>): string {
    if time.Some? && time.value != "" then time.value else Dash
  }

  /** `${lead} às ${time}`. */
  function Ends(lead: string, time: string): (r: string)
    ensures |r| >= |At| + |time| && r[|r| - |time|..] == time
  {
    var r := lead + At + time;
    assert r[|r| - |time|..] == time;
    r
  }

  /** Five days that include Monday to Friday are exactly Monday to Friday, each once. */
  lemma WeekdaysExactly(days: seq<string>)
    ensures |days| == 5 && Weekdays <= Elements(days) <==> Elements(days) == Weekdays && NoDuplicates(days)
  {
    WeekdaysCount();
    SubsetOfSameSize(Weekdays, Elements(days), 5);
  }

  /** Two days that include Saturday and Sunday are exactly the weekend, each once. */
  lemma WeekendExactly(days: seq<string>)
    ensures |days| == 2 && Weekend <= Elements(days) <==> Elements(days) == Weekend && NoDuplicates(days)
  {
    assert |Weekend| == 2;
    SubsetOfSameSize(Weekend, Elements(days), 2);
  }

  lemma WeekdaysCount()
    ensures |Weekdays| == 5
  {
    var w := {"MON", "TUE", "WED", "THU", "FRI"};
    assert w == {"MON"} + {"TUE"} + {"WED"} + {"THU"} + {"FRI"};
  }

  /** A subset as large as a set of at most the same size is the whole set. */
  lemma SubsetOfSameSize(a: set<string>, b: set<string>, n: nat)
    requires |a| == n
    ensures a <= b && |b| <= n ==> a == b
  {
    if a <= b && |b| <= n && a != b {
      var x :| x in b && x !in a;
      assert a + {x} <= b;
      assert |a + {x}| == n + 1;
      SubsetSize(a + {x}, b);
    }
  }

  lemma SubsetSize(a: set<string>, b: set<string>)
    requires a <= b
    ensures |a| <= |b|
  {
    assert b == a + (b - a);
  }

  /** The working-week summary appears exactly for Monday to Friday, each listed once. */
  lemma WorkingWeekSummary(s: Schedule)
    requires s.runAt.None? && Elements(s.daysOfWeek) == Weekdays && NoDuplicates(s.daysOfWeek)
    ensures HumanRecurring(s) == Summary("Dias \U{00FA}teis" + At + TimeLabel(s.time))
  {
    WeekdaysExactly(s.daysOfWeek);
  }

  /** The weekend summary appears exactly for Saturday and Sunday, each listed once. */
  lemma WeekendSummary(s: Schedule)
    requires s.runAt.None? && Elements(s.daysOfWeek) == Weekend && NoDuplicates(s.daysOfWeek)
    ensures HumanRecurring(s) == Summary("Finais de semana" + At + TimeLabel(s.time))
  {
    WeekendExactly(s.daysOfWeek);
  }

  // ---------------------------------------------------------------------------
  // renderTemplate
  // ---------------------------------------------------------------------------

  const NameKey := "name"
  const NomeKey := "nome"

  /** A variable that is set to something other than the empty string. */
  predicate Truthy(vars: map<string, string>, k: string) {
    k in vars && vars[k] != ""
  }

  /**
   * The aliasing of `renderTemplate`: `nome` takes the value of `name` when
   * only `name` is set, and `name` that of `nome` when only `nome` is set.
   */
  function AliasNames(vars: map<string, string>): (r: map<string, string>)
    ensures forall k :: k != NameKey && k != NomeKey ==> (k in r <==> k in vars) && (k in vars ==> r[k] == vars[k])
    ensures Truthy(r, NameKey) <==> Truthy(vars, NameKey) || Truthy(vars, NomeKey)
    ensures Truthy(r, NomeKey) <==> Truthy(vars, NameKey) || Truthy(vars, NomeKey)
    ensures Truthy(vars, NameKey) ==> r[NameKey] == vars[NameKey]
    ensures Truthy(vars, NomeKey) ==> r[NomeKey] == vars[NomeKey]
    ensures Truthy(vars, NameKey) && !Truthy(vars, NomeKey) ==> r[NomeKey] == vars[NameKey]
    ensures Truthy(vars, NomeKey) && !Truthy(vars, NameKey) ==> r[NameKey] == vars[NomeKey]
    ensures !Truthy(vars, NameKey) && !Truthy(vars, NomeKey) ==> r == vars
  {
    var first := if Truthy(vars, NameKey) && !Truthy(vars, NomeKey) then vars[NomeKey := vars[NameKey]] else vars;
    if Truthy(first, NomeKey) && !Truthy(first, NameKey) then first[NameKey := first[NomeKey]] else first
  }

  /** `normalized[key] ?? ''`. */
  function ValueOf(vars: map<string, string>, key: string): string {
    if key in vars then vars[key] else ""
  }

  /**
   * The global `replace` of the placeholder pattern from position `from`:
   * each match, leftmost first, is replaced by its key's value and the text
   * between matches is kept.
   */
  function Substitute(s: string, from: nat, vars: map<string, string>): string
    requires from <= |s|
    decreases |s| - from
  {
    if from == |s| then ""
    else
      match MatchAt(s, from)
      case Some(h) => ValueOf(vars, h.key) + Substitute(s, h.end, vars)
      case None => [s[from]] + Substitute(s, from + 1, vars)
  }

  /** `renderTemplate`: `''` for an empty template; otherwise every placeholder replaced, with names aliased. */
  function RenderTemplate(template: string, variables: map<string, string>): (r: string)
    ensures Ordered(template, 0, Scan(template, 0))
            && r == Fill(template, 0, Scan(template, 0), AliasNames(variables))
  {
    ScanOrdered(template, 0);
    if template == "" then "" else
      SubstituteFills(template, 0, AliasNames(variables));
      Substitute(template, 0, AliasNames(variables))
  }

  /** The hits lie in order, from `from` on, inside the text. */
  predicate Ordered(s: string, from: nat, hits: seq<Hit>)
    decreases |hits|
  {
    hits == [] || (from <= hits[0].start <= hits[0].end <= |s| && Ordered(s, hits[0].end, hits[1..]))
  }

  /**
   * The text from `from` with the given hits filled in: the gap before each
   * hit kept as it is, the hit replaced by its key's value, and the text
   * after the last hit kept.
   */
  function Fill(s: string, from: nat, hits: seq<Hit>, vars: map<string, string>): string
    requires from <= |s| && Ordered(s, from, hits)
    decreases |hits|
  {
    if hits == [] then s[from..]
    else s[from..hits[0].start] + ValueOf(vars, hits[0].key) + Fill(s, hits[0].end, hits[1..], vars)
  }

  /** The scan's hits are ordered. */
  lemma {:induction false} ScanOrdered(s: string, from: nat)
    requires from <= |s|
    ensures Ordered(s, from, Scan(s, from))
    decreases |s| - from
  {
    if from < |s| {
      match MatchAt(s, from)
      case Some(h) =>
        ScanOrdered(s, h.end);
        assert Scan(s, from) == [h] + Scan(s, h.end);
        assert ([h] + Scan(s, h.end))[1..] == Scan(s, h.end);
      case None =>
        ScanOrdered(s, from + 1);
        OrderedEarlier(s, from, Scan(s, from + 1));
    }
  }

  lemma OrderedEarlier(s: string, from: nat, hits: seq<Hit>)
    requires from < |s| && Ordered(s, from + 1, hits)
    ensures Ordered(s, from, hits)
  {
  }

  /** Filling from one position before the first hit keeps that position's character. */
  lemma FillStep(s: string, from: nat, hits: seq<Hit>, vars: map<string, string>)
    requires from < |s| && Ordered(s, from + 1, hits)
    ensures Ordered(s, from, hits)
    ensures Fill(s, from, hits, vars) == [s[from]] + Fill(s, from + 1, hits, vars)
  {
    if hits == [] {
      assert s[from..] == [s[from]] + s[from + 1..];
    } else {
      var h := hits[0];
      var rest := Fill(s, h.end, hits[1..], vars);
      assert s[from..h.start] == [s[from]] + s[from + 1..h.start];
      assert Fill(s, from, hits, vars) == [s[from]] + (s[from + 1..h.start] + ValueOf(vars, h.key) + rest);
    }
  }

  /**
   * The global replacement is the reference fill: the text between the scan's
   * hits is kept and each hit becomes its key's value, in order.
   */
  lemma {:induction false} SubstituteFills(s: string, from: nat, vars: map<string, string>)
    requires from <= |s|
    ensures Ordered(s, from, Scan(s, from))
    ensures Substitute(s, from, vars) == Fill(s, from, Scan(s, from), vars)
    decreases |s| - from
  {
    ScanOrdered(s, from);
    if from < |s| {
      match MatchAt(s, from)
      case Some(h) =>
        SubstituteFills(s, h.end, vars);
        ScanAtMatch(s, from);
        FillAtHit(s, h, Scan(s, h.end), vars, Substitute(s, h.end, vars));
      case None =>
        SubstituteFills(s, from + 1, vars);
        FillStep(s, from, Scan(s, from + 1), vars);
    }
  }

  /** Filling from a hit's own start replaces the hit and goes on after it. */
  lemma FillAtHit(s: string, h: Hit, rest: seq<Hit>, vars: map<string, string>, tail: string)
    requires h.start <= h.end <= |s| && Ordered(s, h.end, rest)
    requires Fill(s, h.end, rest, vars) == tail
    ensures Ordered(s, h.start, [h] + rest)
    ensures Fill(s, h.start, [h] + rest, vars) == ValueOf(vars, h.key) + tail
  {
    var hits := [h] + rest;
    assert hits[1..] == rest;
    assert s[h.start..h.start] == "";
  }


  /** Without a match from `from` on, the rest of the text is kept as it is. */
  lemma {:induction false} SubstituteWithoutMatches(s: string, from: nat, vars: map<string, string>)
    requires from <= |s| && Scan(s, from) == []
    ensures Substitute(s, from, vars) == s[from..]
    decreases |s| - from
  {
    if from < |s| {
      var m := MatchAt(s, from);
      if m.Some? {
        ScanAtMatch(s, from);
        assert false;
      } else {
        ScanSkipsOne(s, from);
        SubstituteWithoutMatches(s, from + 1, vars);
        assert s[from..] == [s[from]] + s[from + 1..];
      }
    }
  }

  /** A template without placeholders renders as itself. */
  lemma RenderWithoutPlaceholders(template: string, variables: map<string, string>)
    requires Scan(template, 0) == []
    ensures RenderTemplate(template, variables) == template
  {
    if template != "" {
      SubstituteWithoutMatches(template, 0, AliasNames(variables));
    }
  }

  /** A lone placeholder renders as its variable's value, or `''` when the variable is missing. */
  lemma RenderLonePlaceholder(key: string, variables: map<string, string>)
    requires |key| > 0 && AllKeyChars(key)
    ensures RenderTemplate(Braced(key), variables) == ValueOf(AliasNames(variables), key)
  {
    var s := Braced(key);
    assert s[0..|key| + 4] == s;
    MatchBracedAt(s, 0, key);
    var vars := AliasNames(variables);
    assert Substitute(s, |s|, vars) == "";
    assert Substitute(s, 0, vars) == ValueOf(vars, key) + Substitute(s, |s|, vars);
  }

  /** `{{nome}}` shows the recipient's `name` when only `name` is set. */
  lemma NomeFallsBackToName(variables: map<string, string>)
    requires Truthy(variables, NameKey) && !Truthy(variables, NomeKey)
    ensures RenderTemplate(Braced(NomeKey), variables) == variables[NameKey]
  {
    assert AllKeyChars(NomeKey);
    RenderLonePlaceholder(NomeKey, variables);
  }

  /** `{{name}}` shows the recipient's `nome` when only `nome` is set. */
  lemma NameFallsBackToNome(variables: map<string, string>)
    requires Truthy(variables, NomeKey) && !Truthy(variables, NameKey)
    ensures RenderTemplate(Braced(NameKey), variables) == variables[NomeKey]
  {
    assert AllKeyChars(NameKey);
    RenderLonePlaceholder(NameKey, variables);
  }

  // ---------------------------------------------------------------------------
  // Expanded recipients
  // ---------------------------------------------------------------------------

  /** `toggleRecipients`: `id` leaves the expanded set if it was in it and joins it otherwise. */
  function ToggleRecipients(expanded: set<string>, id: string): (r: set<string>)
    ensures id in r <==> id !in expanded
    ensures forall x :: x != id ==> (x in r <==> x in expanded)
  {
    if id in expanded then expanded - {id} else expanded + {id}
  }

  /** Toggling twice restores the set. */
  lemma ToggleTwice(expanded: set<string>, id: string)
    ensures ToggleRecipients(ToggleRecipients(expanded, id), id) == expanded
  {
  }

  // ---------------------------------------------------------------------------
  // Filters and stats
  // ---------------------------------------------------------------------------

  /** `a` is `b` with some elements left out, the rest in order. */
  predicate IsSubsequence<T(==)>(a: seq<T>, b: seq<T>)
    decreases |b|
  {
    if a == [] then true
    else if b == [] then false
    else (a[0] == b[0] && IsSubsequence(a[1..], b[1..])) || IsSubsequence(a, b[1..])
  }

  /** `xs.filter(p)`. */
  function Filter<T(==,!new)>(xs: seq<T>, p: T -> bool): (r: seq<T>)
    ensures |r| <= |xs|
    ensures forall x :: x in r <==> x in xs && p(x)
    ensures IsSubsequence(r, xs)
  {
    if xs == [] then []
    else
      var rest := Filter(xs[1..], p);
      assert forall x :: x in xs <==> x == xs[0] || x in xs[1..];
      if p(xs[0]) then
        assert ([xs[0]] + rest)[1..] == rest;
        [xs[0]] + rest
      else rest
  }

  function Both<T>(p: T -> bool, q: T -> bool): T -> bool {
    x => p(x) && q(x)
  }

  function Not<T>(p: T -> bool): T -> bool {
    x => !p(x)
  }

  /** Filtering twice is filtering once by both tests. */
  lemma {:induction false} FilterTwice<T(!new)>(xs: seq<T>, p: T -> bool, q: T -> bool)
    ensures Filter(Filter(xs, p), q) == Filter(xs, Both(p, q))
  {
    if xs != [] {
      FilterTwice(xs[1..], p, q);
      var rest := Filter(xs[1..], p);
      if p(xs[0]) {
        assert ([xs[0]] + rest)[1..] == rest;
      }
    }
  }

  /** Every element passes a test or fails it: the two filtered lists together are as long as the list. */
  lemma {:induction false} FilterSplits<T(!new)>(xs: seq<T>, p: T -> bool)
    ensures |Filter(xs, p)| + |Filter(xs, Not(p))| == |xs|
  {
    if xs != [] {
      FilterSplits(xs[1..], p);
    }
  }

  /** The filter bar: free text, a channel (`all` or a channel name) and a status (`all`, `enabled` or `disabled`). */
  datatype Filters = Filters(search: string, channel: string, status: string)

  function ChannelPass(channel: string): Schedule -> bool {
    (s: Schedule) => channel == "all" || LowerString(s.channel.GetOr("")) == channel
  }

  function StatusPass(status: string): Schedule -> bool {
    (s: Schedule) => status == "all" || s.enabled == (status == "enabled")
  }

  function SearchPass(query: string): Schedule -> bool {
    (s: Schedule) => query == "" || Mentions(s, query)
  }

  /** The lower-cased event id, channel or expression contains `query`. */
  predicate Mentions(s: Schedule, query: string) {
    || Contains(LowerString(s.eventId.GetOr("")), query)
    || Contains(LowerString(s.channel.GetOr("")), query)
    || Contains(LowerString(s.scheduleExpression), query)
  }

  /** A schedule passes the channel, the status and the trimmed, lower-cased search query. */
  predicate MatchesFilters(s: Schedule, filters: Filters) {
    var query := LowerString(Trim(filters.search));
    && (filters.channel == "all" || LowerString(s.channel.GetOr("")) == filters.channel)
    && (filters.status == "all" || s.enabled == (filters.status == "enabled"))
    && (query == "" || Mentions(s, query))
  }

  /**
   * `filteredSchedules`: the channel, status and search filters in turn. The
   * result keeps the schedules' order and holds exactly those that pass all three.
   */
  function FilteredSchedules(schedules: seq<Schedule>, filters: Filters): (r: seq<Schedule>)
    ensures IsSubsequence(r, schedules)
    ensures forall s :: s in r <==> s in schedules && MatchesFilters(s, filters)
  {
    var query := LowerString(Trim(filters.search));
    var byChannel := Filter(schedules, ChannelPass(filters.channel));
    var byStatus := Filter(byChannel, StatusPass(filters.status));
    var r := Filter(byStatus, SearchPass(query));
    FilterTwice(schedules, ChannelPass(filters.channel), StatusPass(filters.status));
    FilterTwice(schedules, Both(ChannelPass(filters.channel), StatusPass(filters.status)), SearchPass(query));
    ChainedTestsMatch(filters);
    r
  }

  /** The three chained tests together are `MatchesFilters`. */
  lemma ChainedTestsMatch(filters: Filters)
    ensures var query := LowerString(Trim(filters.search));
      forall s :: Both(Both(ChannelPass(filters.channel), StatusPass(filters.status)), SearchPass(query))(s)
        == MatchesFilters(s, filters)
  {
    var query := LowerString(Trim(filters.search));
    var chained := Both(Both(ChannelPass(filters.channel), StatusPass(filters.status)), SearchPass(query));
    forall s: Schedule ensures chained(s) == MatchesFilters(s, filters) {
      assert chained(s) == (ChannelPass(filters.channel)(s) && StatusPass(filters.status)(s) && SearchPass(query)(s));
    }
  }

  /** The three counters of the header. */
  datatype Stats = Stats(total: nat, enabled: nat, disabled: int)

  function IsEnabled(s: Schedule): bool {
    s.enabled
  }

  /**
   * `stats`: how many schedules there are, how many are enabled and the rest
   * as disabled. The disabled count is the number of schedules not enabled,
   * so the counts add up to the total.
   */
  function StatsOf(schedules: seq<Schedule>): (r: Stats)
    ensures r.total == |schedules| && r.enabled + r.disabled == r.total
    ensures r.disabled == |Filter(schedules, Not(IsEnabled))| >= 0
  {
    FilterSplits(schedules, IsEnabled);
    var enabled := |Filter(schedules, IsEnabled)|;
    Stats(|schedules|, enabled, |schedules| - enabled)
  }

  /** The enabled counter is the length of the list under the `enabled` status filter alone. */
  lemma EnabledCountIsStatusFilter(schedules: seq<Schedule>)
    ensures StatsOf(schedules).enabled == |FilteredSchedules(schedules, Filters("", "all", "enabled"))|
  {
    var channel, status, search := ChannelPass("all"), StatusPass("enabled"), SearchPass("");
    EmptySearchQuery();
    FilterTwice(schedules, channel, status);
    FilterTwice(schedules, Both(channel, status), search);
    EnabledStatusOnly();
    FilterSame(schedules, Both(Both(channel, status), search), IsEnabled);
  }

  lemma EmptySearchQuery()
    ensures LowerString(Trim("")) == ""
  {
  }

  /** With every channel, no query and the `enabled` status, a schedule passes exactly when it is enabled. */
  lemma EnabledStatusOnly()
    ensures forall s :: Both(Both(ChannelPass("all"), StatusPass("enabled")), SearchPass(""))(s) == IsEnabled(s)
  {
    forall s ensures Both(Both(ChannelPass("all"), StatusPass("enabled")), SearchPass(""))(s) == IsEnabled(s) {
    }
  }

  /** Two tests that agree on every element filter alike. */
  lemma {:induction false} FilterSame<T(!new)>(xs: seq<T>, p: T -> bool, q: T -> bool)
    requires forall x :: p(x) == q(x)
    ensures Filter(xs, p) == Filter(xs, q)
  {
    if xs != [] {
      FilterSame(xs[1..], p, q);
    }
  }

  // ---------------------------------------------------------------------------
  // Pagination
  // ---------------------------------------------------------------------------

  /** `pageSize`. */
  const PageSize := 6

  /** `totalPages`: `max(1, ceil(n / 6))`, the fewest pages of six that hold `n` items, and at least one. */
  function TotalPages(n: nat): (r: nat)
    ensures r >= 1 && n <= r * PageSize
    ensures n > 0 ==> (r - 1) * PageSize < n
  {
    if n == 0 then 1 else (n + PageSize - 1) / PageSize
  }

  /** `Array.prototype.slice(start, end)`, negative positions counting from the end. */
  function Slice<T>(xs: seq<T>, start: int, end: int): (r: seq<T>)
    ensures |r| <= |xs|
  {
    var s := if start < 0 then (if |xs| + start < 0 then 0 else |xs| + start) else (if start > |xs| then |xs| else start);
    var e := if end < 0 then (if |xs| + end < 0 then 0 else |xs| + end) else (if end > |xs| then |xs| else end);
    if e <= s then [] else xs[s..e]
  }

  /** `pagedSchedules`: the six items of page `page` (counted from 1), fewer on the last page. */
  function PagedSchedules<T>(list: seq<T>, page: int): (r: seq<T>)
    ensures |r| <= PageSize
    ensures page >= 1 ==> forall k :: 0 <= k < |r| ==> (page - 1) * PageSize + k < |list| && r[k] == list[(page - 1) * PageSize + k]
  {
    var start := (page - 1) * PageSize;
    Slice(list, start, start + PageSize)
  }

  /** Every item of the list is on the page `i / 6 + 1`, at position `i % 6`, and that page exists. */
  lemma EveryItemOnItsPage<T>(list: seq<T>, i: nat)
    requires i < |list|
    ensures var page := i / PageSize + 1;
      page <= TotalPages(|list|) && i % PageSize < |PagedSchedules(list, page)|
      && PagedSchedules(list, page)[i % PageSize] == list[i]
  {
    var page := i / PageSize + 1;
    var start := (page - 1) * PageSize;
    assert start == i - i % PageSize;
    assert start <= i < start + PageSize;
  }

  /** `goToPreviousPage`: one page back unless on the first. */
  function GoToPreviousPage(page: int): (r: int)
    ensures page > 1 ==> r == page - 1
    ensures page <= 1 ==> r == page
  {
    if page <= 1 then page else page - 1
  }

  /** `goToNextPage`: one page on unless on the last. */
  function GoToNextPage(page: int, totalPages: nat): (r: int)
    ensures page < totalPages ==> r == page + 1
    ensures page >= totalPages ==> r == page
  {
    if page >= totalPages then page else page + 1
  }

  /** The watcher on the filtered list: a page past the new last page moves to the last page. */
  function ClampPage(page: int, count: nat): (r: int)
    ensures r <= TotalPages(count)
    ensures page <= TotalPages(count) ==> r == page
  {
    var maxPage := TotalPages(count);
    if page > maxPage then maxPage else page
  }

  /** What can move the page: the two buttons, a filter change and a new filtered list. */
  datatype PageEvent = Previous | Next | FiltersChanged(newCount: nat) | ListChanged(newCount: nat)

  /** The current page and the length of the filtered list. */
  datatype Pager = Pager(page: int, count: nat)

  predicate PageInRange(p: Pager) {
    1 <= p.page <= TotalPages(p.count)
  }

  /**
   * One event: the buttons step within the pages; a filter change resets the
   * page to 1 (the filter watchers) before the list watcher clamps it; a new
   * list is clamped only.
   */
  function Step(p: Pager, e: PageEvent): (r: Pager)
    ensures PageInRange(p) ==> PageInRange(r)
  {
    match e
    case Previous => Pager(GoToPreviousPage(p.page), p.count)
    case Next => Pager(GoToNextPage(p.page, TotalPages(p.count)), p.count)
    case FiltersChanged(n) => Pager(ClampPage(1, n), n)
    case ListChanged(n) => Pager(ClampPage(p.page, n), n)
  }

  /** Any run of events keeps the page between 1 and the last page. */
  lemma {:induction false} PageStaysInRange(p: Pager, events: seq<PageEvent>)
    requires PageInRange(p)
    ensures PageInRange(Run(p, events))
    decreases |events|
  {
    if events != [] {
      PageStaysInRange(Step(p, events[0]), events[1..]);
    }
  }

  function Run(p: Pager, events: seq<PageEvent>): Pager
    decreases |events|
  {
    if events == [] then p else Run(Step(p, events[0]), events[1..])
  }
}
