/**
 * The request body the schedule form submits: whether the schedule starts
 * enabled (`deriveEnabledFromPeriod`) and the payload itself (`buildPayload`).
 * The clock is an integer parameter (milliseconds since the epoch) and
 * `new Date(text)` is a parameter giving the parsed instant or `None` for an
 * invalid date.
 */
module Payload {
  import opened Maybe
  import opened Text
  import Phone
  import opened Placeholders
  import opened Recipients

  // ---------------------------------------------------------------------------
  // deriveEnabledFromPeriod
  // ---------------------------------------------------------------------------

  /** A period bound as the form holds it: not set, set but not a date, or an instant. */
  datatype TimeBound = Absent | Invalid | At(ms: int)

  /** `form.startAt ? new Date(form.startAt) : null`, with the date parser's answer given. */
  function BoundOf(raw: string, parsed: Option<int>): (b: TimeBound)
    ensures b.Absent? <==> raw == ""
    ensures b.Invalid? <==> raw != "" && parsed.None?
  {
    if raw == "" then Absent
    else match parsed
      case None => Invalid
      case Some(ms) => At(ms)
  }

  /** `now` lies inside every bound that is an instant; absent and invalid bounds do not constrain. */
  predicate WithinBounds(start: TimeBound, end: TimeBound, now: int) {
    (start.At? ==> start.ms <= now) && (end.At? ==> now <= end.ms)
  }

  /**
   * `deriveEnabledFromPeriod`: enabled with no usable bound; otherwise enabled
   * exactly when now is not before a valid start and not after a valid end.
   */
  function DeriveEnabledFromPeriod(start: TimeBound, end: TimeBound, now: int): (r: bool)
    ensures r <==> WithinBounds(start, end, now)
  {
    var okStart := !start.Invalid?;
    var okEnd := !end.Invalid?;
    if !okStart && !okEnd then true
    else if okStart && okEnd && start.At? && end.At? then now >= start.ms && now <= end.ms
    else if okStart && start.At? && (end.Absent? || !okEnd) then now >= start.ms
    else if okEnd && end.At? && (start.Absent? || !okStart) then now <= end.ms
    else true
  }

  /** An unparseable bound counts as no bound at all. */
  lemma InvalidBoundIgnored(start: TimeBound, end: TimeBound, now: int)
    ensures DeriveEnabledFromPeriod(Invalid, end, now) == DeriveEnabledFromPeriod(Absent, end, now)
    ensures DeriveEnabledFromPeriod(start, Invalid, now) == DeriveEnabledFromPeriod(start, Absent, now)
  {
  }

  /** A period that ends before it starts is never enabled. */
  lemma InvertedPeriodDisabled(s: int, e: int, now: int)
    requires e < s
    ensures !DeriveEnabledFromPeriod(At(s), At(e), now)
  {
  }

  // ---------------------------------------------------------------------------
  // buildPayload
  // ---------------------------------------------------------------------------

  /** `BRT_TIMEZONE`: the time zone used when the form has none. */
  const BrtTimezone := "America/Sao_Paulo"

  /** One recipient of the request: the phone normalised or `''`, and the variables sent with it. */
  datatype RecipientPayload = RecipientPayload(
    name: string, email: string, phone: string, vars: map<string, string>, firstContact: bool)

  /**
   * The recipient mapping of `buildPayload`: name and e-mail as they are, the
   * normalised phone when it has digits beyond the country code and `''`
   * otherwise, the variables with `name` set to the recipient's name when a
   * `{{name}}` placeholder is required, and the form-wide first-contact flag.
   */
  function RecipientPayloadOf(rec: Recipient, injectName: bool, firstContact: bool): (p: RecipientPayload)
    ensures p.name == rec.name && p.email == rec.email && p.firstContact == firstContact
    ensures p.phone == "" <==> !Phone.HasPhoneDigits(rec.phone)
    ensures p.phone != "" ==> p.phone == Phone.NormalizePhoneValueAsWritten(rec.phone)
    ensures p.vars.Keys == if injectName then rec.vars.Keys + {ReservedName} else rec.vars.Keys
    ensures forall k :: k in rec.vars && !(injectName && k == ReservedName) ==> p.vars[k] == rec.vars[k]
    ensures injectName ==> p.vars[ReservedName] == rec.name
  {
    RecipientPayload(rec.name, rec.email, SentPhone(rec.phone), SentVars(rec, injectName), firstContact)
  }

  /** `hasPhoneDigits(phone) ? normalizePhoneValue(phone) : ''`. */
  function SentPhone(raw: string): (r: string)
    ensures r == "" <==> !Phone.HasPhoneDigits(raw)
    ensures r != "" ==> r == Phone.NormalizePhoneValueAsWritten(raw)
  {
    if Phone.HasPhoneDigits(raw) then Phone.NormalizePhoneValueAsWritten(raw) else ""
  }

  /**
   * A local number whose area code is 51 to 54 or 56 to 59 is sent as the
   * program sends it, with the area code's leading `5` lost to `/^55+/`.
   */
  lemma SentLocalFivePhone(d: string)
    requires AllDigits(d) && 10 <= |d| <= 11 && d[0] == '5' && d[1] != '5'
    ensures SentPhone(d) == "+55" + d[1..]
  {
    Phone.ExtractOfDigits(d);
    Phone.AsWrittenDropsAreaCodeDigit(d);
  }

  /** The recipient's variables, with `name` set to its name when `{{name}}` is required. */
  function SentVars(rec: Recipient, injectName: bool): (m: map<string, string>)
    ensures m.Keys == if injectName then rec.vars.Keys + {ReservedName} else rec.vars.Keys
    ensures forall k :: k in rec.vars && !(injectName && k == ReservedName) ==> m[k] == rec.vars[k]
    ensures injectName ==> m[ReservedName] == rec.name
  {
    if injectName then rec.vars[ReservedName := rec.name] else rec.vars
  }

  /** A phone that is sent is already normal: normalising it again changes nothing. */
  lemma SentPhoneIsStable(rec: Recipient, injectName: bool, firstContact: bool)
    ensures var p := RecipientPayloadOf(rec, injectName, firstContact);
      p.phone != "" ==> Phone.NormalizePhoneValueAsWritten(p.phone) == p.phone
  {
    Phone.NormalizePhoneAsWrittenIdempotent(rec.phone);
  }

  /** `form.payload?.messagesByDay?.[day] || ''`. */
  function MessageFor(messages: map<string, string>, day: string): string {
    if day in messages then messages[day] else ""
  }

  /**
   * The `daysOfWeek.reduce` of `buildPayload`: each chosen day whose trimmed
   * message is not empty, mapped to that trimmed message.
   */
  function MessagesByDay(days: seq<string>, messages: map<string, string>): (r: map<string, string>)
    ensures forall d :: d in r <==> d in days && Trim(MessageFor(messages, d)) != ""
    ensures forall d :: d in r ==> r[d] == Trim(MessageFor(messages, d))
  {
    if days == [] then map[]
    else
      var rest := MessagesByDay(days[1..], messages);
      var value := Trim(MessageFor(messages, days[0]));
      assert forall d :: d in days <==> d == days[0] || d in days[1..];
      if value != "" then rest[days[0] := value] else rest
  }

  /** Every message sent is non-empty and has nothing left to trim. */
  lemma SentMessagesAreTrimmed(days: seq<string>, messages: map<string, string>, d: string)
    requires d in MessagesByDay(days, messages)
    ensures var m := MessagesByDay(days, messages)[d]; m != "" && Trim(m) == m
  {
    TrimIdempotent(MessageFor(messages, d));
  }

  /** The schedule form's fields the payload reads; a missing text field is `''`. */
  datatype Form = Form(
    name: string, channel: string, agent: string, recipients: seq<Recipient>,
    subject: string, text: string, html: string, messagesByDay: map<string, string>, message: string,
    daysOfWeek: seq<string>, time: string, timezone: string, startAt: string, endAt: string)

  /**
   * The rest of the component state `buildPayload` reads: whether `{{name}}`
   * is a required placeholder, the first-contact switch and template, the
   * fallback object, the parsed period bounds, the clock and the default
   * e-mail subject of the localised text table.
   */
  datatype Context = Context(
    requiresName: bool, firstContactAll: bool, showFirstContactTemplate: bool,
    templateFallback: Option<Fallback>, startParsed: Option<int>, endParsed: Option<int>, now: int,
    subjectPlaceholder: string)

  /** The channel part of the request: the e-mail fields, or the WhatsApp messages with optional fallback and message. */
  datatype ChannelPayload =
    | EmailPayload(subject: string, text: string, html: string)
    | WhatsappPayload(messagesByDay: map<string, string>, templateFallback: Option<Fallback>, message: Option<string>)

  /** The request body; `None` stands for a property left `undefined`. */
  datatype Request = Request(
    name: string, channel: string, agent: Option<string>, recipients: seq<RecipientPayload>,
    payload: ChannelPayload, enabled: bool, startAt: Option<string>, endAt: Option<string>,
    daysOfWeek: seq<string>, time: string, timezone: string)

  /** `value?.trim() || undefined`. */
  function TrimmedOrNone(value: string): (r: Option<string>)
    ensures r.None? <==> IsBlank(value)
    ensures r.Some? ==> r.value == Trim(value) && r.value != ""
  {
    var t := Trim(value);
    if t != "" then Some(t) else None
  }

  /** The recipients of the request, one per form recipient, in order. */
  function RecipientPayloads(recipients: seq<Recipient>, injectName: bool, firstContact: bool): (r: seq<RecipientPayload>)
    ensures |r| == |recipients|
    ensures forall i :: 0 <= i < |r| ==> r[i] == RecipientPayloadOf(recipients[i], injectName, firstContact)
  {
    seq(|recipients|, i requires 0 <= i < |recipients| => RecipientPayloadOf(recipients[i], injectName, firstContact))
  }

  /** The channel part: e-mail fields for `email`, the WhatsApp fields for any other channel. */
  function ChannelPayloadOf(form: Form, ctx: Context): (c: ChannelPayload)
    ensures c.EmailPayload? <==> form.channel == "email"
    ensures c.EmailPayload? ==>
      c.subject == (if form.subject != "" then form.subject else ctx.subjectPlaceholder)
      && c.text == form.text && c.html == form.html
    ensures c.WhatsappPayload? ==>
      && c.messagesByDay == MessagesByDay(form.daysOfWeek, form.messagesByDay)
      && (c.templateFallback.Some? <==>
           form.channel == "whatsapp" && ctx.showFirstContactTemplate && ctx.templateFallback.Some?)
      && (c.templateFallback.Some? ==> c.templateFallback == ctx.templateFallback)
      && c.message == TrimmedOrNone(form.message)
  {
    if form.channel == "email" then
      EmailPayload(if form.subject != "" then form.subject else ctx.subjectPlaceholder, form.text, form.html)
    else
      var fallback :=
        if form.channel == "whatsapp" && ctx.showFirstContactTemplate && ctx.templateFallback.Some?
        then ctx.templateFallback else None;
      WhatsappPayload(MessagesByDay(form.daysOfWeek, form.messagesByDay), fallback, TrimmedOrNone(form.message))
  }

  /**
   * `buildPayload`: the name, channel, days and time as entered; the agent for
   * WhatsApp only; every recipient mapped; the channel part; the enabled flag
   * from the period; the trimmed period bounds when not blank; the time zone,
   * São Paulo when none is set.
   */
  function BuildPayload(form: Form, ctx: Context): (r: Request)
    ensures r.name == form.name && r.channel == form.channel
    ensures r.daysOfWeek == form.daysOfWeek && r.time == form.time
    ensures r.agent.Some? <==> form.channel == "whatsapp" && form.agent != ""
    ensures r.agent.Some? ==> r.agent.value == form.agent
    ensures |r.recipients| == |form.recipients|
    ensures forall i :: 0 <= i < |r.recipients| ==>
      r.recipients[i] == RecipientPayloadOf(form.recipients[i], ctx.requiresName, ctx.firstContactAll)
    ensures r.payload == ChannelPayloadOf(form, ctx)
    ensures r.enabled <==> WithinBounds(BoundOf(form.startAt, ctx.startParsed), BoundOf(form.endAt, ctx.endParsed), ctx.now)
    ensures r.startAt == TrimmedOrNone(form.startAt) && r.endAt == TrimmedOrNone(form.endAt)
    ensures r.timezone == if form.timezone != "" then form.timezone else BrtTimezone
  {
    Request(
      form.name, form.channel,
      if form.channel == "whatsapp" && form.agent != "" then Some(form.agent) else None,
      RecipientPayloads(form.recipients, ctx.requiresName, ctx.firstContactAll),
      ChannelPayloadOf(form, ctx),
      DeriveEnabledFromPeriod(BoundOf(form.startAt, ctx.startParsed), BoundOf(form.endAt, ctx.endParsed), ctx.now),
      TrimmedOrNone(form.startAt), TrimmedOrNone(form.endAt),
      form.daysOfWeek, form.time,
      if form.timezone != "" then form.timezone else BrtTimezone)
  }

  /**
   * Every phone in a built request is stable under normalisation, and every
   * recipient carries `name` among its variables exactly when `{{name}}` is
   * required or it already had one.
   */
  lemma BuiltRecipientsAreNormal(form: Form, ctx: Context, i: nat)
    requires i < |form.recipients|
    ensures var p := BuildPayload(form, ctx).recipients[i];
      && (p.phone != "" ==> Phone.NormalizePhoneValueAsWritten(p.phone) == p.phone)
      && (ReservedName in p.vars <==> ctx.requiresName || ReservedName in form.recipients[i].vars)
  {
    SentPhoneIsStable(form.recipients[i], ctx.requiresName, ctx.firstContactAll);
  }
}
